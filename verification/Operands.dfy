/**
  What expr_eq and the elimination of common operands find (expr.c), told by the operands of both sides
  from left to right.
 */
module Operands {
  import opened Exprs
  import opened Simplify

  /** The `op` operands of an expression, from left to right. */
  function Flat(op: Op, e: Expr): (xs: seq<Expr>)
    ensures xs != [] && forall x :: x in xs ==> !IsBin(op, x)
  {
    if IsBin(op, e) then Flat(op, e.l) + Flat(op, e.r) else [e]
  }

  predicate IsConst(e: Expr) {
    e == Sym(SYM_YES) || e == Sym(SYM_NO)
  }

  /** The first of the operands that expr_eq calls equal to `x`. */
  function FirstEq(x: Expr, ys: seq<Expr>): (i: nat)
    ensures i <= |ys| && (i < |ys| ==> ExprEq(x, ys[i])) && forall j :: 0 <= j < i ==> !ExprEq(x, ys[j])
  {
    if ys == [] || ExprEq(x, ys[0]) then 0 else 1 + FirstEq(x, ys[1..])
  }

  /** One operand against a list: it and the first one equal to it become the unit. */
  function CancelOne(op: Op, x: Expr, ys: seq<Expr>): (Expr, seq<Expr>) {
    var i := FirstEq(x, ys);
    if IsConst(x) || i == |ys| then (x, ys) else (Sym(Unit(op)), ys[i := Sym(Unit(op))])
  }

  function Cancel(op: Op, xs: seq<Expr>, ys: seq<Expr>): (r: (seq<Expr>, seq<Expr>))
    ensures |r.0| == |xs| && |r.1| == |ys|
  {
    if xs == [] then ([], ys)
    else
      var (x, ys') := CancelOne(op, xs[0], ys);
      var (xs', ys'') := Cancel(op, xs[1..], ys');
      ([x] + xs', ys'')
  }

  lemma CancelConcat(op: Op, xs: seq<Expr>, zs: seq<Expr>, ys: seq<Expr>)
    ensures var (xs', ys') := Cancel(op, xs, ys);
            var (zs', ys'') := Cancel(op, zs, ys');
            Cancel(op, xs + zs, ys) == (xs' + zs', ys'')
  {
    hide CancelOne;
    if xs == [] {
      assert xs + zs == zs && [] + Cancel(op, zs, ys).0 == Cancel(op, zs, ys).0;
    } else {
      assert (xs + zs)[1..] == xs[1..] + zs;
      var (x, ys') := CancelOne(op, xs[0], ys);
      CancelConcat(op, xs[1..], zs, ys');
      var (xs', ys'') := Cancel(op, xs[1..], ys');
      var zs' := Cancel(op, zs, ys'').0;
      assert ([x] + xs') + zs' == [x] + (xs' + zs');
    }
  }

  lemma FirstEqConcat(x: Expr, ys: seq<Expr>, zs: seq<Expr>)
    ensures FirstEq(x, ys + zs)
            == if FirstEq(x, ys) < |ys| then FirstEq(x, ys) else |ys| + FirstEq(x, zs)
  {
    hide ExprEq;
    if ys == [] {
      assert ys + zs == zs;
    } else {
      assert (ys + zs)[1..] == ys[1..] + zs;
      FirstEqConcat(x, ys[1..], zs);
    }
  }

  lemma CancelOneConcat(op: Op, x: Expr, ys: seq<Expr>, zs: seq<Expr>)
    ensures var (x', ys') := CancelOne(op, x, ys);
            var (x'', zs') := CancelOne(op, x', zs);
            CancelOne(op, x, ys + zs) == (x'', ys' + zs')
  {
    hide ExprEq, FirstEq;
    FirstEqConcat(x, ys, zs);
    var i, unit := FirstEq(x, ys + zs), Sym(Unit(op));
    if i < |ys| {
      assert (ys + zs)[i := unit] == ys[i := unit] + zs;
    } else if i < |ys + zs| {
      assert (ys + zs)[i := unit] == ys + zs[i - |ys| := unit];
    }
  }

  /** The walk of one operand through the other expression. */
  lemma {:induction false} OperandWalk(op: Op, x: Expr, e: Expr)
    requires !IsBin(op, x)
    ensures var (x', e') := EliminateEqLeaves(op, x, e);
            !IsBin(op, x') && (x', Flat(op, e')) == CancelOne(op, x, Flat(op, e))
    decreases e
  {
    hide ExprEq, CancelOne;
    if IsBin(op, e) {
      OperandWalk(op, x, e.l);
      OperandWalk(op, EliminateEqLeaves(op, x, e.l).0, e.r);
      CancelOneConcat(op, x, Flat(op, e.l), Flat(op, e.r));
    } else {
      OperandAlone(op, x, e);
    }
  }

  lemma OperandAlone(op: Op, x: Expr, y: Expr)
    requires !IsBin(op, x) && !IsBin(op, y)
    ensures var (x', y') := EliminateEqLeaves(op, x, y);
            !IsBin(op, x') && !IsBin(op, y') && (x', [y']) == CancelOne(op, x, [y])
  {
    assert [y][1..] == [] && FirstEq(x, []) == 0;
    assert FirstEq(x, [y]) == if ExprEq(x, y) then 0 else 1;
    assert [y][0 := Sym(Unit(op))] == [Sym(Unit(op))];
  }

  /** __expr_eliminate_eq, told by the operands of both sides. */
  lemma {:induction false} WalkCancels(op: Op, e1: Expr, e2: Expr)
    ensures var (e1', e2') := EliminateEqLeaves(op, e1, e2);
            (Flat(op, e1'), Flat(op, e2')) == Cancel(op, Flat(op, e1), Flat(op, e2))
    decreases e1
  {
    hide ExprEq, CancelOne;
    if IsBin(op, e1) {
      WalkCancels(op, e1.l, e2);
      WalkCancels(op, e1.r, EliminateEqLeaves(op, e1.l, e2).1);
      CancelConcat(op, Flat(op, e1.l), Flat(op, e1.r), Flat(op, e2));
    } else {
      OperandWalk(op, e1, e2);
      assert [e1][1..] == [];
      var (x, ys) := CancelOne(op, e1, Flat(op, e2));
      assert Cancel(op, [], ys) == ([], ys) && [x] + [] == [x];
    }
  }

  /** Operands that are all y or n fold to one of the two. */
  lemma {:induction false} ConstsFold(op: Op, e: Expr)
    requires forall x :: x in Flat(op, e) ==> IsConst(x)
    ensures EliminateYn(e) == Sym(if Sym(Zero(op)) in Flat(op, e) then Zero(op) else Unit(op))
  {
    if IsBin(op, e) {
      ConstsFold(op, e.l);
      ConstsFold(op, e.r);
    } else {
      assert e in Flat(op, e);
    }
  }

  /** The constants among the operands, the others replaced by the unit. */
  function Consts(op: Op, xs: seq<Expr>): seq<Expr> {
    if xs == [] then [] else [if IsConst(xs[0]) then xs[0] else Sym(Unit(op))] + Consts(op, xs[1..])
  }

  lemma {:induction false} ConstsAre(op: Op, xs: seq<Expr>)
    ensures forall y :: y in Consts(op, xs) ==> IsConst(y)
  {
    if xs != [] {
      ConstsAre(op, xs[1..]);
    }
  }

  lemma ConstsFirst(op: Op, x: Expr, xs: seq<Expr>)
    ensures Consts(op, [x] + xs) == [if IsConst(x) then x else Sym(Unit(op))] + Consts(op, xs)
    ensures Consts(op, []) == []
  {
    assert ([x] + xs)[1..] == xs;
  }

  lemma CancelFirst(op: Op, x: Expr, xs: seq<Expr>, ys: seq<Expr>)
    ensures var (x', ys') := CancelOne(op, x, ys);
            var (xs', ys'') := Cancel(op, xs, ys');
            Cancel(op, [x] + xs, ys) == ([x'] + xs', ys'')
  {
    hide CancelOne;
    assert ([x] + xs)[1..] == xs;
  }

  /** A list against itself behind constants: every operand meets its like. */
  lemma {:induction false} CancelSelf(op: Op, pre: seq<Expr>, xs: seq<Expr>)
    requires forall x :: x in pre ==> IsConst(x)
    requires forall x :: x in xs ==> ExprEq(x, x)
    ensures Cancel(op, xs, pre + xs) == (Consts(op, xs), pre + Consts(op, xs))
    decreases xs
  {
    hide ExprEq, CancelOne, Cancel, Consts;
    if xs == [] {
      CancelNothing(op, pre);
      ConstsFirst(op, Sym(SYM_YES), []);
      assert pre + [] == pre;
    } else {
      var x, rest := xs[0], xs[1..];
      var x' := if IsConst(x) then x else Sym(Unit(op));
      assert xs == [x] + rest;
      assert pre + xs == pre + [x] + rest;
      MeetsItself(op, pre, x, rest);
      CancelFirst(op, x, rest, pre + xs);
      CancelSelf(op, pre + [x'], rest);
      ConstsFirst(op, x, rest);
      assert (pre + [x']) + Consts(op, rest) == pre + ([x'] + Consts(op, rest));
    }
  }

  lemma CancelNothing(op: Op, ys: seq<Expr>)
    ensures Cancel(op, [], ys) == ([], ys)
  {
  }

  lemma MeetsItself(op: Op, pre: seq<Expr>, x: Expr, rest: seq<Expr>)
    requires (forall y :: y in pre ==> IsConst(y)) && ExprEq(x, x)
    ensures var x' := if IsConst(x) then x else Sym(Unit(op));
            CancelOne(op, x, pre + [x] + rest) == (x', pre + [x'] + rest)
  {
    var ys := pre + [x] + rest;
    assert ys[|pre|] == x;
    if !IsConst(x) {
      forall j | 0 <= j < |pre| ensures !ExprEq(x, ys[j]) {
        assert ys[j] == pre[j] && IsConst(pre[j]);
      }
      assert FirstEq(x, ys) == |pre|;
      assert ys[|pre| := Sym(Unit(op))] == pre + [Sym(Unit(op))] + rest;
    }
  }

  lemma {:induction false} FlatSmaller(op: Op, e: Expr, x: Expr)
    requires IsBin(op, e) && x in Flat(op, e)
    ensures Size(x) < Size(e)
  {
    if x in Flat(op, e.l) {
      if IsBin(op, e.l) {
        FlatSmaller(op, e.l, x);
      }
    } else if IsBin(op, e.r) {
      FlatSmaller(op, e.r, x);
    }
  }

  /** expr_eq calls every expression equal to itself, or rather to a copy of itself. */
  lemma {:induction false} ExprEqReflexive(e: Expr)
    ensures ExprEq(e, e)
    decreases Size(e)
  {
    match e
    case Neg(x) => ExprEqReflexive(x);
    case Bin(op, _, _) =>
      forall x | x in Flat(op, e) ensures ExprEq(x, x) {
        FlatSmaller(op, e, x);
        ExprEqReflexive(x);
      }
      SelfEliminates(op, e);
    case _ =>
  }

  lemma SelfEliminates(op: Op, e: Expr)
    requires IsBin(op, e) && forall x :: x in Flat(op, e) ==> ExprEq(x, x)
    ensures ExprEq(e, e)
  {
    var xs := Flat(op, e);
    CancelSelf(op, [], xs);
    ConstsAre(op, xs);
    assert [] + xs == xs && [] + Consts(op, xs) == Consts(op, xs);
    WalkCancels(op, e, e);
    var (a, b) := EliminateEqLeaves(op, e, e);
    assert Flat(op, a) == Flat(op, b) == Consts(op, xs);
    ConstsFold(op, a);
    ConstsFold(op, b);
  }

  /** A symbol, a comparison, or one of these negated. */
  predicate IsLiteral(e: Expr) {
    match e
    case Neg(x) => x.Sym? || x.Comp?
    case _ => !e.Bin?
  }

  lemma LiteralEq(x: Expr, y: Expr)
    requires IsLiteral(x)
    ensures ExprEq(x, y) <==> x == y
  {
    match x
    case Neg(Sym(_)) =>
    case Neg(Comp(_, _, _)) =>
    case _ =>
  }

  /** The operands other than y and n. */
  function Proper(xs: seq<Expr>): (m: multiset<Expr>)
    ensures forall x :: x in m <==> x in xs && !IsConst(x)
  {
    if xs == [] then multiset{} else (if IsConst(xs[0]) then multiset{} else multiset{xs[0]}) + Proper(xs[1..])
  }

  lemma ProperUpdate(op: Op, ys: seq<Expr>, i: nat)
    requires i < |ys| && !IsConst(ys[i])
    ensures Proper(ys[i := Sym(Unit(op))]) == Proper(ys) - multiset{ys[i]}
  {
    hide Proper;
    var a, x, b, unit := ys[..i], ys[i], ys[i + 1..], Sym(Unit(op));
    assert ys == a + [x] + b && ys[i := unit] == a + [unit] + b;
    ProperConcat(a, [x]);
    ProperConcat(a + [x], b);
    ProperConcat(a, [unit]);
    ProperConcat(a + [unit], b);
    ProperOne(x);
    ProperOne(unit);
  }

  predicate AllLiterals(xs: seq<Expr>) {
    forall x :: x in xs ==> IsLiteral(x)
  }

  lemma CancelOneLiteral(op: Op, x: Expr, ys: seq<Expr>)
    requires IsLiteral(x)
    ensures var (x', ys') := CancelOne(op, x, ys);
            && IsLiteral(x') && (x' == Sym(Zero(op)) <==> x == Sym(Zero(op)))
            && (Sym(Zero(op)) in ys' <==> Sym(Zero(op)) in ys)
            && (AllLiterals(ys) ==> AllLiterals(ys'))
  {
    hide ExprEq, FirstEq;
    if !IsConst(x) {
      FirstLiteral(x, ys);
      if FirstEq(x, ys) < |ys| {
        UpdateKeeps(op, ys, FirstEq(x, ys));
      }
    }
  }

  lemma CancelOneProper(op: Op, x: Expr, ys: seq<Expr>)
    requires IsLiteral(x)
    ensures var (x', ys') := CancelOne(op, x, ys);
            Proper([x']) == Proper([x]) - Proper(ys) && Proper(ys') == Proper(ys) - Proper([x])
  {
    hide ExprEq, FirstEq, IsLiteral, Proper;
    var i, unit := FirstEq(x, ys), Sym(Unit(op));
    ProperOne(x);
    ProperOne(unit);
    if !IsConst(x) {
      FirstLiteral(x, ys);
      if i < |ys| {
        ProperUpdate(op, ys, i);
        assert x in Proper(ys);
      } else {
        assert x !in Proper(ys);
      }
    }
  }

  lemma UpdateKeeps(op: Op, ys: seq<Expr>, i: nat)
    requires i < |ys| && !IsConst(ys[i])
    ensures var ys' := ys[i := Sym(Unit(op))];
            (Sym(Zero(op)) in ys' <==> Sym(Zero(op)) in ys) && (AllLiterals(ys) ==> AllLiterals(ys'))
  {
    var ys' := ys[i := Sym(Unit(op))];
    assert forall y :: y in ys' ==> y in ys || y == Sym(Unit(op));
    assert forall j :: 0 <= j < |ys| && ys[j] == Sym(Zero(op)) ==> ys'[j] == Sym(Zero(op));
  }

  lemma ProperOne(x: Expr)
    ensures Proper([x]) == if IsConst(x) then multiset{} else multiset{x}
  {
    assert [x][1..] == [];
  }

  /** Literals cancel like elements of multisets; y and n stay. */
  lemma {:induction false} CancelLiterals(op: Op, xs: seq<Expr>, ys: seq<Expr>)
    requires AllLiterals(xs)
    ensures var (xs', ys') := Cancel(op, xs, ys);
            && Proper(xs') == Proper(xs) - Proper(ys) && Proper(ys') == Proper(ys) - Proper(xs)
            && (Sym(Zero(op)) in xs' <==> Sym(Zero(op)) in xs) && (Sym(Zero(op)) in ys' <==> Sym(Zero(op)) in ys)
            && AllLiterals(xs') && (AllLiterals(ys) ==> AllLiterals(ys'))
  {
    hide CancelOne, Proper, Cancel, IsLiteral;
    if xs == [] {
      CancelNothing(op, ys);
      NoneProper();
    } else {
      var x, rest := xs[0], xs[1..];
      assert xs == [x] + rest;
      var (x', ys') := CancelOne(op, x, ys);
      var (rest', ys'') := Cancel(op, rest, ys');
      CancelOneLiteral(op, x, ys);
      CancelOneProper(op, x, ys);
      CancelFirst(op, x, rest, ys);
      CancelLiterals(op, rest, ys');
      ProperConcat([x], rest);
      ProperConcat([x'], rest');
    }
  }

  lemma NoneProper()
    ensures Proper([]) == multiset{}
  {
  }

  lemma FirstLiteral(x: Expr, ys: seq<Expr>)
    requires IsLiteral(x)
    ensures var i := FirstEq(x, ys); i < |ys| ==> ys[i] == x
    ensures x in ys ==> FirstEq(x, ys) < |ys|
  {
    hide ExprEq;
    forall j | 0 <= j < |ys| ensures ExprEq(x, ys[j]) <==> x == ys[j] {
      LiteralEq(x, ys[j]);
    }
  }

  lemma LiteralAlone(e: Expr)
    requires IsLiteral(e)
    ensures !e.Bin? && EliminateYn(e) == e
  {
  }

  /** Folding literals: n (or y) decides, and otherwise the literals that are not units remain. */
  lemma {:induction false} LiteralsFold(op: Op, e: Expr)
    requires AllLiterals(Flat(op, e))
    ensures var e' := EliminateYn(e);
            if Sym(Zero(op)) in Flat(op, e) then e' == Sym(Zero(op))
            else if |Proper(Flat(op, e))| == 0 then e' == Sym(Unit(op))
            else Proper(Flat(op, e')) == Proper(Flat(op, e)) && e' != Sym(Zero(op)) && e' != Sym(Unit(op))
                 && forall x :: x in Flat(op, e') ==> IsLiteral(x) && !IsConst(x)
  {
    hide Proper, IsLiteral;
    if IsBin(op, e) {
      LiteralsFold(op, e.l);
      LiteralsFold(op, e.r);
      ProperConcat(Flat(op, e.l), Flat(op, e.r));
      ProperConcat(Flat(op, EliminateYn(e.l)), Flat(op, EliminateYn(e.r)));
    } else {
      assert e in Flat(op, e);
      ProperOne(e);
      LiteralAlone(e);
    }
  }

  lemma {:induction false} ProperConcat(xs: seq<Expr>, ys: seq<Expr>)
    ensures Proper(xs + ys) == Proper(xs) + Proper(ys)
  {
    if xs == [] {
      assert xs + ys == ys;
    } else {
      assert (xs + ys)[1..] == xs[1..] + ys;
      ProperConcat(xs[1..], ys);
    }
  }

  /** Two conjunctions (or disjunctions) have the same operands, whatever their order and grouping. */
  predicate SameOperands(op: Op, e1: Expr, e2: Expr) {
    var decided1, decided2 := Sym(Zero(op)) in Flat(op, e1), Sym(Zero(op)) in Flat(op, e2);
    if decided1 || decided2 then decided1 && decided2 else Proper(Flat(op, e1)) == Proper(Flat(op, e2))
  }

  /** Conjunctions of literals are equal to expr_eq exactly if they have the same operands. */
  lemma ExprEqExact(op: Op, e1: Expr, e2: Expr)
    requires IsBin(op, e1) && IsBin(op, e2) && AllLiterals(Flat(op, e1)) && AllLiterals(Flat(op, e2))
    ensures ExprEq(e1, e2) <==> SameOperands(op, e1, e2)
  {
    hide EliminateYn, EliminateEqLeaves, ExprEq, Proper, Flat, Cancel, IsLiteral;
    WalkCancels(op, e1, e2);
    CancelLiterals(op, Flat(op, e1), Flat(op, e2));
    var (a, b) := EliminateEqLeaves(op, e1, e2);
    EqByElimination(op, e1, e2);
    FoldedAlike(op, a, b, Proper(Flat(op, e1)), Proper(Flat(op, e2)));
  }

  /** What is left on both sides folds to the same symbol only if nothing is left, or the same constant decides. */
  lemma FoldedAlike(op: Op, a: Expr, b: Expr, m1: multiset<Expr>, m2: multiset<Expr>)
    requires AllLiterals(Flat(op, a)) && AllLiterals(Flat(op, b))
    requires Proper(Flat(op, a)) == m1 - m2 && Proper(Flat(op, b)) == m2 - m1
    ensures var decided1, decided2 := Sym(Zero(op)) in Flat(op, a), Sym(Zero(op)) in Flat(op, b);
            EliminateYn(a).Sym? && EliminateYn(a) == EliminateYn(b)
            <==> if decided1 || decided2 then decided1 && decided2 else m1 == m2
  {
    hide EliminateYn, Proper;
    LiteralsFold(op, a);
    LiteralsFold(op, b);
    var a', b' := EliminateYn(a), EliminateYn(b);
    assert m1 == m2 <==> |m1 - m2| == 0 && |m2 - m1| == 0 by {
      Differences(m1, m2);
    }
    if a' == b' && a'.Sym? && Sym(Zero(op)) !in Flat(op, a) && Sym(Zero(op)) !in Flat(op, b) {
      assert Flat(op, a') == [a'];
      ProperOne(a');
      assert a' in multiset{a'};
    }
  }

  lemma Differences(m1: multiset<Expr>, m2: multiset<Expr>)
    ensures m1 == m2 <==> |m1 - m2| == 0 && |m2 - m1| == 0
  {
    if |m1 - m2| == 0 && |m2 - m1| == 0 {
      forall x ensures m1[x] == m2[x] {
        assert x !in m1 - m2 && x !in m2 - m1;
      }
    }
  }

  lemma EqByElimination(op: Op, e1: Expr, e2: Expr)
    requires IsBin(op, e1) && IsBin(op, e2)
    ensures var (a, b) := EliminateEqLeaves(op, e1, e2);
            ExprEq(e1, e2) <==> EliminateYn(a).Sym? && EliminateYn(a) == EliminateYn(b)
  {
  }

  /** No two of the operands are equal to expr_eq. */
  predicate PairwiseUnequal(xs: seq<Expr>) {
    forall i, j :: 0 <= i < |xs| && 0 <= j < |xs| && i != j ==> !ExprEq(xs[i], xs[j])
  }

  /** Every operand but the unit occurs once, and among `xs`. */
  predicate CoveredBy(op: Op, ys: seq<Expr>, xs: seq<Expr>) {
    && Sym(Zero(op)) !in ys
    && (forall y :: y in ys && y != Sym(Unit(op)) ==> y in xs)
    && forall i, j :: 0 <= i < j < |ys| && ys[i] != Sym(Unit(op)) ==> ys[i] != ys[j]
  }

  /** What is covered cancels whatever the order, for no operand takes the place of another. */
  lemma {:induction false} CancelCovered(op: Op, xs: seq<Expr>, ys: seq<Expr>)
    requires PairwiseUnequal(xs) && CoveredBy(op, ys, xs)
    ensures forall y :: y in Cancel(op, xs, ys).1 ==> y == Sym(Unit(op))
  {
    hide ExprEq, CancelOne, Cancel, PairwiseUnequal, CoveredBy;
    if xs == [] {
      CancelNothing(op, ys);
      assert forall y :: y in ys ==> y == Sym(Unit(op)) by {
        NoneCovered(op, ys);
      }
    } else {
      var x, rest := xs[0], xs[1..];
      assert xs == [x] + rest;
      CancelFirst(op, x, rest, ys);
      OneCovered(op, x, rest, ys);
      CancelCovered(op, rest, CancelOne(op, x, ys).1);
    }
  }

  lemma NoneCovered(op: Op, ys: seq<Expr>)
    requires CoveredBy(op, ys, [])
    ensures forall y :: y in ys ==> y == Sym(Unit(op))
  {
  }

  lemma OneCovered(op: Op, x: Expr, rest: seq<Expr>, ys: seq<Expr>)
    requires PairwiseUnequal([x] + rest) && CoveredBy(op, ys, [x] + rest)
    ensures PairwiseUnequal(rest) && CoveredBy(op, CancelOne(op, x, ys).1, rest)
  {
    hide ExprEq, FirstEq;
    var xs := [x] + rest;
    assert forall i :: 0 <= i < |rest| ==> rest[i] == xs[i + 1];
    if IsConst(x) {
      assert x == Sym(Unit(op)) || x == Sym(Zero(op));
    } else {
      OnlyItself(op, x, rest, ys);
      var i := FirstEq(x, ys);
      if i < |ys| {
        Uncovered(op, x, rest, ys, i);
      } else {
        assert x !in ys;
      }
    }
  }

  /** Among what is covered the only operand equal to `x` is `x`. */
  lemma OnlyItself(op: Op, x: Expr, rest: seq<Expr>, ys: seq<Expr>)
    requires PairwiseUnequal([x] + rest) && CoveredBy(op, ys, [x] + rest) && !IsConst(x)
    ensures forall j :: 0 <= j < |ys| ==> (ExprEq(x, ys[j]) <==> ys[j] == x)
  {
    hide ExprEq;
    var xs := [x] + rest;
    ExprEqReflexive(x);
    UnitUnequal(op, x);
    forall j | 0 <= j < |ys| && ys[j] != Sym(Unit(op)) ensures ExprEq(x, ys[j]) <==> ys[j] == x {
      assert ys[j] in xs;
      var k :| 0 <= k < |xs| && xs[k] == ys[j];
      assert k != 0 ==> !ExprEq(xs[0], xs[k]);
    }
  }

  lemma Uncovered(op: Op, x: Expr, rest: seq<Expr>, ys: seq<Expr>, i: nat)
    requires CoveredBy(op, ys, [x] + rest) && i < |ys| && ys[i] == x && !IsConst(x)
    ensures CoveredBy(op, ys[i := Sym(Unit(op))], rest)
  {
    var ys' := ys[i := Sym(Unit(op))];
    forall y | y in ys' && y != Sym(Unit(op)) ensures y in rest {
      var j :| 0 <= j < |ys'| && ys'[j] == y;
      assert ys[j] == y && j != i;
      assert y in [x] + rest && y != x;
    }
    assert forall y :: y in ys' ==> y in ys || y == Sym(Unit(op));
  }

  /** Nothing but the unit is equal to it. */
  lemma UnitUnequal(op: Op, x: Expr)
    ensures ExprEq(x, Sym(Unit(op))) <==> x == Sym(Unit(op))
  {
  }

  lemma {:induction false} UnitsFold(op: Op, e: Expr)
    requires forall x :: x in Flat(op, e) ==> x == Sym(Unit(op))
    ensures EliminateYn(e) == Sym(Unit(op))
  {
    ConstsFold(op, e);
  }

  /**
    The superset test takes what it is for: if the operands of the second conjunction are among those of the
    first, nothing but y is left of it.
   */
  lemma CoveredEliminated(op: Op, e1: Expr, e2: Expr)
    requires IsBin(op, e1) && PairwiseUnequal(Flat(op, e1)) && CoveredBy(op, Flat(op, e2), Flat(op, e1))
    ensures EliminateEq(e1, e2).1 == Sym(Unit(op))
  {
    hide ExprEq, PairwiseUnequal, CoveredBy, Cancel, EliminateYn, EliminateEqLeaves;
    WalkCancels(op, e1, e2);
    CancelCovered(op, Flat(op, e1), Flat(op, e2));
    var (a, b) := EliminateEqLeaves(op, e1, e2);
    UnitsFold(op, b);
    UnitsKind(op, b);
  }

  lemma UnitsKind(op: Op, e: Expr)
    requires forall x :: x in Flat(op, e) ==> x == Sym(Unit(op))
    ensures e.Bin? ==> IsBin(op, e)
  {
    if !IsBin(op, e) {
      assert e in Flat(op, e);
    }
  }

  /** With literals for operands nothing else is taken: all of the second conjunction must be in the first. */
  lemma LiteralsEliminated(op: Op, e1: Expr, e2: Expr)
    requires IsBin(op, e1) && AllLiterals(Flat(op, e1)) && AllLiterals(Flat(op, e2))
    ensures EliminateEq(e1, e2).1 == Sym(Unit(op))
            <==> Sym(Zero(op)) !in Flat(op, e2) && Proper(Flat(op, e2)) <= Proper(Flat(op, e1))
  {
    hide ExprEq, Cancel, EliminateYn, EliminateEqLeaves, Proper, IsLiteral;
    WalkCancels(op, e1, e2);
    CancelLiterals(op, Flat(op, e1), Flat(op, e2));
    var (a, b) := EliminateEqLeaves(op, e1, e2);
    LiteralKind(op, b);
    LiteralsFold(op, b);
    NothingLeft(Proper(Flat(op, e2)), Proper(Flat(op, e1)));
    if Sym(Zero(op)) in Flat(op, b) {
      assert Sym(Zero(op)) != Sym(Unit(op));
    }
  }

  lemma LiteralKind(op: Op, e: Expr)
    requires AllLiterals(Flat(op, e))
    ensures e.Bin? ==> IsBin(op, e)
  {
    if !IsBin(op, e) {
      assert e in Flat(op, e);
    }
  }

  lemma NothingLeft(m1: multiset<Expr>, m2: multiset<Expr>)
    ensures |m1 - m2| == 0 <==> m1 <= m2
  {
    if |m1 - m2| == 0 {
      forall x ensures m1[x] <= m2[x] {
        assert x !in m1 - m2;
      }
    }
  }

  /** An operand against a conjunction that has it among its operands: it is eliminated, too. */
  lemma OperandEliminated(op: Op, x: Expr, e: Expr)
    requires !x.Bin? && !IsConst(x) && IsBin(op, e) && x in Flat(op, e)
    ensures EliminateEq(x, e).0 == Sym(Unit(op))
  {
    hide ExprEq, EliminateEqLeaves;
    ExprEqReflexive(x);
    OperandWalk(op, x, e);
    var i: nat :| i < |Flat(op, e)| && Flat(op, e)[i] == x;
    assert ExprEq(x, Flat(op, e)[i]);
    assert FirstEq(x, Flat(op, e)) < |Flat(op, e)|;
  }
}
