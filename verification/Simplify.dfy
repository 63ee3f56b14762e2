/**
  The optimiser's two mutually recursive halves (expr.c): structural equality "by elimination"
  and the removal of operands common to two expressions, with the folding of the constants y and n.
 */
module Simplify {
  import opened Tristates
  import opened Exprs

  function Size(e: Expr): nat {
    match e
    case Sym(_) => 1
    case Comp(_, _, _) => 1
    case Neg(x) => 1 + Size(x)
    case Bin(_, l, r) => 1 + Size(l) + Size(r)
  }

  /** expr_eliminate_yn: folds y and n out of conjunctions and disjunctions, not below a negation. */
  function EliminateYn(e: Expr): (r: Expr)
    ensures Size(r) <= Size(e)
  {
    match e
    case Bin(op, l, r) =>
      var l' := EliminateYn(l);
      var r' := EliminateYn(r);
      if l' == Sym(Zero(op)) then l'
      else if l' == Sym(Unit(op)) then r'
      else if r' == Sym(Zero(op)) then r'
      else if r' == Sym(Unit(op)) then l'
      else Bin(op, l', r')
    case _ => e
  }

  predicate IsBin(op: Op, e: Expr) {
    e.Bin? && e.op == op
  }

  /** The comparison of enum expr_type tags. */
  predicate SameKind(e1: Expr, e2: Expr) {
    match (e1, e2)
    case (Sym(_), Sym(_)) => true
    case (Neg(_), Neg(_)) => true
    case (Bin(op1, _, _), Bin(op2, _, _)) => op1 == op2
    case (Comp(rel1, _, _), Comp(rel2, _, _)) => rel1 == rel2
    case _ => false
  }

  /**
    __expr_eliminate_eq: walks the `op` levels of both expressions and replaces each pair of equal
    operands by the unit of `op`. The two expressions never share nodes, so the pair of slots that
    the program overwrites is a pair of values here.
   */
  function EliminateEqLeaves(op: Op, e1: Expr, e2: Expr): (r: (Expr, Expr))
    ensures Size(r.0) <= Size(e1) && Size(r.1) <= Size(e2)
    ensures IsBin(op, e1) ==> IsBin(op, r.0)
    ensures IsBin(op, e2) ==> IsBin(op, r.1)
    decreases Size(e1) + Size(e2), if IsBin(op, e1) || IsBin(op, e2) then 0 else 3
  {
    if IsBin(op, e1) then
      var (l, e2') := EliminateEqLeaves(op, e1.l, e2);
      var (r, e2'') := EliminateEqLeaves(op, e1.r, e2');
      (Bin(op, l, r), e2'')
    else if IsBin(op, e2) then
      var (e1', l) := EliminateEqLeaves(op, e1, e2.l);
      var (e1'', r) := EliminateEqLeaves(op, e1', e2.r);
      (e1'', Bin(op, l, r))
    else if e1 == e2 && (e1 == Sym(SYM_YES) || e1 == Sym(SYM_NO)) then
      (e1, e2)
    else if !ExprEq(e1, e2) then
      (e1, e2)
    else
      (Sym(Unit(op)), Sym(Unit(op)))
  }

  /** expr_eliminate_eq, on two expressions that are both present. */
  function EliminateEq(e1: Expr, e2: Expr): (r: (Expr, Expr))
    ensures Size(r.0) <= Size(e1) && Size(r.1) <= Size(e2)
    decreases Size(e1) + Size(e2), 1
  {
    var (a, b) := if e1.Bin? then EliminateEqLeaves(e1.op, e1, e2) else (e1, e2);
    var (a', b') := if !SameKind(a, b) && b.Bin? then EliminateEqLeaves(b.op, a, b) else (a, b);
    (EliminateYn(a'), EliminateYn(b'))
  }

  /** expr_eq: conjunctions and disjunctions are equal when elimination leaves the same symbol on both sides. */
  predicate ExprEq(e1: Expr, e2: Expr)
    decreases Size(e1) + Size(e2), 2
  {
    if !SameKind(e1, e2) then false
    else
      match e1
      case Sym(_) => e1 == e2
      case Comp(_, _, _) => e1 == e2
      case Neg(x) => ExprEq(x, e2.e)
      case Bin(_, _, _) =>
        var (a, b) := EliminateEq(e1, e2);
        a.Sym? && b.Sym? && a == b
  }

  lemma {:induction false} EliminateYnPreservesValue(env: Env, e: Expr)
    requires Typed(env)
    ensures Eval(env, EliminateYn(e)) == Eval(env, e)
  {
    match e
    case Bin(_, l, r) =>
      EliminateYnPreservesValue(env, l);
      EliminateYnPreservesValue(env, r);
    case _ =>
  }

  lemma CombineAssociative(op: Op, x: Tristate, y: Tristate, z: Tristate)
    ensures Combine(op, x, Combine(op, y, z)) == Combine(op, Combine(op, x, y), z)
  {
  }

  lemma CombineRegroup(op: Op, w: Tristate, x: Tristate, y: Tristate, z: Tristate)
    ensures Combine(op, Combine(op, w, x), Combine(op, y, z)) == Combine(op, Combine(op, w, y), Combine(op, x, z))
  {
  }

  /** The walk replaces equal operands by the unit: one common value `c` was factored out of both sides. */
  lemma {:induction false} EliminateEqLeavesFactorsOut(env: Env, op: Op, e1: Expr, e2: Expr) returns (c: Tristate)
    requires Typed(env)
    ensures var (r1, r2) := EliminateEqLeaves(op, e1, e2);
            Eval(env, e1) == Combine(op, c, Eval(env, r1)) && Eval(env, e2) == Combine(op, c, Eval(env, r2))
    decreases Size(e1) + Size(e2), if IsBin(op, e1) || IsBin(op, e2) then 0 else 3
  {
    if IsBin(op, e1) {
      var (l, e2') := EliminateEqLeaves(op, e1.l, e2);
      var (r, e2'') := EliminateEqLeaves(op, e1.r, e2');
      var c1 := EliminateEqLeavesFactorsOut(env, op, e1.l, e2);
      var c2 := EliminateEqLeavesFactorsOut(env, op, e1.r, e2');
      c := Combine(op, c1, c2);
      CombineRegroup(op, c1, Eval(env, l), c2, Eval(env, r));
      CombineAssociative(op, c1, c2, Eval(env, e2''));
    } else if IsBin(op, e2) {
      var (e1', l) := EliminateEqLeaves(op, e1, e2.l);
      var (e1'', r) := EliminateEqLeaves(op, e1', e2.r);
      var c1 := EliminateEqLeavesFactorsOut(env, op, e1, e2.l);
      var c2 := EliminateEqLeavesFactorsOut(env, op, e1', e2.r);
      c := Combine(op, c1, c2);
      CombineRegroup(op, c1, Eval(env, l), c2, Eval(env, r));
      CombineAssociative(op, c1, c2, Eval(env, e1''));
    } else if e1 == e2 && (e1 == Sym(SYM_YES) || e1 == Sym(SYM_NO)) {
      c := ConstTri(Unit(op));
    } else if !ExprEq(e1, e2) {
      c := ConstTri(Unit(op));
    } else {
      ExprEqSound(env, e1, e2);
      c := Eval(env, e1);
    }
  }

  /** When the second expression is a single operand, a match consumes it whole. */
  lemma {:induction false} EliminateEqLeavesAgainstOperand(op: Op, e1: Expr, e2: Expr)
    requires !IsBin(op, e2)
    ensures var r := EliminateEqLeaves(op, e1, e2); r == (e1, e2) || r.1 == Sym(Unit(op))
    decreases e1
  {
    if IsBin(op, e1) {
      EliminateEqLeavesAgainstOperand(op, e1.l, e2);
      EliminateEqLeavesAgainstOperand(op, e1.r, EliminateEqLeaves(op, e1.l, e2).1);
    }
  }

  /**
    expr_eliminate_eq factors out a common part: a single connective `op` and value `c` give back
    both original expressions, although the code walks first the levels of one operator and then
    those of the other.
   */
  lemma {:induction false} EliminateEqFactorsOut(env: Env, e1: Expr, e2: Expr) returns (op: Op, c: Tristate)
    requires Typed(env)
    ensures var (r1, r2) := EliminateEq(e1, e2);
            Eval(env, e1) == Combine(op, c, Eval(env, r1)) && Eval(env, e2) == Combine(op, c, Eval(env, r2))
    decreases Size(e1) + Size(e2), 1
  {
    var (a, b) := if e1.Bin? then EliminateEqLeaves(e1.op, e1, e2) else (e1, e2);
    var second := !SameKind(a, b) && b.Bin?;
    var (a', b') := if second then EliminateEqLeaves(b.op, a, b) else (a, b);
    EliminateYnPreservesValue(env, a');
    EliminateYnPreservesValue(env, b');
    if second {
      if e1.Bin? {
        EliminateEqLeavesAgainstOperand(e1.op, e1, e2);
      }
      op := b.op;
      c := EliminateEqLeavesFactorsOut(env, b.op, a, b);
    } else if e1.Bin? {
      op := e1.op;
      c := EliminateEqLeavesFactorsOut(env, e1.op, e1, e2);
    } else {
      op, c := OpAnd, YES;
    }
  }

  /** expr_eq is sound: expressions it calls equal have the same value under every assignment. */
  lemma {:induction false} ExprEqSound(env: Env, e1: Expr, e2: Expr)
    requires Typed(env)
    requires ExprEq(e1, e2)
    ensures Eval(env, e1) == Eval(env, e2)
    decreases Size(e1) + Size(e2), 2
  {
    match e1
    case Neg(x) => ExprEqSound(env, x, e2.e);
    case Bin(_, _, _) => var _, _ := EliminateEqFactorsOut(env, e1, e2);
    case _ =>
  }

  /** No conjunction or disjunction outside a negation has y or n for an operand. */
  predicate Folded(e: Expr) {
    e.Bin? ==>
      && Folded(e.l) && Folded(e.r)
      && e.l != Sym(SYM_YES) && e.l != Sym(SYM_NO) && e.r != Sym(SYM_YES) && e.r != Sym(SYM_NO)
  }

  /** expr_eliminate_yn folds every constant that can be folded. */
  lemma {:induction false} EliminateYnFolds(e: Expr)
    ensures Folded(EliminateYn(e))
  {
    match e
    case Bin(_, l, r) =>
      EliminateYnFolds(l);
      EliminateYnFolds(r);
    case _ =>
  }

  /** And nothing else: an expression without such operands stays as it is. */
  lemma {:induction false} EliminateYnKeeps(e: Expr)
    requires Folded(e)
    ensures EliminateYn(e) == e
  {
    match e
    case Bin(_, l, r) =>
      EliminateYnKeeps(l);
      EliminateYnKeeps(r);
    case _ =>
  }

  /** The `op` operands of two expressions have none in common, apart from the constants y and n. */
  predicate NothingInCommon(op: Op, e1: Expr, e2: Expr)
    decreases e1, e2
  {
    if IsBin(op, e1) then NothingInCommon(op, e1.l, e2) && NothingInCommon(op, e1.r, e2)
    else if IsBin(op, e2) then NothingInCommon(op, e1, e2.l) && NothingInCommon(op, e1, e2.r)
    else ExprEq(e1, e2) ==> e1 == e2 && (e1 == Sym(SYM_YES) || e1 == Sym(SYM_NO))
  }

  /** `e'` is `e` with some `op` operands replaced by the unit. */
  predicate Erased(op: Op, e: Expr, e': Expr) {
    if IsBin(op, e) then IsBin(op, e') && Erased(op, e.l, e'.l) && Erased(op, e.r, e'.r)
    else e' == e || e' == Sym(Unit(op))
  }

  lemma {:induction false} ErasedReflexive(op: Op, e: Expr)
    ensures Erased(op, e, e)
  {
    if IsBin(op, e) {
      ErasedReflexive(op, e.l);
      ErasedReflexive(op, e.r);
    }
  }

  lemma {:induction false} ErasedTransitive(op: Op, a: Expr, b: Expr, c: Expr)
    requires Erased(op, a, b) && Erased(op, b, c)
    ensures Erased(op, a, c)
  {
    if IsBin(op, a) {
      ErasedTransitive(op, a.l, b.l, c.l);
      ErasedTransitive(op, a.r, b.r, c.r);
    }
  }

  lemma {:induction false} ErasingKeepsNothingInCommon(op: Op, e1: Expr, e2: Expr, e1': Expr, e2': Expr)
    requires NothingInCommon(op, e1, e2) && Erased(op, e1, e1') && Erased(op, e2, e2')
    ensures NothingInCommon(op, e1', e2')
    decreases e1, e2
  {
    if IsBin(op, e1) {
      ErasingKeepsNothingInCommon(op, e1.l, e2, e1'.l, e2');
      ErasingKeepsNothingInCommon(op, e1.r, e2, e1'.r, e2');
    } else if IsBin(op, e2) {
      ErasingKeepsNothingInCommon(op, e1, e2.l, e1', e2'.l);
      ErasingKeepsNothingInCommon(op, e1, e2.r, e1', e2'.r);
    }
  }

  /** The walk only erases operands, and afterwards the two sides have no operand in common. */
  lemma {:induction false} EliminateEqLeavesComplete(op: Op, e1: Expr, e2: Expr)
    ensures var (r1, r2) := EliminateEqLeaves(op, e1, e2);
            Erased(op, e1, r1) && Erased(op, e2, r2) && NothingInCommon(op, r1, r2)
    decreases Size(e1) + Size(e2)
  {
    if IsBin(op, e1) {
      var (l, e2') := EliminateEqLeaves(op, e1.l, e2);
      var (r, e2'') := EliminateEqLeaves(op, e1.r, e2');
      EliminateEqLeavesComplete(op, e1.l, e2);
      EliminateEqLeavesComplete(op, e1.r, e2');
      ErasedReflexive(op, l);
      ErasingKeepsNothingInCommon(op, l, e2', l, e2'');
      ErasedTransitive(op, e2, e2', e2'');
    } else if IsBin(op, e2) {
      var (e1', l) := EliminateEqLeaves(op, e1, e2.l);
      var (e1'', r) := EliminateEqLeaves(op, e1', e2.r);
      EliminateEqLeavesComplete(op, e1, e2.l);
      EliminateEqLeavesComplete(op, e1', e2.r);
      ErasedReflexive(op, l);
      ErasingKeepsNothingInCommon(op, e1', l, e1'', l);
    }
  }
}
