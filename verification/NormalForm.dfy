/**
  Negation pushing and comparison rewriting (expr_transform), the promotion of `FOO!=n` to `FOO`
  (expr_trans_bool) and explicit comparisons (expr_trans_compare), all in expr.c.
 */
module NormalForm {
  import opened CStrings
  import opened Tristates
  import opened Exprs

  /** Termination measure of Transform, which transforms again what De Morgan's laws produce. */
  function Weight(e: Expr): (w: nat)
    ensures w > 0
  {
    match e
    case Sym(_) => 1
    case Comp(_, _, _) => 2
    case Neg(x) => 2 * Weight(x)
    case Bin(_, l, r) => Weight(l) + Weight(r) + 1
  }

  lemma DeMorganWeighsLess(op: Op, l: Expr, r: Expr)
    ensures Weight(Bin(Dual(op), Neg(l), Neg(r))) < Weight(Neg(Bin(op, l, r)))
  {
    assert Weight(Neg(l)) == 2 * Weight(l) && Weight(Neg(r)) == 2 * Weight(r);
  }

  function NegatedRel(rel: Rel): Rel {
    match rel
    case Equal => Unequal
    case Unequal => Equal
    case Leq => Gth
    case Geq => Lth
    case Lth => Geq
    case Gth => Leq
  }

  /** A bool symbol tested for equality with y, m or n. */
  predicate IsBoolTest(e: Expr) {
    e.Comp? && (e.rel.Equal? || e.rel.Unequal?) && e.a.ty.Boolean? && IsTriConst(e.b)
  }

  function TransformTest(e: Expr): Expr {
    if !IsBoolTest(e) then e
    else if e.b == SYM_MOD then Sym(if e.rel.Equal? then SYM_NO else SYM_YES)
    else if (e.b == SYM_NO) == e.rel.Equal? then Neg(Sym(e.a))
    else Sym(e.a)
  }

  /** expr_transform. */
  function Transform(e: Expr): (r: Expr)
    ensures Weight(r) <= Weight(e)
    decreases Weight(e)
  {
    match e
    case Sym(_) => e
    case Comp(_, _, _) => TransformTest(e)
    case Bin(op, l, r) => Bin(op, Transform(l), Transform(r))
    case Neg(x) =>
      match Transform(x)
      case Neg(y) => Transform(y)
      case Comp(rel, a, b) => Comp(NegatedRel(rel), a, b)
      case Bin(op, l, r) =>
        DeMorganWeighsLess(op, l, r);
        Transform(Bin(Dual(op), Neg(l), Neg(r)))
      case Sym(s) =>
        if s == SYM_YES then Sym(SYM_NO)
        else if s == SYM_MOD then Sym(SYM_MOD)
        else if s == SYM_NO then Sym(SYM_YES)
        else Neg(Sym(s))
  }

  /** Negation normal form: negation only on symbols that are not constants, no bool tested for y, m or n. */
  predicate Normal(e: Expr) {
    match e
    case Sym(_) => true
    case Neg(x) => x.Sym? && !IsTriConst(x.s)
    case Bin(_, l, r) => Normal(l) && Normal(r)
    case Comp(_, _, _) => !IsBoolTest(e)
  }

  lemma NegatedRelComplements(env: Env, rel: Rel, a: Symbol, b: Symbol)
    requires !a.ty.Other? && !b.ty.Other?
    ensures Eval(env, Comp(NegatedRel(rel), a, b)) == Not(Eval(env, Comp(rel, a, b)))
  {
    assert CompareIn(env, a, b).Ordered?;
  }

  lemma TransformTestPreservesValue(env: Env, e: Expr)
    requires Typed(env)
    ensures Eval(env, TransformTest(e)) == Eval(env, e)
  {
    hide CompareIn;
    if IsBoolTest(e) {
      CompareWithTriConst(env, e.a, e.b);
    }
  }

  /** expr_transform keeps the value under every assignment and reaches normal form. */
  lemma {:induction false} TransformCorrect(env: Env, e: Expr)
    requires Typed(env) && Comparable(e)
    ensures Eval(env, Transform(e)) == Eval(env, e)
    ensures Comparable(Transform(e)) && Normal(Transform(e))
    decreases Weight(e)
  {
    hide CompareIn, Denotes;
    match e
    case Sym(_) =>
    case Comp(_, _, _) => TransformTestPreservesValue(env, e);
    case Bin(_, l, r) =>
      TransformCorrect(env, l);
      TransformCorrect(env, r);
    case Neg(x) =>
      TransformCorrect(env, x);
      match Transform(x) {
        case Neg(y) => TransformCorrect(env, y);
        case Comp(rel, a, b) => NegatedRelComplements(env, rel, a, b);
        case Bin(op, l, r) =>
          DeMorganWeighsLess(op, l, r);
          TransformCorrect(env, Bin(Dual(op), Neg(l), Neg(r)));
        case Sym(_) =>
      }
  }

  /** Nothing is introduced that would keep operands from being joined. */
  lemma {:induction false} TransformWellFormed(e: Expr)
    requires WellFormed(e)
    ensures WellFormed(Transform(e))
    decreases Weight(e)
  {
    hide Denotes;
    match e
    case Sym(_) =>
    case Comp(_, _, _) =>
    case Bin(_, l, r) =>
      TransformWellFormed(l);
      TransformWellFormed(r);
    case Neg(x) =>
      TransformWellFormed(x);
      match Transform(x) {
        case Neg(y) => TransformWellFormed(y);
        case Comp(_, _, _) =>
        case Bin(op, l, r) =>
          DeMorganWeighsLess(op, l, r);
          TransformWellFormed(Bin(Dual(op), Neg(l), Neg(r)));
        case Sym(_) =>
      }
  }

  /** Expressions in normal form are left alone. */
  lemma {:induction false} TransformKeepsNormal(e: Expr)
    requires Normal(e)
    ensures Transform(e) == e
  {
    match e
    case Bin(_, l, r) =>
      TransformKeepsNormal(l);
      TransformKeepsNormal(r);
    case Neg(x) => TransformKeepsNormal(x);
    case _ =>
  }

  /** Transform always reaches normal form, whatever the comparisons. */
  lemma {:induction false} TransformNormal(e: Expr)
    ensures Normal(Transform(e))
    decreases Weight(e)
  {
    match e
    case Sym(_) =>
    case Comp(_, _, _) =>
    case Bin(_, l, r) =>
      TransformNormal(l);
      TransformNormal(r);
    case Neg(x) =>
      TransformNormal(x);
      match Transform(x) {
        case Neg(y) => TransformNormal(y);
        case Comp(_, _, _) =>
        case Bin(op, l, r) =>
          DeMorganWeighsLess(op, l, r);
          TransformNormal(Bin(Dual(op), Neg(l), Neg(r)));
        case Sym(_) =>
      }
  }

  lemma TransformIdempotent(e: Expr)
    ensures Transform(Transform(e)) == Transform(e)
  {
    TransformNormal(e);
    TransformKeepsNormal(Transform(e));
  }

  /** With an S_OTHER operand, against a number, both `a < b` and its rewritten negation `a >= b` are n. */
  lemma TransformNeedsOrderedOperands(env: Env, a: Symbol, b: Symbol)
    requires Typed(env) && a.ty.Other? && b.ty.Boolean?
    ensures Eval(env, Neg(Comp(Lth, a, b))) == YES && Eval(env, Transform(Neg(Comp(Lth, a, b)))) == NO
  {
    assert Transform(Comp(Lth, a, b)) == Comp(Lth, a, b);
  }

  /** expr_trans_bool. */
  function TransBool(e: Expr): Expr {
    match e
    case Bin(op, l, r) => Bin(op, TransBool(l), TransBool(r))
    case Neg(x) => Neg(TransBool(x))
    case Comp(Unequal, a, b) => if a.ty.Tri? && b == SYM_NO then Sym(a) else e
    case _ => e
  }

  /** Nothing but the constant n can disappear from an expression. */
  lemma {:induction false} TransBoolMentions(e: Expr)
    ensures Mentions(e) - {SYM_NO} <= Mentions(TransBool(e)) <= Mentions(e)
  {
    match e
    case Bin(_, l, r) =>
      TransBoolMentions(l);
      TransBoolMentions(r);
    case Neg(x) => TransBoolMentions(x);
    case _ =>
  }

  /** No tristate symbol is tested for being different from n. */
  predicate NoTests(e: Expr) {
    match e
    case Bin(_, l, r) => NoTests(l) && NoTests(r)
    case Neg(x) => NoTests(x)
    case Comp(rel, a, b) => !(rel.Unequal? && a.ty.Tri? && b == SYM_NO)
    case _ => true
  }

  /** expr_trans_bool removes every such test, and leaves expressions without them alone. */
  lemma {:induction false} TransBoolComplete(e: Expr)
    ensures NoTests(TransBool(e)) && (NoTests(e) ==> TransBool(e) == e)
  {
    match e
    case Bin(_, l, r) =>
      TransBoolComplete(l);
      TransBoolComplete(r);
    case Neg(x) => TransBoolComplete(x);
    case _ =>
  }

  /** The promotion of m to y in sym_calc_visibility for a symbol that is not tristate. */
  function Promote(t: Tristate): Tristate {
    if t == MOD then YES else t
  }

  /** On normal forms expr_trans_bool never changes whether the value is n, hence not the promoted visibility. */
  lemma {:induction false} TransBoolKeepsVisibility(env: Env, e: Expr)
    requires Typed(env) && Normal(e)
    ensures Promote(Eval(env, TransBool(e))) == Promote(Eval(env, e))
    ensures Normal(TransBool(e))
  {
    hide CompareIn;
    match e
    case Bin(_, l, r) =>
      TransBoolKeepsVisibility(env, l);
      TransBoolKeepsVisibility(env, r);
    case Comp(rel, a, b) =>
      if rel.Unequal? && a.ty.Tri? && b == SYM_NO {
        CompareWithTriConst(env, a, b);
      }
    case _ =>
  }

  /** Under a negation, which normal form excludes, the promotion shows: with A at m, `!(A!=n)` is n but `!A` is m. */
  lemma TransBoolNeedsNormalForm(env: Env, a: Symbol)
    requires Typed(env) && a.ty.Tri? && env.val(a).tri == MOD
    ensures var e := Neg(Comp(Unequal, a, SYM_NO)); Eval(env, e) == NO && Eval(env, TransBool(e)) == MOD
  {
    CompareWithTriConst(env, a, SYM_NO);
  }

  /** expr_trans_compare, with `rel` one of = and != and `sym` one of y, m and n. */
  function TransCompare(e: Expr, rel: Rel, sym: Symbol): Expr
    requires rel.Equal? || rel.Unequal?
    requires IsTriConst(sym)
  {
    match e
    case Bin(op, l, r) =>
      var l' := TransCompare(l, Equal, sym);
      var r' := TransCompare(r, Equal, sym);
      var both := if sym == SYM_YES then Bin(op, l', r') else if sym == SYM_NO then Bin(Dual(op), l', r') else e;
      if rel.Unequal? then Neg(both) else both
    case Neg(x) => TransCompare(x, NegatedRel(rel), sym)
    case Comp(_, _, _) =>
      if sym == SYM_MOD then Sym(if rel.Equal? then SYM_NO else SYM_YES)
      else if (sym == SYM_YES) == rel.Equal? then e
      else Neg(e)
    case Sym(s) => Comp(rel, s, sym)
  }

  /** Symbols standing alone are bool, tristate or one of y, m and n: others are n but differ from n as text. */
  predicate LogicalAtoms(e: Expr) {
    match e
    case Sym(s) => s.ty.Boolean? || s.ty.Tri? || IsTriConst(s)
    case Neg(x) => LogicalAtoms(x)
    case Bin(_, l, r) => LogicalAtoms(l) && LogicalAtoms(r)
    case Comp(_, _, _) => true
  }

  /** No symbol below a negation is m. */
  predicate NoNegatedMod(env: Env, e: Expr) {
    match e
    case Neg(x) => Eval(env, x) != MOD && NoNegatedMod(env, x)
    case Bin(_, l, r) => NoNegatedMod(env, l) && NoNegatedMod(env, r)
    case _ => true
  }

  lemma AtomCompare(env: Env, s: Symbol)
    requires Typed(env) && (s.ty.Boolean? || s.ty.Tri? || IsTriConst(s))
    ensures Eval(env, Comp(Equal, s, SYM_NO)) == (if env.val(s).tri == NO then YES else NO)
    ensures Eval(env, Comp(Unequal, s, SYM_NO)) == (if env.val(s).tri == NO then NO else YES)
  {
    if IsTriConst(s) {
      hide Convert;
      LettersDenote();
      StrCmpZero(s.name, "n");
      assert "n"[0] == 'n' && "m"[0] == 'm' && "y"[0] == 'y';
    } else {
      hide CompareIn;
      CompareWithTriConst(env, s, SYM_NO);
    }
  }

  /**
    expr_trans_compare(e, !=, n) is two-valued and complementary to (e, =, n); y means e is not n,
    n means e is not y. The converse of the first holds when no negated symbol is m.
   */
  lemma {:induction false} TransCompareSound(env: Env, e: Expr)
    requires Typed(env) && LogicalAtoms(e)
    ensures var ne := Eval(env, TransCompare(e, Unequal, SYM_NO));
            && ne != MOD
            && Eval(env, TransCompare(e, Equal, SYM_NO)) == Not(ne)
            && (ne == YES ==> Eval(env, e) != NO)
            && (ne == NO ==> Eval(env, e) != YES)
  {
    hide CompareIn;
    match e
    case Sym(s) => AtomCompare(env, s);
    case Neg(x) => TransCompareSound(env, x);
    case Bin(_, l, r) =>
      TransCompareSound(env, l);
      TransCompareSound(env, r);
    case Comp(_, _, _) =>
  }

  lemma {:induction false} TransCompareExact(env: Env, e: Expr)
    requires Typed(env) && LogicalAtoms(e) && Normal(e) && NoNegatedMod(env, e)
    ensures Eval(env, TransCompare(e, Unequal, SYM_NO)) == YES <==> Eval(env, e) != NO
  {
    hide CompareIn;
    TransCompareSound(env, e);
    match e
    case Sym(s) => AtomCompare(env, s);
    case Neg(Sym(s)) => AtomCompare(env, s);
    case Bin(_, l, r) =>
      TransCompareExact(env, l);
      TransCompareExact(env, r);
      TransCompareSound(env, l);
      TransCompareSound(env, r);
    case Comp(_, _, _) =>
  }

  /** For a negated symbol it is exact if and only if the symbol is not m. */
  lemma TransCompareNegationExact(env: Env, s: Symbol)
    requires Typed(env) && (s.ty.Boolean? || s.ty.Tri? || IsTriConst(s))
    ensures (Eval(env, TransCompare(Neg(Sym(s)), Unequal, SYM_NO)) == YES <==> Eval(env, Neg(Sym(s))) != NO)
            <==> env.val(s).tri != MOD
  {
    hide CompareIn;
    AtomCompare(env, s);
  }

  /** The expression is not n even if a negated m counts as n. */
  predicate Firm(env: Env, e: Expr) {
    match e
    case Neg(x) => Eval(env, x) == NO
    case Bin(OpAnd, l, r) => Firm(env, l) && Firm(env, r)
    case Bin(OpOr, l, r) => Firm(env, l) || Firm(env, r)
    case _ => Eval(env, e) != NO
  }

  /** That is what the comparison with n asks of a normal form. */
  lemma {:induction false} TransCompareFirm(env: Env, e: Expr)
    requires Typed(env) && LogicalAtoms(e) && Normal(e)
    ensures Eval(env, TransCompare(e, Unequal, SYM_NO)) == YES <==> Firm(env, e)
  {
    hide CompareIn;
    TransCompareSound(env, e);
    match e
    case Sym(s) => AtomCompare(env, s);
    case Neg(Sym(s)) => AtomCompare(env, s);
    case Bin(_, l, r) =>
      TransCompareFirm(env, l);
      TransCompareFirm(env, r);
      TransCompareSound(env, l);
      TransCompareSound(env, r);
    case Comp(_, _, _) =>
  }

  /** With a negated m the whole of an expression is taken for n that is m. */
  lemma TransCompareWrong(env: Env, s: Symbol, t: Symbol)
    requires Typed(env) && s.ty.Tri? && t.ty.Tri? && env.val(s).tri == MOD && env.val(t).tri == YES
    ensures var e := Bin(OpAnd, Neg(Sym(s)), Sym(t));
            Eval(env, e) == MOD && Eval(env, TransCompare(e, Unequal, SYM_NO)) == NO
  {
    hide CompareIn;
    var e := Bin(OpAnd, Neg(Sym(s)), Sym(t));
    NegatedSymbol(env, s);
    assert Eval(env, Sym(t)) == YES && LogicalAtoms(Sym(t)) && Normal(Sym(t));
    TransCompareSound(env, e);
    TransCompareFirm(env, e);
  }

  lemma NegatedSymbol(env: Env, s: Symbol)
    requires s.ty.Tri?
    ensures LogicalAtoms(Neg(Sym(s))) && Normal(Neg(Sym(s)))
    ensures Eval(env, Neg(Sym(s))) == Not(env.val(s).tri) && (Firm(env, Neg(Sym(s))) <==> env.val(s).tri == NO)
  {
    assert Eval(env, Sym(s)) == env.val(s).tri;
  }

  /** Every symbol that is not a constant holds the text "x" and, as a tristate, n. */
  function TextEverywhere(): Env {
    Env(YES, (s: Symbol) =>
      if IsTriConst(s) then Value(ConstTri(s), s.name)
      else if s.ty.Unknown? then Value(NO, s.name)
      else Value(NO, "x"))
  }

  /**
    For a symbol standing alone, `s!=n` implies that s is not n under all assignments exactly when s is
    bool, tristate or one of y, m and n; a text or undefined symbol differs from n and still counts as n.
   */
  lemma TransCompareAtomExact(s: Symbol)
    ensures (forall env | Typed(env) :: Eval(env, TransCompare(Sym(s), Unequal, SYM_NO)) == YES ==>
        Eval(env, Sym(s)) != NO)
            <==> s.ty.Boolean? || s.ty.Tri? || IsTriConst(s) || (s.ty.Unknown? && s.name == "n")
  {
    if s.ty.Boolean? || s.ty.Tri? || IsTriConst(s) {
      forall env | Typed(env) {
        AtomCompare(env, s);
      }
    } else {
      var env := TextEverywhere();
      assert Typed(env);
      TextAgainstNo(env, s);
      if s.ty.Unknown? && s.name == "n" {
        forall env | Typed(env) ensures Eval(env, Comp(Unequal, s, SYM_NO)) == NO {
          TextAgainstNo(env, s);
        }
      }
    }
  }

  lemma TextAgainstNo(env: Env, s: Symbol)
    requires Typed(env) && !s.ty.Boolean? && !s.ty.Tri?
    ensures Eval(env, Comp(Unequal, s, SYM_NO)) == (if env.val(s).str == "n" then NO else YES)
  {
    LettersDenote();
    StrCmpZero(env.val(s).str, "n");
    assert ParseString("n", Unknown).Text? by {
      assert "n"[0] == 'n' && SkipSpace("n") == "n" && ScanDigits("n", 10, 0) == (0, "n");
    }
    if s.ty.String? {
      assert StringValue(env.modules, SYM_NO, env.val(SYM_NO)) == "n";
    }
  }

  /** An expression with every symbol that is not bool, negated or not, tested against n. */
  function Tests(e: Expr): Expr {
    match e
    case Sym(s) => if s.ty.Boolean? then e else Comp(Unequal, s, SYM_NO)
    case Neg(Sym(s)) => if s.ty.Boolean? then e else Comp(Equal, s, SYM_NO)
    case Bin(op, l, r) => Bin(op, Tests(l), Tests(r))
    case _ => e
  }

  /** Comparing a normal form with n and transforming changes nothing else: operands and operators stay in place. */
  lemma {:induction false} TransCompareForm(e: Expr)
    requires Normal(e)
    ensures Transform(TransCompare(e, Unequal, SYM_NO)) == Tests(e)
    ensures Transform(Neg(Transform(TransCompare(e, Equal, SYM_NO)))) == Tests(e)
  {
    match e
    case Bin(op, l, r) =>
      TransCompareForm(l);
      TransCompareForm(r);
      var both := Bin(Dual(op), TransCompare(l, Equal, SYM_NO), TransCompare(r, Equal, SYM_NO));
      assert TransCompare(e, Equal, SYM_NO) == both && TransCompare(e, Unequal, SYM_NO) == Neg(both);
      var both' := Bin(Dual(op), Transform(both.l), Transform(both.r));
      assert Transform(both) == both';
      DeMorganWeighsLess(Dual(op), both'.l, both'.r);
      assert Transform(Neg(both')) == Transform(Neg(both)) == Tests(e) by {
        TransformIdempotent(both);
      }
    case Sym(s) =>
      assert Transform(Neg(Sym(s))) == Neg(Sym(s)) || IsTriConst(s);
    case _ =>
  }

  /** The dual of a normal form, operand by operand. */
  function Negated(e: Expr): Expr {
    match e
    case Sym(s) => if s == SYM_YES then Sym(SYM_NO) else if s == SYM_NO then Sym(SYM_YES)
                   else if s == SYM_MOD then e else Neg(e)
    case Neg(x) => x
    case Bin(op, l, r) => Bin(Dual(op), Negated(l), Negated(r))
    case Comp(rel, a, b) => Comp(NegatedRel(rel), a, b)
  }

  /** Negating a normal form: operands stay where they are. */
  lemma {:induction false} TransformNegates(e: Expr)
    requires Normal(e)
    ensures Transform(Neg(e)) == Negated(e)
  {
    TransformKeepsNormal(e);
    match e
    case Bin(op, l, r) =>
      DeMorganWeighsLess(op, l, r);
      TransformNegates(l);
      TransformNegates(r);
    case _ =>
  }

  /** Symbols standing alone are bool or tristate, and none below a negation is m. */
  predicate PlainAtoms(env: Env, e: Expr) {
    match e
    case Sym(s) => s.ty.Boolean? || s.ty.Tri?
    case Neg(x) => x.Sym? && (x.s.ty.Boolean? || x.s.ty.Tri?) && env.val(x.s).tri != MOD
    case Bin(_, l, r) => PlainAtoms(env, l) && PlainAtoms(env, r)
    case Comp(_, _, _) => true
  }

  /** The comparison with y: whether the expression is y. */
  lemma {:induction false} TransCompareYes(env: Env, e: Expr)
    requires Typed(env) && PlainAtoms(env, e)
    ensures Eval(env, TransCompare(e, Equal, SYM_YES)) == if Eval(env, e) == YES then YES else NO
    ensures Eval(env, TransCompare(e, Unequal, SYM_YES)) == if Eval(env, e) == YES then NO else YES
  {
    hide CompareIn;
    match e
    case Sym(s) => CompareWithTriConst(env, s, SYM_YES);
    case Neg(Sym(s)) => CompareWithTriConst(env, s, SYM_YES);
    case Bin(_, l, r) =>
      TransCompareYes(env, l);
      TransCompareYes(env, r);
    case Comp(_, _, _) =>
  }

  /** The comparison of a symbol with m, and of a comparison, which is never m. */
  lemma TransCompareMod(env: Env, e: Expr)
    requires Typed(env) && PlainAtoms(env, e) && (e.Sym? || e.Comp?)
    ensures Eval(env, TransCompare(e, Equal, SYM_MOD)) == if Eval(env, e) == MOD then YES else NO
    ensures Eval(env, TransCompare(e, Unequal, SYM_MOD)) == if Eval(env, e) == MOD then NO else YES
  {
    hide CompareIn;
    if e.Sym? {
      CompareWithTriConst(env, e.s, SYM_MOD);
    }
  }

  /** For a negated symbol the comparison with m, which nobody asks for, says the opposite. */
  lemma TransCompareModWrong(env: Env, s: Symbol)
    requires Typed(env) && (s.ty.Boolean? || s.ty.Tri?)
    ensures Eval(env, TransCompare(Neg(Sym(s)), Equal, SYM_MOD)) == if Eval(env, Neg(Sym(s))) == MOD then NO else YES
  {
    hide CompareIn;
    CompareWithTriConst(env, s, SYM_MOD);
  }
}
