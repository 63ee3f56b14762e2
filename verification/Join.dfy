/** Joining two operands of a disjunction or conjunction into one (expr_join_or and expr_join_and in expr.c). */
module Join {
  import opened CStrings
  import opened Options
  import opened Tristates
  import opened Exprs
  import opened Simplify

  predicate IsComp(rel: Rel, e: Expr) {
    e.Comp? && e.rel == rel
  }

  predicate IsCompWith(rel: Rel, e: Expr, b: Symbol) {
    IsComp(rel, e) && e.b == b
  }

  predicate IsSimple(e: Expr) {
    IsComp(Equal, e) || IsComp(Unequal, e) || e.Sym? || e.Neg?
  }

  /** The symbol an operand is about. A negated comparison is accepted on the left only. */
  function LeftSubject(e: Expr): Option<Symbol>
    requires IsSimple(e)
  {
    match e
    case Sym(s) => Some(s)
    case Neg(Sym(s)) => Some(s)
    case Neg(Comp(Equal, a, _)) => Some(a)
    case Neg(Comp(Unequal, a, _)) => Some(a)
    case Comp(_, a, _) => Some(a)
    case _ => None
  }

  function RightSubject(e: Expr): Option<Symbol>
    requires IsSimple(e)
  {
    match e
    case Neg(Comp(_, _, _)) => None
    case _ => LeftSubject(e)
  }

  predicate BothComp(rel: Rel, e1: Expr, e2: Expr, x: Symbol, y: Symbol) {
    (IsCompWith(rel, e1, x) && IsCompWith(rel, e2, y)) || (IsCompWith(rel, e1, y) && IsCompWith(rel, e2, x))
  }

  /** One operand is the symbol itself, the other compares it with `b`. */
  predicate SymAndComp(rel: Rel, e1: Expr, e2: Expr, b: Symbol) {
    (e1.Sym? && IsCompWith(rel, e2, b)) || (e2.Sym? && IsCompWith(rel, e1, b))
  }

  predicate IsNegSym(e: Expr) {
    e.Neg? && e.e.Sym?
  }

  function JoinOrSubject(s: Symbol, e1: Expr, e2: Expr): Option<Expr> {
    if s.ty.Tri? && BothComp(Equal, e1, e2, SYM_YES, SYM_MOD) then Some(Comp(Unequal, s, SYM_NO))
    else if s.ty.Tri? && BothComp(Equal, e1, e2, SYM_YES, SYM_NO) then Some(Comp(Unequal, s, SYM_MOD))
    else if s.ty.Tri? && BothComp(Equal, e1, e2, SYM_MOD, SYM_NO) then Some(Comp(Unequal, s, SYM_YES))
    else if s.ty.Boolean? && ((IsNegSym(e1) && e2.Sym?) || (IsNegSym(e2) && e1.Sym?)) then Some(Sym(SYM_YES))
    else None
  }

  /** `(a=b) && (a!=c)` for two constants. */
  function JoinEqualUnequal(s: Symbol, b: Symbol, c: Symbol): Option<Expr> {
    if b.isConst && c.isConst then Some(if b != c then Comp(Equal, s, b) else Sym(SYM_NO)) else None
  }

  /** `a && (a=y)`, `a && (a!=n)` and `a && (a!=m)`. */
  function JoinAndSymbol(s: Symbol, e1: Expr, e2: Expr): Option<Expr> {
    if SymAndComp(Equal, e1, e2, SYM_YES) then Some(Comp(Equal, s, SYM_YES))
    else if SymAndComp(Unequal, e1, e2, SYM_NO) then Some(Sym(s))
    else if SymAndComp(Unequal, e1, e2, SYM_MOD) then Some(Comp(Equal, s, SYM_YES))
    else None
  }

  /** Two different disequalities with y, m and n leave the third value. */
  function JoinUnequals(s: Symbol, e1: Expr, e2: Expr): Option<Expr> {
    if BothComp(Unequal, e1, e2, SYM_YES, SYM_NO) then Some(Comp(Equal, s, SYM_MOD))
    else if BothComp(Unequal, e1, e2, SYM_YES, SYM_MOD) then Some(Comp(Equal, s, SYM_NO))
    else if BothComp(Unequal, e1, e2, SYM_MOD, SYM_NO) then Some(Comp(Equal, s, SYM_YES))
    else None
  }

  function JoinAndSubject(s: Symbol, e1: Expr, e2: Expr): Option<Expr> {
    if JoinAndSymbol(s, e1, e2).Some? then JoinAndSymbol(s, e1, e2)
    else if !s.ty.Tri? then None
    else if IsComp(Equal, e1) && IsComp(Unequal, e2) && JoinEqualUnequal(s, e1.b, e2.b).Some? then
      JoinEqualUnequal(s, e1.b, e2.b)
    else if IsComp(Unequal, e1) && IsComp(Equal, e2) && JoinEqualUnequal(s, e2.b, e1.b).Some? then
      JoinEqualUnequal(s, e2.b, e1.b)
    else JoinUnequals(s, e1, e2)
  }

  /** Operands that are not equal. */
  function JoinDifferent(op: Op, e1: Expr, e2: Expr): Option<Expr> {
    if !IsSimple(e1) || !IsSimple(e2) then None
    else
      var s1 := LeftSubject(e1);
      if s1.None? || s1 != RightSubject(e2) then None
      else if !s1.value.ty.Boolean? && !s1.value.ty.Tri? then None
      else if op.OpOr? then JoinOrSubject(s1.value, e1, e2)
      else JoinAndSubject(s1.value, e1, e2)
  }

  /** expr_join_or and expr_join_and: one expression for `e1 op e2`, or nothing. */
  function JoinOperands(op: Op, e1: Expr, e2: Expr): Option<Expr> {
    if ExprEq(e1, e2) then Some(e1) else JoinDifferent(op, e1, e2)
  }

  lemma JoinOrSubjectSound(env: Env, s: Symbol, e1: Expr, e2: Expr)
    requires Typed(env) && IsSimple(e1) && IsSimple(e2) && (s.ty.Boolean? || s.ty.Tri?)
    requires LeftSubject(e1) == RightSubject(e2) == Some(s)
    requires JoinOrSubject(s, e1, e2).Some?
    ensures Eval(env, JoinOrSubject(s, e1, e2).value) == Or(Eval(env, e1), Eval(env, e2))
  {
    hide CompareIn;
    CompareWithTriConst(env, s, SYM_YES);
    CompareWithTriConst(env, s, SYM_MOD);
    CompareWithTriConst(env, s, SYM_NO);
  }

  /** The join of `(a=b) && (a!=c)` is right for one assignment when b and c do not both denote a's value. */
  lemma JoinEqualUnequalSound(env: Env, s: Symbol, b: Symbol, c: Symbol)
    requires Typed(env) && s.ty.Tri? && b.ty.Unknown? && c.ty.Unknown?
    requires JoinEqualUnequal(s, b, c).Some?
    requires b == c || Denotes(b.name) == -1 || Denotes(b.name) != Denotes(c.name)
    ensures Eval(env, JoinEqualUnequal(s, b, c).value)
        == And(Eval(env, Comp(Equal, s, b)), Eval(env, Comp(Unequal, s, c)))
  {
    CompareWithConst(env, s, b);
    CompareWithConst(env, s, c);
  }

  lemma JoinAndSymbolSound(env: Env, s: Symbol, e1: Expr, e2: Expr)
    requires Typed(env) && IsSimple(e1) && IsSimple(e2) && (s.ty.Boolean? || s.ty.Tri?)
    requires LeftSubject(e1) == RightSubject(e2) == Some(s)
    requires JoinAndSymbol(s, e1, e2).Some?
    ensures Eval(env, JoinAndSymbol(s, e1, e2).value) == And(Eval(env, e1), Eval(env, e2))
  {
    hide CompareIn;
    CompareWithTriConst(env, s, SYM_YES);
    CompareWithTriConst(env, s, SYM_MOD);
    CompareWithTriConst(env, s, SYM_NO);
  }

  lemma JoinUnequalsSound(env: Env, s: Symbol, e1: Expr, e2: Expr)
    requires Typed(env) && IsSimple(e1) && IsSimple(e2) && s.ty.Tri?
    requires LeftSubject(e1) == RightSubject(e2) == Some(s)
    requires JoinUnequals(s, e1, e2).Some?
    ensures Eval(env, JoinUnequals(s, e1, e2).value) == And(Eval(env, e1), Eval(env, e2))
  {
    hide CompareIn;
    CompareWithTriConst(env, s, SYM_YES);
    CompareWithTriConst(env, s, SYM_MOD);
    CompareWithTriConst(env, s, SYM_NO);
  }

  lemma JoinAndSubjectSound(env: Env, s: Symbol, e1: Expr, e2: Expr)
    requires Typed(env) && IsSimple(e1) && IsSimple(e2) && (s.ty.Boolean? || s.ty.Tri?)
    requires LeftSubject(e1) == RightSubject(e2) == Some(s)
    requires WellFormed(e1) && WellFormed(e2)
    requires JoinAndSubject(s, e1, e2).Some?
    ensures Eval(env, JoinAndSubject(s, e1, e2).value) == And(Eval(env, e1), Eval(env, e2))
  {
    hide CompareIn, Denotes;
    if JoinAndSymbol(s, e1, e2).Some? {
      JoinAndSymbolSound(env, s, e1, e2);
    } else if IsComp(Equal, e1) && IsComp(Unequal, e2) && JoinEqualUnequal(s, e1.b, e2.b).Some? {
      LettersDenote();
      JoinEqualUnequalSound(env, s, e1.b, e2.b);
    } else if IsComp(Unequal, e1) && IsComp(Equal, e2) && JoinEqualUnequal(s, e2.b, e1.b).Some? {
      LettersDenote();
      JoinEqualUnequalSound(env, s, e2.b, e1.b);
    } else {
      JoinUnequalsSound(env, s, e1, e2);
    }
  }

  /** Whatever is joined stands for the two operands under every assignment. */
  lemma JoinSound(env: Env, op: Op, e1: Expr, e2: Expr)
    requires Typed(env) && WellFormed(e1) && WellFormed(e2)
    requires JoinOperands(op, e1, e2).Some?
    ensures Eval(env, JoinOperands(op, e1, e2).value) == Combine(op, Eval(env, e1), Eval(env, e2))
  {
    if ExprEq(e1, e2) {
      ExprEqSound(env, e1, e2);
    } else if op.OpOr? {
      JoinOrSubjectSound(env, LeftSubject(e1).value, e1, e2);
    } else {
      JoinAndSubjectSound(env, LeftSubject(e1).value, e1, e2);
    }
  }

  /** An assignment in which tristate symbols hold `t` and every other symbol its least value. */
  function Uniform(t: Tristate): Env {
    Env(YES, (s: Symbol) =>
      if IsTriConst(s) then Value(ConstTri(s), s.name)
      else if s.ty.Unknown? then Value(NO, s.name)
      else if s.ty.Tri? then Value(t, "n")
      else Value(NO, "n"))
  }

  /**
    The join of `(a=b) && (a!=c)` for different constants is right under all assignments exactly when
    b and c do not denote the same tristate.
   */
  lemma JoinEqualUnequalExact(a: Symbol, b: Symbol, c: Symbol)
    requires a.ty.Tri? && b.ty.Unknown? && c.ty.Unknown? && b.isConst && c.isConst && b != c
    ensures (forall env | Typed(env) ::
               Eval(env, JoinEqualUnequal(a, b, c).value)
                   == Eval(env, Bin(OpAnd, Comp(Equal, a, b), Comp(Unequal, a, c))))
            <==> Denotes(b.name) == -1 || Denotes(b.name) != Denotes(c.name)
  {
    hide CompareIn, Denotes;
    var d := Denotes(b.name);
    if d == -1 || d != Denotes(c.name) {
      forall env | Typed(env)
        ensures Eval(env, JoinEqualUnequal(a, b, c).value)
            == Eval(env, Bin(OpAnd, Comp(Equal, a, b), Comp(Unequal, a, c)))
      {
        JoinEqualUnequalSound(env, a, b, c);
      }
    } else {
      var env := Uniform(d);
      assert Typed(env);
      CompareWithConst(env, a, b);
      CompareWithConst(env, a, c);
    }
  }

  /** The numeral 1 denotes m: with `A` at m, the join turns the false `A=m && A!=1` into the true `A=m`. */
  lemma JoinWithNumeralChangesValue(a: Symbol)
    requires a.ty.Tri?
    ensures var one := Symbol("1", Unknown, true);
            var e := Bin(OpAnd, Comp(Equal, a, SYM_MOD), Comp(Unequal, a, one));
            Typed(Uniform(MOD)) && Eval(Uniform(MOD), e) == NO
            && JoinOperands(OpAnd, e.l, e.r).Some? && Eval(Uniform(MOD), JoinOperands(OpAnd, e.l, e.r).value) == YES
  {
    hide CompareIn, Denotes;
    var one := Symbol("1", Unknown, true);
    assert one != SYM_MOD by {
      assert one.name[0] == '1' && SYM_MOD.name[0] == 'm';
    }
    OneDenotesMod();
    LettersDenote();
    CompareWithConst(Uniform(MOD), a, one);
    CompareWithConst(Uniform(MOD), a, SYM_MOD);
  }

  lemma OneDenotesMod()
    ensures Denotes("1") == 1
  {
    assert SkipSpace("1") == "1" && "1"[0] == '1';
    assert ScanDigits("1"[1..], 10, 1) == (1, "");
  }
}
