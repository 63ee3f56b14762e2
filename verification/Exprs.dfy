/**
  Expressions over configuration symbols (expr.h) and their value (expr_calc_value in expr.c).

  A symbol is identified by its name, type and constness: sym_lookup interns symbols, so structural
  equality of these values is pointer equality in the program.
 */
module Exprs {
  import opened Tristates
  import opened CStrings

  datatype SymType = Unknown | Boolean | Tri | Int | Hex | String | Other

  datatype Symbol = Symbol(name: string, ty: SymType, isConst: bool)

  const SYM_YES: Symbol := Symbol("y", Unknown, true)
  const SYM_MOD: Symbol := Symbol("m", Unknown, true)
  const SYM_NO: Symbol := Symbol("n", Unknown, true)

  datatype Op = OpAnd | OpOr

  datatype Rel = Equal | Unequal | Lth | Leq | Gth | Geq

  datatype Expr =
    | Sym(s: Symbol)
    | Neg(e: Expr)
    | Bin(op: Op, l: Expr, r: Expr)
    | Comp(rel: Rel, a: Symbol, b: Symbol)

  function Combine(op: Op, x: Tristate, y: Tristate): Tristate {
    if op.OpAnd? then And(x, y) else Or(x, y)
  }

  /** The constant that an operator absorbs silently: `x && y` is x, `x || n` is x. */
  function Unit(op: Op): Symbol {
    if op.OpAnd? then SYM_YES else SYM_NO
  }

  /** The constant that decides an operator: `x && n` is n, `x || y` is y. */
  function Zero(op: Op): Symbol {
    if op.OpAnd? then SYM_NO else SYM_YES
  }

  function Dual(op: Op): Op {
    if op.OpAnd? then OpOr else OpAnd
  }

  predicate IsTriConst(s: Symbol) {
    s == SYM_YES || s == SYM_MOD || s == SYM_NO
  }

  /** The tristate meant by one of the three constants. */
  function ConstTri(s: Symbol): Tristate
    requires IsTriConst(s)
  {
    if s == SYM_YES then YES else if s == SYM_MOD then MOD else NO
  }

  /** What a symbol currently holds: the tristate and the string member of struct symbol_value. */
  datatype Value = Value(tri: Tristate, str: string)

  /** An assignment of values to all symbols, with the value of the MODULES symbol. */
  datatype Env = Env(modules: Tristate, val: Symbol -> Value)

  /** The values that the evaluator can produce: see sym_calc_value. */
  ghost predicate Typed(env: Env) {
    && (forall s: Symbol :: IsTriConst(s) ==> env.val(s) == Value(ConstTri(s), s.name))
    && (forall s: Symbol :: s.ty.Unknown? && !IsTriConst(s) ==> env.val(s) == Value(NO, s.name))
    && (forall s: Symbol :: !s.ty.Unknown? && !s.ty.Boolean? && !s.ty.Tri? ==> env.val(s).tri == NO)
    && (forall s: Symbol :: s.ty.Boolean? ==> env.val(s).tri != MOD)
    && (forall s: Symbol :: s.ty.Tri? && env.modules == NO ==> env.val(s).tri != MOD)
  }

  /** sym_get_string_value. */
  function StringValue(modules: Tristate, s: Symbol, v: Value): string {
    if s.ty.Boolean? || s.ty.Tri? then
      if v.tri == MOD && modules == NO then "n" else TriName(v.tri)
    else v.str
  }

  /** expr_parse_string: how the text of an operand is read, which depends on the operand's type. */
  datatype Parsed = Text | Signed(i: int) | Unsigned(u: int) | Invalid

  function ParseNumber(str: string, base: nat, unsigned: bool): Parsed {
    var c := Convert(str, base);
    if !c.converted || c.rest != [] then Text
    else if unsigned then
      if c.number > ULLONG_MAX || -c.number > ULLONG_MAX then Text
      else Unsigned(if c.number < 0 then c.number + ULLONG_MAX + 1 else c.number)
    else if c.number > LLONG_MAX || c.number < LLONG_MIN then Text
    else Signed(c.number)
  }

  function ParseString(str: string, ty: SymType): Parsed {
    match ty
    case Boolean | Tri => Signed(if str == "n" then 0 else if str == "m" then 1 else if str == "y" then 2 else -1)
    case Int => ParseNumber(str, 10, false)
    case Hex => ParseNumber(str, 16, true)
    case String | Unknown => ParseNumber(str, 0, false)
    case Other => Invalid
  }

  /** The bits of a parsed number read as an unsigned 64-bit word. */
  function AsUnsigned(p: Parsed): int
    requires p.Signed? || p.Unsigned?
  {
    if p.Unsigned? then p.u else if p.i < 0 then p.i + ULLONG_MAX + 1 else p.i
  }

  function Sign(x: int): int {
    if x < 0 then -1 else if x == 0 then 0 else 1
  }

  /** The outcome of comparing two operands; `Unordered` is the k_invalid case. */
  datatype Outcome = Ordered(sign: int) | Unordered(equal: bool)

  function Compare(s1: Symbol, str1: string, s2: Symbol, str2: string): Outcome {
    var k1 := if s1.ty.String? && s2.ty.String? then Text else ParseString(str1, s1.ty);
    var k2 := if s1.ty.String? && s2.ty.String? then Text else ParseString(str2, s2.ty);
    if k1.Text? || k2.Text? then Ordered(Sign(StrCmp(str1, str2)))
    else if k1.Invalid? || k2.Invalid? then Unordered(StrCmp(str1, str2) == 0)
    else if k1.Unsigned? || k2.Unsigned? then Ordered(Sign(AsUnsigned(k1) - AsUnsigned(k2)))
    else Ordered(Sign(k1.i - k2.i))
  }

  predicate Holds(rel: Rel, o: Outcome) {
    match rel
    case Equal => if o.Ordered? then o.sign == 0 else o.equal
    case Unequal => if o.Ordered? then o.sign != 0 else !o.equal
    case Geq => o.Ordered? && o.sign >= 0
    case Gth => o.Ordered? && o.sign > 0
    case Leq => o.Ordered? && o.sign <= 0
    case Lth => o.Ordered? && o.sign < 0
  }

  function CompareIn(env: Env, a: Symbol, b: Symbol): Outcome {
    Compare(a, StringValue(env.modules, a, env.val(a)), b, StringValue(env.modules, b, env.val(b)))
  }

  /** expr_calc_value. */
  function Eval(env: Env, e: Expr): Tristate {
    match e
    case Sym(s) => env.val(s).tri
    case Neg(x) => Not(Eval(env, x))
    case Bin(op, l, r) => Combine(op, Eval(env, l), Eval(env, r))
    case Comp(rel, a, b) => if Holds(rel, CompareIn(env, a, b)) then YES else NO
  }

  /** The symbols an expression mentions: those sym_check_expr_deps visits and expr_contains_symbol finds. */
  function Mentions(e: Expr): set<Symbol> {
    match e
    case Sym(s) => {s}
    case Neg(x) => Mentions(x)
    case Bin(_, l, r) => Mentions(l) + Mentions(r)
    case Comp(_, a, b) => {a, b}
  }

  /** The value of an expression depends only on the symbols it mentions. */
  lemma {:induction false} EvalDependsOnMentions(env: Env, env': Env, e: Expr)
    requires env.modules == env'.modules
    requires forall s :: s in Mentions(e) ==> env.val(s) == env'.val(s)
    ensures Eval(env, e) == Eval(env', e)
  {
    match e
    case Sym(_) =>
    case Neg(x) => EvalDependsOnMentions(env, env', x);
    case Bin(_, l, r) =>
      EvalDependsOnMentions(env, env', l);
      EvalDependsOnMentions(env, env', r);
    case Comp(_, _, _) =>
  }

  /** The tristate that a constant's text compares equal to, or -1: `n`, `m`, `y` and the numerals of 0, 1 and 2. */
  function Denotes(name: string): (d: int)
    ensures -1 <= d <= 2
  {
    var p := ParseString(name, Unknown);
    if p.Signed? then (if 0 <= p.i <= 2 then p.i else -1)
    else if name == "n" then 0 else if name == "m" then 1 else if name == "y" then 2 else -1
  }

  /** Comparing a bool or tristate symbol with a constant asks whether the constant denotes its value. */
  lemma CompareWithConst(env: Env, a: Symbol, c: Symbol)
    requires Typed(env) && (a.ty.Boolean? || a.ty.Tri?) && c.ty.Unknown?
    ensures CompareIn(env, a, c).Ordered?
    ensures CompareIn(env, a, c).sign == 0 <==> env.val(a).tri == Denotes(c.name)
  {
    var t := env.val(a).tri;
    StrCmpZero(TriName(t), c.name);
    assert env.val(c).str == c.name;
    assert "n"[0] == 'n' && "m"[0] == 'm' && "y"[0] == 'y';
    assert ParseString(TriName(t), a.ty) == Signed(t);
  }

  lemma LettersDenote()
    ensures Denotes("n") == NO && Denotes("m") == MOD && Denotes("y") == YES
  {
    assert SkipSpace("n") == "n" && SkipSpace("m") == "m" && SkipSpace("y") == "y";
    assert ScanDigits("n", 10, 0) == (0, "n");
    assert ScanDigits("m", 10, 0) == (0, "m");
    assert ScanDigits("y", 10, 0) == (0, "y");
    assert "n"[0] == 'n' && "m"[0] == 'm' && "y"[0] == 'y';
  }

  lemma CompareWithTriConst(env: Env, a: Symbol, c: Symbol)
    requires Typed(env) && (a.ty.Boolean? || a.ty.Tri?) && IsTriConst(c)
    ensures Eval(env, Comp(Equal, a, c)) == (if env.val(a).tri == ConstTri(c) then YES else NO)
    ensures Eval(env, Comp(Unequal, a, c)) == (if env.val(a).tri == ConstTri(c) then NO else YES)
  {
    hide CompareIn, Denotes;
    CompareWithConst(env, a, c);
    LettersDenote();
  }

  /** No comparison with a symbol of type S_OTHER, whose ordering tests all answer no. */
  predicate Comparable(e: Expr) {
    match e
    case Sym(_) => true
    case Neg(x) => Comparable(x)
    case Bin(_, l, r) => Comparable(l) && Comparable(r)
    case Comp(_, a, b) => !a.ty.Other? && !b.ty.Other?
  }

  /**
    The expressions whose operands can be joined: no symbol of type S_OTHER, and no numeral 0, 1 or 2
    against a tristate symbol, where it would stand for n, m or y.
   */
  predicate WellFormed(e: Expr) {
    match e
    case Sym(s) => !s.ty.Other?
    case Neg(x) => WellFormed(x)
    case Bin(_, l, r) => WellFormed(l) && WellFormed(r)
    case Comp(_, a, b) =>
      && !a.ty.Other? && !b.ty.Other?
      && (a.ty.Tri? && b.isConst ==> b.ty.Unknown? && (IsTriConst(b) || Denotes(b.name) == -1))
  }

  lemma {:induction false} WellFormedComparable(e: Expr)
    requires WellFormed(e)
    ensures Comparable(e)
  {
    match e
    case Neg(x) => WellFormedComparable(x);
    case Bin(_, l, r) =>
      WellFormedComparable(l);
      WellFormedComparable(r);
    case _ =>
  }
}
