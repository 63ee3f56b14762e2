/**
  What the value of a symbol is, as a function of the values of the symbols it depends on: the
  meaning of sym_calc_visibility and sym_calc_value (symbol.c) without cache, for symbols that are
  neither choices nor choice values. An assignment that agrees with these equations everywhere is a
  solution; without cyclic dependencies there is exactly one.
 */
module Semantics {
  import opened CStrings
  import opened Options
  import opened Tristates
  import opened Exprs
  import opened Submenu

  datatype Default = Default(cond: Condition, value: Expr)

  datatype Range = Range(cond: Condition, lo: Symbol, hi: Symbol)

  /** The properties of a symbol and the dependencies menu_finalize collected for it. */
  datatype SymDef = SymDef(
    prompts: seq<Condition>,
    defaults: seq<Default>,
    ranges: seq<Range>,
    dirDep: Condition,
    revDep: Condition,
    implied: Condition,
    auto: bool)

  type Defs = map<Symbol, SymDef>

  /** User values: SYMBOL_DEF_USER is set for the keys, def[S_DEF_USER] is what they map to. */
  type Users = map<Symbol, Value>

  function UserOf(users: Users, s: Symbol): Option<Value> {
    if s in users then Some(users[s]) else None
  }

  predicate HasType(s: Symbol) {
    !s.ty.Unknown? && !s.ty.Other?
  }

  /** sym_get_type() == S_BOOLEAN. */
  predicate IsBool(env: Env, s: Symbol) {
    s.ty.Boolean? || (s.ty.Tri? && env.modules == NO)
  }

  function PromoteFor(env: Env, s: Symbol, t: Tristate): Tristate {
    if t == MOD && IsBool(env, s) then YES else t
  }

  function PromptMax(env: Env, prompts: seq<Condition>): Tristate {
    if prompts == [] then NO
    else Or(PromptMax(env, prompts[..|prompts| - 1]), EvalCondition(env, prompts[|prompts| - 1]))
  }

  function Visible(env: Env, s: Symbol, d: SymDef): Tristate {
    var t := PromptMax(env, d.prompts);
    if t == MOD && (!s.ty.Tri? || env.modules == NO) then YES else t
  }

  function DirDep(env: Env, s: Symbol, d: SymDef): Tristate {
    PromoteFor(env, s, EvalCondition(env, d.dirDep))
  }

  function RevDep(env: Env, s: Symbol, d: SymDef): Tristate {
    PromoteFor(env, s, if d.revDep.Some? then Eval(env, d.revDep.value) else NO)
  }

  function Implied(env: Env, s: Symbol, d: SymDef): Tristate {
    PromoteFor(env, s, if d.implied.Some? && DirDep(env, s, d) != NO then Eval(env, d.implied.value) else NO)
  }

  /** sym_get_default_prop: the first default whose condition is not n. */
  function FirstDefault(env: Env, ds: seq<Default>): Option<Default> {
    if ds == [] then None
    else if EvalCondition(env, ds[0].cond) != NO then Some(ds[0])
    else FirstDefault(env, ds[1..])
  }

  /** sym_get_range_prop. */
  function FirstRange(env: Env, rs: seq<Range>): Option<Range> {
    if rs == [] then None
    else if EvalCondition(env, rs[0].cond) != NO then Some(rs[0])
    else FirstRange(env, rs[1..])
  }

  function DefaultTri(env: Env, d: SymDef): Tristate {
    match FirstDefault(env, d.defaults)
    case None => NO
    case Some(p) => And(Eval(env, p.value), EvalCondition(env, p.cond))
  }

  function DefaultStr(env: Env, d: SymDef): string {
    match FirstDefault(env, d.defaults)
    case Some(Default(_, Sym(ds))) => env.val(ds).str
    case _ => ""
  }

  /** The value of a bool or tristate symbol: bounded by visibility if the user set it, never below its selects. */
  function CalcTri(env: Env, s: Symbol, d: SymDef, user: Option<Value>): Tristate {
    var base := if Visible(env, s, d) != NO && user.Some? then And(user.value.tri, Visible(env, s, d))
                else Or(DefaultTri(env, d), Implied(env, s, d));
    var t := Or(base, RevDep(env, s, d));
    if t == MOD && (IsBool(env, s) || Implied(env, s, d) == YES) then YES else t
  }

  function CalcStr(env: Env, s: Symbol, d: SymDef, user: Option<Value>): string {
    if Visible(env, s, d) != NO && user.Some? then user.value.str else DefaultStr(env, d)
  }

  function BaseOf(s: Symbol, base: nat): nat {
    if s.ty.Int? then 10 else if s.ty.Hex? then 16 else base
  }

  /** sym_get_range_val. */
  function RangeVal(env: Env, s: Symbol, base: nat): int {
    StrToLL(env.val(s).str, BaseOf(s, base))
  }

  /** sym_validate_range. */
  function ValidateRange(env: Env, s: Symbol, d: SymDef, str: string): string {
    if !s.ty.Int? && !s.ty.Hex? then str
    else
      match FirstRange(env, d.ranges)
      case None => str
      case Some(p) =>
        var base := BaseOf(s, 0);
        Clamp(str, base, RangeVal(env, p.lo, base), RangeVal(env, p.hi, base))
  }

  /** A number out of bounds is replaced by the bound it violates, the lower one first. */
  function Clamp(str: string, base: nat, lo: int, hi: int): string {
    var n := StrToLL(str, base);
    if n < lo then Format(lo, base) else if n > hi then Format(hi, base) else str
  }

  function Format(n: int, base: nat): string {
    if base == 10 then FormatInt(n) else "0x" + FormatHex(n)
  }

  /** sym_calc_value: the cached value of a symbol that is neither a choice nor a choice value. */
  function Calc(env: Env, s: Symbol, d: SymDef, user: Option<Value>): Value {
    match s.ty
    case Boolean => Value(CalcTri(env, s, d, user), "n")
    case Tri => Value(CalcTri(env, s, d, user), "n")
    case Int => Value(NO, ValidateRange(env, s, d, CalcStr(env, s, d, user)))
    case Hex => Value(NO, ValidateRange(env, s, d, CalcStr(env, s, d, user)))
    case String => Value(NO, ValidateRange(env, s, d, CalcStr(env, s, d, user)))
    case Unknown => Value(NO, s.name)
    case Other => Value(NO, s.name)
  }

  /** Someone selects or implies the symbol, or it has a default: reasons to write it that are not visibility. */
  predicate HasReason(env: Env, s: Symbol, d: SymDef) {
    if s.ty.Boolean? || s.ty.Tri? then
      RevDep(env, s, d) != NO || DefaultTri(env, d) != NO || Implied(env, s, d) != NO
    else
      var p := FirstDefault(env, d.defaults); p.Some? && p.value.value.Sym?
  }

  /** SYMBOL_WRITE: the symbol goes to the configuration file. */
  predicate Written(env: Env, s: Symbol, d: SymDef) {
    !d.auto && (Visible(env, s, d) != NO || HasReason(env, s, d))
  }

  /** The equation for one symbol; symbols without a definition stand for their own name. */
  function SymValue(env: Env, defs: Defs, users: Users, s: Symbol): Value {
    if IsTriConst(s) then Value(ConstTri(s), s.name)
    else if s in defs then Calc(env, s, defs[s], UserOf(users, s))
    else Value(NO, s.name)
  }

  ghost predicate Solves(env: Env, defs: Defs, users: Users) {
    forall s: Symbol :: env.val(s) == SymValue(env, defs, users, s)
  }

  function ConditionDeps(c: Condition): set<Symbol> {
    if c.Some? then Mentions(c.value) else {}
  }

  function DefaultDeps(p: Default): set<Symbol> {
    ConditionDeps(p.cond) + Mentions(p.value)
  }

  function RangeDeps(p: Range): set<Symbol> {
    ConditionDeps(p.cond) + {p.lo, p.hi}
  }

  /** All symbols whose values the evaluation of a symbol looks at; only numbers have their range checked. */
  ghost function Deps(s: Symbol, d: SymDef): set<Symbol> {
    (set c, t | c in d.prompts && t in ConditionDeps(c) :: t)
    + (set p, t | p in d.defaults && t in DefaultDeps(p) :: t)
    + (set p, t | (s.ty.Int? || s.ty.Hex?) && p in d.ranges && t in RangeDeps(p) :: t)
    + ConditionDeps(d.dirDep) + ConditionDeps(d.revDep) + ConditionDeps(d.implied)
  }

  /** No symbol depends on itself, however indirectly: dependencies have lower rank. */
  ghost predicate Acyclic(defs: Defs, rank: Symbol -> nat) {
    forall s, t :: s in defs && t in Deps(s, defs[s]) ==> rank(t) < rank(s)
  }

  /** The two assignments agree on the given symbols. */
  ghost predicate Agree(env: Env, env': Env, ss: set<Symbol>) {
    env.modules == env'.modules && forall s :: s in ss ==> env.val(s) == env'.val(s)
  }

  lemma ConditionAgree(env: Env, env': Env, c: Condition)
    requires Agree(env, env', ConditionDeps(c))
    ensures EvalCondition(env, c) == EvalCondition(env', c)
  {
    hide Eval;
    if c.Some? {
      EvalDependsOnMentions(env, env', c.value);
    }
  }

  lemma {:induction false} PromptMaxAgree(env: Env, env': Env, prompts: seq<Condition>)
    requires forall c :: c in prompts ==> Agree(env, env', ConditionDeps(c))
    ensures PromptMax(env, prompts) == PromptMax(env', prompts)
  {
    hide Eval;
    if prompts != [] {
      assert prompts[|prompts| - 1] in prompts;
      ConditionAgree(env, env', prompts[|prompts| - 1]);
      PromptMaxAgree(env, env', prompts[..|prompts| - 1]);
    }
  }

  lemma {:induction false} FirstDefaultAgree(env: Env, env': Env, ds: seq<Default>)
    requires forall p :: p in ds ==> Agree(env, env', ConditionDeps(p.cond))
    ensures FirstDefault(env, ds) == FirstDefault(env', ds)
    ensures FirstDefault(env, ds).Some? ==> FirstDefault(env, ds).value in ds
  {
    hide Eval;
    if ds != [] {
      ConditionAgree(env, env', ds[0].cond);
      FirstDefaultAgree(env, env', ds[1..]);
    }
  }

  lemma {:induction false} FirstRangeAgree(env: Env, env': Env, rs: seq<Range>)
    requires forall p :: p in rs ==> Agree(env, env', ConditionDeps(p.cond))
    ensures FirstRange(env, rs) == FirstRange(env', rs)
    ensures FirstRange(env, rs).Some? ==> FirstRange(env, rs).value in rs
  {
    hide Eval;
    if rs != [] {
      ConditionAgree(env, env', rs[0].cond);
      FirstRangeAgree(env, env', rs[1..]);
    }
  }

  lemma DepsParts(s: Symbol, d: SymDef)
    ensures forall c :: c in d.prompts ==> ConditionDeps(c) <= Deps(s, d)
    ensures forall p :: p in d.defaults ==> ConditionDeps(p.cond) <= Deps(s, d) && Mentions(p.value) <= Deps(s, d)
    ensures s.ty.Int? || s.ty.Hex? ==>
              forall p :: p in d.ranges ==>
                ConditionDeps(p.cond) <= Deps(s, d) && p.lo in Deps(s, d) && p.hi in Deps(s, d)
    ensures ConditionDeps(d.dirDep) <= Deps(s, d) && ConditionDeps(d.revDep) <= Deps(s, d)
        && ConditionDeps(d.implied) <= Deps(s, d)
  {
    hide Mentions;
    forall p | p in d.defaults ensures DefaultDeps(p) <= Deps(s, d) {
    }
    forall p | (s.ty.Int? || s.ty.Hex?) && p in d.ranges ensures RangeDeps(p) <= Deps(s, d) {
    }
  }

  /** Everything computed for a symbol depends only on its dependencies. */
  lemma VisibilityAgree(env: Env, env': Env, s: Symbol, d: SymDef)
    requires Agree(env, env', Deps(s, d))
    ensures Visible(env, s, d) == Visible(env', s, d)
    ensures DirDep(env, s, d) == DirDep(env', s, d)
    ensures RevDep(env, s, d) == RevDep(env', s, d)
    ensures Implied(env, s, d) == Implied(env', s, d)
  {
    hide Eval, Deps;
    DepsParts(s, d);
    PromptMaxAgree(env, env', d.prompts);
    ConditionAgree(env, env', d.dirDep);
    ConditionAgree(env, env', d.revDep);
    ConditionAgree(env, env', d.implied);
  }

  lemma DefaultsAgree(env: Env, env': Env, s: Symbol, d: SymDef)
    requires Agree(env, env', Deps(s, d))
    ensures FirstDefault(env, d.defaults) == FirstDefault(env', d.defaults)
    ensures DefaultTri(env, d) == DefaultTri(env', d) && DefaultStr(env, d) == DefaultStr(env', d)
  {
    hide Eval, Deps;
    DepsParts(s, d);
    FirstDefaultAgree(env, env', d.defaults);
    var p := FirstDefault(env, d.defaults);
    if p.Some? {
      ConditionAgree(env, env', p.value.cond);
      EvalDependsOnMentions(env, env', p.value.value);
      if p.value.value.Sym? {
        assert p.value.value.s in Mentions(p.value.value);
      }
    }
  }

  lemma ValidateRangeAgree(env: Env, env': Env, s: Symbol, d: SymDef, str: string)
    requires Agree(env, env', Deps(s, d))
    ensures ValidateRange(env, s, d, str) == ValidateRange(env', s, d, str)
  {
    hide Eval, Deps;
    DepsParts(s, d);
    if s.ty.Int? || s.ty.Hex? {
      FirstRangeAgree(env, env', d.ranges);
    }
  }

  lemma CalcAgree(env: Env, env': Env, s: Symbol, d: SymDef, user: Option<Value>)
    requires Agree(env, env', Deps(s, d))
    ensures Calc(env, s, d, user) == Calc(env', s, d, user)
    ensures Written(env, s, d) == Written(env', s, d)
  {
    hide Eval, Deps, ValidateRange, Visible, DirDep, RevDep, Implied, DefaultTri, DefaultStr;
    VisibilityAgree(env, env', s, d);
    DefaultsAgree(env, env', s, d);
    ValidateRangeAgree(env, env', s, d, CalcStr(env, s, d, user));
  }

  /** Without cycles two solutions agree on every symbol. */
  lemma {:induction false} SolutionUnique(env: Env, env': Env, defs: Defs, users: Users, rank: Symbol -> nat, s: Symbol)
    requires env.modules == env'.modules && Acyclic(defs, rank)
    requires Solves(env, defs, users) && Solves(env', defs, users)
    ensures env.val(s) == env'.val(s)
    decreases rank(s)
  {
    hide Calc, Deps;
    if s in defs {
      forall t | t in Deps(s, defs[s]) ensures env.val(t) == env'.val(t) {
        SolutionUnique(env, env', defs, users, rank, t);
      }
      CalcAgree(env, env', s, defs[s], UserOf(users, s));
    }
  }

  /** The solution, computed along the ranks. */
  ghost function Solution(modules: Tristate, defs: Defs, users: Users, rank: Symbol -> nat, s: Symbol): Value
    decreases rank(s)
  {
    var below := (t: Symbol) => if rank(t) < rank(s) then Solution(modules, defs, users, rank, t) else Value(NO, "");
    SymValue(Env(modules, below), defs, users, s)
  }

  /** Without cycles there is a solution. */
  lemma SolutionExists(modules: Tristate, defs: Defs, users: Users, rank: Symbol -> nat)
    requires Acyclic(defs, rank)
    ensures Solves(Env(modules, (s: Symbol) => Solution(modules, defs, users, rank, s)), defs, users)
  {
    hide Calc, Deps;
    var env := Env(modules, (s: Symbol) => Solution(modules, defs, users, rank, s));
    forall s: Symbol ensures env.val(s) == SymValue(env, defs, users, s) {
      var below := (t: Symbol) => if rank(t) < rank(s) then Solution(modules, defs, users, rank, t) else Value(NO, "");
      assert env.val(s) == SymValue(Env(modules, below), defs, users, s);
      if s in defs {
        CalcAgree(Env(modules, below), env, s, defs[s], UserOf(users, s));
      }
    }
  }

  /** Solutions are assignments of the kind under which the optimiser keeps the value of expressions. */
  lemma SolutionTyped(env: Env, defs: Defs, users: Users)
    requires Solves(env, defs, users)
    ensures Typed(env)
  {
    hide Visible, DirDep, RevDep, Implied, DefaultTri, DefaultStr, ValidateRange;
    forall s: Symbol
      ensures IsTriConst(s) ==> env.val(s) == Value(ConstTri(s), s.name)
      ensures s.ty.Unknown? && !IsTriConst(s) ==> env.val(s) == Value(NO, s.name)
      ensures !s.ty.Unknown? && !s.ty.Boolean? && !s.ty.Tri? ==> env.val(s).tri == NO
      ensures s.ty.Boolean? ==> env.val(s).tri != MOD
      ensures s.ty.Tri? && env.modules == NO ==> env.val(s).tri != MOD
    {
      assert env.val(s) == SymValue(env, defs, users, s);
    }
  }
}
