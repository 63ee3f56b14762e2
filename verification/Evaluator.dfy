/**
  The symbol store and its memoised recursive evaluator (sym_calc_value and what it calls, symbol.c),
  proved to compute the solution of the equations in Semantics. Evaluation terminates on every input;
  that the cache is right is claimed for dependencies without cycles.
 */
module Evaluator {
  import opened CStrings
  import opened Options
  import opened Tristates
  import opened Exprs
  import opened Submenu
  import opened Semantics
  import opened GroupedSemantics
  import Choices

  /**
    The members of struct symbol that evaluation assigns, SYMBOL_WRITE among them. Of a choice, `chosen` is
    curr.val, and `shown` the `visible` of its members as last calculated for the choice.
   */
  datatype State = State(curr: Value, visible: Tristate, dirDep: Tristate, revDep: Tristate, implied: Tristate,
      write: bool, chosen: Option<Symbol>, shown: map<Symbol, Tristate>)

  const INITIAL: State := State(Value(NO, ""), NO, NO, NO, NO, false, None, map[])

  /** What the members of an evaluated symbol should be. */
  ghost function StateOf(env: Env, s: Symbol, d: SymDef, user: Option<Value>): State {
    State(Calc(env, s, d, user), Visible(env, s, d), DirDep(env, s, d), RevDep(env, s, d), Implied(env, s, d),
        Written(env, s, d), None, map[])
  }

  /** The same for a member of a choice: what selects or implies it is not looked at. */
  ghost function MemberState(env: Env, defs: Defs, gs: Groups, picks: Picks, m: Symbol): State
    requires WellGrouped(defs, gs) && m in gs.choice
  {
    State(GroupedValue(env, defs, gs, map[], picks, m), if MemberShown(env, defs, gs, m) then YES else NO, NO, NO, NO,
      MemberWritten(env, defs, gs, m), None, map[])
  }

  /** And for a choice, whose members' visibility counts while its prompt shows. */
  ghost predicate IsChoiceState(env: Env, defs: Defs, gs: Groups, picks: Picks, c: Symbol, st: State)
    requires WellGrouped(defs, gs) && c in gs.members
  {
    && st.curr == Value(if Settles(env, defs, gs, picks, c).Some? then YES else NO, "n")
    && st.chosen == Settles(env, defs, gs, picks, c)
    && st.visible == Visible(env, c, defs[c]) && (st.write <==> st.visible != NO && !defs[c].auto)
    && (PromptMax(env, defs[c].prompts) != NO ==> ShowsRight(env, defs, gs, c, st.shown))
  }

  function ShownIn(shown: map<Symbol, Tristate>, m: Symbol): Tristate {
    if m in shown then shown[m] else NO
  }

  ghost predicate ShowsRight(env: Env, defs: Defs, gs: Groups, c: Symbol, shown: map<Symbol, Tristate>)
    requires WellGrouped(defs, gs) && c in gs.members
  {
    forall m :: m in gs.members[c] ==> ShownIn(shown, m) == if MemberShown(env, defs, gs, m) then YES else NO
  }

  /** The value of a symbol before its range is checked. */
  ghost function Unranged(env: Env, s: Symbol, d: SymDef, user: Option<Value>): Value {
    if s.ty.Boolean? || s.ty.Tri? then Value(CalcTri(env, s, d, user), "n") else Value(NO, CalcStr(env, s, d, user))
  }

  lemma CalcIsRanged(env: Env, s: Symbol, d: SymDef, user: Option<Value>)
    requires HasType(s)
    ensures var v := Unranged(env, s, d, user); Calc(env, s, d, user) == Value(v.tri, ValidateRange(env, s, d, v.str))
  {
  }

  function GetIn(m: map<Symbol, State>, s: Symbol): State {
    if s in m then m[s] else INITIAL
  }

  /** A solution of the equations and a ranking that shows the dependencies acyclic; choices and selections are given. */
  datatype Oracle = Oracle(env: Env, rank: Symbol -> nat, gs: Groups, picks: Picks)

  ghost predicate CorrectAs(o: Oracle, defs: Defs, users: Users, printed: set<Symbol>, s: Symbol, st: State) {
    && (if IsTriConst(s) then Value(ConstTri(s), s.name) else st.curr) == o.env.val(s)
    && WellGrouped(defs, o.gs)
    && (s in defs && HasType(s) ==>
          if s in o.gs.members then IsChoiceState(o.env, defs, o.gs, o.picks, s, st)
          else
            var full := if s in o.gs.choice then MemberState(o.env, defs, o.gs, o.picks, s)
                        else StateOf(o.env, s, defs[s], UserOf(users, s));
            st == if s in printed then full.(write := false) else full)
  }

  datatype Moment = Moment(valid: set<Symbol>, states: map<Symbol, State>)

  /** Evaluation below rank `k` leaves the symbols at `k` and above alone. */
  ghost predicate Grew(o: Oracle, k: nat, a: Moment, b: Moment) {
    && a.valid <= b.valid
    && forall s :: o.rank(s) >= k ==> (s in b.valid <==> s in a.valid) && GetIn(b.states, s) == GetIn(a.states, s)
  }

  /** The same while the members of `s` itself, of rank `k`, are assigned. */
  ghost predicate GrewBut(o: Oracle, k: nat, s: Symbol, a: Moment, b: Moment) {
    && a.valid <= b.valid && (s in b.valid <==> s in a.valid)
    && forall t :: t != s && o.rank(t) >= k ==>
        (t in b.valid <==> t in a.valid) && GetIn(b.states, t) == GetIn(a.states, t)
  }

  ghost predicate AllCorrect(o: Oracle, k: nat, defs: Defs, users: Users, printed: set<Symbol>, m: Moment) {
    forall s :: s in m.valid && o.rank(s) < k ==> CorrectAs(o, defs, users, printed, s, GetIn(m.states, s))
  }

  /** From the correctness of what lies below `s` and of `s` itself to that of everything below `k`. */
  lemma CorrectAfter(o: Oracle, k: nat, defs: Defs, users: Users, printed: set<Symbol>, s: Symbol, a: Moment, b: Moment)
    requires s !in a.valid && o.rank(s) < k
    requires AllCorrect(o, k, defs, users, printed, a)
    requires GrewBut(o, o.rank(s), s, a.(valid := a.valid + {s}), b)
    requires AllCorrect(o, o.rank(s), defs, users, printed, b)
        && CorrectAs(o, defs, users, printed, s, GetIn(b.states, s))
    ensures AllCorrect(o, k, defs, users, printed, b) && Grew(o, k, a, b)
  {
    hide CorrectAs;
    forall t | t in b.valid && o.rank(t) < k ensures CorrectAs(o, defs, users, printed, t, GetIn(b.states, t)) {
      if t != s && o.rank(t) >= o.rank(s) {
        assert t in a.valid;
      }
    }
  }

  /** Marking a symbol valid does not concern what lies below it. */
  lemma CorrectBelow(o: Oracle, k: nat, defs: Defs, users: Users, printed: set<Symbol>, s: Symbol, a: Moment)
    requires AllCorrect(o, k, defs, users, printed, a) && o.rank(s) <= k
    ensures AllCorrect(o, o.rank(s), defs, users, printed, a.(valid := a.valid + {s}))
  {
    hide CorrectAs;
  }

  lemma GrewTransitive(o: Oracle, k: nat)
    ensures forall a, b, c :: Grew(o, k, a, b) && Grew(o, k, b, c) ==> Grew(o, k, a, c)
    ensures forall a :: Grew(o, k, a, a)
  {
  }

  class Config {
    const defs: Defs
    const modules: Tristate
    /** The choices and their members. */
    const gs: Groups
    /** SYMBOL_DEF_USER and def[S_DEF_USER]. */
    var users: Users
    /** def[S_DEF_USER].val of the choices. */
    var picks: Picks
    /** SYMBOL_VALID. */
    var valid: set<Symbol>
    var states: map<Symbol, State>
    /** The valid symbols whose SYMBOL_WRITE has been cleared because they were written. */
    ghost var printed: set<Symbol>

    constructor (defs: Defs, modules: Tristate, gs: Groups, users: Users, picks: Picks)
      requires forall s :: s in defs ==> !IsTriConst(s)
      ensures this.defs == defs && this.modules == modules && this.gs == gs
      ensures this.users == users && this.picks == picks && valid == printed == {}
    {
      this.defs, this.modules, this.gs, this.users, this.picks := defs, modules, gs, users, picks;
      valid, states, printed := {}, map[], {};
    }

    function Get(s: Symbol): State
      reads this`states
    {
      GetIn(states, s)
    }

    /** sym->curr; the three constants are initialised statically. */
    function Curr(s: Symbol): Value
      reads this`states
    {
      if IsTriConst(s) then Value(ConstTri(s), s.name) else Get(s).curr
    }

    ghost predicate Good(o: Oracle)
      reads this`users, this`picks
    {
      && o.env.modules == modules && o.gs == gs && o.picks == picks
      && WellGrouped(defs, gs) && GoodPicks(gs, picks)
      && GroupedSolves(o.env, defs, gs, users, picks)
      && GroupedAcyclic(defs, gs, o.rank)
      && forall s :: s in defs ==> !IsTriConst(s)
    }

    /** Neither a choice nor a member of one. */
    predicate Plain(s: Symbol) {
      s !in gs.members && s !in gs.choice
    }

    /** The members of a valid symbol are what the solution says. */
    ghost predicate Correct(o: Oracle, s: Symbol)
      reads this`states, this`users, this`printed
    {
      CorrectAs(o, defs, users, printed, s, Get(s))
    }

    /** The valid symbols below rank `k` hold their solution; those at `k` and above may be under evaluation. */
    ghost predicate Inv(o: Oracle, k: nat)
      reads this
    {
      Good(o) && printed <= valid && AllCorrect(o, k, defs, users, printed, Now())
    }

    /** The flags and members that evaluation changes, at one moment. */
    ghost function Now(): Moment
      reads this`valid, this`states
    {
      Moment(valid, states)
    }

    ghost function Unvalid(): nat
      reads this`valid
    {
      |defs.Keys - valid|
    }

    lemma StillCorrect(o: Oracle, k: nat, s: Symbol)
      ensures Inv(o, k) && o.rank(s) < k && (s in valid || IsTriConst(s)) ==>
          Curr(s) == o.env.val(s) && o.env.modules == modules
    {
      if Inv(o, k) && IsTriConst(s) {
        assert o.env.val(s) == GroupedValue(o.env, defs, gs, users, picks, s);
      }
    }

    /** expr_calc_value. */
    method EvalExpr(e: Expr, ghost o: Oracle, ghost k: nat) returns (t: Tristate)
      modifies this
      ensures users == old(users) && picks == old(picks) && printed == old(printed) && old(valid) <= valid
          && Unvalid() <= old(Unvalid())
      ensures old(Inv(o, k)) && (forall s :: s in Mentions(e) ==> o.rank(s) < k) ==>
                Inv(o, k) && Grew(o, k, old(Now()), Now()) && t == Eval(o.env, e)
      decreases Unvalid(), 2, 1, e
    {
      hide Inv, Grew, CompareIn, Holds, Unvalid, Curr, Combine;
      GrewTransitive(o, k);
      match e {
        case Sym(s) =>
          CalcValue(s, o, k);
          StillCorrect(o, k, s);
          t := Curr(s).tri;
        case Neg(x) =>
          t := EvalExpr(x, o, k);
          t := Not(t);
        case Bin(op, l, r) =>
          t := EvalExpr(l, o, k);
          var u := EvalExpr(r, o, k);
          t := Combine(op, t, u);
        case Comp(rel, a, b) =>
          var outcome := EvalComparison(a, b, o, k);
          t := if Holds(rel, outcome) then YES else NO;
      }
    }

    /** The comparisons of expr_calc_value: both operands are calculated and then compared as text or numbers. */
    method EvalComparison(a: Symbol, b: Symbol, ghost o: Oracle, ghost k: nat) returns (outcome: Outcome)
      modifies this
      ensures users == old(users) && picks == old(picks) && printed == old(printed) && old(valid) <= valid
          && Unvalid() <= old(Unvalid())
      ensures old(Inv(o, k)) && o.rank(a) < k && o.rank(b) < k ==>
                Inv(o, k) && Grew(o, k, old(Now()), Now()) && outcome == CompareIn(o.env, a, b)
      decreases Unvalid(), 2, 0
    {
      hide Inv, Grew, Compare, StringValue;
      GrewTransitive(o, k);
      CalcValue(a, o, k);
      CalcValue(b, o, k);
      StillCorrect(o, k, a);
      StillCorrect(o, k, b);
      var str1 := StringValue(modules, a, Curr(a));
      var str2 := StringValue(modules, b, Curr(b));
      outcome := Compare(a, str1, b, str2);
    }

    method EvalCond(c: Condition, ghost o: Oracle, ghost k: nat) returns (t: Tristate)
      modifies this
      ensures users == old(users) && picks == old(picks) && printed == old(printed) && old(valid) <= valid
          && Unvalid() <= old(Unvalid())
      ensures old(Inv(o, k)) && (forall s :: s in ConditionDeps(c) ==> o.rank(s) < k) ==>
                Inv(o, k) && Grew(o, k, old(Now()), Now()) && t == EvalCondition(o.env, c)
      decreases Unvalid(), 3
    {
      if c.None? {
        return YES;
      }
      t := EvalExpr(c.value, o, k);
    }

    /** The loop over the prompts of a symbol in sym_calc_visibility. */
    method EvalPrompts(prompts: seq<Condition>, ghost o: Oracle, ghost k: nat) returns (t: Tristate)
      modifies this
      ensures users == old(users) && picks == old(picks) && printed == old(printed) && old(valid) <= valid
          && Unvalid() <= old(Unvalid())
      ensures old(Inv(o, k)) && (forall c, s :: c in prompts && s in ConditionDeps(c) ==> o.rank(s) < k) ==>
                Inv(o, k) && Grew(o, k, old(Now()), Now()) && t == PromptMax(o.env, prompts)
      decreases Unvalid(), 4
    {
      hide Inv, Grew, Eval, Acyclic;
      GrewTransitive(o, k);
      ghost var ok := Inv(o, k) && forall c, s :: c in prompts && s in ConditionDeps(c) ==> o.rank(s) < k;
      t := NO;
      var i := 0;
      while i < |prompts|
        invariant 0 <= i <= |prompts|
        invariant users == old(users) && picks == old(picks) && printed == old(printed) && old(valid) <= valid
            && Unvalid() <= old(Unvalid())
        invariant ok ==> Inv(o, k) && Grew(o, k, old(Now()), Now()) && t == PromptMax(o.env, prompts[..i])
      {
        assert prompts[i] in prompts;
        var u := EvalCond(prompts[i], o, k);
        t := Or(t, u);
        assert prompts[..i + 1][..i] == prompts[..i];
        i := i + 1;
      }
      assert prompts[..i] == prompts;
    }

    /** sym_get_default_prop. */
    method FindDefault(ds: seq<Default>, ghost o: Oracle, ghost k: nat) returns (p: Option<Default>, cond: Tristate)
      modifies this
      ensures users == old(users) && picks == old(picks) && printed == old(printed) && old(valid) <= valid
          && Unvalid() <= old(Unvalid())
      ensures old(Inv(o, k)) && (forall q, s :: q in ds && s in ConditionDeps(q.cond) ==> o.rank(s) < k) ==>
                Inv(o, k) && Grew(o, k, old(Now()), Now()) && p == FirstDefault(o.env, ds)
                && (p.Some? ==> p.value in ds && cond == EvalCondition(o.env, p.value.cond))
      decreases Unvalid(), 4
    {
      hide Inv, Grew, Eval, Acyclic;
      GrewTransitive(o, k);
      ghost var ok := Inv(o, k) && forall q, s :: q in ds && s in ConditionDeps(q.cond) ==> o.rank(s) < k;
      p, cond := None, NO;
      var i := 0;
      while i < |ds|
        invariant 0 <= i <= |ds|
        invariant users == old(users) && picks == old(picks) && printed == old(printed) && old(valid) <= valid
            && Unvalid() <= old(Unvalid())
        invariant ok ==>
            Inv(o, k) && Grew(o, k, old(Now()), Now()) && FirstDefault(o.env, ds) == FirstDefault(o.env, ds[i..])
      {
        assert ds[i] in ds && ds[i..][1..] == ds[i + 1..];
        cond := EvalCond(ds[i].cond, o, k);
        if cond != NO {
          return Some(ds[i]), cond;
        }
        i := i + 1;
      }
    }

    /** sym_get_range_prop. */
    method FindRange(rs: seq<Range>, ghost o: Oracle, ghost k: nat) returns (p: Option<Range>)
      modifies this
      ensures users == old(users) && picks == old(picks) && printed == old(printed) && old(valid) <= valid
          && Unvalid() <= old(Unvalid())
      ensures old(Inv(o, k)) && (forall q, s :: q in rs && s in ConditionDeps(q.cond) ==> o.rank(s) < k) ==>
                Inv(o, k) && Grew(o, k, old(Now()), Now()) && p == FirstRange(o.env, rs) && (p.Some? ==> p.value in rs)
      decreases Unvalid(), 4
    {
      hide Inv, Grew, Eval, Acyclic;
      GrewTransitive(o, k);
      ghost var ok := Inv(o, k) && forall q, s :: q in rs && s in ConditionDeps(q.cond) ==> o.rank(s) < k;
      var i := 0;
      while i < |rs|
        invariant 0 <= i <= |rs|
        invariant users == old(users) && picks == old(picks) && printed == old(printed) && old(valid) <= valid
            && Unvalid() <= old(Unvalid())
        invariant ok ==> Inv(o, k) && Grew(o, k, old(Now()), Now()) && FirstRange(o.env, rs) == FirstRange(o.env, rs[i..])
      {
        assert rs[i] in rs && rs[i..][1..] == rs[i + 1..];
        var cond := EvalCond(rs[i].cond, o, k);
        if cond != NO {
          return Some(rs[i]);
        }
        i := i + 1;
      }
      p := None;
    }

    /** An assignment to members of `s`, which is being evaluated. */
    method Assign(s: Symbol, st: State, ghost o: Oracle)
      modifies this`states
      ensures Get(s) == st && GrewBut(o, o.rank(s), s, old(Now()), Now())
      ensures old(Inv(o, o.rank(s))) ==> Inv(o, o.rank(s))
    {
      states := states[s := st];
    }

    /** Dependencies are evaluated below the rank of the symbol. */
    lemma DepsBelow(o: Oracle, s: Symbol)
      requires s in defs && Plain(s)
      ensures Inv(o, o.rank(s)) ==>
                && (forall c, t :: c in defs[s].prompts && t in ConditionDeps(c) ==> o.rank(t) < o.rank(s))
                && (forall p, t :: p in defs[s].defaults && t in ConditionDeps(p.cond) ==> o.rank(t) < o.rank(s))
                && (forall p, t :: p in defs[s].defaults && t in Mentions(p.value) ==> o.rank(t) < o.rank(s))
                && (forall p :: p in defs[s].defaults && p.value.Sym? ==> o.rank(p.value.s) < o.rank(s))
                && (s.ty.Int? || s.ty.Hex? ==>
                      && (forall p, t :: p in defs[s].ranges && t in ConditionDeps(p.cond) ==> o.rank(t) < o.rank(s))
                      && forall p :: p in defs[s].ranges ==> o.rank(p.lo) < o.rank(s) && o.rank(p.hi) < o.rank(s))
                && (forall t :: t in ConditionDeps(defs[s].dirDep) ==> o.rank(t) < o.rank(s))
                && (forall t :: t in ConditionDeps(defs[s].revDep) ==> o.rank(t) < o.rank(s))
                && (forall t :: t in ConditionDeps(defs[s].implied) ==> o.rank(t) < o.rank(s))
    {
      hide Deps, ConditionDeps, GroupedSolves, Correct, Choices.Proper;
      DepsParts(s, defs[s]);
      if Inv(o, o.rank(s)) {
        forall p | p in defs[s].defaults && p.value.Sym? ensures o.rank(p.value.s) < o.rank(s) {
          assert p.value.s in Mentions(p.value);
        }
      }
    }

    /** So are the prompts of choices and members too. */
    lemma PromptsBelow(o: Oracle, s: Symbol)
      requires s in defs
      ensures Inv(o, o.rank(s)) ==>
                forall c, t :: c in defs[s].prompts && t in ConditionDeps(c) ==> o.rank(t) < o.rank(s)
    {
      hide Deps, ConditionDeps, GroupedSolves, GroupedAcyclic, Correct, Choices.Proper;
      if Inv(o, o.rank(s)) {
        forall c, t | c in defs[s].prompts && t in ConditionDeps(c) ensures o.rank(t) < o.rank(s) {
          PromptRanks(defs, gs, o.rank, s, c, t);
        }
      }
    }

    /** And the defaults of members. */
    lemma DefaultsBelow(o: Oracle, s: Symbol)
      requires s in defs && s !in gs.members
      ensures Inv(o, o.rank(s)) ==>
                && (forall p, t :: p in defs[s].defaults && t in ConditionDeps(p.cond) ==> o.rank(t) < o.rank(s))
                && (forall p, t :: p in defs[s].defaults && t in Mentions(p.value) ==> o.rank(t) < o.rank(s))
    {
      hide Deps, ConditionDeps, Mentions, GroupedSolves, GroupedAcyclic, Correct, Choices.Proper;
      if Inv(o, o.rank(s)) {
        forall p, t | p in defs[s].defaults && (t in ConditionDeps(p.cond) || t in Mentions(p.value))
          ensures o.rank(t) < o.rank(s)
        {
          DefaultRanks(defs, gs, o.rank, s, p, t);
        }
      }
    }

    /** What evaluation of `s` relies on: the ranks of its dependencies, and that progress adds up. */
    lemma EvaluationFacts(o: Oracle, s: Symbol)
      ensures Inv(o, o.rank(s)) ==> o.env.modules == modules
      ensures forall a, b, c :: GrewBut(o, o.rank(s), s, a, b) && GrewBut(o, o.rank(s), s, b, c) ==>
          GrewBut(o, o.rank(s), s, a, c)
      ensures forall a, b :: Grew(o, o.rank(s), a, b) ==>
          GrewBut(o, o.rank(s), s, a, b) && GetIn(b.states, s) == GetIn(a.states, s)
      ensures forall a, b, c :: Grew(o, o.rank(s), a, b) && Grew(o, o.rank(s), b, c) ==> Grew(o, o.rank(s), a, c)
      ensures forall a :: Grew(o, o.rank(s), a, a) && GrewBut(o, o.rank(s), s, a, a)
    {
    }

    predicate BoolHere(s: Symbol) {
      s.ty.Boolean? || (s.ty.Tri? && modules == NO)
    }

    /** An optional dependency that counts as n when absent. */
    method EvalDep(c: Condition, s: Symbol, ghost o: Oracle, ghost k: nat) returns (t: Tristate)
      modifies this
      ensures users == old(users) && picks == old(picks) && printed == old(printed) && old(valid) <= valid
          && Unvalid() <= old(Unvalid())
      ensures old(Inv(o, k)) && (forall t :: t in ConditionDeps(c) ==> o.rank(t) < k) ==>
                Inv(o, k) && Grew(o, k, old(Now()), Now())
                    && t == PromoteFor(o.env, s, if c.Some? then Eval(o.env, c.value) else NO)
      decreases Unvalid(), 3
    {
      t := NO;
      if c.Some? {
        t := EvalExpr(c.value, o, k);
      }
      if t == MOD && BoolHere(s) {
        t := YES;
      }
    }

    /** The first part of sym_calc_visibility: is any prompt visible? */
    method CalcVisible(s: Symbol, ghost o: Oracle)
      requires s in defs
      modifies this
      ensures users == old(users) && picks == old(picks) && printed == old(printed) && old(valid) <= valid
          && Unvalid() <= old(Unvalid())
      ensures old(Inv(o, o.rank(s))) ==>
                && Inv(o, o.rank(s)) && GrewBut(o, o.rank(s), s, old(Now()), Now())
                && Get(s) == old(Get(s)).(visible := Visible(o.env, s, defs[s]))
      decreases Unvalid(), 5
    {
      hide GrewBut, Grew, Inv, StateOf, Eval, PromptMax, ConditionDeps, EvalCondition;
      EvaluationFacts(o, s);
      PromptsBelow(o, s);
      var t := EvalPrompts(defs[s].prompts, o, o.rank(s));
      if t == MOD && (!s.ty.Tri? || modules == NO) {
        t := YES;
      }
      Assign(s, Get(s).(visible := t), o);
    }

    /** The direct dependencies, y without explicit ones. */
    method CalcDirDep(s: Symbol, ghost o: Oracle)
      requires s in defs && Plain(s)
      modifies this
      ensures users == old(users) && picks == old(picks) && printed == old(printed) && old(valid) <= valid
          && Unvalid() <= old(Unvalid())
      ensures old(Inv(o, o.rank(s))) ==>
                && Inv(o, o.rank(s)) && GrewBut(o, o.rank(s), s, old(Now()), Now())
                && Get(s) == old(Get(s)).(dirDep := DirDep(o.env, s, defs[s]))
      decreases Unvalid(), 5
    {
      hide GrewBut, Grew, Inv, StateOf, Eval, PromptMax, ConditionDeps, EvalCondition;
      EvaluationFacts(o, s);
      DepsBelow(o, s);
      var t := EvalCond(defs[s].dirDep, o, o.rank(s));
      if t == MOD && BoolHere(s) {
        t := YES;
      }
      Assign(s, Get(s).(dirDep := t), o);
    }

    /** What selects the symbol. */
    method CalcRevDep(s: Symbol, ghost o: Oracle)
      requires s in defs && Plain(s)
      modifies this
      ensures users == old(users) && picks == old(picks) && printed == old(printed) && old(valid) <= valid
          && Unvalid() <= old(Unvalid())
      ensures old(Inv(o, o.rank(s))) ==>
                && Inv(o, o.rank(s)) && GrewBut(o, o.rank(s), s, old(Now()), Now())
                && Get(s) == old(Get(s)).(revDep := RevDep(o.env, s, defs[s]))
      decreases Unvalid(), 5
    {
      hide GrewBut, Grew, Inv, StateOf, Eval, PromptMax, ConditionDeps, EvalCondition;
      EvaluationFacts(o, s);
      DepsBelow(o, s);
      var t := EvalDep(defs[s].revDep, s, o, o.rank(s));
      Assign(s, Get(s).(revDep := t), o);
    }

    /** What implies the symbol, if its direct dependencies allow it. */
    method CalcImplied(s: Symbol, ghost o: Oracle)
      requires s in defs && Plain(s)
      modifies this
      ensures users == old(users) && picks == old(picks) && printed == old(printed) && old(valid) <= valid
          && Unvalid() <= old(Unvalid())
      ensures old(Inv(o, o.rank(s)))
                && old(Get(s)).dirDep == DirDep(o.env, s, defs[s]) ==>
                && Inv(o, o.rank(s)) && GrewBut(o, o.rank(s), s, old(Now()), Now())
                && Get(s) == old(Get(s)).(implied := Implied(o.env, s, defs[s]))
      decreases Unvalid(), 5
    {
      hide GrewBut, Grew, Inv, StateOf, Eval, PromptMax, ConditionDeps, EvalCondition;
      EvaluationFacts(o, s);
      DepsBelow(o, s);
      var t := NO;
      if Get(s).dirDep != NO {
        t := EvalDep(defs[s].implied, s, o, o.rank(s));
      }
      Assign(s, Get(s).(implied := t), o);
    }

    /** sym_calc_visibility. */
    method CalcVisibility(s: Symbol, ghost o: Oracle)
      requires s in defs && Plain(s)
      modifies this
      ensures users == old(users) && picks == old(picks) && printed == old(printed) && old(valid) <= valid
          && Unvalid() <= old(Unvalid())
      ensures old(Inv(o, o.rank(s))) ==>
                && Inv(o, o.rank(s)) && GrewBut(o, o.rank(s), s, old(Now()), Now())
                && Get(s) == old(Get(s)).(visible := Visible(o.env, s, defs[s]), dirDep := DirDep(o.env, s, defs[s]),
                                          revDep := RevDep(o.env, s, defs[s]), implied := Implied(o.env, s, defs[s]))
      decreases Unvalid(), 6
    {
      hide GrewBut, Grew, Inv, Visible, DirDep, RevDep, Implied;
      EvaluationFacts(o, s);
      CalcVisible(s, o);
      CalcDirDep(s, o);
      CalcRevDep(s, o);
      CalcImplied(s, o);
    }

    /** The visibility of `s` has been calculated. */
    ghost predicate Seen(o: Oracle, s: Symbol)
      requires s in defs
      reads this`states
    {
      && Get(s).visible == Visible(o.env, s, defs[s]) && Get(s).dirDep == DirDep(o.env, s, defs[s])
      && Get(s).revDep == RevDep(o.env, s, defs[s]) && Get(s).implied == Implied(o.env, s, defs[s])
      && (Get(s).visible != NO ==> Get(s).write)
    }

    /** The default of a bool or tristate symbol. */
    method CalcDefaultTri(s: Symbol, ghost o: Oracle) returns (t: Tristate)
      requires s in defs && s !in gs.members
      modifies this
      ensures users == old(users) && picks == old(picks) && printed == old(printed) && old(valid) <= valid
          && Unvalid() <= old(Unvalid())
      ensures old(Inv(o, o.rank(s))) ==>
          Inv(o, o.rank(s)) && Grew(o, o.rank(s), old(Now()), Now()) && t == DefaultTri(o.env, defs[s])
      decreases Unvalid(), 5
    {
      hide GrewBut, Grew, Inv, StateOf, Eval, ConditionDeps, EvalCondition, Mentions;
      EvaluationFacts(o, s);
      DefaultsBelow(o, s);
      t := NO;
      var p, cond := FindDefault(defs[s].defaults, o, o.rank(s));
      if p.Some? {
        t := EvalExpr(p.value.value, o, o.rank(s));
        t := And(t, cond);
      }
    }

    /** What a bool or tristate symbol gets without a user value: its default, raised by what implies it. */
    method CalcUnset(s: Symbol, ghost o: Oracle) returns (t: Tristate)
      requires s in defs && Plain(s) && (s.ty.Boolean? || s.ty.Tri?)
      modifies this
      ensures users == old(users) && picks == old(picks) && printed == old(printed) && old(valid) <= valid
          && Unvalid() <= old(Unvalid())
      ensures old(Inv(o, o.rank(s)) && Seen(o, s)) ==>
                && Inv(o, o.rank(s)) && GrewBut(o, o.rank(s), s, old(Now()), Now())
                && Get(s) == old(Get(s)).(write := old(Get(s)).write || HasReason(o.env, s, defs[s]))
                && t == Or(DefaultTri(o.env, defs[s]), Implied(o.env, s, defs[s]))
      decreases Unvalid(), 6
    {
      hide GrewBut, Grew, Inv, StateOf, Eval, Visible, DirDep, RevDep, Implied, DefaultTri, DefaultStr,
          ValidateRange, Calc;
      EvaluationFacts(o, s);
      var write := Get(s).write || Get(s).revDep != NO;
      t := CalcDefaultTri(s, o);
      write := write || t != NO;
      if Get(s).implied != NO {
        write := true;
        t := Or(t, Get(s).implied);
      }
      Assign(s, Get(s).(write := write), o);
    }

    /** The S_BOOLEAN and S_TRISTATE case of sym_calc_value. */
    method CalcLogical(s: Symbol, ghost o: Oracle)
      requires s in defs && Plain(s) && (s.ty.Boolean? || s.ty.Tri?)
      modifies this
      ensures users == old(users) && picks == old(picks) && printed == old(printed) && old(valid) <= valid
          && Unvalid() <= old(Unvalid())
      ensures old(Inv(o, o.rank(s)) && Seen(o, s)) ==>
                && Inv(o, o.rank(s)) && GrewBut(o, o.rank(s), s, old(Now()), Now())
                && Get(s).curr == Calc(o.env, s, defs[s], UserOf(users, s)) && Seen(o, s)
                && (!defs[s].auto ==> Get(s).write == (old(Get(s)).write || HasReason(o.env, s, defs[s])))
      decreases Unvalid(), 7
    {
      hide GrewBut, Grew, Inv, StateOf, Eval, Visible, DirDep, RevDep, Implied, DefaultTri, DefaultStr, ValidateRange;
      EvaluationFacts(o, s);
      var newtri := NO;
      if Get(s).visible != NO && s in users {
        newtri := And(users[s].tri, Get(s).visible);
      } else {
        newtri := CalcUnset(s, o);
      }
      newtri := Or(newtri, Get(s).revDep);
      if newtri == MOD && (BoolHere(s) || Get(s).implied == YES) {
        newtri := YES;
      }
      Assign(s, Get(s).(curr := Value(newtri, "n")), o);
    }

    /** The text a symbol takes from its default, and whether it has one. */
    method CalcDefaultStr(s: Symbol, ghost o: Oracle) returns (str: string, found: bool)
      requires s in defs && Plain(s) && HasType(s) && !s.ty.Boolean? && !s.ty.Tri?
      modifies this
      ensures users == old(users) && picks == old(picks) && printed == old(printed) && old(valid) <= valid
          && Unvalid() <= old(Unvalid())
      ensures old(Inv(o, o.rank(s))) ==>
                && Inv(o, o.rank(s)) && Grew(o, o.rank(s), old(Now()), Now())
                && str == DefaultStr(o.env, defs[s]) && found == HasReason(o.env, s, defs[s])
      decreases Unvalid(), 6
    {
      hide GrewBut, Grew, Inv, StateOf, Eval, Visible, DirDep, RevDep, Implied, DefaultTri, ConditionDeps,
          Mentions, Correct;
      EvaluationFacts(o, s);
      DepsBelow(o, s);
      str, found := "", false;
      var p, _ := FindDefault(defs[s].defaults, o, o.rank(s));
      if p.Some? && p.value.value.Sym? {
        CalcValue(p.value.value.s, o, o.rank(s));
        CorrectCurr(o, p.value.value.s);
        str, found := Curr(p.value.value.s).str, true;
      }
    }

    /** The S_STRING, S_HEX and S_INT case of sym_calc_value, before the range is checked. */
    method CalcText(s: Symbol, ghost o: Oracle)
      requires s in defs && Plain(s) && HasType(s) && !s.ty.Boolean? && !s.ty.Tri?
      modifies this
      ensures users == old(users) && picks == old(picks) && printed == old(printed) && old(valid) <= valid
          && Unvalid() <= old(Unvalid())
      ensures old(Inv(o, o.rank(s)) && Seen(o, s)) ==>
                && Inv(o, o.rank(s)) && GrewBut(o, o.rank(s), s, old(Now()), Now())
                && Get(s).curr == Value(NO, CalcStr(o.env, s, defs[s], UserOf(users, s))) && Seen(o, s)
                && (Get(s).visible == NO ==> Get(s).write == (old(Get(s)).write || HasReason(o.env, s, defs[s])))
      decreases Unvalid(), 7
    {
      hide GrewBut, Grew, Inv, StateOf, Eval, Visible, DirDep, RevDep, Implied, DefaultTri, DefaultStr, HasReason;
      EvaluationFacts(o, s);
      if Get(s).visible != NO && s in users {
        Assign(s, Get(s).(curr := Value(NO, users[s].str)), o);
      } else {
        var str, found := CalcDefaultStr(s, o);
        Assign(s, Get(s).(curr := Value(NO, str), write := Get(s).write || found), o);
      }
    }

    lemma CorrectCurr(o: Oracle, s: Symbol)
      ensures Correct(o, s) ==> Curr(s) == o.env.val(s)
    {
    }

    /** sym_get_range_val: the text of a bound, once it has been calculated, as a number. */
    function BoundVal(b: Symbol, base: nat): int
      reads this`states
    {
      StrToLL(Curr(b).str, BaseOf(b, base))
    }

    /** sym_validate_range: the text that replaces `str`. */
    method InRange(s: Symbol, str: string, ghost o: Oracle) returns (str': string)
      requires s in defs && Plain(s)
      modifies this
      ensures users == old(users) && picks == old(picks) && printed == old(printed) && old(valid) <= valid
          && Unvalid() <= old(Unvalid())
      ensures old(Inv(o, o.rank(s))) ==>
                Inv(o, o.rank(s)) && Grew(o, o.rank(s), old(Now()), Now())
                    && str' == ValidateRange(o.env, s, defs[s], str)
      decreases Unvalid(), 6
    {
      hide GrewBut, Grew, Inv, Unvalid, ConditionDeps, StrToLL, Format, Correct, Curr, FirstRange;
      EvaluationFacts(o, s);
      if !s.ty.Int? && !s.ty.Hex? {
        return str;
      }
      DepsBelow(o, s);
      var base := BaseOf(s, 0);
      var p := FindRange(defs[s].ranges, o, o.rank(s));
      if p.None? {
        return str;
      }
      var val := StrToLL(str, base);
      CalcValue(p.value.lo, o, o.rank(s));
      CorrectCurr(o, p.value.lo);
      var bound := BoundVal(p.value.lo, base);
      if val >= bound {
        CalcValue(p.value.hi, o, o.rank(s));
        CorrectCurr(o, p.value.hi);
        bound := BoundVal(p.value.hi, base);
        if val <= bound {
          return str;
        }
      }
      str' := Format(bound, base);
    }

    /** The start of sym_calc_value for a defined symbol: its visibility, and a value in case of recursion. */
    method Prepare(s: Symbol, ghost o: Oracle)
      requires s in defs && Plain(s) && HasType(s)
      modifies this
      ensures users == old(users) && picks == old(picks) && printed == old(printed) && old(valid) <= valid
          && Unvalid() <= old(Unvalid())
      ensures old(Inv(o, o.rank(s))) ==>
                && Inv(o, o.rank(s)) && GrewBut(o, o.rank(s), s, old(Now()), Now())
                && Seen(o, s) && Get(s).write == (Get(s).visible != NO)
      decreases Unvalid(), 7
    {
      hide GrewBut, Grew, Inv, Visible, DirDep, RevDep, Implied;
      EvaluationFacts(o, s);
      Assign(s, Get(s).(write := false), o);
      CalcVisibility(s, o);
      Assign(s, Get(s).(write := Get(s).visible != NO, curr := Value(NO,
          if s.ty.Boolean? || s.ty.Tri? then "n" else "")), o);
    }

    /** The switch of sym_calc_value over the type of the symbol. */
    method CalcByType(s: Symbol, ghost o: Oracle)
      requires s in defs && Plain(s) && HasType(s)
      modifies this
      ensures users == old(users) && picks == old(picks) && printed == old(printed) && old(valid) <= valid
          && Unvalid() <= old(Unvalid())
      ensures old(Inv(o, o.rank(s)) && Seen(o, s)) && old(Get(s)).write == (old(Get(s)).visible != NO) ==>
                && Inv(o, o.rank(s)) && GrewBut(o, o.rank(s), s, old(Now()), Now()) && Seen(o, s)
                && Get(s).curr == Unranged(o.env, s, defs[s], UserOf(users, s))
                && (!defs[s].auto ==> Get(s).write == Written(o.env, s, defs[s]))
      decreases Unvalid(), 8
    {
      hide GrewBut, Grew, Inv, Visible, DirDep, RevDep, Implied, HasReason, CalcTri, CalcStr;
      EvaluationFacts(o, s);
      if s.ty.Boolean? || s.ty.Tri? {
        CalcLogical(s, o);
      } else {
        CalcText(s, o);
      }
    }

    /** The part of sym_calc_value after the symbol has been marked valid. */
    method CalcDefined(s: Symbol, ghost o: Oracle)
      requires s in defs && Plain(s) && HasType(s)
      modifies this
      ensures users == old(users) && picks == old(picks) && printed == old(printed) && old(valid) <= valid
          && Unvalid() <= old(Unvalid())
      ensures old(Inv(o, o.rank(s))) ==>
                && Inv(o, o.rank(s)) && GrewBut(o, o.rank(s), s, old(Now()), Now())
                && Get(s) == StateOf(o.env, s, defs[s], UserOf(users, s))
      decreases Unvalid(), 9
    {
      hide GrewBut, Grew, Inv, Visible, DirDep, RevDep, Implied, ValidateRange, Unranged, Calc, Written, StateOf, Unvalid;
      EvaluationFacts(o, s);
      Prepare(s, o);
      CalcByType(s, o);
      var str := InRange(s, Get(s).curr.str, o);
      var st := Get(s);
      Assign(s, st.(curr := Value(st.curr.tri, str), write := st.write && !defs[s].auto, chosen := None, shown := map[]),
             o);
      StateComplete(o, s, st);
    }

    lemma StateComplete(o: Oracle, s: Symbol, st: State)
      requires s in defs && HasType(s)
      ensures var d := defs[s];
              && st.visible == Visible(o.env, s, d) && st.dirDep == DirDep(o.env, s, d)
              && st.revDep == RevDep(o.env, s, d) && st.implied == Implied(o.env, s, d)
              && st.curr == Unranged(o.env, s, d, UserOf(users, s)) && (!d.auto ==> st.write == Written(o.env, s, d)) ==>
                st.(curr := Value(st.curr.tri, ValidateRange(o.env, s, d, st.curr.str)), write := st.write && !d.auto,
                    chosen := None, shown := map[])
                == StateOf(o.env, s, d, UserOf(users, s))
    {
      hide Visible, DirDep, RevDep, Implied, ValidateRange, Unranged, Calc, Written;
      NotWritten(o.env, s);
      CalcIsRanged(o.env, s, defs[s], UserOf(users, s));
    }

    lemma NotWritten(env: Env, s: Symbol)
      requires s in defs
      ensures defs[s].auto ==> !Written(env, s, defs[s])
    {
    }

    /** The visibility of a member as far as the choice that is being evaluated goes. */
    method SeeMember(c: Symbol, m: Symbol, ghost o: Oracle)
      requires c in defs
      modifies this
      ensures users == old(users) && picks == old(picks) && printed == old(printed) && old(valid) <= valid
          && Unvalid() <= old(Unvalid())
      ensures old(Inv(o, o.rank(c))) && c in gs.members && m in gs.members[c] && old(Get(c)).curr.tri == YES ==>
                && Inv(o, o.rank(c)) && GrewBut(o, o.rank(c), c, old(Now()), Now())
                && Get(c) == old(Get(c)).(shown := old(Get(c)).shown[m := if OwnPrompt(o.env, defs, m) == NO then NO
                                                                         else YES])
      decreases Unvalid(), 5
    {
      hide GrewBut, Grew, Inv, StateOf, Eval, PromptMax, ConditionDeps, EvalCondition;
      EvaluationFacts(o, c);
      MembersBelow(o, c, m);
      var t := NO;
      if m in defs {
        t := EvalPrompts(defs[m].prompts, o, o.rank(c));
      }
      t := And(t, Get(c).curr.tri);
      if t == MOD {
        t := YES;
      }
      Assign(c, Get(c).(shown := Get(c).shown[m := t]), o);
    }

    /** The first loop of sym_calc_choice. */
    method SeeMembers(c: Symbol, ghost o: Oracle)
      requires c in defs && c in gs.members
      modifies this
      ensures users == old(users) && picks == old(picks) && printed == old(printed) && old(valid) <= valid
          && Unvalid() <= old(Unvalid())
      ensures old(Inv(o, o.rank(c))) && old(Get(c)).curr.tri == YES && PromptMax(o.env, defs[c].prompts) != NO ==>
                && Inv(o, o.rank(c)) && GrewBut(o, o.rank(c), c, old(Now()), Now())
                && Get(c) == old(Get(c)).(shown := Get(c).shown) && ShowsRight(o.env, defs, gs, c, Get(c).shown)
      decreases Unvalid(), 6
    {
      hide GrewBut, Grew, Inv, Unvalid, PromptMax, WellGrouped, GoodPicks, ShowsRight, OwnPrompt;
      ghost var ok := Inv(o, o.rank(c)) && Get(c).curr.tri == YES && PromptMax(o.env, defs[c].prompts) != NO;
      EvaluationFacts(o, c);
      GroupFacts(o, o.rank(c));
      var i := 0;
      while i < |gs.members[c]|
        invariant 0 <= i <= |gs.members[c]|
        invariant users == old(users) && picks == old(picks) && printed == old(printed) && old(valid) <= valid
            && Unvalid() <= old(Unvalid())
        invariant ok ==>
            && Inv(o, o.rank(c)) && GrewBut(o, o.rank(c), c, old(Now()), Now())
            && Get(c) == old(Get(c)).(shown := Get(c).shown)
            && forall j :: 0 <= j < i ==>
                 ShownIn(Get(c).shown, gs.members[c][j])
                 == if OwnPrompt(o.env, defs, gs.members[c][j]) == NO then NO else YES
      {
        assert gs.members[c][i] in gs.members[c];
        SeeMember(c, gs.members[c][i], o);
        i := i + 1;
      }
      if ok {
        ShownByPrompts(o, c);
      }
    }

    /** sym_calc_choice. */
    method SettleChoice(c: Symbol, ghost o: Oracle) returns (m: Option<Symbol>)
      requires c in defs && c in gs.members
      modifies this
      ensures users == old(users) && picks == old(picks) && printed == old(printed) && old(valid) <= valid
          && Unvalid() <= old(Unvalid())
      ensures old(Inv(o, o.rank(c))) && old(Get(c)).curr.tri == YES && PromptMax(o.env, defs[c].prompts) != NO ==>
                && Inv(o, o.rank(c)) && GrewBut(o, o.rank(c), c, old(Now()), Now())
                && Get(c) == old(Get(c)).(shown := Get(c).shown) && ShowsRight(o.env, defs, gs, c, Get(c).shown)
                && m == Settles(o.env, defs, gs, picks, c)
      decreases Unvalid(), 7
    {
      hide GrewBut, Grew, Inv, Eval, PromptMax, ConditionDeps, EvalCondition, WellGrouped, GoodPicks, ShowsRight, Settles,
          SettlesByDefault, CanSettle;
      ghost var ok := Inv(o, o.rank(c)) && Get(c).curr.tri == YES && PromptMax(o.env, defs[c].prompts) != NO;
      EvaluationFacts(o, c);
      GroupFacts(o, o.rank(c));
      SeeMembers(c, o);
      if ok {
        SettlesOnPick(o, c);
        BusyCanSettle(o, c);
      }
      if c in picks && ShownIn(Get(c).shown, picks[c]) != NO {
        return Some(picks[c]);
      }
      m := ChoiceDefault(c, o, o.rank(c));
    }

    lemma BusyCanSettle(o: Oracle, c: Symbol)
      requires c in defs && c in gs.members && Inv(o, o.rank(c)) && WellGrouped(defs, gs)
      requires ShowsRight(o.env, defs, gs, c, Get(c).shown)
      ensures CanSettle(o, o.rank(c), c)
    {
      hide ConditionDeps, GroupedSolves, GroupedAcyclic, AllCorrect, Choices.Proper, ShowsRight;
      forall p, t | p in defs[c].defaults && t in ConditionDeps(p.cond) ensures o.rank(t) < o.rank(c) {
        DefaultRanks(defs, gs, o.rank, c, p, t);
      }
    }

    /** sym_choice_default, by the calculated visibility of the members. */
    method ChoiceDefault(c: Symbol, ghost o: Oracle, ghost k: nat) returns (m: Option<Symbol>)
      requires c in defs && c in gs.members
      modifies this
      ensures users == old(users) && picks == old(picks) && printed == old(printed) && old(valid) <= valid
          && Unvalid() <= old(Unvalid())
      ensures old(CanSettle(o, k, c)) ==>
                && Inv(o, k) && Grew(o, k, old(Now()), Now()) && m == SettlesByDefault(o.env, defs, gs, c)
      decreases Unvalid(), 6
    {
      hide GrewBut, Grew, Inv, Eval, PromptMax, ConditionDeps, EvalCondition, WellGrouped, GoodPicks, WorldOf, GroupOf,
          ShowsRight, MemberShown, SettlesByDefault, CanSettle, Choices.FirstDefault;
      ghost var ok := CanSettle(o, k, c);
      GrewTransitive(o, k);
      GroupFacts(o, k);
      if ok {
        StartSettling(o, k, c);
      }
      m := FirstHolding(c, o, k);
      if ok {
        DefaultParts(o, c);
      }
      if m.Some? {
        return;
      }
      assert gs.members[c][0..] == gs.members[c];
      var i := 0;
      while i < |gs.members[c]|
        invariant 0 <= i <= |gs.members[c]|
        modifies {}
        invariant ok ==> Choices.FirstVisible(WorldOf(o.env, defs, defs[c]), gs.members[c])
                         == Choices.FirstVisible(WorldOf(o.env, defs, defs[c]), gs.members[c][i..])
      {
        var x := gs.members[c][i];
        assert gs.members[c][i..][1..] == gs.members[c][i + 1..] && gs.members[c][i..][0] == x && x in gs.members[c];
        if ok {
          ShownAsWorld(o, k, c, x);
        }
        if ShownIn(Get(c).shown, x) != NO {
          return Some(x);
        }
        i := i + 1;
      }
      m := None;
    }

    lemma DefaultParts(o: Oracle, c: Symbol)
      requires c in defs && c in gs.members
      ensures var w := WorldOf(o.env, defs, defs[c]);
              var d := Choices.FirstDefault(w, GroupOf(defs, gs, c).defaults, 0);
              SettlesByDefault(o.env, defs, gs, c) == if d.Some? then d else Choices.FirstVisible(w, gs.members[c])
    {
    }

    /** The first default of a choice whose condition holds and whose target is visible. */
    method FirstHolding(c: Symbol, ghost o: Oracle, ghost k: nat) returns (m: Option<Symbol>)
      requires c in defs && c in gs.members
      modifies this
      ensures users == old(users) && picks == old(picks) && printed == old(printed) && old(valid) <= valid
          && Unvalid() <= old(Unvalid())
      ensures old(CanSettle(o, k, c)) ==>
                && Inv(o, k) && Grew(o, k, old(Now()), Now()) && CanSettle(o, k, c)
                && m == Choices.FirstDefault(WorldOf(o.env, defs, defs[c]), GroupOf(defs, gs, c).defaults, 0)
      decreases Unvalid(), 5
    {
      hide GrewBut, Grew, Inv, Unvalid, PromptMax, ConditionDeps, EvalCondition, WellGrouped, GoodPicks, ShowsRight,
          MemberShown, CanSettle, WorldOf, GroupOf, Choices.FirstDefault, Choices.Visible;
      ghost var ok := CanSettle(o, k, c);
      GrewTransitive(o, k);
      if ok {
        StartSettling(o, k, c);
      }
      var i := 0;
      while i < |defs[c].defaults|
        invariant 0 <= i <= |defs[c].defaults|
        invariant users == old(users) && picks == old(picks) && printed == old(printed) && old(valid) <= valid
            && Unvalid() <= old(Unvalid())
        invariant ok ==>
            && Inv(o, k) && Grew(o, k, old(Now()), Now()) && CanSettle(o, k, c)
            && Choices.FirstDefault(WorldOf(o.env, defs, defs[c]), GroupOf(defs, gs, c).defaults, 0)
               == Choices.FirstDefault(WorldOf(o.env, defs, defs[c]), GroupOf(defs, gs, c).defaults, i)
      {
        var p := defs[c].defaults[i];
        assert p in defs[c].defaults;
        if ok {
          CondsBelow(o, k, c);
        }
        ghost var before := Now();
        var cond := EvalCond(p.cond, o, k);
        var target := if p.value.Sym? then p.value.s else SYM_NO;
        if ok {
          StillSettling(o, k, c, before);
          TargetIsMember(o, k, c, i);
          DefaultStep(o, c, i);
          ShownAsWorld(o, k, c, target);
        }
        if cond != NO && ShownIn(Get(c).shown, target) != NO {
          return Some(target);
        }
        i := i + 1;
      }
      if ok {
        DefaultsEnd(o, c);
      }
      m := None;
    }

    /** The defaults of a choice from number `i` on. */
    lemma DefaultStep(o: Oracle, c: Symbol, i: nat)
      requires c in defs && c in gs.members && i < |defs[c].defaults|
      ensures var w, ds, p := WorldOf(o.env, defs, defs[c]), GroupOf(defs, gs, c).defaults, defs[c].defaults[i];
              var target := if p.value.Sym? then p.value.s else SYM_NO;
              && |ds| == |defs[c].defaults| && ds[i] == target
              && Choices.FirstDefault(w, ds, i)
                 == if EvalCondition(o.env, p.cond) != NO && Choices.Visible(w, target) then Some(target)
                    else Choices.FirstDefault(w, ds, i + 1)
    {
      hide PromptMax, EvalCondition, Choices.Visible;
    }

    lemma DefaultsEnd(o: Oracle, c: Symbol)
      requires c in defs && c in gs.members
      ensures Choices.FirstDefault(WorldOf(o.env, defs, defs[c]), GroupOf(defs, gs, c).defaults,
                                   |defs[c].defaults|) == None
    {
    }

    /** The members' visibility is right, and will be: the choice is under evaluation, or valid with a visible prompt. */
    ghost predicate CanSettle(o: Oracle, k: nat, c: Symbol)
      requires c in defs && c in gs.members
      reads this
    {
      && Inv(o, k) && ShowsRight(o.env, defs, gs, c, Get(c).shown)
      && (k <= o.rank(c) || (c in valid && PromptMax(o.env, defs[c].prompts) != NO))
      && forall p, t :: p in defs[c].defaults && t in ConditionDeps(p.cond) ==> o.rank(t) < k
    }

    lemma StartSettling(o: Oracle, k: nat, c: Symbol)
      requires c in defs && c in gs.members && CanSettle(o, k, c)
      ensures Inv(o, k) && WellGrouped(defs, gs)
    {
    }

    lemma CondsBelow(o: Oracle, k: nat, c: Symbol)
      requires c in defs && c in gs.members && CanSettle(o, k, c)
      ensures forall p, t :: p in defs[c].defaults && t in ConditionDeps(p.cond) ==> o.rank(t) < k
      ensures WellGrouped(defs, gs) && ShowsRight(o.env, defs, gs, c, Get(c).shown)
      ensures k <= o.rank(c) || (c in valid && PromptMax(o.env, defs[c].prompts) != NO)
    {
      hide ShowsRight;
    }

    lemma StillSettling(o: Oracle, k: nat, c: Symbol, before: Moment)
      requires c in defs && c in gs.members && Inv(o, k) && Grew(o, k, before, Now())
      requires WellGrouped(defs, gs) && ShowsRight(o.env, defs, gs, c, GetIn(before.states, c).shown)
      requires k <= o.rank(c) || (c in before.valid && PromptMax(o.env, defs[c].prompts) != NO)
      requires forall p, t :: p in defs[c].defaults && t in ConditionDeps(p.cond) ==> o.rank(t) < k
      ensures CanSettle(o, k, c)
    {
      hide ShowsRight, Choices.Proper, GroupedSolves, GroupedAcyclic, MemberState, StateOf, Settles;
      if o.rank(c) < k {
        assert CorrectAs(o, defs, users, printed, c, Get(c));
      }
    }

    lemma TargetIsMember(o: Oracle, k: nat, c: Symbol, i: nat)
      requires c in defs && c in gs.members && Inv(o, k) && i < |defs[c].defaults|
      ensures WellGrouped(defs, gs) && GroupOf(defs, gs, c).defaults[i] in gs.members[c]
    {
      hide GroupedSolves, GroupedAcyclic, AllCorrect;
      var g := GroupOf(defs, gs, c);
      assert g.defaults[i] in g.defaults;
    }

    lemma ShownAsWorld(o: Oracle, k: nat, c: Symbol, m: Symbol)
      requires c in defs && c in gs.members && CanSettle(o, k, c) && m in gs.members[c]
      ensures ShownIn(Get(c).shown, m) != NO <==> Choices.Visible(WorldOf(o.env, defs, defs[c]), m)
    {
      hide GroupedSolves, GroupedAcyclic, AllCorrect, Choices.Proper, PromptMax;
    }

    lemma GroupFacts(o: Oracle, k: nat)
      ensures Inv(o, k) ==> WellGrouped(defs, gs) && GoodPicks(gs, picks) && o.gs == gs && o.picks == picks
    {
    }

    lemma MembersBelow(o: Oracle, c: Symbol, m: Symbol)
      ensures Inv(o, o.rank(c)) && c in gs.members && m in gs.members[c] ==>
                m in defs && forall p, t :: p in defs[m].prompts && t in ConditionDeps(p) ==> o.rank(t) < o.rank(c)
    {
      hide ConditionDeps, GroupedSolves, GroupedAcyclic, AllCorrect, Choices.Proper;
      if Inv(o, o.rank(c)) && c in gs.members && m in gs.members[c] {
        forall p, t | p in defs[m].prompts && t in ConditionDeps(p) ensures o.rank(t) < o.rank(c) {
          MemberPromptRanks(defs, gs, o.rank, c, m, p, t);
        }
      }
    }

    /** With the prompt of the choice visible, a member shows exactly if its own prompts hold. */
    lemma ShownByPrompts(o: Oracle, c: Symbol)
      requires c in defs && c in gs.members && WellGrouped(defs, gs) && PromptMax(o.env, defs[c].prompts) != NO
      requires forall j :: 0 <= j < |gs.members[c]| ==>
                 ShownIn(Get(c).shown, gs.members[c][j])
                 == if OwnPrompt(o.env, defs, gs.members[c][j]) == NO then NO else YES
      ensures ShowsRight(o.env, defs, gs, c, Get(c).shown)
    {
      hide PromptMax, Choices.Proper;
    }

    /** The user's pick counts if it shows, and otherwise the default. */
    lemma SettlesOnPick(o: Oracle, c: Symbol)
      requires c in defs && c in gs.members && WellGrouped(defs, gs) && GoodPicks(gs, picks)
      requires PromptMax(o.env, defs[c].prompts) != NO && ShowsRight(o.env, defs, gs, c, Get(c).shown)
      ensures Settles(o.env, defs, gs, picks, c)
              == if c in picks && ShownIn(Get(c).shown, picks[c]) != NO then Some(picks[c])
                 else SettlesByDefault(o.env, defs, gs, c)
    {
      hide PromptMax, Choices.Proper;
    }

    /** sym_calc_value of a choice: not being optional, it is y when its prompt shows and it settles on a member. */
    method CalcChoice(c: Symbol, ghost o: Oracle)
      requires c in defs && c in gs.members && HasType(c)
      modifies this
      ensures users == old(users) && picks == old(picks) && printed == old(printed) && old(valid) <= valid
          && Unvalid() <= old(Unvalid())
      ensures old(Inv(o, o.rank(c))) ==>
                && Inv(o, o.rank(c)) && GrewBut(o, o.rank(c), c, old(Now()), Now())
                && IsChoiceState(o.env, defs, gs, picks, c, Get(c))
      decreases Unvalid(), 9
    {
      hide GrewBut, Grew, Inv, Eval, PromptMax, ConditionDeps, EvalCondition, WellGrouped, GoodPicks, ShowsRight, Settles,
          Visible, IsChoiceState, Unvalid;
      ghost var ok := Inv(o, o.rank(c));
      EvaluationFacts(o, c);
      GroupFacts(o, o.rank(c));
      CalcVisible(c, o);
      var tri := if Get(c).visible != NO then YES else NO;
      if ok {
        PromptOfChoice(o, c);
      }
      var chosen := None;
      var write := Get(c).visible != NO && !defs[c].auto;
      Assign(c, Get(c).(curr := Value(tri, "n"), chosen := chosen, write := write), o);
      if tri == YES {
        chosen := SettleChoice(c, o);
        Assign(c, Get(c).(curr := Value(if chosen.Some? then YES else NO, "n"), chosen := chosen), o);
      }
      if ok {
        ChoiceComplete(o, c);
      }
    }

    lemma ChoiceComplete(o: Oracle, c: Symbol)
      requires c in defs && c in gs.members && WellGrouped(defs, gs)
      requires Get(c).visible == Visible(o.env, c, defs[c])
      requires Get(c).write <==> Get(c).visible != NO && !defs[c].auto
      requires Get(c).chosen == Settles(o.env, defs, gs, picks, c)
      requires Get(c).curr == Value(if Get(c).chosen.Some? then YES else NO, "n")
      requires PromptMax(o.env, defs[c].prompts) != NO ==> ShowsRight(o.env, defs, gs, c, Get(c).shown)
      ensures IsChoiceState(o.env, defs, gs, picks, c, Get(c))
    {
      hide WellGrouped, Settles, ShowsRight, PromptMax, Visible;
    }

    lemma PromptOfChoice(o: Oracle, c: Symbol)
      requires c in defs && c in gs.members && WellGrouped(defs, gs)
      ensures Visible(o.env, c, defs[c]) != NO <==> PromptMax(o.env, defs[c].prompts) != NO
      ensures PromptMax(o.env, defs[c].prompts) == NO ==> Settles(o.env, defs, gs, picks, c) == None
    {
      hide PromptMax, Choices.Proper;
    }

    /** sym_calc_visibility of a member: what its prompts depend on includes the choice. */
    method CalcMemberVisible(m: Symbol, ghost o: Oracle)
      requires m in defs && m in gs.choice
      modifies this
      ensures users == old(users) && picks == old(picks) && printed == old(printed) && old(valid) <= valid
          && Unvalid() <= old(Unvalid())
      ensures old(Inv(o, o.rank(m))) ==>
                && Inv(o, o.rank(m)) && GrewBut(o, o.rank(m), m, old(Now()), Now()) && SeesChoice(o, m)
                && Get(m) == old(Get(m)).(visible := Get(m).visible)
      decreases Unvalid(), 9
    {
      hide GrewBut, Grew, Inv, Eval, PromptMax, ConditionDeps, EvalCondition, Correct, SeesChoice, Unvalid;
      var c := gs.choice[m];
      EvaluationFacts(o, m);
      PromptsBelow(o, m);
      ChoiceBelow(o, m);
      var own := EvalPrompts(defs[m].prompts, o, o.rank(m));
      CalcValue(c, o, o.rank(m));
      CorrectCurr(o, c);
      var t := And(own, Curr(c).tri);
      if t == MOD {
        t := YES;
      }
      Assign(m, Get(m).(visible := t), o);
      MemberFromChoice(o, m, own);
    }

    /** The choice of a member has been evaluated, and the member's visibility is right. */
    ghost predicate SeesChoice(o: Oracle, m: Symbol)
      requires m in defs && m in gs.choice
      reads this
    {
      && WellGrouped(defs, gs) && gs.choice[m] in valid
      && Get(gs.choice[m]).chosen == Settles(o.env, defs, gs, picks, gs.choice[m])
      && Get(m).visible == if MemberShown(o.env, defs, gs, m) then YES else NO
    }

    lemma ChoiceBelow(o: Oracle, m: Symbol)
      requires m in gs.choice
      ensures Inv(o, o.rank(m)) ==> o.rank(gs.choice[m]) < o.rank(m) && !IsTriConst(gs.choice[m])
    {
      hide GroupedSolves, GroupedAcyclic, AllCorrect, Choices.Proper;
      if Inv(o, o.rank(m)) {
        ChoiceRanks(defs, gs, o.rank, m);
      }
    }

    /** A member shows if its own prompts hold and its choice is y. */
    lemma MemberFromChoice(o: Oracle, m: Symbol, own: Tristate)
      requires m in defs && m in gs.choice
      ensures var c := gs.choice[m];
              Inv(o, o.rank(m)) && c in valid && o.rank(c) < o.rank(m) && own == PromptMax(o.env, defs[m].prompts)
              && Get(m).visible == (if And(own, o.env.val(c).tri) == NO then NO else YES) ==>
                SeesChoice(o, m)
    {
      hide GroupedSolves, GroupedAcyclic, Choices.Proper, PromptMax, Settles, StateOf, MemberState, ShowsRight;
      if Inv(o, o.rank(m)) {
        ShownExact(o.env, defs, gs, picks, m);
        assert gs.choice[m] in valid && o.rank(gs.choice[m]) < o.rank(m) ==> Correct(o, gs.choice[m]);
      }
    }

    /** sym_calc_value of a member: y if it shows and its choice has settled on it, its own default if it is hidden. */
    method CalcMember(m: Symbol, ghost o: Oracle)
      requires m in defs && m in gs.choice && m !in gs.members
      modifies this
      ensures users == old(users) && picks == old(picks) && printed == old(printed) && old(valid) <= valid
          && Unvalid() <= old(Unvalid())
      ensures old(Inv(o, o.rank(m))) ==>
                && Inv(o, o.rank(m)) && GrewBut(o, o.rank(m), m, old(Now()), Now())
                && Get(m) == MemberState(o.env, defs, gs, picks, m)
      decreases Unvalid(), 10
    {
      hide GrewBut, Grew, Inv, Eval, DefaultTri, MemberState, CorrectAs, SeesChoice, Unvalid;
      ghost var ok := Inv(o, o.rank(m));
      EvaluationFacts(o, m);
      CalcMemberVisible(m, o);
      var visible := Get(m).visible;
      if ok {
        MemberValue(o, m);
      }
      var value := NO;
      if visible == YES {
        value := if Get(gs.choice[m]).chosen == Some(m) then YES else NO;
      } else {
        value := CalcDefaultTri(m, o);
        if value == MOD {
          value := YES;
        }
      }
      var write := (visible != NO || value != NO) && !defs[m].auto;
      Assign(m, State(Value(value, "n"), visible, NO, NO, NO, write, None, map[]), o);
    }

    lemma MemberValue(o: Oracle, m: Symbol)
      requires m in defs && m in gs.choice && m !in gs.members && SeesChoice(o, m)
      ensures Get(m).visible != MOD
      ensures MemberState(o.env, defs, gs, picks, m)
              == (var shown := Get(m).visible != NO;
                  var value := if !shown then OwnDefault(o.env, defs[m])
                               else if Get(gs.choice[m]).chosen == Some(m) then YES else NO;
                  State(Value(value, "n"), Get(m).visible, NO, NO, NO,
                        (shown || OwnDefault(o.env, defs[m]) != NO) && !defs[m].auto, None, map[]))
    {
      hide Choices.Proper, PromptMax, DefaultTri, Settles;
    }

    /** The evaluation of a defined symbol that has just been marked valid. */
    method CalcMarked(s: Symbol, ghost o: Oracle)
      requires !IsTriConst(s) && s in defs
      modifies this
      ensures users == old(users) && picks == old(picks) && printed == old(printed) && old(valid) <= valid
          && Unvalid() <= old(Unvalid())
      ensures old(Inv(o, o.rank(s))) && s !in printed ==>
                && Inv(o, o.rank(s)) && GrewBut(o, o.rank(s), s, old(Now()), Now()) && Correct(o, s)
      decreases Unvalid(), 11
    {
      hide StateOf, Calc, GroupedAcyclic, GroupedSolves, Inv, Choices.Proper;
      EquationOf(o, s);
      if !HasType(s) {
        Assign(s, Get(s).(curr := Value(NO, s.name)), o);
      } else if s in gs.members {
        CalcChoice(s, o);
        ChoiceIsCorrect(o, s);
      } else if s in gs.choice {
        CalcMember(s, o);
        if s !in printed {
          MemberIsCorrect(o, s);
        }
      } else {
        CalcDefined(s, o);
        if s !in printed {
          StateIsCorrect(o, s);
        }
      }
    }

    /** The default case of sym_calc_value: an undefined symbol stands for its name. */
    method CalcUndefined(s: Symbol, ghost o: Oracle)
      requires !IsTriConst(s) && s !in defs
      modifies this`states
      ensures GrewBut(o, o.rank(s), s, old(Now()), Now())
      ensures old(Inv(o, o.rank(s))) ==> Inv(o, o.rank(s)) && Correct(o, s)
    {
      hide StateOf, Calc, GroupedAcyclic, GroupedSolves, Inv, Choices.Proper;
      EquationOf(o, s);
      Assign(s, Get(s).(curr := Value(NO, s.name)), o);
    }

    /** sym_calc_value on a symbol that is not valid. */
    method CalcFresh(s: Symbol, ghost o: Oracle, ghost k: nat)
      requires !IsTriConst(s) && s !in valid
      modifies this
      ensures users == old(users) && picks == old(picks) && printed == old(printed) && old(valid) <= valid
          && Unvalid() <= old(Unvalid()) && s in valid
      ensures old(Inv(o, k)) && o.rank(s) < k ==> Inv(o, k) && Grew(o, k, old(Now()), Now()) && Correct(o, s)
      decreases Unvalid(), 0
    {
      hide CorrectAs, AllCorrect, Good, Grew, GrewBut;
      ghost var ok, before := Inv(o, k) && o.rank(s) < k, Now();
      if ok {
        CorrectBelow(o, k, defs, users, printed, s, before);
      }
      valid := valid + {s};
      ValidGrows(before.valid, s);
      ghost var marked := Now();
      assert marked == before.(valid := before.valid + {s});
      assert ok ==> Inv(o, o.rank(s)) && s !in printed;
      if s in defs {
        CalcMarked(s, o);
      } else {
        CalcUndefined(s, o);
      }
      if ok {
        assert Inv(o, o.rank(s)) && GrewBut(o, o.rank(s), s, marked, Now());
        CorrectAfter(o, k, defs, users, printed, s, before, Now());
      }
    }

    /** sym_calc_value. */
    method CalcValue(s: Symbol, ghost o: Oracle, ghost k: nat)
      modifies this
      ensures users == old(users) && picks == old(picks) && printed == old(printed) && old(valid) <= valid
          && Unvalid() <= old(Unvalid())
      ensures old(Inv(o, k)) && o.rank(s) < k ==>
          Inv(o, k) && Grew(o, k, old(Now()), Now()) && Correct(o, s) && (s in valid || IsTriConst(s))
      decreases Unvalid(), 1
    {
      ConstantCorrect(o, k, s);
      if !IsTriConst(s) && s !in valid {
        CalcFresh(s, o, k);
      }
    }

    lemma ConstantCorrect(o: Oracle, k: nat, s: Symbol)
      ensures Inv(o, k) && IsTriConst(s) ==> Correct(o, s)
    {
      hide Calc;
      if Inv(o, k) {
        assert o.env.val(s) == GroupedValue(o.env, defs, gs, users, picks, s);
      }
    }

    lemma ChoiceIsCorrect(o: Oracle, s: Symbol)
      requires s in defs && HasType(s) && !IsTriConst(s) && s in gs.members
      ensures Inv(o, o.rank(s)) && WellGrouped(defs, gs) && IsChoiceState(o.env, defs, gs, picks, s, Get(s)) ==>
                Correct(o, s)
    {
      hide Settles, ShowsRight, Choices.Proper, AllCorrect;
    }

    lemma MemberIsCorrect(o: Oracle, s: Symbol)
      requires s in defs && HasType(s) && !IsTriConst(s) && s in gs.choice && s !in gs.members && s !in printed
      ensures Inv(o, o.rank(s)) && WellGrouped(defs, gs) && Get(s) == MemberState(o.env, defs, gs, picks, s) ==>
                Correct(o, s)
    {
      hide Settles, MemberShown, Choices.Proper, AllCorrect;
    }

    lemma StateIsCorrect(o: Oracle, s: Symbol)
      requires s in defs && HasType(s) && !IsTriConst(s) && s !in printed && Plain(s)
      ensures Inv(o, o.rank(s)) && Get(s) == StateOf(o.env, s, defs[s], UserOf(users, s)) ==> Correct(o, s)
    {
      hide Calc;
    }

    lemma EquationOf(o: Oracle, s: Symbol)
      ensures forall k :: Inv(o, k) ==> o.env.val(s) == GroupedValue(o.env, defs, gs, users, picks, s)
      ensures forall k :: Inv(o, k) && (s in defs ==> !HasType(s)) && !IsTriConst(s) ==> o.env.val(s) == Value(NO, s.name)
      ensures forall k :: Inv(o, k) && Plain(s) ==> o.env.val(s) == SymValue(o.env, defs, users, s)
      ensures forall k :: Inv(o, k) && s in defs && !HasType(s) ==> Plain(s)
      ensures forall k :: Inv(o, k) ==> WellGrouped(defs, gs) && o.gs == gs && o.picks == picks
    {
      hide Choices.Proper, GroupedAcyclic, Settles, MemberShown;
    }

    /** Marking a defined symbol valid is progress. */
    lemma ValidGrows(before: set<Symbol>, s: Symbol)
      requires s !in before && valid == before + {s}
      ensures Unvalid() <= |defs.Keys - before|
      ensures s in defs ==> Unvalid() < |defs.Keys - before|
    {
      if s in defs {
        assert defs.Keys - before == (defs.Keys - valid) + {s};
      } else {
        assert defs.Keys - before == defs.Keys - valid;
      }
    }

    /** sym_clear_all_valid. */
    method ClearAllValid()
      modifies this`valid, this`printed
      ensures valid == {} && printed == {}
    {
      valid, printed := {}, {};
    }

    /** Whatever the order of calls from a cleared cache, every valid symbol holds its value in the solution. */
    method CalcInAnyOrder(order: seq<Symbol>, ghost o: Oracle, ghost k: nat)
      requires Good(o) && forall s :: s in order ==> o.rank(s) < k
      modifies this
      ensures users == old(users) && picks == old(picks) && Good(o)
      ensures forall s :: s in valid ==> Curr(s) == o.env.val(s)
      ensures forall s :: s in order ==> s in valid || IsTriConst(s)
    {
      hide Inv, Grew, Good, Correct, Unvalid, Curr;
      ClearAllValid();
      ghost var start := Now();
      GrewTransitive(o, k);
      assert Inv(o, k) by {
        NothingValid(o, k);
      }
      var i := 0;
      while i < |order|
        invariant 0 <= i <= |order|
        invariant users == old(users) && picks == old(picks) && start.valid == {} && Inv(o, k) && Grew(o, k, start, Now())
        invariant forall j :: 0 <= j < i ==> order[j] in valid || IsTriConst(order[j])
      {
        CalcValue(order[i], o, k);
        i := i + 1;
      }
      AllHold(o, k, start);
    }

    lemma NothingValid(o: Oracle, k: nat)
      requires Good(o) && valid == {} && printed == {}
      ensures Inv(o, k)
    {
      hide Good;
    }

    /** From a cleared cache only symbols below `k` have become valid, and those are correct. */
    lemma AllHold(o: Oracle, k: nat, start: Moment)
      requires Inv(o, k) && start.valid == {} && Grew(o, k, start, Now())
      ensures Good(o) && forall s :: s in valid ==> Curr(s) == o.env.val(s)
    {
      hide Good, CorrectAs;
      forall s | s in valid ensures Curr(s) == o.env.val(s) {
        assert o.rank(s) < k;
        StillCorrect(o, k, s);
      }
    }
  }
}
