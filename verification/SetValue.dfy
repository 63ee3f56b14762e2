/**
  Changing a bool or tristate symbol that is no choice: sym_tristate_within_range and
  sym_set_tristate_value (symbol.c), and what the next evaluation makes of the change.
 */
module SetValue {
  import opened Options
  import opened Tristates
  import opened Exprs
  import opened Semantics
  import opened GroupedSemantics
  import opened Evaluator
  import Choices
  import opened Defconfig

  /** sym_tristate_within_range, on the calculated members of the symbol. */
  predicate InRange(isBool: bool, isMember: bool, visible: Tristate, revDep: Tristate, implied: Tristate, val: Tristate)
  {
    && visible != NO
    && !(isBool && val == MOD)
    && visible > revDep
    && !(implied == YES && val == MOD)
    && if isMember && visible == YES then val == YES else revDep <= val <= visible
  }

  predicate WithinRange(env: Env, s: Symbol, d: SymDef, val: Tristate) {
    && (s.ty.Boolean? || s.ty.Tri?)
    && InRange(IsBool(env, s), false, Visible(env, s, d), RevDep(env, s, d), Implied(env, s, d), val)
  }

  /** What a symbol can be set to; of a member that shows only y. */
  predicate Settable(env: Env, defs: Defs, gs: Groups, s: Symbol, val: Tristate)
    requires WellGrouped(defs, gs) && s in defs
  {
    if s in gs.choice then MemberShown(env, defs, gs, s) && val == YES else WithinRange(env, s, defs[s], val)
  }

  /** Where a change of `s` takes effect first: for a member that is its choice. */
  function Source(gs: Groups, s: Symbol): Symbol {
    if s in gs.choice then gs.choice[s] else s
  }

  /** The other members of the choice that show are n. */
  ghost predicate OthersOff(env: Env, defs: Defs, gs: Groups, s: Symbol)
    requires WellGrouped(defs, gs)
  {
    forall m :: m in gs.choice && Source(gs, m) == Source(gs, s) && m != s && MemberShown(env, defs, gs, m) ==>
      env.val(m).tri == NO
  }

  /** No value is below what selects the symbol. */
  lemma NeverBelowSelects(env: Env, s: Symbol, d: SymDef, user: Option<Value>)
    requires s.ty.Boolean? || s.ty.Tri?
    ensures RevDep(env, s, d) <= Calc(env, s, d, user).tri
    ensures IsBool(env, s) ==> Calc(env, s, d, user).tri != MOD
  {
    hide PromptMax, Eval, DefaultTri;
  }

  /**
    For a symbol that can be changed, a user value is the resulting value if and only if it is in range,
    or it is y where the prompt stops at m but something implies y.
   */
  lemma UserValueExact(env: Env, s: Symbol, d: SymDef, v: Value)
    requires (s.ty.Boolean? || s.ty.Tri?) && Changeable(env, s, d)
    ensures Calc(env, s, d, Some(v)).tri == v.tri
            <==> WithinRange(env, s, d, v.tri)
                 || (v.tri == YES && Visible(env, s, d) == MOD && Implied(env, s, d) == YES)
  {
    hide PromptMax, Eval, DefaultTri;
  }

  /** The users differ at most in `s`. */
  ghost predicate SameUsersBut(users: Users, users': Users, s: Symbol) {
    forall t :: t != s ==> UserOf(users, t) == UserOf(users', t)
  }

  ghost predicate SamePicksBut(picks: Picks, picks': Picks, c: Symbol) {
    forall d :: d != c ==> PickOf(picks, d) == PickOf(picks', d)
  }

  /** Without a change of its own a symbol is as before where all that it depends on is. */
  lemma SameEquation(env: Env, defs: Defs, gs: Groups, users: Users, users': Users, picks: Picks, picks': Picks,
                     s: Symbol, t: Symbol)
    requires WellGrouped(defs, gs)
    requires SameUsersBut(users, users', s) && SamePicksBut(picks, picks', Source(gs, s))
    requires t != Source(gs, s) && Source(gs, t) != Source(gs, s)
    ensures GroupedValue(env, defs, gs, users, picks, t) == GroupedValue(env, defs, gs, users', picks', t)
  {
    hide Calc, MemberShown, OwnDefault, Choices.Proper, Choices.Selected, WorldOf;
  }

  /** A change of `s` does not reach symbols that rank no higher. */
  lemma {:induction false} BelowUnchanged(env: Env, env': Env, defs: Defs, gs: Groups, users: Users, users': Users,
                                          picks: Picks, picks': Picks, rank: Symbol -> nat, s: Symbol, t: Symbol)
    requires env.modules == env'.modules && WellGrouped(defs, gs) && GroupedAcyclic(defs, gs, rank)
    requires GoodPicks(gs, picks) && GoodPicks(gs, picks')
    requires SameUsersBut(users, users', s) && SamePicksBut(picks, picks', Source(gs, s))
    requires GroupedSolves(env, defs, gs, users, picks) && GroupedSolves(env', defs, gs, users', picks')
    requires t != Source(gs, s) && rank(t) <= rank(Source(gs, s))
    ensures env'.val(t) == env.val(t)
    decreases rank(t)
  {
    hide GroupedValue, GroupedDeps, ChoiceDeps, GroupedAcyclic, Choices.Proper, SameUsersBut, SamePicksBut, GoodPicks;
    if t in defs {
      forall u | u in GroupedDeps(defs, gs, t) || (t in gs.choice && u in ChoiceDeps(defs, gs, gs.choice[t]))
        ensures env'.val(u) == env.val(u)
      {
        DepsRankLower(defs, gs, rank, t, u);
        BelowUnchanged(env, env', defs, gs, users, users', picks, picks', rank, s, u);
      }
    }
    GroupedAgree(env, env', defs, gs, users, picks, t);
    if t in gs.choice {
      ChoiceRanks(defs, gs, rank, t);
    }
    SameEquation(env', defs, gs, users, users', picks, picks', s, t);
  }

  /** What decides whether a symbol or a member can be changed is as before. */
  lemma SourceUnchanged(env: Env, env': Env, defs: Defs, gs: Groups, users: Users, users': Users,
                        picks: Picks, picks': Picks, rank: Symbol -> nat, s: Symbol)
    requires env.modules == env'.modules && WellGrouped(defs, gs) && GroupedAcyclic(defs, gs, rank)
    requires GoodPicks(gs, picks) && GoodPicks(gs, picks')
    requires SameUsersBut(users, users', s) && SamePicksBut(picks, picks', Source(gs, s))
    requires GroupedSolves(env, defs, gs, users, picks) && GroupedSolves(env', defs, gs, users', picks')
    requires Source(gs, s) in defs
    ensures Agree(env, env', GroupedDeps(defs, gs, Source(gs, s)))
  {
    hide GroupedSolves, GroupedDeps, GroupedAcyclic, WellGrouped, SameUsersBut, SamePicksBut, GoodPicks;
    var r := Source(gs, s);
    forall u | u in GroupedDeps(defs, gs, r) ensures env'.val(u) == env.val(u) {
      DepsRankLower(defs, gs, rank, r, u);
      BelowUnchanged(env, env', defs, gs, users, users', picks, picks', rank, s, u);
    }
  }

  /** A value that can be set is the value after setting it and evaluating again. */
  lemma SetThenRecalculate(env: Env, env': Env, defs: Defs, gs: Groups, users: Users, users': Users,
                           picks: Picks, picks': Picks, rank: Symbol -> nat, s: Symbol, v: Tristate)
    requires env.modules == env'.modules && WellGrouped(defs, gs) && GroupedAcyclic(defs, gs, rank)
    requires GoodPicks(gs, picks) && GoodPicks(gs, picks')
    requires SameUsersBut(users, users', s) && SamePicksBut(picks, picks', Source(gs, s))
    requires GroupedSolves(env, defs, gs, users, picks) && GroupedSolves(env', defs, gs, users', picks')
    requires s in defs && !IsTriConst(s) && s !in gs.members && Settable(env, defs, gs, s, v)
    requires s in users' && users'[s].tri == v && (s in gs.choice ==> PickOf(picks', gs.choice[s]) == Some(s))
    ensures env'.val(s).tri == v && OthersOff(env', defs, gs, s)
  {
    hide Calc, Deps, WithinRange, GroupedAcyclic, ChoiceDeps, Choices.Proper, SameUsersBut, SamePicksBut, Settles,
        MemberShown;
    SourceUnchanged(env, env', defs, gs, users, users', picks, picks', rank, s);
    if s in gs.choice {
      var c := gs.choice[s];
      SettlesSame(env, env', defs, gs, picks', c);
      PickSettles(env', defs, gs, picks', s);
      assert forall m :: env'.val(m) == GroupedValue(env', defs, gs, users', picks', m);
    } else {
      CalcAgree(env, env', s, defs[s], UserOf(users', s));
      assert env'.val(s) == GroupedValue(env', defs, gs, users', picks', s) == Calc(env, s, defs[s], Some(users'[s]));
      RangeMeansChangeable(env, s, defs[s], v);
      UserValueExact(env, s, defs[s], users'[s]);
    }
  }

  /** A choice settles on the member picked if it shows. */
  lemma PickSettles(env: Env, defs: Defs, gs: Groups, picks: Picks, m: Symbol)
    requires WellGrouped(defs, gs) && m in gs.choice && PickOf(picks, gs.choice[m]) == Some(m)
    requires MemberShown(env, defs, gs, m)
    ensures Settles(env, defs, gs, picks, gs.choice[m]) == Some(m)
  {
    hide PromptMax, Choices.Proper;
  }

  lemma RangeMeansChangeable(env: Env, s: Symbol, d: SymDef, v: Tristate)
    requires WithinRange(env, s, d, v)
    ensures Changeable(env, s, d) && (s.ty.Boolean? || s.ty.Tri?)
  {
  }

  /**
    A symbol is set to the value it has without any check, and without clearing the cache. The cached
    values stay right in exactly these cases.
   */
  lemma SettingOwnValueExact(env: Env, defs: Defs, gs: Groups, users: Users, picks: Picks, s: Symbol, str: string)
    requires WellGrouped(defs, gs) && GroupedSolves(env, defs, gs, users, picks)
    requires s in defs && s !in gs.members && s !in gs.choice && !IsTriConst(s) && (s.ty.Boolean? || s.ty.Tri?)
    ensures var v, d := env.val(s).tri, defs[s];
            GroupedSolves(env, defs, gs, users[s := Value(v, str)], picks)
            <==> Visible(env, s, d) == NO || v <= Visible(env, s, d) || v == RevDep(env, s, d)
                 || Implied(env, s, d) == YES
  {
    hide Visible, RevDep, Implied, DefaultTri, CalcTri, Settles, MemberShown, OwnDefault, Choices.Proper;
    var v, d := env.val(s).tri, defs[s];
    var users' := users[s := Value(v, str)];
    assert env.val(s) == GroupedValue(env, defs, gs, users, picks, s) == SymValue(env, defs, users, s);
    OwnValueKept(env, s, d, UserOf(users, s));
    OnlyTriMatters(env, s, d, v, str);
    forall t: Symbol | t != s ensures env.val(t) == GroupedValue(env, defs, gs, users', picks, t) {
      assert env.val(t) == GroupedValue(env, defs, gs, users, picks, t);
      assert UserOf(users', t) == UserOf(users, t);
    }
    assert GroupedValue(env, defs, gs, users', picks, s) == SymValue(env, defs, users', s)
        == Value(CalcTri(env, s, d, Some(Value(v, ""))), "n");
  }

  /** Picking a member again: nothing changes if it shows, and otherwise the default remains. */
  lemma ConfirmedPick(env: Env, defs: Defs, gs: Groups, picks: Picks, m: Symbol)
    requires WellGrouped(defs, gs) && GoodPicks(gs, picks) && m in gs.choice
    ensures var c := gs.choice[m];
            Settles(env, defs, gs, picks[c := m], c)
            == if MemberShown(env, defs, gs, m) then Some(m)
               else if Settles(env, defs, gs, picks, c).None? then None else SettlesByDefault(env, defs, gs, c)
  {
    hide PromptMax;
    var c := gs.choice[m];
    Choices.SelectedExact(WorldOf(env, defs, defs[c]), GroupOf(defs, gs, c), PickOf(picks, c));
    Choices.SelectedExact(WorldOf(env, defs, defs[c]), GroupOf(defs, gs, c), Some(m));
  }

  /** Selections that settle a choice differently are not right for the same values. */
  lemma SamePickExact(env: Env, defs: Defs, gs: Groups, users: Users, users': Users, picks: Picks, picks': Picks,
                      m: Symbol)
    requires WellGrouped(defs, gs) && GoodPicks(gs, picks) && GroupedSolves(env, defs, gs, users, picks)
    requires m in gs.choice && SameUsersBut(users, users', m) && SamePicksBut(picks, picks', gs.choice[m])
    ensures GroupedSolves(env, defs, gs, users', picks')
            <==> Settles(env, defs, gs, picks', gs.choice[m]) == Settles(env, defs, gs, picks, gs.choice[m])
  {
    hide Calc, OwnDefault, MemberShown, Choices.Proper, Choices.Selected, WorldOf, SameUsersBut, SamePicksBut, Settles,
        GroupedSolves, GroupedValue;
    SolvesByParts(env, defs, gs, users, users', picks, picks');
    forall s | s in defs && s !in gs.members && s !in gs.choice
      ensures GroupedValue(env, defs, gs, users', picks', s) == env.val(s)
    {
      SameEquation(env, defs, gs, users, users', picks, picks', m, s);
      ValueOf(env, defs, gs, users, picks, s);
    }
    forall c | c in gs.members && c != gs.choice[m]
      ensures Settles(env, defs, gs, picks', c) == Settles(env, defs, gs, picks, c)
    {
      OtherChoice(env, defs, gs, picks, picks', gs.choice[m], c);
    }
  }

  lemma ValueOf(env: Env, defs: Defs, gs: Groups, users: Users, picks: Picks, s: Symbol)
    requires WellGrouped(defs, gs) && GroupedSolves(env, defs, gs, users, picks)
    ensures env.val(s) == GroupedValue(env, defs, gs, users, picks, s)
  {
    hide GroupedValue, WellGrouped;
  }

  lemma OtherChoice(env: Env, defs: Defs, gs: Groups, picks: Picks, picks': Picks, c: Symbol, d: Symbol)
    requires SamePicksBut(picks, picks', c) && d in gs.members && d in defs && d != c
    ensures Settles(env, defs, gs, picks', d) == Settles(env, defs, gs, picks, d)
  {
    hide Choices.Selected, WorldOf;
  }

  /**
    The same for a member that is y. One that is hidden has the y from a default of its own; confirming it
    takes the user's selection away from its choice, which matters unless that is the default anyway.
   */
  lemma SettingOwnMemberExact(env: Env, defs: Defs, gs: Groups, users: Users, picks: Picks, m: Symbol, str: string)
    requires WellGrouped(defs, gs) && GoodPicks(gs, picks) && GroupedSolves(env, defs, gs, users, picks)
    requires m in gs.choice && env.val(m).tri == YES
    ensures var c := gs.choice[m];
            GroupedSolves(env, defs, gs, users[m := Value(YES, str)], picks[c := m])
            <==> MemberShown(env, defs, gs, m) || Settles(env, defs, gs, picks, c).None?
                 || Settles(env, defs, gs, picks, c) == SettlesByDefault(env, defs, gs, c)
  {
    hide Calc, OwnDefault, Choices.Proper, Choices.Selected, WorldOf, MemberShown, Settles, SettlesByDefault;
    var c := gs.choice[m];
    var users', picks' := users[m := Value(YES, str)], picks[c := m];
    assert env.val(m) == GroupedValue(env, defs, gs, users, picks, m);
    ConfirmedPick(env, defs, gs, picks, m);
    SamePickExact(env, defs, gs, users, users', picks, picks', m);
  }

  lemma OnlyTriMatters(env: Env, s: Symbol, d: SymDef, v: Tristate, str: string)
    ensures CalcTri(env, s, d, Some(Value(v, str))) == CalcTri(env, s, d, Some(Value(v, "")))
  {
  }

  /** The case that fails: a prompt limited to m, a default y, and the user confirming y gets m. */
  lemma ConfirmedDefaultIsLost(env: Env)
    requires env.modules == YES && env.val(SYM_MOD).tri == MOD && env.val(SYM_YES).tri == YES
    ensures var s := Symbol("X", Tri, false);
            var d := SymDef([Some(Sym(SYM_MOD))], [Default(None, Sym(SYM_YES))], [], None, None, None, false);
            Calc(env, s, d, None).tri == YES && Calc(env, s, d, Some(Value(YES, ""))).tri == MOD
  {
    var c := Some(Sym(SYM_MOD));
    assert [c][..0] == [] && PromptMax(env, []) == NO;
    assert PromptMax(env, [c]) == MOD;
  }

  /** sym_set_tristate_value, on a symbol whose members have been calculated. */
  method SetTristate(cfg: Config, s: Symbol, val: Tristate, ghost o: Oracle, ghost k: nat) returns (ok: bool)
    requires s in cfg.defs && s !in cfg.gs.members && (s.ty.Boolean? || s.ty.Tri?)
    requires WellGrouped(cfg.defs, cfg.gs)
    modifies cfg
    ensures old(cfg.Inv(o, k)) && s in old(cfg.valid) && o.rank(s) < k ==>
              && (ok <==> o.env.val(s).tri == val || Settable(o.env, cfg.defs, cfg.gs, s, val))
              && (s in cfg.gs.choice && MemberShown(o.env, cfg.defs, cfg.gs, s) && val == YES ==> ok)
    ensures !ok ==> cfg.users == old(cfg.users) && cfg.picks == old(cfg.picks)
    ensures ok ==> s in cfg.users && cfg.users[s].tri == val && SameUsersBut(old(cfg.users), cfg.users, s)
    ensures ok ==> cfg.picks == if s in cfg.gs.choice && val == YES then old(cfg.picks)[cfg.gs.choice[s] := s]
                                else old(cfg.picks)
    ensures if ok && old(cfg.Curr(s)).tri != val then cfg.valid == cfg.printed == {} && cfg.states == old(cfg.states)
            else cfg.valid == old(cfg.valid) && cfg.states == old(cfg.states) && cfg.printed == old(cfg.printed)
  {
    hide WellGrouped, Config.Inv, Settable;
    var st := cfg.Get(s);
    RangeFromCache(cfg, s, val, o, k);
    var oldval := cfg.Curr(s).tri;
    if oldval != val
       && !InRange(cfg.BoolHere(s), s in cfg.gs.choice, st.visible, st.revDep, st.implied, val) {
      return false;
    }
    if s in cfg.gs.choice && val == YES {
      cfg.picks := cfg.picks[cfg.gs.choice[s] := s];
    }
    cfg.users := cfg.users[s := Value(val, if s in cfg.users then cfg.users[s].str else "")];
    if oldval != val {
      cfg.ClearAllValid();
    }
    ok := true;
  }

  /** The calculated members of a valid symbol decide what it can be set to. */
  lemma RangeFromCache(cfg: Config, s: Symbol, val: Tristate, o: Oracle, k: nat)
    requires s in cfg.defs && s !in cfg.gs.members && (s.ty.Boolean? || s.ty.Tri?) && WellGrouped(cfg.defs, cfg.gs)
    ensures var st := cfg.Get(s);
            cfg.Inv(o, k) && s in cfg.valid && o.rank(s) < k ==>
              && cfg.Curr(s).tri == o.env.val(s).tri
              && (s in cfg.gs.choice && MemberShown(o.env, cfg.defs, cfg.gs, s) && val == YES ==>
                    Settable(o.env, cfg.defs, cfg.gs, s, val))
              && (Settable(o.env, cfg.defs, cfg.gs, s, val)
                  <==> InRange(cfg.BoolHere(s), s in cfg.gs.choice, st.visible, st.revDep, st.implied, val))
  {
    hide Visible, RevDep, Implied, DirDep, Calc, GroupedAcyclic, GroupedSolves, Written, MemberWritten, MemberShown,
        GroupedValue, Choices.Proper;
    if cfg.Inv(o, k) && s in cfg.valid && o.rank(s) < k {
      assert cfg.Correct(o, s) && o.env.modules == cfg.modules && !IsTriConst(s);
    }
  }

  /**
    Setting a new value that is in range, and evaluating again, makes it the value of the symbol in the cache.
    Of a member that is y; it cannot be set to n.
   */
  method SetAndRecalculate(cfg: Config, s: Symbol, val: Tristate, ghost o: Oracle, ghost k: nat) returns (ok: bool)
    requires s in cfg.defs && s !in cfg.gs.members && (s.ty.Boolean? || s.ty.Tri?)
    requires WellGrouped(cfg.defs, cfg.gs)
    modifies cfg
    ensures old(cfg.Inv(o, k)) && s in old(cfg.valid) && o.rank(s) < k && old(cfg.Curr(s)).tri != val ==>
              && (ok <==> Settable(o.env, cfg.defs, cfg.gs, s, val))
              && cfg.Curr(s).tri == if ok then val else old(cfg.Curr(s)).tri
    ensures !ok ==> cfg.users == old(cfg.users) && cfg.picks == old(cfg.picks)
  {
    hide GroupedAcyclic, GroupedSolves, Settable, CorrectAs, Config.Inv, WellGrouped, GoodPicks;
    ghost var known := cfg.Inv(o, k) && s in cfg.valid && o.rank(s) < k && cfg.Curr(s).tri != val;
    cfg.StillCorrect(o, k, s);
    GoodNow(cfg, o, k);
    ghost var users, picks := cfg.users, cfg.picks;
    ok := SetTristate(cfg, s, val, o, k);
    if ok {
      ghost var o' := o;
      if known {
        SetPicks(cfg, picks, o, s, val);
        o' := NewOracle(cfg, o);
        cfg.NothingValid(o', k);
      }
      cfg.CalcValue(s, o', k);
      if known {
        cfg.StillCorrect(o', k, s);
        GoodNow(cfg, o', k);
        SetThenRecalculate(o.env, o'.env, cfg.defs, cfg.gs, users, cfg.users, picks, cfg.picks, o.rank, s, val);
      }
    }
  }

  lemma GoodNow(cfg: Config, o: Oracle, k: nat)
    ensures cfg.Inv(o, k) ==>
              && WellGrouped(cfg.defs, cfg.gs) && GoodPicks(cfg.gs, cfg.picks) && o.gs == cfg.gs
              && GroupedSolves(o.env, cfg.defs, cfg.gs, cfg.users, cfg.picks)
              && GroupedAcyclic(cfg.defs, cfg.gs, o.rank) && o.env.modules == cfg.modules
              && forall s :: s in cfg.defs ==> !IsTriConst(s)
  {
    hide GroupedSolves, GroupedAcyclic;
  }

  /** After setting a member the selections are members. */
  lemma SetPicks(cfg: Config, picks: Picks, o: Oracle, s: Symbol, val: Tristate)
    requires WellGrouped(cfg.defs, cfg.gs) && GoodPicks(cfg.gs, picks) && s in cfg.defs
    requires Settable(o.env, cfg.defs, cfg.gs, s, val)
    requires cfg.picks == if s in cfg.gs.choice && val == YES then picks[cfg.gs.choice[s] := s] else picks
    ensures GoodPicks(cfg.gs, cfg.picks) && SamePicksBut(picks, cfg.picks, Source(cfg.gs, s))
    ensures s in cfg.gs.choice ==> PickOf(cfg.picks, cfg.gs.choice[s]) == Some(s)
  {
    hide Choices.Proper, MemberShown, WithinRange;
  }

  lemma NewOracle(cfg: Config, o: Oracle) returns (o': Oracle)
    requires WellGrouped(cfg.defs, cfg.gs) && GoodPicks(cfg.gs, cfg.picks) && GroupedAcyclic(cfg.defs, cfg.gs, o.rank)
    requires forall s :: s in cfg.defs ==> !IsTriConst(s)
    ensures cfg.Good(o') && o'.rank == o.rank && o'.env.modules == cfg.modules
  {
    hide GroupedSolves, GroupedAcyclic, WellGrouped, GoodPicks;
    var modules, defs, gs, users, picks := cfg.modules, cfg.defs, cfg.gs, cfg.users, cfg.picks;
    GroupedExists(modules, defs, gs, users, picks, o.rank);
    o' := Oracle(Env(modules, (s: Symbol) => GroupedSolution(modules, defs, gs, users, picks, o.rank, s)), o.rank, gs,
                 picks);
  }
}
