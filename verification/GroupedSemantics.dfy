/**
  Configurations with choice groups: bool choices that are not optional. The equations of Semantics are
  extended by the value of a choice and of its members (sym_calc_value, sym_calc_choice, sym_calc_visibility
  in symbol.c).
 */
module GroupedSemantics {
  import opened Options
  import opened Tristates
  import opened Exprs
  import opened Submenu
  import opened Semantics
  import opened Values
  import Choices

  /** The members of every choice, and the choice of every member. */
  datatype Groups = Groups(members: map<Symbol, seq<Symbol>>, choice: map<Symbol, Symbol>)

  /** def[S_DEF_USER].val of the choices. */
  type Picks = map<Symbol, Symbol>

  function PickOf(picks: Picks, c: Symbol): Option<Symbol> {
    if c in picks then Some(picks[c]) else None
  }

  /** The symbols that the defaults of a choice name. */
  function Targets(ds: seq<Default>): seq<Symbol> {
    seq(|ds|, i requires 0 <= i < |ds| => if ds[i].value.Sym? then ds[i].value.s else SYM_NO)
  }

  function GroupOf(defs: Defs, gs: Groups, c: Symbol): Choices.Group
    requires c in gs.members && c in defs
  {
    Choices.Group(gs.members[c], Targets(defs[c].defaults))
  }

  /** The groups fit together: a member belongs to one choice, which is no member itself. */
  ghost predicate WellGrouped(defs: Defs, gs: Groups) {
    && (forall c :: c in gs.members ==>
          c in defs && c.ty.Boolean? && !IsTriConst(c) && c !in gs.choice && Choices.Proper(GroupOf(defs, gs, c)))
    && (forall c, m :: c in gs.members && m in gs.members[c] ==> m in gs.choice && gs.choice[m] == c)
    && forall m :: m in gs.choice ==>
         m in defs && m.ty.Boolean? && !IsTriConst(m) && gs.choice[m] in gs.members && m in gs.members[gs.choice[m]]
  }

  /** The prompts of a member without the part that every member inherits, which is its choice. */
  function OwnPrompt(env: Env, defs: Defs, m: Symbol): Tristate {
    if m in defs then PromptMax(env, defs[m].prompts) else NO
  }

  /** What the conditions of a choice and of its members evaluate to. */
  function WorldOf(env: Env, defs: Defs, d: SymDef): Choices.World {
    Choices.World(
      PromptMax(env, d.prompts),
      m => OwnPrompt(env, defs, m),
      (i: nat) => if i < |d.defaults| then EvalCondition(env, d.defaults[i].cond) else NO)
  }

  /** The member that a choice settles on. */
  function Settles(env: Env, defs: Defs, gs: Groups, picks: Picks, c: Symbol): Option<Symbol>
    requires c in gs.members && c in defs
  {
    Choices.Selected(WorldOf(env, defs, defs[c]), GroupOf(defs, gs, c), PickOf(picks, c))
  }

  /** sym_choice_default. */
  function SettlesByDefault(env: Env, defs: Defs, gs: Groups, c: Symbol): Option<Symbol>
    requires c in gs.members && c in defs
  {
    Choices.DefaultOf(WorldOf(env, defs, defs[c]), GroupOf(defs, gs, c))
  }

  /** sym_get_default_prop and the promotion of m, for a bool. */
  function OwnDefault(env: Env, d: SymDef): Tristate {
    if DefaultTri(env, d) == NO then NO else YES
  }

  predicate MemberShown(env: Env, defs: Defs, gs: Groups, m: Symbol)
    requires m in gs.choice && gs.choice[m] in defs
  {
    Choices.Visible(WorldOf(env, defs, defs[gs.choice[m]]), m)
  }

  /** The equation for one symbol: a hidden member has the default of its own, if any. */
  ghost function GroupedValue(env: Env, defs: Defs, gs: Groups, users: Users, picks: Picks, s: Symbol): Value
    requires WellGrouped(defs, gs)
  {
    if s in gs.members then Value(if Settles(env, defs, gs, picks, s).Some? then YES else NO, "n")
    else if s in gs.choice then
      Value(if !MemberShown(env, defs, gs, s) then OwnDefault(env, defs[s])
            else if Settles(env, defs, gs, picks, gs.choice[s]) == Some(s) then YES else NO, "n")
    else SymValue(env, defs, users, s)
  }

  ghost predicate GroupedSolves(env: Env, defs: Defs, gs: Groups, users: Users, picks: Picks)
    requires WellGrouped(defs, gs)
  {
    forall s: Symbol :: env.val(s) == GroupedValue(env, defs, gs, users, picks, s)
  }

  ghost function PromptDeps(d: SymDef): set<Symbol> {
    set c, t | c in d.prompts && t in ConditionDeps(c) :: t
  }

  ghost function DefaultCondDeps(d: SymDef): set<Symbol> {
    set p, t | p in d.defaults && t in ConditionDeps(p.cond) :: t
  }

  ghost function OwnDefaultDeps(d: SymDef): set<Symbol> {
    set p, t | p in d.defaults && t in DefaultDeps(p) :: t
  }

  /** A choice depends on its prompts, the conditions of its defaults and the prompts of its members. */
  ghost function ChoiceDeps(defs: Defs, gs: Groups, c: Symbol): set<Symbol>
    requires WellGrouped(defs, gs) && c in gs.members
  {
    PromptDeps(defs[c]) + DefaultCondDeps(defs[c]) + set m, t | m in gs.members[c] && t in PromptDeps(defs[m]) :: t
  }

  /** What a symbol depends on; a member depends on its choice. */
  ghost function GroupedDeps(defs: Defs, gs: Groups, s: Symbol): set<Symbol>
    requires WellGrouped(defs, gs) && s in defs
  {
    if s in gs.members then ChoiceDeps(defs, gs, s)
    else if s in gs.choice then {gs.choice[s]} + OwnDefaultDeps(defs[s])
    else Deps(s, defs[s])
  }

  ghost predicate GroupedAcyclic(defs: Defs, gs: Groups, rank: Symbol -> nat)
    requires WellGrouped(defs, gs)
  {
    forall s, t :: s in defs && t in GroupedDeps(defs, gs, s) ==> rank(t) < rank(s)
  }

  lemma PromptsSame(env: Env, env': Env, d: SymDef)
    requires Agree(env, env', PromptDeps(d))
    ensures PromptMax(env, d.prompts) == PromptMax(env', d.prompts)
  {
    hide PromptMax;
    forall c | c in d.prompts ensures Agree(env, env', ConditionDeps(c)) {
      assert ConditionDeps(c) <= PromptDeps(d);
    }
    PromptMaxAgree(env, env', d.prompts);
  }

  lemma OwnDefaultSame(env: Env, env': Env, d: SymDef)
    requires Agree(env, env', OwnDefaultDeps(d))
    ensures OwnDefault(env, d) == OwnDefault(env', d)
  {
    hide Eval, FirstDefault;
    forall p | p in d.defaults ensures Agree(env, env', DefaultDeps(p)) {
      assert DefaultDeps(p) <= OwnDefaultDeps(d);
    }
    FirstDefaultAgree(env, env', d.defaults);
    var p := FirstDefault(env, d.defaults);
    if p.Some? {
      ConditionAgree(env, env', p.value.cond);
      EvalDependsOnMentions(env, env', p.value.value);
    }
  }

  /** The conditions of a group evaluate the same where all that it depends on has the same values. */
  lemma WorldSame(env: Env, env': Env, defs: Defs, gs: Groups, c: Symbol)
    requires WellGrouped(defs, gs) && c in gs.members && Agree(env, env', ChoiceDeps(defs, gs, c))
    ensures Choices.SameFor(WorldOf(env, defs, defs[c]), WorldOf(env', defs, defs[c]), GroupOf(defs, gs, c))
  {
    hide PromptMax, PromptDeps, DefaultCondDeps, EvalCondition, Choices.Proper;
    var d := defs[c];
    PromptsSame(env, env', d);
    forall m | m in gs.members[c] ensures OwnPrompt(env, defs, m) == OwnPrompt(env', defs, m) {
      assert PromptDeps(defs[m]) <= ChoiceDeps(defs, gs, c);
      PromptsSame(env, env', defs[m]);
    }
    forall i | 0 <= i < |d.defaults|
      ensures EvalCondition(env, d.defaults[i].cond) == EvalCondition(env', d.defaults[i].cond)
    {
      CondDepsInclude(d, i);
      ConditionAgree(env, env', d.defaults[i].cond);
    }
  }

  lemma CondDepsInclude(d: SymDef, i: nat)
    requires i < |d.defaults|
    ensures ConditionDeps(d.defaults[i].cond) <= DefaultCondDeps(d)
  {
    assert d.defaults[i] in d.defaults;
  }

  /** The user has picked members. */
  ghost predicate GoodPicks(gs: Groups, picks: Picks) {
    forall c :: c in gs.members && c in picks ==> picks[c] in gs.members[c]
  }

  lemma SettlesSame(env: Env, env': Env, defs: Defs, gs: Groups, picks: Picks, c: Symbol)
    requires WellGrouped(defs, gs) && GoodPicks(gs, picks) && c in gs.members
    requires Agree(env, env', ChoiceDeps(defs, gs, c))
    ensures Settles(env, defs, gs, picks, c) == Settles(env', defs, gs, picks, c)
    ensures forall m :: m in gs.members[c] ==> (MemberShown(env, defs, gs, m) <==> MemberShown(env', defs, gs, m))
  {
    hide PromptMax, PromptDeps, DefaultCondDeps, EvalCondition;
    WorldSame(env, env', defs, gs, c);
    var w, w' := WorldOf(env, defs, defs[c]), WorldOf(env', defs, defs[c]);
    Choices.SelectedSame(w, w', GroupOf(defs, gs, c), PickOf(picks, c));
  }

  /** A symbol has the same value under assignments that agree on all it depends on, directly or by its choice. */
  lemma GroupedAgree(env: Env, env': Env, defs: Defs, gs: Groups, users: Users, picks: Picks, s: Symbol)
    requires WellGrouped(defs, gs) && GoodPicks(gs, picks)
    requires s in defs ==> Agree(env, env', GroupedDeps(defs, gs, s))
    requires s in gs.choice ==> Agree(env, env', ChoiceDeps(defs, gs, gs.choice[s]))
    ensures GroupedValue(env, defs, gs, users, picks, s) == GroupedValue(env', defs, gs, users, picks, s)
  {
    hide Settles, MemberShown, OwnDefault, Deps, ChoiceDeps, Calc, Choices.Proper;
    if s in gs.members {
      assert s in defs && GroupedDeps(defs, gs, s) == ChoiceDeps(defs, gs, s);
      SettlesSame(env, env', defs, gs, picks, s);
    } else if s in gs.choice {
      SettlesSame(env, env', defs, gs, picks, gs.choice[s]);
      OwnDefaultSame(env, env', defs[s]);
    } else if s in defs {
      CalcAgree(env, env', s, defs[s], UserOf(users, s));
    }
  }

  /** All that a symbol depends on, directly or by its choice, ranks lower. */
  lemma DepsRankLower(defs: Defs, gs: Groups, rank: Symbol -> nat, s: Symbol, t: Symbol)
    requires WellGrouped(defs, gs) && GroupedAcyclic(defs, gs, rank) && s in defs
    requires t in GroupedDeps(defs, gs, s) || (s in gs.choice && t in ChoiceDeps(defs, gs, gs.choice[s]))
    ensures rank(t) < rank(s)
  {
    hide ChoiceDeps, OwnDefaultDeps, Deps, Choices.Proper;
    if t !in GroupedDeps(defs, gs, s) {
      assert t in GroupedDeps(defs, gs, gs.choice[s]) && gs.choice[s] in GroupedDeps(defs, gs, s);
    }
  }

  /** Without cycles two solutions agree on every symbol. */
  lemma {:induction false} GroupedUnique(env: Env, env': Env, defs: Defs, gs: Groups, users: Users, picks: Picks,
                                         rank: Symbol -> nat, s: Symbol)
    requires env.modules == env'.modules
    requires WellGrouped(defs, gs) && GoodPicks(gs, picks) && GroupedAcyclic(defs, gs, rank)
    requires GroupedSolves(env, defs, gs, users, picks) && GroupedSolves(env', defs, gs, users, picks)
    ensures env.val(s) == env'.val(s)
    decreases rank(s)
  {
    hide GroupedDeps, ChoiceDeps, Settles, MemberShown, OwnDefault, Calc, Choices.Proper, GroupedAcyclic;
    if s in defs {
      forall t | t in GroupedDeps(defs, gs, s) || (s in gs.choice && t in ChoiceDeps(defs, gs, gs.choice[s]))
        ensures env.val(t) == env'.val(t)
      {
        DepsRankLower(defs, gs, rank, s, t);
        GroupedUnique(env, env', defs, gs, users, picks, rank, t);
      }
      GroupedAgree(env, env', defs, gs, users, picks, s);
    }
  }

  /** The solution, computed along the ranks. */
  ghost function GroupedSolution(modules: Tristate, defs: Defs, gs: Groups, users: Users, picks: Picks,
                                 rank: Symbol -> nat, s: Symbol): Value
    requires WellGrouped(defs, gs)
    decreases rank(s)
  {
    var below := (t: Symbol) =>
      if rank(t) < rank(s) then GroupedSolution(modules, defs, gs, users, picks, rank, t) else Value(NO, "");
    GroupedValue(Env(modules, below), defs, gs, users, picks, s)
  }

  /** Without cycles there is a solution. */
  lemma GroupedExists(modules: Tristate, defs: Defs, gs: Groups, users: Users, picks: Picks, rank: Symbol -> nat)
    requires WellGrouped(defs, gs) && GoodPicks(gs, picks) && GroupedAcyclic(defs, gs, rank)
    ensures GroupedSolves(Env(modules, (s: Symbol) => GroupedSolution(modules, defs, gs, users, picks, rank, s)),
                          defs, gs, users, picks)
  {
    hide GroupedDeps, ChoiceDeps, GroupedValue, GroupedAcyclic, WellGrouped, GoodPicks;
    var env := Env(modules, (s: Symbol) => GroupedSolution(modules, defs, gs, users, picks, rank, s));
    forall s: Symbol ensures env.val(s) == GroupedValue(env, defs, gs, users, picks, s) {
      SolvedAt(modules, defs, gs, users, picks, rank, env, s);
    }
  }

  lemma SolvedAt(modules: Tristate, defs: Defs, gs: Groups, users: Users, picks: Picks, rank: Symbol -> nat,
                 env: Env, s: Symbol)
    requires WellGrouped(defs, gs) && GoodPicks(gs, picks) && GroupedAcyclic(defs, gs, rank)
    requires env == Env(modules, (s: Symbol) => GroupedSolution(modules, defs, gs, users, picks, rank, s))
    ensures env.val(s) == GroupedValue(env, defs, gs, users, picks, s)
  {
    hide GroupedDeps, ChoiceDeps, GroupedValue, GroupedAcyclic, Choices.Proper;
    var below := (t: Symbol) =>
      if rank(t) < rank(s) then GroupedSolution(modules, defs, gs, users, picks, rank, t) else Value(NO, "");
    assert env.val(s) == GroupedValue(Env(modules, below), defs, gs, users, picks, s);
    if s in defs {
      forall t | t in GroupedDeps(defs, gs, s) || (s in gs.choice && t in ChoiceDeps(defs, gs, gs.choice[s]))
        ensures below(t) == env.val(t)
      {
        DepsRankLower(defs, gs, rank, s, t);
      }
    }
    GroupedAgree(Env(modules, below), env, defs, gs, users, picks, s);
  }

  /** SYMBOL_WRITE of a member. */
  predicate MemberWritten(env: Env, defs: Defs, gs: Groups, m: Symbol)
    requires m in gs.choice && gs.choice[m] in defs && m in defs
  {
    !defs[m].auto && (MemberShown(env, defs, gs, m) || OwnDefault(env, defs[m]) != NO)
  }

  /** SYMBOL_WRITE of a plain symbol or a member. */
  predicate GroupedWritten(env: Env, defs: Defs, gs: Groups, s: Symbol)
    requires s in defs && (s in gs.choice ==> gs.choice[s] in defs)
  {
    if s in gs.choice then MemberWritten(env, defs, gs, s) else Written(env, s, defs[s])
  }

  lemma SettlesOnMember(env: Env, defs: Defs, gs: Groups, picks: Picks, c: Symbol)
    requires WellGrouped(defs, gs) && GoodPicks(gs, picks) && c in gs.members
    ensures var m := Settles(env, defs, gs, picks, c);
            m.Some? ==> m.value in gs.members[c] && m.value in gs.choice && gs.choice[m.value] == c
                        && MemberShown(env, defs, gs, m.value)
  {
    hide PromptMax;
    Choices.SelectedExact(WorldOf(env, defs, defs[c]), GroupOf(defs, gs, c), PickOf(picks, c));
  }

  /** A member shows exactly if its own prompts hold and its choice settles on some member. */
  lemma ShownExact(env: Env, defs: Defs, gs: Groups, picks: Picks, m: Symbol)
    requires WellGrouped(defs, gs) && GoodPicks(gs, picks) && m in gs.choice
    ensures MemberShown(env, defs, gs, m)
            <==> OwnPrompt(env, defs, m) != NO && Settles(env, defs, gs, picks, gs.choice[m]).Some?
  {
    hide PromptMax;
    var c := gs.choice[m];
    Choices.SelectedExact(WorldOf(env, defs, defs[c]), GroupOf(defs, gs, c), PickOf(picks, c));
  }

  /** A condition of a list that is not n. */
  ghost predicate SomeHolds(env: Env, cs: seq<Condition>) {
    exists c :: c in cs && EvalCondition(env, c) != NO
  }

  lemma SomeHoldsExact(env: Env, cs: seq<Condition>)
    ensures PromptMax(env, cs) != NO <==> SomeHolds(env, cs)
  {
    hide EvalCondition;
    PromptsLargest(env, cs);
  }

  /** A member shows exactly if one of its own prompts and one of the prompts of its choice is not n. */
  lemma ShownByPrompts(env: Env, defs: Defs, gs: Groups, m: Symbol)
    requires WellGrouped(defs, gs) && m in gs.choice
    ensures MemberShown(env, defs, gs, m)
            <==> SomeHolds(env, defs[m].prompts) && SomeHolds(env, defs[gs.choice[m]].prompts)
  {
    hide PromptMax, SomeHolds, Choices.Proper;
    SomeHoldsExact(env, defs[m].prompts);
    SomeHoldsExact(env, defs[gs.choice[m]].prompts);
  }

  /** The first default of a choice that holds and names a member that shows. */
  ghost predicate DefaultHolds(env: Env, defs: Defs, gs: Groups, c: Symbol, i: nat, m: Symbol)
    requires WellGrouped(defs, gs) && c in gs.members
  {
    && i < |defs[c].defaults| && EvalCondition(env, defs[c].defaults[i].cond) != NO
    && defs[c].defaults[i].value == Sym(m) && m in gs.choice && MemberShown(env, defs, gs, m)
  }

  /** The user's selection comes first, if it shows. */
  predicate PickShows(env: Env, defs: Defs, gs: Groups, picks: Picks, c: Symbol)
    requires WellGrouped(defs, gs) && GoodPicks(gs, picks) && c in gs.members
  {
    c in picks && MemberShown(env, defs, gs, picks[c])
  }

  lemma PickFirst(env: Env, defs: Defs, gs: Groups, picks: Picks, c: Symbol)
    requires WellGrouped(defs, gs) && GoodPicks(gs, picks) && c in gs.members && PickShows(env, defs, gs, picks, c)
    ensures Settles(env, defs, gs, picks, c) == Some(picks[c])
  {
    hide PromptMax;
    Choices.SelectedInOrder(WorldOf(env, defs, defs[c]), GroupOf(defs, gs, c), PickOf(picks, c));
  }

  /** Then the first default that holds and names a member that shows. */
  lemma DefaultNext(env: Env, defs: Defs, gs: Groups, picks: Picks, c: Symbol, i: nat, m: Symbol)
    requires WellGrouped(defs, gs) && GoodPicks(gs, picks) && c in gs.members && !PickShows(env, defs, gs, picks, c)
    requires DefaultHolds(env, defs, gs, c, i, m)
    requires forall j: nat, x :: j < i ==> !DefaultHolds(env, defs, gs, c, j, x)
    ensures Settles(env, defs, gs, picks, c) == Some(m)
  {
    hide PromptMax, EvalCondition;
    var w, g := WorldOf(env, defs, defs[c]), GroupOf(defs, gs, c);
    TargetsShown(env, defs, gs, c);
    assert g.defaults[i] == m;
    assert Choices.HoldsFirst(w, g, i) by {
      forall j: nat | j < i ensures w.conds(j) == NO || !Choices.Visible(w, g.defaults[j]) {
        assert !DefaultHolds(env, defs, gs, c, j, g.defaults[j]);
      }
    }
    Choices.SelectedInOrder(w, g, PickOf(picks, c));
    SettlesOnVisible(env, defs, gs, picks, c, m);
  }

  /** What the defaults name are members, and these show for the choice if they show. */
  lemma TargetsShown(env: Env, defs: Defs, gs: Groups, c: Symbol)
    requires WellGrouped(defs, gs) && c in gs.members
    ensures var w, g, ds := WorldOf(env, defs, defs[c]), GroupOf(defs, gs, c), defs[c].defaults;
            && |g.defaults| == |ds| && g.members == gs.members[c]
            && (forall j :: 0 <= j < |ds| ==>
                  && g.defaults[j] in gs.members[c] && ds[j].value == Sym(g.defaults[j])
                  && w.conds(j) == EvalCondition(env, ds[j].cond))
            && forall x :: x in gs.members[c] ==>
                 x in gs.choice && gs.choice[x] == c && (Choices.Visible(w, x) <==> MemberShown(env, defs, gs, x))
  {
    hide PromptMax, EvalCondition;
    var g, ds := GroupOf(defs, gs, c), defs[c].defaults;
    forall j | 0 <= j < |ds| ensures g.defaults[j] in gs.members[c] && ds[j].value == Sym(g.defaults[j]) {
      assert g.defaults[j] in g.defaults;
      assert IsTriConst(SYM_NO) && g.defaults[j] in gs.choice;
    }
  }

  lemma SettlesOnVisible(env: Env, defs: Defs, gs: Groups, picks: Picks, c: Symbol, m: Symbol)
    requires WellGrouped(defs, gs) && GoodPicks(gs, picks) && c in gs.members && !PickShows(env, defs, gs, picks, c)
    requires SettlesByDefault(env, defs, gs, c) == Some(m) && m in gs.choice && gs.choice[m] == c
    requires MemberShown(env, defs, gs, m)
    ensures Settles(env, defs, gs, picks, c) == Some(m)
  {
    hide PromptMax, Choices.DefaultOf, Choices.Proper;
  }

  /** And then the first member that shows. */
  lemma MemberLast(env: Env, defs: Defs, gs: Groups, picks: Picks, c: Symbol, i: nat)
    requires WellGrouped(defs, gs) && GoodPicks(gs, picks) && c in gs.members && !PickShows(env, defs, gs, picks, c)
    requires forall j: nat, x :: !DefaultHolds(env, defs, gs, c, j, x)
    requires i < |gs.members[c]| && MemberShown(env, defs, gs, gs.members[c][i])
    requires forall j: nat :: j < i ==> !MemberShown(env, defs, gs, gs.members[c][j])
    ensures Settles(env, defs, gs, picks, c) == Some(gs.members[c][i])
  {
    hide PromptMax, EvalCondition;
    var w, g := WorldOf(env, defs, defs[c]), GroupOf(defs, gs, c);
    TargetsShown(env, defs, gs, c);
    forall j: nat ensures !Choices.HoldsFirst(w, g, j) {
      if j < |g.defaults| {
        assert !DefaultHolds(env, defs, gs, c, j, g.defaults[j]);
      }
    }
    assert Choices.ShowsFirst(w, g, i) by {
      assert forall j: nat :: j <= i ==> gs.members[c][j] in gs.members[c];
    }
    Choices.SelectedInOrder(w, g, PickOf(picks, c));
    SettlesOnVisible(env, defs, gs, picks, c, gs.members[c][i]);
  }

  /** A hidden member has the default of its own that is in force, as y unless it is n. */
  lemma HiddenMember(env: Env, defs: Defs, gs: Groups, users: Users, picks: Picks, m: Symbol)
    requires WellGrouped(defs, gs) && GroupedSolves(env, defs, gs, users, picks)
    requires m in gs.choice && !MemberShown(env, defs, gs, m)
    ensures NoneInForce(env, defs[m].defaults) ==> env.val(m) == Value(NO, "n")
    ensures forall i: nat :: InForce(env, defs[m].defaults, i) ==>
              env.val(m) == Value(if Eval(env, defs[m].defaults[i].value) == NO then NO else YES, "n")
  {
    hide Eval, EvalCondition, FirstDefault, MemberShown, Settles, Choices.Proper;
    assert env.val(m) == GroupedValue(env, defs, gs, users, picks, m);
    if NoneInForce(env, defs[m].defaults) {
      NothingInForce(env, defs[m].defaults);
    }
    forall i: nat | InForce(env, defs[m].defaults, i)
      ensures FirstDefault(env, defs[m].defaults) == Some(defs[m].defaults[i])
    {
      FirstInForce(env, defs[m].defaults, i);
    }
  }

  /** The symbol is a member of the choice and shows. */
  ghost predicate MemberShows(env: Env, defs: Defs, gs: Groups, c: Symbol, m: Symbol)
    requires WellGrouped(defs, gs)
  {
    m in gs.choice && gs.choice[m] == c && MemberShown(env, defs, gs, m)
  }

  /** In every solution a choice is y exactly if a member shows, and then exactly one of those that show is y. */
  lemma ExactlyOne(env: Env, defs: Defs, gs: Groups, users: Users, picks: Picks, c: Symbol)
    requires WellGrouped(defs, gs) && GoodPicks(gs, picks) && GroupedSolves(env, defs, gs, users, picks)
    requires c in gs.members
    ensures env.val(c).tri == YES <==> exists m :: MemberShows(env, defs, gs, c, m)
    ensures env.val(c).tri == YES ==>
              exists m :: MemberShows(env, defs, gs, c, m) && env.val(m).tri == YES
                          && forall x :: x != m && MemberShows(env, defs, gs, c, x) ==> env.val(x).tri == NO
  {
    hide Calc, OwnDefault, Choices.Proper, Settles, MemberShown;
    SettlesOnMember(env, defs, gs, picks, c);
    assert forall s :: env.val(s) == GroupedValue(env, defs, gs, users, picks, s);
    forall m | m in gs.choice && gs.choice[m] == c
      ensures MemberShown(env, defs, gs, m) ==> Settles(env, defs, gs, picks, c).Some?
    {
      ShownExact(env, defs, gs, picks, m);
    }
    var m := Settles(env, defs, gs, picks, c);
    if m.Some? {
      assert MemberShows(env, defs, gs, c, m.value) && env.val(m.value).tri == YES;
    }
  }

  /** The prompts of plain symbols, choices and members depend on symbols of lower rank. */
  lemma PromptRanks(defs: Defs, gs: Groups, rank: Symbol -> nat, s: Symbol, c: Condition, t: Symbol)
    requires WellGrouped(defs, gs) && GroupedAcyclic(defs, gs, rank)
    requires s in defs && c in defs[s].prompts && t in ConditionDeps(c)
    ensures rank(t) < rank(s)
  {
    hide Deps, ConditionDeps, GroupedAcyclic, Choices.Proper;
    if s in gs.choice {
      MemberPromptRanks(defs, gs, rank, gs.choice[s], s, c, t);
      DepsRankLower(defs, gs, rank, s, gs.choice[s]);
    } else {
      DepsParts(s, defs[s]);
      DepsRankLower(defs, gs, rank, s, t);
    }
  }

  /** Those of a member rank below its choice, too. */
  lemma MemberPromptRanks(defs: Defs, gs: Groups, rank: Symbol -> nat, c: Symbol, m: Symbol, cond: Condition, t: Symbol)
    requires WellGrouped(defs, gs) && GroupedAcyclic(defs, gs, rank)
    requires c in gs.members && m in gs.members[c] && cond in defs[m].prompts && t in ConditionDeps(cond)
    ensures rank(t) < rank(c)
  {
    hide Deps, ConditionDeps, GroupedAcyclic, Choices.Proper;
    assert t in PromptDeps(defs[m]);
    assert t in ChoiceDeps(defs, gs, c);
    DepsRankLower(defs, gs, rank, c, t);
  }

  lemma DefaultRanks(defs: Defs, gs: Groups, rank: Symbol -> nat, s: Symbol, p: Default, t: Symbol)
    requires WellGrouped(defs, gs) && GroupedAcyclic(defs, gs, rank) && s in defs && p in defs[s].defaults
    requires t in ConditionDeps(p.cond) || (s !in gs.members && t in Mentions(p.value))
    ensures rank(t) < rank(s)
  {
    hide Deps, ConditionDeps, Mentions, GroupedAcyclic, Choices.Proper;
    if s in gs.members {
      assert t in DefaultCondDeps(defs[s]);
    } else if s in gs.choice {
      assert t in DefaultDeps(p) && t in OwnDefaultDeps(defs[s]);
    } else {
      DepsParts(s, defs[s]);
    }
    DepsRankLower(defs, gs, rank, s, t);
  }

  lemma ChoiceRanks(defs: Defs, gs: Groups, rank: Symbol -> nat, m: Symbol)
    requires WellGrouped(defs, gs) && GroupedAcyclic(defs, gs, rank) && m in gs.choice
    ensures rank(gs.choice[m]) < rank(m)
  {
    hide ChoiceDeps, GroupedAcyclic, Choices.Proper;
    DepsRankLower(defs, gs, rank, m, gs.choice[m]);
  }

  /** A choice and its members have their values under other selections exactly if it settles on the same. */
  lemma SettledExact(env: Env, defs: Defs, gs: Groups, users: Users, users': Users, picks: Picks, picks': Picks,
                     c: Symbol)
    requires WellGrouped(defs, gs) && GoodPicks(gs, picks) && GroupedSolves(env, defs, gs, users, picks)
    requires c in gs.members
    ensures (forall s :: s == c || s in gs.members[c] ==> GroupedValue(env, defs, gs, users', picks', s) == env.val(s))
            <==> Settles(env, defs, gs, picks', c) == Settles(env, defs, gs, picks, c)
  {
    hide Calc, OwnDefault, MemberShown, Settles, Choices.Proper;
    var m, m' := Settles(env, defs, gs, picks, c), Settles(env, defs, gs, picks', c);
    SettlesOnMember(env, defs, gs, picks, c);
    assert forall s :: env.val(s) == GroupedValue(env, defs, gs, users, picks, s);
    if forall s :: s == c || s in gs.members[c] ==> GroupedValue(env, defs, gs, users', picks', s) == env.val(s) {
      assert m.Some? <==> m'.Some?;
      assert m.Some? ==> GroupedValue(env, defs, gs, users', picks', m.value) == env.val(m.value) == Value(YES, "n");
    }
  }

  /** The values solve the equations for other user values and selections exactly if they do so part by part. */
  lemma SolvesByParts(env: Env, defs: Defs, gs: Groups, users: Users, users': Users, picks: Picks, picks': Picks)
    requires WellGrouped(defs, gs) && GoodPicks(gs, picks) && GroupedSolves(env, defs, gs, users, picks)
    ensures GroupedSolves(env, defs, gs, users', picks')
            <==> (forall s :: s in defs && s !in gs.members && s !in gs.choice ==>
                    GroupedValue(env, defs, gs, users', picks', s) == env.val(s))
                 && forall c :: c in gs.members ==> Settles(env, defs, gs, picks', c) == Settles(env, defs, gs, picks, c)
  {
    hide Settles, Choices.Proper, GroupedValue;
    forall c | c in gs.members
      ensures (forall s :: s == c || s in gs.members[c] ==> GroupedValue(env, defs, gs, users', picks', s) == env.val(s))
              <==> Settles(env, defs, gs, picks', c) == Settles(env, defs, gs, picks, c)
    {
      SettledExact(env, defs, gs, users, users', picks, picks', c);
    }
    forall s | s !in defs ensures GroupedValue(env, defs, gs, users', picks', s) == env.val(s) {
      UndefinedValue(env, defs, gs, users, users', picks, picks', s);
    }
  }

  lemma UndefinedValue(env: Env, defs: Defs, gs: Groups, users: Users, users': Users, picks: Picks, picks': Picks,
                       s: Symbol)
    requires WellGrouped(defs, gs) && s !in defs
    ensures GroupedValue(env, defs, gs, users', picks', s) == GroupedValue(env, defs, gs, users, picks, s)
  {
    hide Choices.Proper, Settles, MemberShown;
  }

  /** Evaluation gives given values exactly if they solve the equations. */
  lemma RestoredExact(env: Env, env': Env, defs: Defs, gs: Groups, users: Users, picks: Picks, rank: Symbol -> nat)
    requires env.modules == env'.modules
    requires WellGrouped(defs, gs) && GoodPicks(gs, picks) && GroupedAcyclic(defs, gs, rank)
    requires GroupedSolves(env', defs, gs, users, picks)
    ensures (forall s :: env'.val(s) == env.val(s)) <==> GroupedSolves(env, defs, gs, users, picks)
  {
    hide WellGrouped, GoodPicks, GroupedAcyclic, GroupedValue, GroupedDeps, ChoiceDeps;
    if forall s :: env'.val(s) == env.val(s) {
      forall s: Symbol ensures env.val(s) == GroupedValue(env, defs, gs, users, picks, s) {
        GroupedAgree(env', env, defs, gs, users, picks, s);
        assert env'.val(s) == GroupedValue(env', defs, gs, users, picks, s);
      }
    } else if GroupedSolves(env, defs, gs, users, picks) {
      forall s ensures env'.val(s) == env.val(s) {
        GroupedUnique(env, env', defs, gs, users, picks, rank, s);
      }
      assert false;
    }
  }

  /** A configuration without choices. */
  const NO_GROUPS: Groups := Groups(map[], map[])

  /** Without choices the equations and their ranks are those of Semantics. */
  lemma Ungrouped(env: Env, defs: Defs, users: Users, picks: Picks, rank: Symbol -> nat)
    ensures WellGrouped(defs, NO_GROUPS) && GoodPicks(NO_GROUPS, picks)
    ensures GroupedSolves(env, defs, NO_GROUPS, users, picks) <==> Solves(env, defs, users)
    ensures GroupedAcyclic(defs, NO_GROUPS, rank) <==> Acyclic(defs, rank)
  {
    hide Calc, Deps;
    assert forall s :: GroupedValue(env, defs, NO_GROUPS, users, picks, s) == SymValue(env, defs, users, s);
    if GroupedAcyclic(defs, NO_GROUPS, rank) {
      forall s, t | s in defs && t in Deps(s, defs[s]) ensures rank(t) < rank(s) {
        assert t in GroupedDeps(defs, NO_GROUPS, s);
      }
    }
  }
}
