/**
  What conf_write and conf_read_simple (confdata.c) keep of configurations with choice groups. Every visible
  member has a line, and so has a hidden one with a default of its own; of those that are y the last one read
  is the user's selection.
 */
module GroupedConfig {
  import opened Options
  import opened Tristates
  import opened Exprs
  import opened Semantics
  import opened GroupedSemantics
  import opened DotConfig
  import opened FileText
  import opened Defconfig
  import opened Grouped
  import Choices

  /** conf_write has a line for the symbol. */
  predicate Writes(env: Env, defs: Defs, gs: Groups, s: Symbol)
    requires WellGrouped(defs, gs)
  {
    s in defs && s !in gs.members && GroupedWritten(env, defs, gs, s)
  }

  /** The user values left after writing the symbols of the menu tree and reading them back. */
  ghost function KeptUsers(env: Env, defs: Defs, gs: Groups, inMenu: set<Symbol>): Users
    requires WellGrouped(defs, gs)
  {
    map s | s in defs && s in inMenu && Writes(env, defs, gs, s) && Writable(s, StringValue(env.modules, s, env.val(s)))
      :: TextValue(s, StringValue(env.modules, s, env.val(s)))
  }

  /** The line of `s` makes it the selection of `c`. */
  predicate Claims(env: Env, defs: Defs, gs: Groups, s: Symbol, c: Symbol)
    requires WellGrouped(defs, gs)
  {
    s in gs.choice && gs.choice[s] == c && Writes(env, defs, gs, s) && env.val(s).tri == YES
  }

  /** The selection read of a choice: the last member with such a line, which stands where it is listed first. */
  ghost function ReadPick(env: Env, defs: Defs, gs: Groups, ss: seq<Symbol>, c: Symbol): Option<Symbol>
    requires WellGrouped(defs, gs)
  {
    if ss == [] then None
    else
      var before, s := ss[..|ss| - 1], ss[|ss| - 1];
      if s !in before && Claims(env, defs, gs, s, c) then Some(s) else ReadPick(env, defs, gs, before, c)
  }

  /** Where a symbol is listed first. */
  function First(ss: seq<Symbol>, s: Symbol): nat {
    if ss == [] || ss[0] == s then 0 else 1 + First(ss[1..], s)
  }

  lemma {:induction false} FirstMore(ss: seq<Symbol>, s: Symbol, x: Symbol)
    ensures First(ss, x) < |ss| <==> x in ss
    ensures First(ss, x) <= |ss|
    ensures First(ss + [s], x) == if x !in ss && x != s then |ss| + 1 else First(ss, x)
  {
    if ss == [] {
      assert (ss + [s])[1..] == [];
    } else {
      assert (ss + [s])[1..] == ss[1..] + [s];
      FirstMore(ss[1..], s, x);
    }
  }

  /** The selection read is the member that claims the choice and is listed behind all others that do. */
  lemma {:induction false} ReadPickExact(env: Env, defs: Defs, gs: Groups, ss: seq<Symbol>, c: Symbol, m: Symbol)
    requires WellGrouped(defs, gs)
    ensures ReadPick(env, defs, gs, ss, c) == Some(m)
            <==> m in ss && Claims(env, defs, gs, m, c)
                 && forall x :: x in ss && x != m && Claims(env, defs, gs, x, c) ==> First(ss, x) < First(ss, m)
  {
    hide Claims, WellGrouped, First;
    if ss != [] {
      var before, s := ss[..|ss| - 1], ss[|ss| - 1];
      assert ss == before + [s];
      ReadPickExact(env, defs, gs, before, c, m);
      forall x ensures First(ss, x) == (if x !in before && x != s then |before| + 1 else First(before, x)) {
        FirstMore(before, s, x);
      }
      forall x ensures First(before, x) < |before| <==> x in before {
        FirstMore(before, s, x);
      }
      FirstMore(before, s, s);
      FirstMore(before, s, m);
    }
  }

  /** A hidden member that is y by a default of its own, and has a line. */
  predicate Lingers(env: Env, defs: Defs, gs: Groups, m: Symbol)
    requires m in gs.choice && gs.choice[m] in defs && m in defs
  {
    !defs[m].auto && !MemberShown(env, defs, gs, m) && OwnDefault(env, defs[m]) == YES
  }

  /**
    What a choice settles on is its default, or a listed member, not AUTO, and listed behind all hidden members
    that are y by a default of their own.
   */
  ghost predicate ChoiceKeepable(env: Env, defs: Defs, gs: Groups, picks: Picks, ss: seq<Symbol>, c: Symbol)
    requires WellGrouped(defs, gs) && c in gs.members
  {
    var m := Settles(env, defs, gs, picks, c);
    m.Some? && m != SettlesByDefault(env, defs, gs, c) ==>
      && m.value in ss && m.value in defs && !defs[m.value].auto
      && forall x :: x in gs.choice && gs.choice[x] == c && x in ss && Lingers(env, defs, gs, x) ==>
           First(ss, x) < First(ss, m.value)
  }

  /** Only the member a choice settles on and lingering members claim it. */
  lemma ClaimsExact(env: Env, defs: Defs, gs: Groups, users: Users, picks: Picks, c: Symbol, x: Symbol)
    requires WellGrouped(defs, gs) && GoodPicks(gs, picks) && GroupedSolves(env, defs, gs, users, picks)
    requires c in gs.members
    ensures Claims(env, defs, gs, x, c)
            <==> x in gs.choice && gs.choice[x] == c
                 && if Settles(env, defs, gs, picks, c) == Some(x) then !defs[x].auto else Lingers(env, defs, gs, x)
  {
    hide Settles, DefaultTri, MemberShown, Choices.Proper;
    SettlesOnMember(env, defs, gs, picks, c);
    assert env.val(x) == GroupedValue(env, defs, gs, users, picks, x);
  }

  /** A choice settles on the same member again, with its conditions as they were, in exactly these cases. */
  lemma KeptPickExact(env: Env, defs: Defs, gs: Groups, users: Users, picks: Picks, picks': Picks, ss: seq<Symbol>,
                      c: Symbol)
    requires WellGrouped(defs, gs) && GoodPicks(gs, picks) && GroupedSolves(env, defs, gs, users, picks)
    requires c in gs.members && PickOf(picks', c) == ReadPick(env, defs, gs, ss, c)
    ensures Settles(env, defs, gs, picks', c) == Settles(env, defs, gs, picks, c)
            <==> ChoiceKeepable(env, defs, gs, picks, ss, c)
  {
    hide Settles, SettlesByDefault, MemberShown, Choices.Proper, Claims, ReadPick, GroupedSolves, OwnDefault;
    var m, read := Settles(env, defs, gs, picks, c), ReadPick(env, defs, gs, ss, c);
    SettlesOnMember(env, defs, gs, picks, c);
    forall x ensures Claims(env, defs, gs, x, c)
      <==> x in gs.choice && gs.choice[x] == c && if m == Some(x) then !defs[x].auto else Lingers(env, defs, gs, x)
    {
      ClaimsExact(env, defs, gs, users, picks, c, x);
    }
    if read.Some? {
      ReadPickExact(env, defs, gs, ss, c, read.value);
    }
    if m.Some? {
      ReadPickExact(env, defs, gs, ss, c, m.value);
    }
    Resettled(env, defs, gs, picks, picks', c);
  }

  /** With a selection that is the old outcome, or a hidden member, or none. */
  lemma Resettled(env: Env, defs: Defs, gs: Groups, picks: Picks, picks': Picks, c: Symbol)
    requires WellGrouped(defs, gs) && GoodPicks(gs, picks) && c in gs.members
    requires var p := PickOf(picks', c);
             p == Settles(env, defs, gs, picks, c) || p.None?
             || (p.value in gs.choice && gs.choice[p.value] == c && !MemberShown(env, defs, gs, p.value))
    ensures var m := Settles(env, defs, gs, picks, c);
            Settles(env, defs, gs, picks', c)
            == if m.None? || PickOf(picks', c) == m then m else SettlesByDefault(env, defs, gs, c)
  {
    hide PromptMax;
    var w, g := WorldOf(env, defs, defs[c]), GroupOf(defs, gs, c);
    Choices.SelectedExact(w, g, PickOf(picks, c));
    Choices.SelectedExact(w, g, None);
  }

  /** What makes a configuration with groups one whose values are all kept. */
  ghost predicate AllKeepable(env: Env, defs: Defs, gs: Groups, picks: Picks, ss: seq<Symbol>)
    requires WellGrouped(defs, gs)
  {
    && (forall t :: t in defs && t !in gs.members && t !in gs.choice ==> Keepable(env, t, defs[t], set s | s in ss))
    && forall c :: c in gs.members ==> ChoiceKeepable(env, defs, gs, picks, ss, c)
  }

  lemma KeptUserOf(env: Env, defs: Defs, gs: Groups, inMenu: set<Symbol>, s: Symbol)
    requires WellGrouped(defs, gs) && s in defs && s !in gs.members && s !in gs.choice
    ensures UserOf(KeptUsers(env, defs, gs, inMenu), s) == KeptUser(env, s, defs[s], inMenu)
  {
    hide Written, Writable, TextValue, StringValue, WellGrouped;
  }

  lemma PlainKept(env: Env, defs: Defs, gs: Groups, users: Users, picks: Picks, picks': Picks, inMenu: set<Symbol>,
                  s: Symbol)
    requires WellGrouped(defs, gs) && GroupedSound(env, defs, gs, users)
    requires GroupedSolves(env, defs, gs, users, picks)
    requires s in defs && s !in gs.members && s !in gs.choice
    ensures GroupedValue(env, defs, gs, KeptUsers(env, defs, gs, inMenu), picks', s) == env.val(s)
            <==> Keepable(env, s, defs[s], inMenu)
  {
    hide Settles, MemberShown, OwnDefault, Calc, Choices.Proper, Keepable, ValidUser, KeptUser, KeptUsers, Visible,
        RangeOk;
    assert env.val(s) == GroupedValue(env, defs, gs, users, picks, s);
    KeptUserOf(env, defs, gs, inMenu, s);
    WrittenValueExact(env, s, defs[s], UserOf(users, s), inMenu);
  }

  /** Selections that are read are members. */
  lemma ReadPicksAreGood(env: Env, defs: Defs, gs: Groups, picks: Picks, ss: seq<Symbol>)
    requires WellGrouped(defs, gs) && forall c :: c in gs.members ==> PickOf(picks, c) == ReadPick(env, defs, gs, ss, c)
    ensures GoodPicks(gs, picks)
  {
    hide Writes, Choices.Proper, ReadPick;
    forall c | c in gs.members && c in picks ensures picks[c] in gs.members[c] {
      assert PickOf(picks, c) == Some(picks[c]);
      ReadPickExact(env, defs, gs, ss, c, picks[c]);
    }
  }

  /**
    conf_write and conf_read_simple, with choice groups and also with modules on: evaluation from what was
    written gives every symbol, choice and member the value it had, exactly if all of them are kept.
   */
  lemma KeptExact(env: Env, env': Env, defs: Defs, gs: Groups, users: Users, picks: Picks, picks': Picks,
                  ss: seq<Symbol>, rank: Symbol -> nat)
    requires env.modules == env'.modules
    requires WellGrouped(defs, gs) && GoodPicks(gs, picks) && GroupedAcyclic(defs, gs, rank)
    requires GroupedSound(env, defs, gs, users) && GroupedSolves(env, defs, gs, users, picks)
    requires forall c :: c in gs.members ==> PickOf(picks', c) == ReadPick(env, defs, gs, ss, c)
    requires GroupedSolves(env', defs, gs, KeptUsers(env, defs, gs, set s | s in ss), picks')
    ensures (forall s :: env'.val(s) == env.val(s)) <==> AllKeepable(env, defs, gs, picks, ss)
  {
    hide Settles, Choices.Proper, GroupedAcyclic, GroupedValue, GroupedSolves, ChoiceKeepable, Keepable, GroupedSound,
        KeptUsers, GoodPicks, ReadPick;
    var inMenu := set s | s in ss;
    var users' := KeptUsers(env, defs, gs, inMenu);
    ReadPicksAreGood(env, defs, gs, picks', ss);
    RestoredExact(env, env', defs, gs, users', picks', rank);
    SolvesByParts(env, defs, gs, users, users', picks, picks');
    forall t | t in defs && t !in gs.members && t !in gs.choice
      ensures GroupedValue(env, defs, gs, users', picks', t) == env.val(t) <==> Keepable(env, t, defs[t], inMenu)
    {
      PlainKept(env, defs, gs, users, picks, picks', inMenu, t);
    }
    forall c | c in gs.members
      ensures Settles(env, defs, gs, picks', c) == Settles(env, defs, gs, picks, c)
              <==> ChoiceKeepable(env, defs, gs, picks, ss, c)
    {
      KeptPickExact(env, defs, gs, users, picks, picks', ss, c);
    }
  }

  const SHOWN: SymDef := SymDef([None], [], [], None, None, None, false)
  const HIDDEN: SymDef := SymDef([], [Default(None, Sym(SYM_YES))], [], None, None, None, false)

  lemma ShownAndHidden(env: Env)
    requires env.val(SYM_YES).tri == YES
    ensures PromptMax(env, SHOWN.prompts) == YES && PromptMax(env, HIDDEN.prompts) == NO
    ensures OwnDefault(env, SHOWN) == NO && OwnDefault(env, HIDDEN) == YES
  {
    assert SHOWN.prompts[..0] == [];
  }

  lemma TakeoverGrouped(c: Symbol, a: Symbol, b: Symbol, h: Symbol)
    requires c != a && c != b && c != h && a != b && a != h && b != h
    requires forall s :: s in {a, b, c, h} ==> s.ty.Boolean? && !IsTriConst(s)
    ensures WellGrouped(map[c := SHOWN, a := SHOWN, b := SHOWN, h := HIDDEN],
                        Groups(map[c := [a, b, h]], map[a := c, b := c, h := c]))
  {
  }

  lemma TakeoverDeps()
    ensures PromptDeps(SHOWN) == {} && PromptDeps(HIDDEN) == {} && DefaultCondDeps(SHOWN) == {}
    ensures OwnDefaultDeps(SHOWN) == {} && OwnDefaultDeps(HIDDEN) <= {SYM_YES}
  {
    assert ConditionDeps(None) == {} && Mentions(Sym(SYM_YES)) == {SYM_YES};
    assert DefaultDeps(Default(None, Sym(SYM_YES))) == {SYM_YES};
  }

  /** Such a configuration has no cycle: the choice ranks above what its members need, and the members above it. */
  lemma TakeoverRanked(c: Symbol, a: Symbol, b: Symbol, h: Symbol)
    requires c != a && c != b && c != h && a != b && a != h && b != h
    requires forall s :: s in {a, b, c, h} ==> s.ty.Boolean? && !IsTriConst(s)
    ensures var defs := map[c := SHOWN, a := SHOWN, b := SHOWN, h := HIDDEN];
            var gs := Groups(map[c := [a, b, h]], map[a := c, b := c, h := c]);
            WellGrouped(defs, gs)
            && GroupedAcyclic(defs, gs, (s: Symbol) => if s == c then 1 else if s in gs.choice then 2 else 0)
  {
    hide WellGrouped, PromptDeps, DefaultCondDeps, OwnDefaultDeps;
    TakeoverGrouped(c, a, b, h);
    TakeoverDeps();
    var defs := map[c := SHOWN, a := SHOWN, b := SHOWN, h := HIDDEN];
    var gs := Groups(map[c := [a, b, h]], map[a := c, b := c, h := c]);
    assert ChoiceDeps(defs, gs, c) == {};
    assert SYM_YES !in {a, b, c, h} by {
      assert IsTriConst(SYM_YES);
    }
  }

  /**
    Where keeping fails: the user selected `b`, and behind it a hidden member `h` is listed that is y by a
    default of its own. Read back, `h` is the selection, and the choice settles on its default `a`.
   */
  lemma HiddenMemberTakesOver(env: Env, c: Symbol, a: Symbol, b: Symbol, h: Symbol)
    requires c != a && c != b && c != h && a != b && a != h && b != h
    requires forall s :: s in {a, b, c, h} ==> s.ty.Boolean? && !IsTriConst(s)
    requires env.val(SYM_YES).tri == YES && env.val(a) == Value(NO, "n")
    requires env.val(c) == env.val(b) == env.val(h) == Value(YES, "n")
    ensures var defs := map[c := SHOWN, a := SHOWN, b := SHOWN, h := HIDDEN];
            var gs := Groups(map[c := [a, b, h]], map[a := c, b := c, h := c]);
            && WellGrouped(defs, gs)
            && (forall s :: s in defs ==> env.val(s) == GroupedValue(env, defs, gs, map[], map[c := b], s))
            && Settles(env, defs, gs, map[c := b], c) == Some(b)
            && ReadPick(env, defs, gs, [a, b, h], c) == Some(h)
            && Settles(env, defs, gs, map[c := h], c) == Some(a)
            && !ChoiceKeepable(env, defs, gs, map[c := b], [a, b, h], c)
  {
    hide PromptMax, OwnDefault;
    var defs := map[c := SHOWN, a := SHOWN, b := SHOWN, h := HIDDEN];
    var gs := Groups(map[c := [a, b, h]], map[a := c, b := c, h := c]);
    ShownAndHidden(env);
    var w, g := WorldOf(env, defs, defs[c]), GroupOf(defs, gs, c);
    assert [a, b, h][1..] == [b, h] && [a, b, h][..2] == [a, b];
    assert Choices.Visible(w, a) && Choices.Visible(w, b) && !Choices.Visible(w, h);
    assert Choices.FirstVisible(w, [a, b, h]) == Some(a);
    assert g.defaults == [] && Choices.DefaultOf(w, g) == Some(a);
    assert First([b, h], h) == 1 + First([b, h][1..], h);
    assert First([a, b, h], h) == 2 && First([a, b, h], b) == 1 by {
      assert [b, h][1..] == [h];
    }
  }
}
