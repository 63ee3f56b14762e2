/**
  What conf_write_defconfig and conf_read_simple (confdata.c) keep of configurations with choice groups: the
  member a choice settles on by default is skipped, and the last member read as y is the user's selection.
  Nothing is lost that way.
 */
module Grouped {
  import opened Options
  import opened Tristates
  import opened Exprs
  import opened Semantics
  import opened GroupedSemantics
  import opened DotConfig
  import opened FileText
  import opened Defconfig
  import Choices

  /**
    conf_write_defconfig writes a member: it shows, its value is not the default of its own, and it is not
    the member its choice settles on by default.
   */
  predicate MemberSaves(env: Env, defs: Defs, gs: Groups, m: Symbol)
    requires WellGrouped(defs, gs) && m in gs.choice
  {
    && !defs[m].auto && MemberShown(env, defs, gs, m)
    && StringValue(env.modules, m, env.val(m)) != TriName(OwnDefault(env, defs[m]))
    && !(env.val(m).tri == YES && SettlesByDefault(env, defs, gs, gs.choice[m]) == Some(m))
  }

  /** conf_write_defconfig writes a plain symbol or a member. */
  predicate GroupedSaves(env: Env, defs: Defs, gs: Groups, s: Symbol)
    requires WellGrouped(defs, gs) && s in defs
  {
    if s in gs.choice then MemberSaves(env, defs, gs, s) else Saves(env, s, defs[s])
  }

  ghost function GroupedSaved(env: Env, defs: Defs, gs: Groups): set<Symbol>
    requires WellGrouped(defs, gs)
  {
    set s | s in defs && s !in gs.members && GroupedSaves(env, defs, gs, s)
  }

  /** sym_get_string_default of a plain symbol or a member. */
  function GroupedDefault(env: Env, defs: Defs, gs: Groups, s: Symbol): string
    requires s in defs
  {
    if s in gs.choice then TriName(OwnDefault(env, defs[s])) else StringDefault(env, s, defs[s])
  }

  /** The user values left after saving the symbols of the menu tree and reading them back. */
  ghost function GroupedUsers(env: Env, defs: Defs, gs: Groups, inMenu: set<Symbol>): Users
    requires WellGrouped(defs, gs)
  {
    map s | s in GroupedSaved(env, defs, gs) && s in inMenu :: TextValue(s, StringValue(env.modules, s, env.val(s)))
  }

  /** The selection of a choice that is left: what it settled on, if that has a line. */
  ghost function SavedPick(env: Env, defs: Defs, gs: Groups, picks: Picks, inMenu: set<Symbol>, c: Symbol)
    : Option<Symbol>
    requires WellGrouped(defs, gs) && c in gs.members
  {
    var m := Settles(env, defs, gs, picks, c);
    if m.Some? && m.value in gs.choice && m.value in inMenu && MemberSaves(env, defs, gs, m.value) then m else None
  }

  ghost function SavedPicks(env: Env, defs: Defs, gs: Groups, picks: Picks, inMenu: set<Symbol>): Picks
    requires WellGrouped(defs, gs)
  {
    map c | c in gs.members && SavedPick(env, defs, gs, picks, inMenu, c).Some?
      :: SavedPick(env, defs, gs, picks, inMenu, c).value
  }

  /** What a choice settles on is its default, or a listed member, not AUTO and with no default of its own in force. */
  ghost predicate ChoiceSavable(env: Env, defs: Defs, gs: Groups, picks: Picks, inMenu: set<Symbol>, c: Symbol)
    requires WellGrouped(defs, gs) && c in gs.members
  {
    var m := Settles(env, defs, gs, picks, c);
    m.Some? && m != SettlesByDefault(env, defs, gs, c) ==>
      m.value in defs && m.value in inMenu && !defs[m.value].auto && OwnDefault(env, defs[m.value]) == NO
  }

  /** A choice settles on the same member again, with its conditions as they were, in exactly these cases. */
  lemma SavedPickExact(env: Env, defs: Defs, gs: Groups, users: Users, picks: Picks, inMenu: set<Symbol>, c: Symbol)
    requires WellGrouped(defs, gs) && GoodPicks(gs, picks) && c in gs.members
    requires GroupedSolves(env, defs, gs, users, picks)
    ensures Settles(env, defs, gs, SavedPicks(env, defs, gs, picks, inMenu), c) == Settles(env, defs, gs, picks, c)
            <==> ChoiceSavable(env, defs, gs, picks, inMenu, c)
  {
    hide PromptMax, OwnDefault, WorldOf, GroupedSolves, Choices.DefaultOf;
    SettlesOnMember(env, defs, gs, picks, c);
    var m := Settles(env, defs, gs, picks, c);
    if m.Some? {
      ChosenIsYes(env, defs, gs, users, picks, c);
    }
  }

  lemma ChosenIsYes(env: Env, defs: Defs, gs: Groups, users: Users, picks: Picks, c: Symbol)
    requires WellGrouped(defs, gs) && GoodPicks(gs, picks) && c in gs.members
    requires GroupedSolves(env, defs, gs, users, picks) && Settles(env, defs, gs, picks, c).Some?
    ensures var m := Settles(env, defs, gs, picks, c).value;
            && m in gs.choice && env.val(m) == Value(YES, "n")
            && StringValue(env.modules, m, env.val(m)) == TriName(YES)
            && (OwnDefault(env, defs[m]) == NO || OwnDefault(env, defs[m]) == YES)
            && TriName(YES) != TriName(NO)
  {
    hide Settles, MemberShown, DefaultTri;
    SettlesOnMember(env, defs, gs, picks, c);
    var m := Settles(env, defs, gs, picks, c).value;
    assert env.val(m) == GroupedValue(env, defs, gs, users, picks, m);
    TriNameInjective(YES, NO);
  }

  lemma PicksAreGood(env: Env, defs: Defs, gs: Groups, picks: Picks, inMenu: set<Symbol>)
    requires WellGrouped(defs, gs) && GoodPicks(gs, picks)
    ensures GoodPicks(gs, SavedPicks(env, defs, gs, picks, inMenu))
  {
    hide Settles, MemberShown, MemberSaves, Choices.Proper;
    forall c | c in gs.members && SavedPick(env, defs, gs, picks, inMenu, c).Some?
      ensures SavedPick(env, defs, gs, picks, inMenu, c).value in gs.members[c]
    {
      SettlesOnMember(env, defs, gs, picks, c);
    }
  }

  /** The plain symbols are saved as they are without choices. */
  lemma UserSaved(env: Env, defs: Defs, gs: Groups, inMenu: set<Symbol>, s: Symbol)
    requires WellGrouped(defs, gs) && s in defs && s !in gs.members && s !in gs.choice
    ensures UserOf(GroupedUsers(env, defs, gs, inMenu), s)
            == if s in inMenu then Restored(env, s, defs[s], env.val(s)) else None
  {
    hide SavesValue, MemberSaves, StringValue, TextValue, WellGrouped;
  }

  /** What makes a configuration with groups one that is saved faithfully. */
  ghost predicate AllSavable(env: Env, defs: Defs, gs: Groups, picks: Picks, inMenu: set<Symbol>)
    requires WellGrouped(defs, gs)
  {
    && (forall t :: t in defs && t !in gs.members && t !in gs.choice ==> Savable(env, t, defs[t], inMenu))
    && forall c :: c in gs.members ==> ChoiceSavable(env, defs, gs, picks, inMenu, c)
  }

  /** User values are valid and the ranges in force stable. */
  ghost predicate GroupedSound(env: Env, defs: Defs, gs: Groups, users: Users) {
    forall t :: t in defs && t !in gs.members && t !in gs.choice ==>
      !IsTriConst(t) && ValidUser(t, UserOf(users, t)) && (Visible(env, t, defs[t]) != NO ==> RangeOk(env, t, defs[t]))
  }

  /** Where everything evaluates as before, what is saved of a plain symbol gives it its value if it is savable. */
  lemma PlainSaved(env: Env, defs: Defs, gs: Groups, users: Users, picks: Picks, inMenu: set<Symbol>, s: Symbol)
    requires WellGrouped(defs, gs) && GroupedSound(env, defs, gs, users)
    requires GroupedSolves(env, defs, gs, users, picks)
    requires s in defs && s !in gs.members && s !in gs.choice
    ensures var users', picks' := GroupedUsers(env, defs, gs, inMenu), SavedPicks(env, defs, gs, picks, inMenu);
            GroupedValue(env, defs, gs, users', picks', s) == env.val(s) <==> Savable(env, s, defs[s], inMenu)
  {
    hide Settles, MemberShown, OwnDefault, Calc, Choices.Proper, Savable, ValidUser, SavedPicks, Restored,
        GroupedUsers, StringValue, Saves, Writable, Visible, RangeOk;
    assert env.val(s) == GroupedValue(env, defs, gs, users, picks, s);
    UserSaved(env, defs, gs, inMenu, s);
    SavedValueExact(env, s, defs[s], UserOf(users, s), inMenu);
  }

  /**
    conf_write_defconfig and conf_read_simple, also with choice groups: evaluation from the saved user values
    and selections alone gives every symbol, choice and member the value it had, exactly if every plain symbol
    and every choice is one that is saved faithfully.
   */
  lemma GroupedExact(env: Env, env': Env, defs: Defs, gs: Groups, users: Users, picks: Picks, inMenu: set<Symbol>,
                     rank: Symbol -> nat)
    requires env.modules == env'.modules
    requires WellGrouped(defs, gs) && GoodPicks(gs, picks) && GroupedAcyclic(defs, gs, rank)
    requires GroupedSound(env, defs, gs, users) && GroupedSolves(env, defs, gs, users, picks)
    requires GroupedSolves(env', defs, gs, GroupedUsers(env, defs, gs, inMenu), SavedPicks(env, defs, gs, picks, inMenu))
    ensures (forall s :: env'.val(s) == env.val(s)) <==> AllSavable(env, defs, gs, picks, inMenu)
  {
    hide Settles, Choices.Proper, GroupedAcyclic, GroupedValue, GroupedSolves, ChoiceSavable, Savable, GroupedSound,
        GroupedUsers, SavedPicks, GoodPicks;
    var users', picks' := GroupedUsers(env, defs, gs, inMenu), SavedPicks(env, defs, gs, picks, inMenu);
    PicksAreGood(env, defs, gs, picks, inMenu);
    RestoredExact(env, env', defs, gs, users', picks', rank);
    SolvesByParts(env, defs, gs, users, users', picks, picks');
    forall t | t in defs && t !in gs.members && t !in gs.choice
      ensures GroupedValue(env, defs, gs, users', picks', t) == env.val(t) <==> Savable(env, t, defs[t], inMenu)
    {
      PlainSaved(env, defs, gs, users, picks, inMenu, t);
    }
    forall c | c in gs.members
      ensures Settles(env, defs, gs, picks', c) == Settles(env, defs, gs, picks, c)
              <==> ChoiceSavable(env, defs, gs, picks, inMenu, c)
    {
      SavedPickExact(env, defs, gs, users, picks, inMenu, c);
    }
  }

  /** conf_read_simple takes a member that is read as y for the user's selection. */
  function PickAfter(gs: Groups, picks: Picks, a: Option<Assignment>): Picks {
    if a.Some? && a.value.s in gs.choice && a.value.v.tri == YES then picks[gs.choice[a.value.s] := a.value.s] else picks
  }

  /** The selections after making assignments in order. */
  function PicksOf(gs: Groups, es: seq<Assignment>): Picks
    decreases |es|
  {
    if es == [] then map[] else PickAfter(gs, PicksOf(gs, es[..|es| - 1]), Some(es[|es| - 1]))
  }

  lemma NoPicks(gs: Groups)
    ensures PicksOf(gs, []) == map[]
  {
  }

  /** One more assignment, or none. */
  lemma OnePick(gs: Groups, made: seq<Assignment>, a: Option<Assignment>)
    ensures PicksOf(gs, made + OneOrNone(a)) == PickAfter(gs, PicksOf(gs, made), a)
  {
    if a.Some? {
      assert (made + [a.value])[..|made|] == made;
    } else {
      assert made + [] == made;
    }
  }

  /** An assignment that selects a member of the choice. */
  predicate Chooses(gs: Groups, a: Assignment, c: Symbol) {
    a.s in gs.choice && gs.choice[a.s] == c && a.v.tri == YES
  }

  /** If all that is selected of a choice is one member, it is picked if it is selected at all. */
  lemma {:induction false} OnlyPick(gs: Groups, es: seq<Assignment>, c: Symbol, m: Symbol)
    requires forall a :: a in es && Chooses(gs, a, c) ==> a.s == m
    ensures PickOf(PicksOf(gs, es), c) == if exists a :: a in es && Chooses(gs, a, c) then Some(m) else None
    decreases |es|
  {
    if es != [] {
      var before, last := es[..|es| - 1], es[|es| - 1];
      assert es == before + [last];
      assert last in es && forall a :: a in es <==> a in before || a == last;
      OnlyPick(gs, before, c, m);
      if Chooses(gs, last, c) {
        assert last.s == m;
      } else {
        assert (exists a :: a in es && Chooses(gs, a, c)) <==> exists a :: a in before && Chooses(gs, a, c);
      }
    }
  }

  function AssignmentsOf(entries: seq<Entry>): seq<Assignment> {
    if entries == [] then []
    else [Assignment(entries[0].s, TextValue(entries[0].s, entries[0].str))] + AssignmentsOf(entries[1..])
  }

  /** Reading the lines of entries makes their assignments. */
  lemma {:induction false} EntriesEffects(prefix: string, syms: Table, entries: seq<Entry>)
    requires GoodPrefix(prefix)
    requires forall e :: e in entries ==> GoodName(prefix, syms, e.s) && Writable(e.s, e.str)
    ensures Effects(prefix, syms, PrintAll(prefix, entries)) == AssignmentsOf(entries)
  {
    hide LineEffect, SymbolLine, GoodName, Writable, TextValue, GoodPrefix;
    if entries != [] {
      var e := entries[0];
      var line := SymbolLine(prefix, e.s, e.str);
      LineRoundTrip(prefix, syms, e.s, e.str);
      LineAlone(prefix, syms, line);
      EffectsConcat(prefix, syms, line, PrintAll(prefix, entries[1..]));
      EntriesEffects(prefix, syms, entries[1..]);
    }
  }

  lemma {:induction false} AssignmentsExact(entries: seq<Entry>)
    ensures forall a :: a in AssignmentsOf(entries)
                        <==> exists e :: e in entries && a == Assignment(e.s, TextValue(e.s, e.str))
  {
    hide TextValue;
    if entries != [] {
      AssignmentsExact(entries[1..]);
      assert entries == [entries[0]] + entries[1..];
    }
  }

  /** The entries of a minimal configuration with choice groups. */
  ghost function GroupedEntries(env: Env, defs: Defs, gs: Groups, ss: seq<Symbol>): seq<Entry>
    requires WellGrouped(defs, gs)
  {
    EntriesFor(env, GroupedSaved(env, defs, gs), ss, {})
  }

  lemma GroupedEntriesExact(env: Env, defs: Defs, gs: Groups, ss: seq<Symbol>)
    requires WellGrouped(defs, gs)
    ensures forall e :: e in GroupedEntries(env, defs, gs, ss)
                        <==> e == EntryOf(env, e.s) && e.s in GroupedSaved(env, defs, gs) && e.s in ss
  {
    hide GroupedSaved, EntryOf, WellGrouped;
    EntriesExact(env, GroupedSaved(env, defs, gs), ss, {});
  }

  /** Without choices these are the entries of Defconfig. */
  lemma UngroupedEntries(env: Env, defs: Defs, ss: seq<Symbol>)
    ensures WellGrouped(defs, NO_GROUPS) && GroupedEntries(env, defs, NO_GROUPS, ss) == SavedEntries(env, defs, ss)
  {
    hide Saves;
    assert GroupedSaved(env, defs, NO_GROUPS) == SavedSet(env, defs);
  }

  lemma GroupedEntriesAssign(env: Env, defs: Defs, gs: Groups, ss: seq<Symbol>)
    requires WellGrouped(defs, gs)
    ensures Assigned(GroupedEntries(env, defs, gs, ss)) == GroupedUsers(env, defs, gs, set s | s in ss)
  {
    hide GroupedSaved, GroupedEntries, StringValue, TextValue, Assigned, WellGrouped;
    GroupedEntriesExact(env, defs, gs, ss);
    AssignedValues(env, GroupedEntries(env, defs, gs, ss));
  }

  /** A member has a line that sets it exactly if it is saved, listed and y; then its choice settled on it. */
  lemma MemberLine(env: Env, defs: Defs, gs: Groups, users: Users, picks: Picks, ss: seq<Symbol>, m: Symbol)
    requires WellGrouped(defs, gs) && GroupedSolves(env, defs, gs, users, picks) && m in gs.choice
    ensures MemberSaves(env, defs, gs, m) && env.val(m).tri == YES ==>
              Settles(env, defs, gs, picks, gs.choice[m]) == Some(m)
    ensures TextValue(m, StringValue(env.modules, m, env.val(m))).tri == env.val(m).tri
    ensures Writable(m, StringValue(env.modules, m, env.val(m)))
  {
    hide Settles, MemberShown, DefaultTri, Choices.Proper;
    assert env.val(m) == GroupedValue(env, defs, gs, users, picks, m);
    TextOfTri(env.modules, m, env.val(m));
  }

  /** The selections that reading gives are those that were to be saved. */
  lemma PicksSaved(env: Env, defs: Defs, gs: Groups, users: Users, picks: Picks, ss: seq<Symbol>, c: Symbol)
    requires WellGrouped(defs, gs) && GoodPicks(gs, picks) && GroupedSolves(env, defs, gs, users, picks)
    requires c in gs.members
    ensures PickOf(PicksOf(gs, AssignmentsOf(GroupedEntries(env, defs, gs, ss))), c)
            == SavedPick(env, defs, gs, picks, (set s | s in ss), c)
  {
    hide Settles, MemberSaves, EntriesFor, StringValue, TextValue, Choices.Proper, GroupedSolves, GroupedEntries;
    var entries := GroupedEntries(env, defs, gs, ss);
    var es := AssignmentsOf(entries);
    GroupedEntriesExact(env, defs, gs, ss);
    AssignmentsExact(entries);
    var settled := Settles(env, defs, gs, picks, c);
    var m := if settled.Some? then settled.value else c;
    forall a | a in es && Chooses(gs, a, c)
      ensures a.s == m && SavedPick(env, defs, gs, picks, (set s | s in ss), c) == Some(m)
    {
      var e :| e in entries && a == Assignment(e.s, TextValue(e.s, e.str));
      MemberLine(env, defs, gs, users, picks, ss, a.s);
    }
    OnlyPick(gs, es, c, m);
    if SavedPick(env, defs, gs, picks, (set s | s in ss), c).Some? {
      ChosenIsYes(env, defs, gs, users, picks, c);
      SettlesOnMember(env, defs, gs, picks, c);
      MemberLine(env, defs, gs, users, picks, ss, m);
      assert EntryOf(env, m) in entries;
      var a := Assignment(m, TextValue(m, StringValue(env.modules, m, env.val(m))));
      assert a in es && Chooses(gs, a, c);
    }
  }

  /** Selections are of choices that exist. */
  lemma {:induction false} PicksAreOfChoices(defs: Defs, gs: Groups, es: seq<Assignment>)
    requires WellGrouped(defs, gs)
    ensures forall c :: c in PicksOf(gs, es) ==> c in gs.members
    decreases |es|
  {
    hide Choices.Proper;
    if es != [] {
      PicksAreOfChoices(defs, gs, es[..|es| - 1]);
    }
  }

  lemma AllPicksSaved(env: Env, defs: Defs, gs: Groups, users: Users, picks: Picks, ss: seq<Symbol>)
    requires WellGrouped(defs, gs) && GoodPicks(gs, picks) && GroupedSolves(env, defs, gs, users, picks)
    ensures PicksOf(gs, AssignmentsOf(GroupedEntries(env, defs, gs, ss)))
            == SavedPicks(env, defs, gs, picks, set s | s in ss)
  {
    hide SavedPick, WellGrouped, GroupedSolves, GroupedEntries, PicksOf;
    var read := PicksOf(gs, AssignmentsOf(GroupedEntries(env, defs, gs, ss)));
    var saved := SavedPicks(env, defs, gs, picks, set s | s in ss);
    PicksAreOfChoices(defs, gs, AssignmentsOf(GroupedEntries(env, defs, gs, ss)));
    forall c | c in gs.members ensures PickOf(read, c) == PickOf(saved, c) {
      PicksSaved(env, defs, gs, users, picks, ss, c);
    }
    assert forall c :: c in read ==> PickOf(read, c) == Some(read[c]);
    assert forall c :: c in saved ==> PickOf(saved, c) == Some(saved[c]);
  }

  /** What is written can be read. */
  lemma EntriesWritable(env: Env, defs: Defs, gs: Groups, users: Users, picks: Picks, ss: seq<Symbol>, e: Entry)
    requires WellGrouped(defs, gs) && GoodPicks(gs, picks) && GroupedSound(env, defs, gs, users)
    requires GroupedSolves(env, defs, gs, users, picks) && e in GroupedEntries(env, defs, gs, ss)
    ensures e.s in defs && e.s !in gs.members && Writable(e.s, e.str)
  {
    hide Settles, MemberShown, MemberSaves, StringValue, Calc, ValidUser, Choices.Proper, GroupedEntries, Saves,
        Writable, TextValue, Visible, RangeOk;
    GroupedEntriesExact(env, defs, gs, ss);
    assert env.val(e.s) == GroupedValue(env, defs, gs, users, picks, e.s);
    if e.s in gs.choice {
      MemberLine(env, defs, gs, users, picks, ss, e.s);
    } else {
      SavedValueExact(env, e.s, defs[e.s], UserOf(users, e.s), set u | u in ss);
    }
  }

  /**
    From file to file, with choice groups: reading the text that conf_write_defconfig wrote and evaluating
    gives every symbol, choice and member the value it had, exactly if all of them are saved faithfully.
   */
  lemma GroupedFileExact(env: Env, env': Env, defs: Defs, gs: Groups, users: Users, picks: Picks, ss: seq<Symbol>,
                         rank: Symbol -> nat, prefix: string, syms: Table)
    requires env.modules == env'.modules && GoodPrefix(prefix)
    requires WellGrouped(defs, gs) && GoodPicks(gs, picks) && GroupedAcyclic(defs, gs, rank)
    requires forall t :: t in defs && t !in gs.members ==> GoodName(prefix, syms, t)
    requires GroupedSound(env, defs, gs, users) && GroupedSolves(env, defs, gs, users, picks)
    requires var text := PrintAll(prefix, GroupedEntries(env, defs, gs, ss));
             GroupedSolves(env', defs, gs, ReadText(prefix, syms, map[], text), PicksOf(gs, Effects(prefix, syms, text)))
    ensures (forall s :: env'.val(s) == env.val(s)) <==> AllSavable(env, defs, gs, picks, set u | u in ss)
  {
    hide GoodName, GroupedSolves, GroupedEntries, AllSavable, GroupedSound, GroupedAcyclic, Writable, PicksOf,
        ReadText, Effects, PrintAll, GroupedUsers, SavedPicks, WellGrouped, GoodPicks;
    var inMenu := set u | u in ss;
    var entries := GroupedEntries(env, defs, gs, ss);
    forall e | e in entries ensures GoodName(prefix, syms, e.s) && Writable(e.s, e.str) {
      EntriesWritable(env, defs, gs, users, picks, ss, e);
    }
    TextRoundTrip(prefix, syms, map[], entries);
    assert map[] + Assigned(entries) == Assigned(entries);
    EntriesEffects(prefix, syms, entries);
    GroupedEntriesAssign(env, defs, gs, ss);
    AllPicksSaved(env, defs, gs, users, picks, ss);
    GroupedExact(env, env', defs, gs, users, picks, inMenu, rank);
  }
}
