/**
  Writing configurations (conf_write and conf_write_defconfig in confdata.c): the walk over the menu
  tree that evaluates symbols, clears SYMBOL_WRITE so that none is written twice, and prints lines.
 */
module ConfWrite {
  import opened Options
  import opened Tristates
  import opened Exprs
  import opened Semantics
  import opened GroupedSemantics
  import opened Evaluator
  import opened DotConfig
  import opened Defconfig
  import opened Grouped
  import opened ConfRead
  import opened MenuTree
  import opened MenuWalk

  /** The symbols that the menus from here on can write: those of menus that are not choices, in order. */
  ghost function SymbolsOf(ms: seq<Menu>): seq<Symbol> {
    if ms == [] then []
    else (if ms[0].sym.Some? && !ms[0].isChoice then [ms[0].sym.value] else []) + SymbolsOf(ms[1..])
  }

  /** Inspecting a valid symbol again leaves everything below `k` correct. */
  lemma CorrectAgain(o: Oracle, k: nat, defs: Defs, users: Users, printed: set<Symbol>, s: Symbol, a: Moment, b: Moment)
    requires s in a.valid && o.rank(s) < k
    requires AllCorrect(o, k, defs, users, printed, a)
    requires GrewBut(o, o.rank(s), s, a, b) && AllCorrect(o, o.rank(s), defs, users, printed, b)
    requires GetIn(b.states, s) == GetIn(a.states, s)
    ensures AllCorrect(o, k, defs, users, printed, b) && Grew(o, k, a, b)
  {
    hide CorrectAs;
  }

  /** The members of a plain symbol or a member of a choice that writing looks at. */
  ghost predicate Known(cfg: Config, o: Oracle, s: Symbol)
    requires s in cfg.defs
    reads cfg
  {
    var st, d := cfg.Get(s), cfg.defs[s];
    && WellGrouped(cfg.defs, cfg.gs)
    && if s in cfg.gs.choice then
         st.visible == (if MemberShown(o.env, cfg.defs, cfg.gs, s) then YES else NO) && st.revDep == st.implied == NO
       else
         st.visible == Visible(o.env, s, d) && st.dirDep == DirDep(o.env, s, d)
         && st.revDep == RevDep(o.env, s, d) && st.implied == Implied(o.env, s, d)
  }

  /** sym_calc_visibility again, where it is already right. */
  method CalcVisibilityAgain(cfg: Config, s: Symbol, ghost o: Oracle)
    requires s in cfg.defs && s !in cfg.gs.members
    modifies cfg
    ensures cfg.users == old(cfg.users) && cfg.picks == old(cfg.picks) && cfg.printed == old(cfg.printed)
    ensures old(cfg.Inv(o, o.rank(s)) && Known(cfg, o, s)) ==>
              && cfg.Inv(o, o.rank(s)) && GrewBut(o, o.rank(s), s, old(cfg.Now()), cfg.Now())
              && cfg.Get(s) == old(cfg.Get(s)) && (s in cfg.gs.choice ==> cfg.gs.choice[s] in cfg.valid)
  {
    hide AllCorrect, GrewBut, Grew, Config.Good, Visible, DirDep, RevDep, Implied, WellGrouped, Settles, MemberShown;
    if s in cfg.gs.choice {
      cfg.CalcMemberVisible(s, o);
    } else {
      cfg.CalcVisibility(s, o);
    }
  }

  /** sym_get_string_default: it recalculates the visibility, and with it the choice of a member. */
  method StringDefaultOf(cfg: Config, s: Symbol, ghost o: Oracle, ghost k: nat) returns (str: string)
    requires s in cfg.defs && HasType(s) && s !in cfg.gs.members && WellGrouped(cfg.defs, cfg.gs)
    modifies cfg
    ensures cfg.users == old(cfg.users) && cfg.picks == old(cfg.picks) && cfg.printed == old(cfg.printed)
    ensures old(cfg.Inv(o, k)) && s in old(cfg.valid) && o.rank(s) < k ==>
              && cfg.Inv(o, k) && Grew(o, k, old(cfg.Now()), cfg.Now())
              && str == GroupedDefault(o.env, cfg.defs, cfg.gs, s)
              && (s in cfg.gs.choice ==> cfg.gs.choice[s] in cfg.valid)
  {
    hide AllCorrect, GrewBut, Grew, Config.Good, Visible, DirDep, RevDep, Implied, DefaultTri, DefaultStr, HasReason,
        WellGrouped, MemberShown;
    ghost var ok, before := cfg.Inv(o, k) && s in cfg.valid && o.rank(s) < k, cfg.Now();
    cfg.EvaluationFacts(o, s);
    MemberHasChoice(cfg.defs, cfg.gs, s);
    if ok {
      Lower(cfg, o, k, s);
    }
    CalcVisibilityAgain(cfg, s, o);
    var val := NO;
    str := "";
    if s.ty.Boolean? || s.ty.Tri? {
      val := cfg.CalcDefaultTri(s, o);
    } else {
      var found;
      str, found := cfg.CalcDefaultStr(s, o);
    }
    if ok {
      CorrectAgain(o, k, cfg.defs, cfg.users, cfg.printed, s, before, cfg.Now());
    }
    val := Or(val, cfg.Get(s).revDep);
    if val == MOD && (cfg.modules == NO || s.ty.Boolean?) {
      val := YES;
    }
    if val < cfg.Get(s).implied {
      val := cfg.Get(s).implied;
    }
    str := if s.ty.Boolean? || s.ty.Tri? then TriName(val) else str;
  }

  lemma Lower(cfg: Config, o: Oracle, k: nat, s: Symbol)
    requires s in cfg.defs && HasType(s) && s !in cfg.gs.members && s in cfg.valid && o.rank(s) < k
    ensures cfg.Inv(o, k) ==> cfg.Inv(o, o.rank(s)) && Known(cfg, o, s)
  {
    hide Visible, DirDep, RevDep, Implied, Calc, Written, Config.Good, MemberWritten, MemberShown, GroupedValue,
        Choices.Proper;
    assert cfg.Inv(o, k) ==> cfg.Correct(o, s);
    cfg.GroupFacts(o, k);
  }

  /** A valid symbol below `k` has the members the solution gives it, except that it may have been printed. */
  lemma WriteFlag(cfg: Config, o: Oracle, k: nat, s: Symbol)
    requires cfg.Inv(o, k) && cfg.Correct(o, s) && s in cfg.defs && HasType(s) && s !in cfg.gs.members
    ensures Known(cfg, o, s)
    ensures var st, d := cfg.Get(s), cfg.defs[s];
            && (st.write <==> GroupedWritten(o.env, cfg.defs, cfg.gs, s) && s !in cfg.printed)
            && (IsTriConst(s) || st.curr == o.env.val(s))
            && o.env.modules == cfg.modules && !IsTriConst(s)
  {
    hide Visible, DirDep, RevDep, Implied, Calc, Written, GroupedSolves, GroupedAcyclic, AllCorrect, MemberWritten,
        MemberShown, GroupedValue, Choices.Proper;
  }

  /** sym_calc_value, then a test of SYMBOL_WRITE that clears it. */
  method TakeWrite(cfg: Config, s: Symbol, ghost o: Oracle, ghost k: nat) returns (write: bool)
    requires s in cfg.defs && HasType(s) && s !in cfg.gs.members
    modifies cfg
    ensures cfg.users == old(cfg.users) && cfg.picks == old(cfg.picks)
    ensures old(cfg.Inv(o, k)) && o.rank(s) < k ==>
              && cfg.Inv(o, k) && s in cfg.valid && cfg.Correct(o, s) && Known(cfg, o, s)
              && (write <==> GroupedWritten(o.env, cfg.defs, cfg.gs, s) && s !in old(cfg.printed))
              && cfg.printed == old(cfg.printed) + if write then {s} else {}
  {
    hide GroupedWritten, Known, Config.Inv, Config.Correct, Grew;
    ghost var ok := cfg.Inv(o, k) && o.rank(s) < k;
    cfg.CalcValue(s, o, k);
    if ok {
      WriteFlag(cfg, o, k, s);
    }
    write := cfg.Get(s).write;
    if write {
      ClearWrite(cfg, s, o, k);
      if ok {
        WriteFlag(cfg, o, k, s);
      }
    }
  }

  /** sym->flags &= ~SYMBOL_WRITE. */
  method ClearWrite(cfg: Config, s: Symbol, ghost o: Oracle, ghost k: nat)
    modifies cfg
    ensures cfg.users == old(cfg.users) && cfg.picks == old(cfg.picks)
    ensures cfg.valid == old(cfg.valid) && cfg.printed == old(cfg.printed) + {s}
    ensures old(cfg.Inv(o, k) && cfg.Correct(o, s)) && s in cfg.valid && s !in cfg.gs.members
            && s !in old(cfg.printed) ==>
              cfg.Inv(o, k) && cfg.Correct(o, s)
  {
    hide AllCorrect, CorrectAs, Config.Good;
    cfg.GroupFacts(o, k);
    ghost var ok := cfg.Inv(o, k) && cfg.Correct(o, s) && s in cfg.valid && s !in cfg.printed
        && s !in cfg.gs.members;
    ghost var before, printed := cfg.Now(), cfg.printed;
    cfg.states := cfg.states[s := cfg.Get(s).(write := false)];
    cfg.printed := cfg.printed + {s};
    if ok {
      StillAllCorrect(o, k, cfg.defs, cfg.users, printed, s, before, cfg.Now());
    }
  }

  lemma StillAllCorrect(o: Oracle, k: nat, defs: Defs, users: Users, printed: set<Symbol>, s: Symbol, a: Moment,
      b: Moment)
    requires AllCorrect(o, k, defs, users, printed, a) && s !in printed && s !in o.gs.members
    requires CorrectAs(o, defs, users, printed, s, GetIn(a.states, s))
    requires b == a.(states := a.states[s := GetIn(a.states, s).(write := false)])
    ensures AllCorrect(o, k, defs, users, printed + {s}, b)
    ensures CorrectAs(o, defs, users, printed + {s}, s, GetIn(b.states, s))
  {
    hide StateOf, MemberState, IsChoiceState, WellGrouped;
  }

  /** What conf_write_defconfig does at a menu with a symbol that is not a choice. */
  method SaveSymbol(cfg: Config, prefix: string, s: Symbol, ghost o: Oracle, ghost k: nat) returns (line: string)
    requires s in cfg.defs && HasType(s) && s !in cfg.gs.members && WellGrouped(cfg.defs, cfg.gs)
    modifies cfg
    ensures cfg.users == old(cfg.users) && cfg.picks == old(cfg.picks)
    ensures old(cfg.Inv(o, k)) && o.rank(s) < k ==>
              && cfg.Inv(o, k)
              && (line == if s !in old(cfg.printed) && GroupedSaves(o.env, cfg.defs, cfg.gs, s)
                          then SymbolLine(prefix, s, StringValue(o.env.modules, s, o.env.val(s))) else "")
              && cfg.printed == old(cfg.printed) + if GroupedWritten(o.env, cfg.defs, cfg.gs, s) then {s} else {}
  {
    hide GroupedWritten, GroupedSaves, Known, Config.Inv, Config.Correct, GroupedDefault, SymbolLine, Grew,
        SettlesByDefault, WellGrouped, StringValue;
    ghost var ok := cfg.Inv(o, k) && o.rank(s) < k;
    MemberHasChoice(cfg.defs, cfg.gs, s);
    line := "";
    var write := TakeWrite(cfg, s, o, k);
    if ok {
      WriteFlag(cfg, o, k, s);
      SavesByParts(cfg, o, s);
    }
    if !write || !(cfg.Get(s).visible > cfg.Get(s).revDep) {
      return;
    }
    var str, tri := StringValue(cfg.modules, s, cfg.Curr(s)), cfg.Curr(s).tri;
    var dflt := StringDefaultOf(cfg, s, o, k);
    if str == dflt {
      return;
    }
    if s in cfg.gs.choice {
      var skip := IsChoiceDefault(cfg, s, o, k);
      if skip && tri == YES {
        return;
      }
    }
    line := WriteSymbol(prefix, s, str);
  }

  lemma MemberHasChoice(defs: Defs, gs: Groups, m: Symbol)
    requires WellGrouped(defs, gs)
    ensures m in gs.choice ==> m.ty.Boolean? && gs.choice[m] in gs.members && gs.choice[m] in defs
  {
    hide Choices.Proper;
  }

  /** What decides whether a symbol is saved. */
  lemma SavesByParts(cfg: Config, o: Oracle, s: Symbol)
    requires s in cfg.defs && HasType(s) && WellGrouped(cfg.defs, cfg.gs) && Known(cfg, o, s)
    requires o.env.modules == cfg.modules
    ensures var st, defs, gs, v := cfg.Get(s), cfg.defs, cfg.gs, o.env.val(s);
            && (GroupedSaves(o.env, defs, gs, s)
                <==> GroupedWritten(o.env, defs, gs, s) && st.visible > st.revDep
                     && StringValue(cfg.modules, s, v) != GroupedDefault(o.env, defs, gs, s)
                     && !(s in gs.choice && v.tri == YES && SettlesByDefault(o.env, defs, gs, gs.choice[s]) == Some(s)))
            && (s in gs.choice && st.visible > st.revDep ==> MemberShown(o.env, defs, gs, s))
  {
    hide Visible, RevDep, StringDefault, StringValue, Written, SettlesByDefault, OwnDefault, Choices.Proper;
  }

  /** The test for a member that its choice would settle on by default. */
  method IsChoiceDefault(cfg: Config, m: Symbol, ghost o: Oracle, ghost k: nat) returns (same: bool)
    requires m in cfg.defs && m in cfg.gs.choice && WellGrouped(cfg.defs, cfg.gs)
    modifies cfg
    ensures cfg.users == old(cfg.users) && cfg.picks == old(cfg.picks) && cfg.printed == old(cfg.printed)
    ensures old(cfg.Inv(o, k)) && o.rank(m) < k && cfg.gs.choice[m] in old(cfg.valid)
            && MemberShown(o.env, cfg.defs, cfg.gs, m) ==>
              && cfg.Inv(o, k)
              && (same <==> SettlesByDefault(o.env, cfg.defs, cfg.gs, cfg.gs.choice[m]) == Some(m))
  {
    hide Config.Inv, Grew, WellGrouped, SettlesByDefault, MemberShown, Config.CanSettle;
    MemberHasChoice(cfg.defs, cfg.gs, m);
    var c := cfg.gs.choice[m];
    if cfg.Inv(o, k) && o.rank(m) < k && c in cfg.valid && MemberShown(o.env, cfg.defs, cfg.gs, m) {
      ReadyToSettle(cfg, o, k, m);
    }
    var ds := cfg.ChoiceDefault(c, o, k);
    same := ds == Some(m);
  }

  lemma ReadyToSettle(cfg: Config, o: Oracle, k: nat, m: Symbol)
    requires m in cfg.defs && m in cfg.gs.choice && WellGrouped(cfg.defs, cfg.gs)
    requires cfg.gs.choice[m] in cfg.defs && cfg.gs.choice[m] in cfg.gs.members
    requires cfg.Inv(o, k) && o.rank(m) < k && cfg.gs.choice[m] in cfg.valid && MemberShown(o.env, cfg.defs, cfg.gs, m)
    ensures cfg.CanSettle(o, k, cfg.gs.choice[m])
  {
    hide GroupedSolves, GroupedAcyclic, Choices.Proper, ShowsRight, PromptMax, ConditionDeps, StateOf, MemberState;
    var c := cfg.gs.choice[m];
    ChoiceRanks(cfg.defs, cfg.gs, o.rank, m);
    assert cfg.Correct(o, c);
    forall p, t | p in cfg.defs[c].defaults && t in ConditionDeps(p.cond) ensures o.rank(t) < k {
      DefaultRanks(cfg.defs, cfg.gs, o.rank, c, p, t);
    }
  }

  lemma {:induction false} SymbolsConcat(a: seq<Menu>, b: seq<Menu>)
    ensures SymbolsOf(a + b) == SymbolsOf(a) + SymbolsOf(b)
  {
    if a == [] {
      assert a + b == b;
    } else {
      assert (a + b)[1..] == a[1..] + b;
      SymbolsConcat(a[1..], b);
    }
  }

  /** The symbol of a menu that is no choice: it has a definition and a type, and ranks below `k`. */
  ghost predicate Evaluable(s: Symbol, defs: Defs, o: Oracle, k: nat) {
    s in defs && HasType(s) && s !in o.gs.members && o.rank(s) < k
  }

  ghost predicate Listed(f: Forest, defs: Defs, o: Oracle, k: nat) {
    forall s :: s in SymbolsOf(Preorder(f)) ==> Evaluable(s, defs, o, k)
  }

  /** The state of the output after visiting the menus `ms`. */
  ghost predicate SavedSoFar(cfg: Config, o: Oracle, k: nat, prefix: string, ms: seq<Menu>, out: string)
    reads cfg
  {
    && cfg.Inv(o, k)
    && WellGrouped(cfg.defs, cfg.gs)
    && (forall s :: s in cfg.printed <==>
          s in SymbolsOf(ms) && s in cfg.defs && GroupedWritten(o.env, cfg.defs, cfg.gs, s))
    && out == PrintAll(prefix, GroupedEntries(o.env, cfg.defs, cfg.gs, SymbolsOf(ms)))
  }

  /** The step from one visited menu to one more. */
  lemma SavedStep(o: Oracle, defs: Defs, gs: Groups, prefix: string, ms: seq<Menu>, menu: Menu)
    requires WellGrouped(defs, gs)
    ensures var ss, ss' := SymbolsOf(ms), SymbolsOf(ms + [menu]);
            if menu.sym.None? || menu.isChoice then ss' == ss
            else
              var s := menu.sym.value;
              && ss' == ss + [s]
              && (s in defs && s !in gs.members ==>
                   PrintAll(prefix, GroupedEntries(o.env, defs, gs, ss'))
                   == PrintAll(prefix, GroupedEntries(o.env, defs, gs, ss))
                      + if s !in ss && GroupedSaves(o.env, defs, gs, s)
                        then SymbolLine(prefix, s, StringValue(o.env.modules, s, o.env.val(s))) else "")
  {
    hide GroupedSaves, StringValue, SymbolLine, WellGrouped;
    SymbolsConcat(ms, [menu]);
    assert [menu][1..] == [];
    if menu.sym.Some? && !menu.isChoice {
      var s, ss := menu.sym.value, SymbolsOf(ms);
      assert SymbolsOf([menu]) == [s];
      EntriesOneMore(o.env, GroupedSaved(o.env, defs, gs), ss, {}, s);
      var entries := GroupedEntries(o.env, defs, gs, ss);
      assert entries + [] == entries && PrintAll(prefix, entries) + "" == PrintAll(prefix, entries);
      if s in defs && s !in gs.members && s !in ss && GroupedSaves(o.env, defs, gs, s) {
        var e := Entry(s, StringValue(o.env.modules, s, o.env.val(s)));
        PrintConcat(prefix, entries, [e]);
        assert [e][1..] == [] && PrintAll(prefix, [e]) == SymbolLine(prefix, s, e.str) + "";
      }
    }
  }

  /** The loop body of conf_write_defconfig for one menu. */
  method SaveMenu(cfg: Config, prefix: string, menu: Menu, out: string, ghost o: Oracle, ghost k: nat,
      ghost ms: seq<Menu>)
    returns (out': string)
    requires SavedSoFar(cfg, o, k, prefix, ms, out)
    requires menu.sym.Some? && !menu.isChoice ==> Evaluable(menu.sym.value, cfg.defs, o, k)
    modifies cfg
    ensures cfg.users == old(cfg.users) && cfg.picks == old(cfg.picks)
    ensures SavedSoFar(cfg, o, k, prefix, ms + [menu], out')
  {
    hide GroupedSaves, GroupedWritten, StringValue, SymbolLine, Config.Inv, PrintAll, GroupedEntries, SymbolsOf,
        WellGrouped;
    out' := out;
    SavedStep(o, cfg.defs, cfg.gs, prefix, ms, menu);
    cfg.GroupFacts(o, k);
    if menu.sym.Some? && !menu.isChoice {
      var s := menu.sym.value;
      SavesWritten(o.env, cfg.defs, cfg.gs, s);
      var line := SaveSymbol(cfg, prefix, s, o, k);
      out' := out + line;
    }
  }

  lemma SavesWritten(env: Env, defs: Defs, gs: Groups, s: Symbol)
    requires WellGrouped(defs, gs) && s in defs
    ensures GroupedSaves(env, defs, gs, s) ==> GroupedWritten(env, defs, gs, s)
  {
    hide Choices.Proper;
  }

  /**
    conf_write_defconfig: the file holds the lines of the saved symbols in menu order, each once.
    `k` is a rank above those of all symbols in the tree.
   */
  method WriteDefconfig(cfg: Config, root: Menu, prefix: string, ghost f: Forest, ghost o: Oracle, ghost k: nat)
    returns (out: string)
    requires f.Cons? && f.node == root && f.next.Nil? && Linked(f, null, null)
    requires cfg.Good(o) && Listed(f.list, cfg.defs, o, k)
    modifies cfg
    ensures cfg.users == old(cfg.users) && cfg.picks == old(cfg.picks) && WellGrouped(cfg.defs, cfg.gs)
    ensures out == PrintAll(prefix, GroupedEntries(o.env, cfg.defs, cfg.gs, SymbolsOf(Preorder(f.list))))
  {
    hide Preorder, Position, Ahead, Config.Good, Linked, GroupedEntries, SymbolsOf, Nodes, ZipperNodes, Listed,
        PrintAll, SavedSoFar, HasType;
    ghost var nodes := Footprint(f);
    Start(root, f);
    ghost var g, z := f.list, Level(root, Nil, Top);
    assert Nodes(g) + ZipperNodes(z) <= nodes by {
      WithinTree(root, f);
    }
    cfg.ClearAllValid();
    cfg.NothingValid(o, k);
    out := "";
    ghost var visited: seq<Menu> := [];
    assert SavedSoFar(cfg, o, k, prefix, visited, out) by {
      NothingSaved(cfg, o, k, prefix);
    }
    var menu := root.list;
    while menu != null
      invariant menu != null ==> Nodes(g) + ZipperNodes(z) <= nodes
      invariant cfg.users == old(cfg.users) && cfg.picks == old(cfg.picks)
      invariant SavedSoFar(cfg, o, k, prefix, visited, out)
      invariant menu != null ==> Position(menu, g, z) && visited + Ahead(g, z) == Preorder(f.list)
      invariant menu == null ==> visited == Preorder(f.list)
      decreases |Preorder(f.list)| - |visited|, menu != null
    {
      var next;
      ghost var g', z';
      next, g', z' := NextMenu(menu, g, z);
      OneVisited(Preorder(f.list), visited, menu, if next != null then Ahead(g', z') else []);
      ListedAt(f.list, cfg.defs, o, k, |visited|);
      out := SaveMenu(cfg, prefix, menu, out, o, k, visited);
      visited, menu, g, z := visited + [menu], next, g', z';
    }
    AllSaved(cfg, o, k, prefix, visited, out);
  }

  lemma WithinTree(root: Menu, f: Forest)
    requires f.Cons? && f.node == root
    ensures Nodes(f.list) + ZipperNodes(Level(root, Nil, Top)) <= Nodes(f)
  {
  }

  lemma NothingSaved(cfg: Config, o: Oracle, k: nat, prefix: string)
    requires cfg.Inv(o, k) && cfg.printed == {}
    ensures SavedSoFar(cfg, o, k, prefix, [], "")
  {
    hide Config.Inv, WellGrouped;
    cfg.GroupFacts(o, k);
  }

  lemma AllSaved(cfg: Config, o: Oracle, k: nat, prefix: string, ms: seq<Menu>, out: string)
    requires SavedSoFar(cfg, o, k, prefix, ms, out)
    ensures WellGrouped(cfg.defs, cfg.gs)
    ensures out == PrintAll(prefix, GroupedEntries(o.env, cfg.defs, cfg.gs, SymbolsOf(ms)))
  {
  }

  lemma ListedAt(f: Forest, defs: Defs, o: Oracle, k: nat, i: nat)
    requires Listed(f, defs, o, k) && i < |Preorder(f)|
    ensures var m := Preorder(f)[i];
            m.sym.Some? && !m.isChoice ==> Evaluable(m.sym.value, defs, o, k)
  {
    hide SymbolsOf, Evaluable;
    SymbolListed(Preorder(f), i);
  }

  lemma {:induction false} SymbolListed(ms: seq<Menu>, i: nat)
    requires i < |ms|
    ensures ms[i].sym.Some? && !ms[i].isChoice ==> ms[i].sym.value in SymbolsOf(ms)
  {
    if i > 0 {
      SymbolListed(ms[1..], i - 1);
    }
  }
}
