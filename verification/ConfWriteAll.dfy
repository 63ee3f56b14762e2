/**
  conf_write (confdata.c): the whole configuration, with a heading for every visible menu without a
  symbol. The walk goes below hidden menus all the same, and no symbol is written twice. Reading the file
  back gives every symbol the value it had.
 */
module ConfWriteAll {
  import opened Options
  import opened Tristates
  import opened Exprs
  import opened Submenu
  import opened Semantics
  import opened GroupedSemantics
  import opened Evaluator
  import opened DotConfig
  import opened LineTexts
  import opened FileText
  import opened Headings
  import opened Defconfig
  import opened Grouped
  import opened GroupedConfig
  import opened ConfRead
  import opened MenuTree
  import opened MenuWalk
  import opened ConfWrite

  /** A piece of the file: the heading of a menu, or the line of a symbol with the given string value. */
  datatype Item = Heading(title: string) | Line(s: Symbol, str: string)

  function ItemText(prefix: string, item: Item): string {
    match item
    case Heading(title) => MenuHeading(title)
    case Line(s, str) => SymbolLine(prefix, s, str)
  }

  function TextOf(prefix: string, items: seq<Item>): string {
    if items == [] then "" else TextOf(prefix, items[..|items| - 1]) + ItemText(prefix, items[|items| - 1])
  }

  lemma TextOfMore(prefix: string, items: seq<Item>, more: seq<Item>)
    requires |more| <= 1
    ensures TextOf(prefix, items + more)
            == TextOf(prefix, items) + if more == [] then "" else ItemText(prefix, more[0])
  {
    if more == [] {
      assert items + more == items;
    } else {
      assert (items + more)[..|items|] == items;
    }
  }

  /** The condition of a menu's prompt, if it has one. */
  ghost function PromptOf(menu: Menu): Option<Condition>
    reads menu`props
  {
    if menu.prompt.Some? && menu.prompt.value < |menu.props| then Some(menu.props[menu.prompt.value].visible) else None
  }

  /** menu_is_visible for a menu without a symbol. */
  ghost predicate Shown(env: Env, menu: Menu)
    reads menu`props
  {
    && PromptOf(menu).Some?
    && EvalCondition(env, menu.visibility) != NO && EvalCondition(env, PromptOf(menu).value) != NO
  }

  ghost function ShownMenus(env: Env, nodes: set<Menu>): set<Menu>
    reads nodes`props
  {
    set m | m in nodes && Shown(env, m)
  }

  ghost function ItemOf(env: Env, defs: Defs, gs: Groups, menu: Menu, shown: set<Menu>, seen: set<Symbol>): seq<Item>
    requires WellGrouped(defs, gs)
  {
    if menu.sym.None? then if menu in shown && menu.promptText.Some? then [Heading(menu.promptText.value)] else []
    else
      var s := menu.sym.value;
      if !menu.isChoice && s !in seen && Writes(env, defs, gs, s)
      then [Line(s, StringValue(env.modules, s, env.val(s)))] else []
  }

  /** What a menu adds to the symbols seen. */
  ghost function SeenAt(menu: Menu): set<Symbol> {
    if menu.sym.Some? && !menu.isChoice then {menu.sym.value} else {}
  }

  /** The file for the menus in order: headings, and every written symbol at its first menu. */
  ghost function Items(env: Env, defs: Defs, gs: Groups, ms: seq<Menu>, shown: set<Menu>): seq<Item>
    requires WellGrouped(defs, gs)
  {
    if ms == [] then []
    else
      var before := ms[..|ms| - 1];
      Items(env, defs, gs, before, shown)
      + ItemOf(env, defs, gs, ms[|ms| - 1], shown, set s | s in SymbolsOf(before))
  }

  /** What conf_write puts out. */
  ghost function ConfigFile(env: Env, defs: Defs, gs: Groups, prefix: string, title: string, ms: seq<Menu>,
                            shown: set<Menu>): string
    requires WellGrouped(defs, gs)
  {
    FileHeading(title) + TextOf(prefix, Items(env, defs, gs, ms, shown))
  }

  lemma SymbolsOfOne(ms: seq<Menu>, menu: Menu)
    ensures forall s :: s in SymbolsOf(ms + [menu]) <==> s in SymbolsOf(ms) || s in SeenAt(menu)
  {
    SymbolsConcat(ms, [menu]);
    assert [menu][1..] == [];
  }

  /** The lines are for listed symbols, and no two are for the same symbol. */
  ghost predicate OneLineEach(items: seq<Item>, ss: seq<Symbol>) {
    && (forall i :: 0 <= i < |items| && items[i].Line? ==> items[i].s in ss)
    && forall i, j :: 0 <= i < j < |items| && items[i].Line? && items[j].Line? ==> items[i].s != items[j].s
  }

  /** Every symbol is written at most once, and only if a menu lists it. */
  lemma {:induction false} WrittenOnce(env: Env, defs: Defs, gs: Groups, ms: seq<Menu>, shown: set<Menu>)
    requires WellGrouped(defs, gs)
    ensures OneLineEach(Items(env, defs, gs, ms, shown), SymbolsOf(ms))
  {
    hide OneLineEach, Writes, StringValue, WellGrouped;
    if ms == [] {
      NoLines();
    } else {
      var before, last := ms[..|ms| - 1], ms[|ms| - 1];
      WrittenOnce(env, defs, gs, before, shown);
      SymbolsConcat(before, [last]);
      assert ms == before + [last] && [last][1..] == [];
      var a := Items(env, defs, gs, before, shown);
      var b := ItemOf(env, defs, gs, last, shown, set s | s in SymbolsOf(before));
      OneLineMore(a, b, SymbolsOf(before), SymbolsOf([last]));
    }
  }

  lemma NoLines()
    ensures OneLineEach([], [])
  {
  }

  lemma OneLineMore(a: seq<Item>, b: seq<Item>, ss: seq<Symbol>, tt: seq<Symbol>)
    requires OneLineEach(a, ss) && |b| <= 1 && (b != [] && b[0].Line? ==> b[0].s in tt && b[0].s !in ss)
    ensures OneLineEach(a + b, ss + tt)
  {
  }

  /** The menu gets a heading with this title: it has no symbol, its prompt holds and so does its `visible if`. */
  ghost predicate Titles(env: Env, menu: Menu, title: string)
    reads menu`props
  {
    && menu.sym.None? && menu.promptText == Some(title) && menu.prompt.Some? && menu.prompt.value < |menu.props|
    && EvalCondition(env, menu.visibility) != NO
    && EvalCondition(env, menu.props[menu.prompt.value].visible) != NO
  }

  /** The file has a heading for exactly these menus, and a line for exactly the written symbols, with their values. */
  lemma {:induction false} ItemsExact(env: Env, defs: Defs, gs: Groups, ms: seq<Menu>, nodes: set<Menu>)
    requires WellGrouped(defs, gs) && forall m :: m in ms ==> m in nodes
    ensures var items := Items(env, defs, gs, ms, ShownMenus(env, nodes));
            && (forall title :: Heading(title) in items <==> exists m :: m in ms && Titles(env, m, title))
            && forall s, str :: Line(s, str) in items
                                <==> s in SymbolsOf(ms) && Writes(env, defs, gs, s)
                                     && str == StringValue(env.modules, s, env.val(s))
  {
    hide Writes, StringValue, EvalCondition, WellGrouped;
    if ms != [] {
      var before, last := ms[..|ms| - 1], ms[|ms| - 1];
      assert ms == before + [last] && last in ms;
      ItemsExact(env, defs, gs, before, nodes);
      SymbolsOfOne(before, last);
      LastItem(env, defs, gs, last, nodes, set s | s in SymbolsOf(before));
    }
  }

  lemma LastItem(env: Env, defs: Defs, gs: Groups, menu: Menu, nodes: set<Menu>, seen: set<Symbol>)
    requires WellGrouped(defs, gs) && menu in nodes
    ensures var items := ItemOf(env, defs, gs, menu, ShownMenus(env, nodes), seen);
            && (forall title :: Heading(title) in items <==> Titles(env, menu, title))
            && forall s, str :: Line(s, str) in items
                                <==> s in SeenAt(menu) && s !in seen && Writes(env, defs, gs, s)
                                     && str == StringValue(env.modules, s, env.val(s))
  {
    hide Writes, StringValue, EvalCondition, WellGrouped;
  }

  /** What is put out for the first menus stands first. */
  lemma {:induction false} ItemsInOrder(env: Env, defs: Defs, gs: Groups, ms: seq<Menu>, more: seq<Menu>,
                                        shown: set<Menu>)
    requires WellGrouped(defs, gs)
    ensures Items(env, defs, gs, ms, shown) <= Items(env, defs, gs, ms + more, shown)
    decreases |more|
  {
    hide ItemOf, WellGrouped, SymbolsOf;
    if more == [] {
      assert ms + more == ms;
    } else {
      var before, last := more[..|more| - 1], more[|more| - 1];
      assert (ms + more)[..|ms + more| - 1] == ms + before;
      ItemsInOrder(env, defs, gs, ms, before, shown);
    }
  }

  /** The symbols in the conditions of a menu's prompt and of its `visible if` rank below `k`. */
  ghost predicate Ranks(menu: Menu, o: Oracle, k: nat)
    reads menu`props
  {
    && (forall t :: t in ConditionDeps(menu.visibility) ==> o.rank(t) < k)
    && forall c, t :: PromptOf(menu) == Some(c) && t in ConditionDeps(c) ==> o.rank(t) < k
  }

  /** The symbols of the tree and of the conditions of its menus rank below `k`. */
  ghost predicate ListedAll(f: Forest, defs: Defs, o: Oracle, k: nat)
    reads Nodes(f)`props
  {
    && Listed(f, defs, o, k)
    && forall m :: m in Nodes(f) ==> Ranks(m, o, k)
  }

  /** A menu with a prompt has its text, which menu_add_prop makes sure of. */
  ghost predicate Titled(nodes: set<Menu>) {
    forall m :: m in nodes && m.prompt.Some? ==> m.promptText.Some?
  }

  /** The state of the output behind the heading of the file after visiting the menus `ms`. */
  ghost predicate WrittenSoFar(cfg: Config, o: Oracle, k: nat, prefix: string, shown: set<Menu>, ms: seq<Menu>,
      heading: string, out: string)
    reads cfg
  {
    && cfg.Inv(o, k) && WellGrouped(cfg.defs, cfg.gs)
    && (forall s :: s in cfg.printed <==> s in SymbolsOf(ms) && Writes(o.env, cfg.defs, cfg.gs, s))
    && out == heading + TextOf(prefix, Items(o.env, cfg.defs, cfg.gs, ms, shown))
  }

  /** menu_is_visible for a menu without a symbol. */
  method MenuIsVisible(cfg: Config, menu: Menu, ghost o: Oracle, ghost k: nat) returns (visible: bool)
    modifies cfg
    ensures cfg.users == old(cfg.users) && cfg.picks == old(cfg.picks) && cfg.printed == old(cfg.printed)
    ensures old(cfg.Inv(o, k)) && Ranks(menu, o, k) ==> cfg.Inv(o, k) && visible == Shown(o.env, menu)
  {
    hide Config.Inv, Config.Unvalid, Config.Now, Grew, ConditionDeps;
    if menu.prompt.None? || menu.prompt.value >= |menu.props| {
      return false;
    }
    if menu.visibility.Some? {
      var v := cfg.EvalCond(menu.visibility, o, k);
      if v == NO {
        return false;
      }
    }
    var t := cfg.EvalCond(menu.props[menu.prompt.value].visible, o, k);
    visible := t != NO;
  }

  /** What one more menu adds to the file. */
  lemma ItemsMore(env: Env, defs: Defs, gs: Groups, prefix: string, ms: seq<Menu>, shown: set<Menu>, menu: Menu)
    requires WellGrouped(defs, gs)
    ensures var item := ItemOf(env, defs, gs, menu, shown, set s | s in SymbolsOf(ms));
            TextOf(prefix, Items(env, defs, gs, ms + [menu], shown))
            == TextOf(prefix, Items(env, defs, gs, ms, shown)) + if item == [] then "" else ItemText(prefix, item[0])
  {
    hide ItemText, Writes, StringValue, SymbolsOf, TextOf, WellGrouped;
    assert (ms + [menu])[..|ms|] == ms;
    TextOfMore(prefix, Items(env, defs, gs, ms, shown), ItemOf(env, defs, gs, menu, shown, set s | s in SymbolsOf(ms)));
  }

  /** The loop body of conf_write for one menu. */
  method WriteMenu(cfg: Config, prefix: string, menu: Menu, out: string, ghost o: Oracle, ghost k: nat,
                   ghost shown: set<Menu>, ghost ms: seq<Menu>, ghost heading: string)
    returns (out': string)
    requires WrittenSoFar(cfg, o, k, prefix, shown, ms, heading, out)
    requires menu.sym.Some? && !menu.isChoice ==> Evaluable(menu.sym.value, cfg.defs, o, k)
    requires Ranks(menu, o, k)
    requires menu in shown <==> Shown(o.env, menu)
    requires menu.prompt.Some? ==> menu.promptText.Some?
    modifies cfg
    ensures cfg.users == old(cfg.users) && cfg.picks == old(cfg.picks)
    ensures WrittenSoFar(cfg, o, k, prefix, shown, ms + [menu], heading, out')
  {
    hide GroupedWritten, Known, WellGrouped, StringValue, SymbolLine, MenuHeading, Config.Inv, Config.Correct, SymbolsOf,
        Shown, PromptOf, TextOf, Items;
    out' := out;
    SymbolsOfOne(ms, menu);
    ItemsMore(o.env, cfg.defs, cfg.gs, prefix, ms, shown, menu);
    cfg.GroupFacts(o, k);
    if menu.sym.None? {
      var visible := MenuIsVisible(cfg, menu, o, k);
      if visible {
        ShownHasPrompt(o.env, menu);
        out' := out' + MenuHeading(menu.promptText.value);
      }
    } else if !menu.isChoice {
      var s := menu.sym.value;
      var write := TakeWrite(cfg, s, o, k);
      WriteFlag(cfg, o, k, s);
      if write {
        var text := WriteSymbol(prefix, s, StringValue(cfg.modules, s, cfg.Curr(s)));
        out' := out' + text;
      }
    }
  }

  lemma ShownHasPrompt(env: Env, menu: Menu)
    ensures Shown(env, menu) ==> menu.prompt.Some?
  {
  }

  /** conf_write. With changes pending (`changed`) the cache is kept; nothing has been written from it then. */
  method WriteConfig(cfg: Config, root: Menu, prefix: string, changed: bool, ghost f: Forest, ghost o: Oracle,
      ghost k: nat)
    returns (out: string)
    requires changed ==> cfg.Inv(o, k) && cfg.printed == {}
    requires f.Cons? && f.node == root && f.next.Nil? && Linked(f, null, null)
    requires cfg.Good(o) && ListedAll(f.list, cfg.defs, o, k)
    requires root.promptText.Some? && Titled(Nodes(f.list))
    modifies cfg
    ensures cfg.users == old(cfg.users) && cfg.picks == old(cfg.picks) && WellGrouped(cfg.defs, cfg.gs)
    ensures out == ConfigFile(o.env, cfg.defs, cfg.gs, prefix, root.promptText.value, Preorder(f.list),
                              ShownMenus(o.env, Nodes(f.list)))
  {
    hide Preorder, Position, Ahead, Config.Good, Config.Inv, WellGrouped, Linked, Items, SymbolsOf, Nodes, ZipperNodes,
        Shown, PromptOf, TextOf, FileHeading;
    ghost var nodes := Footprint(f);
    ghost var below := Footprint(f.list);
    ghost var shown := ShownMenus(o.env, below);
    Start(root, f);
    ghost var g, z := f.list, Level(root, Nil, Top);
    WithinTree(root, f);
    assert below <= nodes by {
      assert Nodes(f.list) <= Nodes(f.list) + ZipperNodes(Level(root, Nil, Top)) <= Nodes(f);
    }
    out := WriteHeading(root.promptText.value);
    ghost var heading := out;
    if !changed {
      cfg.ClearAllValid();
      cfg.NothingValid(o, k);
    }
    cfg.GroupFacts(o, k);
    ghost var visited: seq<Menu> := [];
    assert WrittenSoFar(cfg, o, k, prefix, shown, visited, heading, out) by {
      NothingWritten(cfg, o, prefix, shown);
    }
    var menu := root.list;
    while menu != null
      invariant menu != null ==> Nodes(g) + ZipperNodes(z) <= nodes
      invariant cfg.users == old(cfg.users) && cfg.picks == old(cfg.picks)
      invariant WrittenSoFar(cfg, o, k, prefix, shown, visited, heading, out)
      invariant menu != null ==> Position(menu, g, z) && visited + Ahead(g, z) == Preorder(f.list)
      invariant menu == null ==> visited == Preorder(f.list)
      decreases |Preorder(f.list)| - |visited|, menu != null
    {
      var next;
      ghost var g', z';
      next, g', z' := NextMenu(menu, g, z);
      OneVisited(Preorder(f.list), visited, menu, if next != null then Ahead(g', z') else []);
      ListedNodes(f.list, menu);
      ListedAt(f.list, cfg.defs, o, k, |visited|);
      out := WriteMenu(cfg, prefix, menu, out, o, k, shown, visited, heading);
      visited, menu, g, z := visited + [menu], next, g', z';
    }
  }

  lemma ListedNodes(f: Forest, menu: Menu)
    requires menu in Preorder(f)
    ensures menu in Nodes(f)
  {
    NodesOfPreorder(f);
    Listings.ElementsMembers(Preorder(f), menu);
  }

  lemma NothingWritten(cfg: Config, o: Oracle, prefix: string, shown: set<Menu>)
    requires WellGrouped(cfg.defs, cfg.gs)
    ensures Items(o.env, cfg.defs, cfg.gs, [], shown) == [] && SymbolsOf([]) == []
    ensures TextOf(prefix, []) == ""
  {
  }

  /** Every written symbol has a name and a value that the reader takes as they are meant. */
  ghost predicate ReadableLines(env: Env, defs: Defs, gs: Groups, prefix: string, syms: Table, ss: seq<Symbol>)
    requires WellGrouped(defs, gs)
  {
    forall s :: s in ss && Writes(env, defs, gs, s) ==>
      !IsTriConst(s) && GoodName(prefix, syms, s)
      && Faithful(prefix, syms, s, StringValue(env.modules, s, env.val(s)))
  }

  /** No title of a menu reads like a line that unsets a symbol. */
  ghost predicate ReadableTitles(prefix: string, syms: Table, ms: seq<Menu>) {
    forall m :: m in ms && m.promptText.Some? ==>
      '\n' !in m.promptText.value && !Unsets(prefix, syms, m.promptText.value)
  }

  /** Nor does the title of the file. */
  ghost predicate ReadableHeading(prefix: string, syms: Table, title: string) {
    forall l :: l in Lines(HeadingBuffer(title)) ==> !Unsets(prefix, syms, l)
  }

  /** What the line of a symbol assigns. */
  function AssignmentOf(env: Env, s: Symbol): seq<Assignment> {
    var str := StringValue(env.modules, s, env.val(s));
    if Writable(s, str) then [Assignment(s, TextValue(s, str))] else []
  }

  /** What the lines of the symbols assign, each at its first place. */
  ghost function Assignments(env: Env, defs: Defs, gs: Groups, ss: seq<Symbol>): seq<Assignment>
    requires WellGrouped(defs, gs)
  {
    if ss == [] then []
    else
      var before, s := ss[..|ss| - 1], ss[|ss| - 1];
      Assignments(env, defs, gs, before)
      + if s !in before && Writes(env, defs, gs, s) then AssignmentOf(env, s) else []
  }

  /** Reading one more piece of the file. */
  lemma ReadItem(env: Env, defs: Defs, gs: Groups, prefix: string, syms: Table, menu: Menu, shown: set<Menu>,
                 seen: set<Symbol>)
    requires WellGrouped(defs, gs) && GoodPrefix(prefix)
    requires ReadableLines(env, defs, gs, prefix, syms, SymbolsOf([menu])) && ReadableTitles(prefix, syms, [menu])
    ensures var item := ItemOf(env, defs, gs, menu, shown, seen);
            Effects(prefix, syms, if item == [] then "" else ItemText(prefix, item[0]))
            == if item != [] && item[0].Line? then AssignmentOf(env, item[0].s) else []
  {
    hide Effects, SymbolLine, MenuHeading, Unsets, Writes, Writable, StringValue, TextValue, Faithful, GoodName,
        WellGrouped;
    EffectsNone(prefix, syms);
    if menu.sym.None? {
      if menu in shown && menu.promptText.Some? {
        MenuHeadingExact(prefix, syms, menu.promptText.value);
      }
    } else if !menu.isChoice {
      var s := menu.sym.value;
      assert SymbolsOf([menu]) == [s] by {
        assert [menu][1..] == [];
      }
      if s !in seen && Writes(env, defs, gs, s) {
        HasTriText(env.modules, s, env.val(s));
        WrittenEffects(prefix, syms, s, StringValue(env.modules, s, env.val(s)));
      }
    }
  }

  lemma HasTriText(modules: Tristate, s: Symbol, v: Value)
    requires !IsTriConst(s)
    ensures TriText(s, StringValue(modules, s, v))
  {
  }

  lemma {:induction false} TextWhole(prefix: string, items: seq<Item>)
    ensures WholeLines(TextOf(prefix, items))
  {
    hide SymbolLine;
    if items != [] {
      TextWhole(prefix, items[..|items| - 1]);
      var item := items[|items| - 1];
      if item.Line? {
        SymbolLineWhole(prefix, item.s, item.str);
      }
    }
  }

  /** Reading what was written for the menus makes the assignments of their symbols. */
  lemma {:induction false} ReadItems(env: Env, defs: Defs, gs: Groups, prefix: string, syms: Table, ms: seq<Menu>,
                                     shown: set<Menu>)
    requires WellGrouped(defs, gs) && GoodPrefix(prefix)
    requires ReadableLines(env, defs, gs, prefix, syms, SymbolsOf(ms)) && ReadableTitles(prefix, syms, ms)
    ensures Effects(prefix, syms, TextOf(prefix, Items(env, defs, gs, ms, shown)))
            == Assignments(env, defs, gs, SymbolsOf(ms))
  {
    hide Effects, ItemText, Writes, StringValue, Unsets, Faithful, GoodName, GoodPrefix, AssignmentOf, WellGrouped;
    if ms == [] {
      EffectsNone(prefix, syms);
      assert SymbolsOf(ms) == [] && TextOf(prefix, Items(env, defs, gs, ms, shown)) == "";
    } else {
      var before, last := ms[..|ms| - 1], ms[|ms| - 1];
      assert ms == before + [last];
      SymbolsConcat(before, [last]);
      ReadItems(env, defs, gs, prefix, syms, before, shown);
      var seen := set s | s in SymbolsOf(before);
      ReadItem(env, defs, gs, prefix, syms, last, shown, seen);
      ItemsMore(env, defs, gs, prefix, before, shown, last);
      TextWhole(prefix, Items(env, defs, gs, before, shown));
      var item := ItemOf(env, defs, gs, last, shown, seen);
      EffectsConcat(prefix, syms, TextOf(prefix, Items(env, defs, gs, before, shown)),
                    if item == [] then "" else ItemText(prefix, item[0]));
      AssignmentsMore(env, defs, gs, before, last, shown);
    }
  }

  lemma AssignmentsMore(env: Env, defs: Defs, gs: Groups, ms: seq<Menu>, menu: Menu, shown: set<Menu>)
    requires WellGrouped(defs, gs)
    ensures var item := ItemOf(env, defs, gs, menu, shown, set s | s in SymbolsOf(ms));
            Assignments(env, defs, gs, SymbolsOf(ms + [menu]))
            == Assignments(env, defs, gs, SymbolsOf(ms))
               + if item != [] && item[0].Line? then AssignmentOf(env, item[0].s) else []
  {
    hide Writes, AssignmentOf, WellGrouped, SymbolsOf, StringValue;
    SymbolsConcat(ms, [menu]);
    OneSymbol(menu);
    var ss, es := SymbolsOf(ms), Assignments(env, defs, gs, SymbolsOf(ms));
    assert es + [] == es;
    if menu.sym.Some? && !menu.isChoice {
      assert (ss + [menu.sym.value])[..|ss|] == ss;
    } else {
      assert ss + [] == ss;
    }
  }

  lemma OneSymbol(menu: Menu)
    ensures SymbolsOf([menu]) == if menu.sym.Some? && !menu.isChoice then [menu.sym.value] else []
  {
    assert [menu][1..] == [];
  }

  /** These assignments give every written symbol its value. */
  lemma {:induction false} AssignmentsUsers(env: Env, defs: Defs, gs: Groups, ss: seq<Symbol>)
    requires WellGrouped(defs, gs)
    ensures Apply(map[], Assignments(env, defs, gs, ss)) == KeptUsers(env, defs, gs, set s | s in ss)
  {
    hide Writes, Writable, StringValue, TextValue, WellGrouped;
    if ss == [] {
      assert KeptUsers(env, defs, gs, set s | s in ss) == map[];
    } else {
      var before, s := ss[..|ss| - 1], ss[|ss| - 1];
      assert ss == before + [s];
      AssignmentsUsers(env, defs, gs, before);
      var more := if s !in before && Writes(env, defs, gs, s) then AssignmentOf(env, s) else [];
      ApplyConcat(map[], Assignments(env, defs, gs, before), more);
      assert more != [] ==> more[1..] == [];
      assert (set x | x in ss) == (set x | x in before) + {s};
      OneMoreKept(env, defs, gs, (set x | x in before), s);
    }
  }

  lemma OneMoreKept(env: Env, defs: Defs, gs: Groups, seen: set<Symbol>, s: Symbol)
    requires WellGrouped(defs, gs)
    ensures var users := KeptUsers(env, defs, gs, seen);
            KeptUsers(env, defs, gs, seen + {s})
            == if s !in seen && Writes(env, defs, gs, s) && AssignmentOf(env, s) != []
               then users[s := AssignmentOf(env, s)[0].v] else users
  {
    hide GroupedWritten, Writable, StringValue, TextValue, WellGrouped;
  }

  /** And every choice the selection read. */
  lemma {:induction false} AssignmentsPicks(env: Env, defs: Defs, gs: Groups, ss: seq<Symbol>, c: Symbol)
    requires WellGrouped(defs, gs)
    ensures PickOf(PicksOf(gs, Assignments(env, defs, gs, ss)), c) == ReadPick(env, defs, gs, ss, c)
  {
    hide Writes, WellGrouped, AssignmentOf, PicksOf;
    if ss == [] {
      NoPicks(gs);
    } else {
      var before, s := ss[..|ss| - 1], ss[|ss| - 1];
      AssignmentsPicks(env, defs, gs, before, c);
      var es := Assignments(env, defs, gs, before);
      assert es + [] == es;
      if s !in before && Writes(env, defs, gs, s) {
        LinePicks(env, defs, gs, s);
        var line := AssignmentOf(env, s);
        var a := if line == [] then None else Some(line[0]);
        assert line == OneOrNone(a);
        OnePick(gs, es, a);
      }
    }
  }

  /** The line of a member says whether it is y. */
  lemma LinePicks(env: Env, defs: Defs, gs: Groups, s: Symbol)
    requires WellGrouped(defs, gs)
    ensures var line := AssignmentOf(env, s);
            && |line| <= 1 && (line != [] ==> line[0].s == s)
            && (s in gs.choice ==> (env.val(s).tri == YES <==> line != [] && line[0].v.tri == YES))
  {
    hide Choices.Proper;
    if s in gs.choice {
      assert s.ty.Boolean?;
      assert "n"[0] == 'n' && "m"[0] == 'm' && "y"[0] == 'y';
    }
  }

  /** Reading the file that conf_write wrote gives the values that were written, and of every choice the last y. */
  lemma ReadConfigFile(env: Env, defs: Defs, gs: Groups, prefix: string, syms: Table, title: string, ms: seq<Menu>,
                       shown: set<Menu>)
    requires WellGrouped(defs, gs) && GoodPrefix(prefix) && ReadableHeading(prefix, syms, title)
    requires ReadableLines(env, defs, gs, prefix, syms, SymbolsOf(ms)) && ReadableTitles(prefix, syms, ms)
    ensures var text, ss := ConfigFile(env, defs, gs, prefix, title, ms, shown), SymbolsOf(ms);
            && ReadText(prefix, syms, map[], text) == KeptUsers(env, defs, gs, set s | s in ss)
            && forall c :: PickOf(PicksOf(gs, Effects(prefix, syms, text)), c) == ReadPick(env, defs, gs, ss, c)
  {
    hide ReadText, Effects, TextOf, Items, CommentText, HeadingBuffer, KeptUsers, Unsets, ReadableLines,
        ReadableTitles, SymbolsOf, WellGrouped, PicksOf, ReadPick, Assignments;
    var buf, rest := HeadingBuffer(title), TextOf(prefix, Items(env, defs, gs, ms, shown));
    CommentExact(prefix, syms, buf);
    EffectsConcat(prefix, syms, CommentText(buf), rest);
    ReadItems(env, defs, gs, prefix, syms, ms, shown);
    var es := Assignments(env, defs, gs, SymbolsOf(ms));
    assert [] + es == es;
    ReadIsApply(prefix, syms, map[], CommentText(buf) + rest);
    AssignmentsUsers(env, defs, gs, SymbolsOf(ms));
    forall c ensures PickOf(PicksOf(gs, es), c) == ReadPick(env, defs, gs, SymbolsOf(ms), c) {
      AssignmentsPicks(env, defs, gs, SymbolsOf(ms), c);
    }
  }

  /**
    From file to file: reading the text that conf_write wrote and evaluating gives every symbol, choice and
    member the value it had, also with modules on, exactly if the values of all of them are kept.
   */
  lemma ConfigFileExact(env: Env, env': Env, defs: Defs, gs: Groups, users: Users, picks: Picks, rank: Symbol -> nat,
                        ms: seq<Menu>, shown: set<Menu>, prefix: string, syms: Table, title: string)
    requires env.modules == env'.modules
    requires WellGrouped(defs, gs) && GoodPicks(gs, picks) && GroupedAcyclic(defs, gs, rank)
    requires GroupedSound(env, defs, gs, users) && GroupedSolves(env, defs, gs, users, picks)
    requires GoodPrefix(prefix) && ReadableHeading(prefix, syms, title)
    requires ReadableLines(env, defs, gs, prefix, syms, SymbolsOf(ms)) && ReadableTitles(prefix, syms, ms)
    requires var text := ConfigFile(env, defs, gs, prefix, title, ms, shown);
             GroupedSolves(env', defs, gs, ReadText(prefix, syms, map[], text), PicksOf(gs, Effects(prefix, syms, text)))
    ensures (forall s :: env'.val(s) == env.val(s)) <==> AllKeepable(env, defs, gs, picks, SymbolsOf(ms))
  {
    hide ReadText, Effects, ConfigFile, KeptUsers, ReadableHeading, ReadableLines, ReadableTitles, AllKeepable,
        SymbolsOf, GroupedAcyclic, GroupedSolves, GroupedSound, WellGrouped, GoodPicks, PicksOf, ReadPick;
    ReadConfigFile(env, defs, gs, prefix, syms, title, ms, shown);
    var text := ConfigFile(env, defs, gs, prefix, title, ms, shown);
    KeptExact(env, env', defs, gs, users, picks, PicksOf(gs, Effects(prefix, syms, text)), SymbolsOf(ms), rank);
  }

  /**
    Without the condition on line breaks this fails: a text with a line break, written behind a bool that
    is n, makes the reader set the bool to y.
   */
  lemma LaterTextOverrides(prefix: string, syms: Table, b: Symbol, s: Symbol)
    requires GoodPrefix(prefix) && GoodName(prefix, syms, s) && GoodName(prefix, syms, b)
    requires s.ty.String? && b.ty.Boolean? && PlainName(prefix, b)
    ensures var str := "\n" + prefix + b.name + "=y\n";
            && ReadText(prefix, syms, map[], TextOf(prefix, [Line(b, "n"), Line(s, str)])) == map[b := Value(YES, "")]
            && !Faithful(prefix, syms, s, str)
  {
    hide ReadText, SymbolLine, GoodName, Faithful, GoodPrefix;
    var str := "\n" + prefix + b.name + "=y\n";
    var first, items := SymbolLine(prefix, b, "n"), [Line(b, "n"), Line(s, str)];
    TextOfMore(prefix, [Line(b, "n")], [Line(s, str)]);
    TextOfMore(prefix, [], [Line(b, "n")]);
    assert [Line(b, "n")] + [Line(s, str)] == items && [] + [Line(b, "n")] == [Line(b, "n")];
    assert TextOf(prefix, items) == first + SymbolLine(prefix, s, str);
    ReadPrinted(prefix, syms, map[], b, "n", SymbolLine(prefix, s, str));
    var users: Users := map[b := Value(NO, "")];
    NewlineInjects(prefix, syms, users, s, b);
    NewlineInjects(prefix, syms, map[], s, b);
    var none: Users := map[];
    assert str[0] == '\n' && b in none[b := Value(YES, "")] && b !in none;
    if Faithful(prefix, syms, s, str) {
      ReadWritten(prefix, syms, none, s, str);
      assert false;
    }
  }
}
