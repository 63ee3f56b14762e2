/**
  Writing a configuration, reading it back and evaluating again, all on one configuration in memory
  (conf_write_defconfig, conf_write and conf_read_simple in confdata.c, sym_calc_value in symbol.c).
 */
module RoundTrip {
  import opened Tristates
  import opened Exprs
  import opened Semantics
  import opened GroupedSemantics
  import opened Evaluator
  import opened Escapes
  import opened DotConfig
  import opened FileText
  import opened Defconfig
  import opened Grouped
  import opened GroupedConfig
  import opened ConfRead
  import opened SetValue
  import opened MenuTree
  import opened MenuWalk
  import opened ConfWrite
  import opened ConfWriteAll
  import Choices

  /** Selections that are read are members of their choices. */
  lemma {:induction false} PicksOfAreGood(defs: Defs, gs: Groups, es: seq<Assignment>)
    requires WellGrouped(defs, gs)
    ensures GoodPicks(gs, PicksOf(gs, es))
    decreases |es|
  {
    hide Choices.Proper;
    if es != [] {
      PicksOfAreGood(defs, gs, es[..|es| - 1]);
    }
  }

  /** Outside the defined symbols two solutions agree anyway. */
  lemma DefinedDecide(env: Env, env': Env, defs: Defs, gs: Groups, users: Users, users': Users, picks: Picks,
                      picks': Picks)
    requires WellGrouped(defs, gs)
    requires GroupedSolves(env, defs, gs, users, picks) && GroupedSolves(env', defs, gs, users', picks')
    ensures (forall s :: s in defs ==> env'.val(s) == env.val(s)) <==> forall s :: env'.val(s) == env.val(s)
  {
    hide Choices.Proper, Settles, MemberShown, Calc;
    forall s | s !in defs ensures env'.val(s) == env.val(s) {
      assert env.val(s) == GroupedValue(env, defs, gs, users, picks, s);
      assert env'.val(s) == GroupedValue(env', defs, gs, users', picks', s);
    }
  }

  /** Reading a text and evaluating all symbols, in any order. */
  method Load(cfg: Config, prefix: string, syms: Table, text: string, order: seq<Symbol>, ghost o: Oracle, ghost k: nat)
    returns (ghost o': Oracle)
    requires cfg.Good(o) && NUL !in text
    requires (forall s :: s in order ==> o.rank(s) < k) && forall s :: s in cfg.defs ==> s in order
    modifies cfg
    ensures cfg.users == ReadText(prefix, syms, map[], text)
    ensures cfg.picks == PicksOf(cfg.gs, Effects(prefix, syms, text))
    ensures cfg.Good(o') && forall s :: s in cfg.defs ==> cfg.Curr(s) == o'.env.val(s)
  {
    hide ReadText, PicksOf, Effects, GroupedSolves, GroupedAcyclic, WellGrouped, GoodPicks;
    ReadSimple(cfg, prefix, syms, text);
    PicksOfAreGood(cfg.defs, cfg.gs, Effects(prefix, syms, text));
    o' := NewOracle(cfg, o);
    cfg.CalcInAnyOrder(order, o', k);
  }

  /**
    Saving a minimal configuration and loading it: afterwards every symbol, choice and member has the value it
    had, exactly if all of them are saved faithfully.
   */
  method SaveAndLoad(cfg: Config, root: Menu, prefix: string, syms: Table, order: seq<Symbol>, ghost f: Forest,
                     ghost o: Oracle, ghost k: nat)
    requires f.Cons? && f.node == root && f.next.Nil? && Linked(f, null, null)
    requires cfg.Good(o) && Listed(f.list, cfg.defs, o, k) && GroupedSound(o.env, cfg.defs, cfg.gs, cfg.users)
    requires (forall s :: s in order ==> o.rank(s) < k) && forall s :: s in cfg.defs ==> s in order
    requires GoodPrefix(prefix) && forall t :: t in cfg.defs && t !in cfg.gs.members ==> GoodName(prefix, syms, t)
    requires NUL !in PrintAll(prefix, GroupedEntries(o.env, cfg.defs, cfg.gs, SymbolsOf(Preorder(f.list))))
    modifies cfg
    ensures (forall s :: s in cfg.defs ==> cfg.Curr(s) == o.env.val(s))
            <==> AllSavable(o.env, cfg.defs, cfg.gs, old(cfg.picks), set s | s in SymbolsOf(Preorder(f.list)))
  {
    hide ReadText, PicksOf, Effects, GroupedSolves, GroupedAcyclic, WellGrouped, GoodPicks, GroupedSound, Linked,
        Listed, Preorder, SymbolsOf, GroupedEntries, PrintAll, AllSavable, GoodName;
    ghost var users, picks, ss := cfg.users, cfg.picks, SymbolsOf(Preorder(f.list));
    var text := WriteDefconfig(cfg, root, prefix, f, o, k);
    ghost var o' := Load(cfg, prefix, syms, text, order, o, k);
    DefinedDecide(o.env, o'.env, cfg.defs, cfg.gs, users, cfg.users, picks, cfg.picks);
    GroupedFileExact(o.env, o'.env, cfg.defs, cfg.gs, users, picks, ss, o.rank, prefix, syms);
  }

  /**
    The same with the whole configuration: every symbol, choice and member has the value it had, exactly if
    the values of all of them are kept.
   */
  method SaveAllAndLoad(cfg: Config, root: Menu, prefix: string, syms: Table, order: seq<Symbol>, changed: bool,
                        ghost f: Forest, ghost o: Oracle, ghost k: nat)
    requires changed ==> cfg.Inv(o, k) && cfg.printed == {}
    requires f.Cons? && f.node == root && f.next.Nil? && Linked(f, null, null)
    requires cfg.Good(o) && ListedAll(f.list, cfg.defs, o, k) && GroupedSound(o.env, cfg.defs, cfg.gs, cfg.users)
    requires root.promptText.Some? && Titled(Nodes(f.list))
    requires (forall s :: s in order ==> o.rank(s) < k) && forall s :: s in cfg.defs ==> s in order
    requires GoodPrefix(prefix) && ReadableHeading(prefix, syms, root.promptText.value)
    requires ReadableLines(o.env, cfg.defs, cfg.gs, prefix, syms, SymbolsOf(Preorder(f.list)))
    requires ReadableTitles(prefix, syms, Preorder(f.list))
    requires NUL !in ConfigFile(o.env, cfg.defs, cfg.gs, prefix, root.promptText.value, Preorder(f.list),
                                ShownMenus(o.env, Nodes(f.list)))
    modifies cfg
    ensures (forall s :: s in cfg.defs ==> cfg.Curr(s) == o.env.val(s))
            <==> AllKeepable(o.env, cfg.defs, cfg.gs, old(cfg.picks), SymbolsOf(Preorder(f.list)))
  {
    hide ReadText, PicksOf, Effects, GroupedSolves, GroupedAcyclic, WellGrouped, GoodPicks, GroupedSound, Linked,
        ListedAll, Preorder, SymbolsOf, ConfigFile, AllKeepable, ReadableHeading, ReadableLines, ReadableTitles,
        ShownMenus, Nodes, Titled;
    ghost var users, picks, shown := cfg.users, cfg.picks, ShownMenus(o.env, Nodes(f.list));
    var text := WriteConfig(cfg, root, prefix, changed, f, o, k);
    ghost var o' := Load(cfg, prefix, syms, text, order, o, k);
    DefinedDecide(o.env, o'.env, cfg.defs, cfg.gs, users, cfg.users, picks, cfg.picks);
    ConfigFileExact(o.env, o'.env, cfg.defs, cfg.gs, users, picks, o.rank, Preorder(f.list), shown, prefix, syms,
                    root.promptText.value);
  }
}
