/**
  The search for recursive dependencies (sym_check_deps and its helpers in symbol.c) on symbols that
  are neither choices nor choice values: a depth-first search with two flags per symbol, SYMBOL_CHECK
  while it is on the stack and SYMBOL_CHECKED for good.
 */
module Cycles {
  import opened Options
  import opened Exprs
  import opened NormalForm
  import opened Submenu
  import opened Semantics
  import opened Ranks

  datatype PropKind = Prompt | DefaultValue | Select | Imply | RangeOf | Choice | OtherProp

  datatype Property = Property(kind: PropKind, visible: Condition, value: Condition)

  datatype Node = Node(revDep: Condition, props: seq<Property>)

  type Graph = map<Symbol, Node>

  /** The symbols in the expressions of a property that the search enters. */
  function Entered(p: Property): set<Symbol> {
    if p.kind.Choice? || p.kind.Select? then {}
    else ConditionDeps(p.visible) + if p.kind.DefaultValue? then ConditionDeps(p.value) else {}
  }

  function EnteredAll(props: seq<Property>): set<Symbol> {
    if props == [] then {} else EnteredAll(props[..|props| - 1]) + Entered(props[|props| - 1])
  }

  /** The edges of the dependency graph, as far as the search follows them. */
  function Followed(g: Graph, s: Symbol): set<Symbol> {
    if s in g then ConditionDeps(g[s].revDep) + EnteredAll(g[s].props) else {}
  }

  ghost predicate IsPath(g: Graph, p: seq<Symbol>) {
    forall i :: 0 < i < |p| ==> p[i] in Followed(g, p[i - 1])
  }

  ghost predicate IsCycle(g: Graph, p: seq<Symbol>) {
    p != [] && IsPath(g, p) && p[0] in Followed(g, p[|p| - 1])
  }

  /** Every followed edge leads to a lower rank. */
  ghost predicate Ranked(g: Graph, rank: Symbol -> nat) {
    forall s, t :: t in Followed(g, s) ==> rank(t) < rank(s)
  }

  /** Reports are cycles, there is one exactly if there is a cycle, and none means that a ranking exists. */
  ghost predicate Exact(g: Graph, reports: seq<seq<Symbol>>) {
    && (forall c :: c in reports ==> IsCycle(g, c))
    && (reports != [] <==> exists c :: IsCycle(g, c))
    && (reports == [] <==> exists rank: Symbol -> nat :: Ranked(g, rank))
  }

  /** The flags, the stack and the cycles reported so far, with a ghost record of when a search ended. */
  datatype Search = Search(check: set<Symbol>, checked: set<Symbol>, stack: seq<Symbol>, reports: seq<seq<Symbol>>,
                           ghost ended: map<Symbol, nat>, ghost clock: nat)

  ghost predicate Settled(g: Graph, q: Search, s: Symbol) {
    && s in q.ended && q.ended[s] < q.clock
    && forall t :: t in Followed(g, s) ==> t in q.checked - q.check && t in q.ended && q.ended[t] < q.ended[s]
  }

  /**
    What every step keeps: the stack is a path of the symbols marked SYMBOL_CHECK, reports are cycles,
    and as long as there is no report, whatever has been left for good leads only to symbols left before.
   */
  ghost predicate Ok(g: Graph, q: Search) {
    && (forall s :: s in q.check <==> s in q.stack)
    && (forall i, j :: 0 <= i < j < |q.stack| ==> q.stack[i] != q.stack[j])
    && q.check <= q.checked
    && IsPath(g, q.stack)
    && (forall c :: c in q.reports ==> IsCycle(g, c))
    && (q.reports == [] ==> forall s :: s in q.checked - q.check ==> Settled(g, q, s))
  }

  /** A search that returns leaves the stack as it was and forgets no report. */
  ghost predicate Progress(q: Search, q': Search) {
    && q'.check == q.check && q'.stack == q.stack && q.checked <= q'.checked && q.reports <= q'.reports
  }

  /** What a search for `ss` returns: a symbol on the stack after a report; without reports `ss` are left for good. */
  ghost predicate Searched(q: Search, r: Option<Symbol>, ss: set<Symbol>) {
    && (r.Some? ==> r.value in q.check && q.reports != [])
    && (q.reports == [] ==> ss <= q.checked - q.check)
  }

  lemma SearchedSome(q: Search, r: Option<Symbol>, ss: set<Symbol>, tt: set<Symbol>)
    requires Searched(q, r, ss)
    ensures r.Some? ==> Searched(q, r, tt)
  {
  }

  lemma SearchedBoth(q: Search, q': Search, q'': Search, r: Option<Symbol>, ss: set<Symbol>, tt: set<Symbol>)
    requires Progress(q, q') && Searched(q', None, ss) && Progress(q', q'') && Searched(q'', r, tt)
    ensures Progress(q, q'') && Searched(q'', r, ss + tt)
  {
  }

  /** Entering a symbol that is not marked. */
  function Enter(q: Search, s: Symbol): Search {
    q.(check := q.check + {s}, checked := q.checked + {s}, stack := q.stack + [s])
  }

  /** Leaving the symbol entered last. */
  function Leave(q: Search, s: Symbol): Search
    requires q.stack != []
  {
    q.(check := q.check - {s}, stack := q.stack[..|q.stack| - 1], ended := q.ended[s := q.clock], clock := q.clock + 1)
  }

  lemma CheckedWithin(g: Graph, q: Search)
    requires Ok(g, q)
    ensures q.check <= q.checked
  {
  }

  lemma EnterOk(g: Graph, q: Search, s: Symbol)
    requires Ok(g, q) && s !in q.checked && (q.stack == [] || s in Followed(g, q.stack[|q.stack| - 1]))
    ensures Ok(g, Enter(q, s))
  {
    hide Followed;
    var q' := Enter(q, s);
    assert q'.checked - q'.check == q.checked - q.check;
  }

  lemma LeaveOk(g: Graph, q: Search, s: Symbol)
    requires Ok(g, q) && q.stack != [] && s == q.stack[|q.stack| - 1]
    requires q.reports == [] ==> Followed(g, s) <= q.checked - q.check
    ensures Ok(g, Leave(q, s))
  {
    hide Followed, IsCycle;
    var q' := Leave(q, s);
    assert q.stack == q'.stack + [s];
    assert forall t :: t in q'.check <==> t in q'.stack;
    if q.reports == [] {
      forall t | t in q'.checked - q'.check ensures Settled(g, q', t) {
        assert t != s ==> Settled(g, q, t);
        assert forall u :: u in Followed(g, s) ==> Settled(g, q, u);
      }
    }
  }

  lemma LeaveSearch(g: Graph, before: Search, entered: Search, q: Search, s: Symbol, r: Option<Symbol>)
    requires entered == Enter(before, s) && s !in before.checked && before.check <= before.checked
    requires Ok(g, q) && Progress(entered, q) && Searched(q, r, Followed(g, s))
    ensures q.stack != [] && Ok(g, Leave(q, s))
    ensures Progress(before, Leave(q, s)) && Leave(q, s).checked == q.checked
    ensures Searched(Leave(q, s), if r == Some(s) then None else r, {s})
  {
    hide Followed, IsCycle, Settled;
    LeaveOk(g, q, s);
  }

  class DepSearch {
    const g: Graph
    var q: Search

    constructor (g: Graph)
      ensures this.g == g && q == Search({}, {}, [], [], map[], 0)
    {
      this.g := g;
      q := Search({}, {}, [], [], map[], 0);
    }

    ghost function Unchecked(): nat
      reads this
    {
      |g.Keys - q.checked|
    }

    /** sym_check_print_recursive: the part of the stack from the symbol met again. */
    method PrintRecursive(s: Symbol)
      requires Ok(g, q) && s in q.check && q.stack != [] && s in Followed(g, q.stack[|q.stack| - 1])
      modifies this
      ensures Ok(g, q) && Progress(old(q), q) && q.checked == old(q.checked) && q.reports != []
    {
      var i := |q.stack| - 1;
      while q.stack[i] != s
        invariant 0 <= i < |q.stack| && exists j :: 0 <= j <= i && q.stack[j] == s
        decreases i
      {
        i := i - 1;
      }
      assert IsCycle(g, q.stack[i..]) by {
        hide Followed;
      }
      q := q.(reports := q.reports + [q.stack[i..]]);
    }

    /** sym_check_expr_deps. */
    method CheckExprDeps(e: Expr) returns (r: Option<Symbol>)
      requires Ok(g, q) && q.stack != [] && Mentions(e) <= Followed(g, q.stack[|q.stack| - 1])
      modifies this
      ensures Ok(g, q) && Progress(old(q), q) && Searched(q, r, Mentions(e)) && Unchecked() <= old(Unchecked())
      decreases Unchecked(), 2, e
    {
      hide Ok, Followed, Searched, Unchecked;
      ghost var before := q;
      match e {
        case Sym(s) =>
          r := CheckDeps(s);
        case Neg(x) =>
          r := CheckExprDeps(x);
        case Bin(_, l, right) =>
          r := CheckExprDeps(l);
          SearchedSome(q, r, Mentions(l), Mentions(e));
          if r.None? {
            ghost var between := q;
            r := CheckExprDeps(right);
            SearchedBoth(before, between, q, r, Mentions(l), Mentions(right));
          }
        case Comp(_, a, b) =>
          r := CheckDeps(a);
          assert {a} + {b} == Mentions(e);
          SearchedSome(q, r, {a}, Mentions(e));
          if r.None? {
            ghost var between := q;
            r := CheckDeps(b);
            SearchedBoth(before, between, q, r, {a}, {b});
          }
      }
    }

    /** The same for an expression that may be absent. */
    method CheckConditionDeps(c: Condition) returns (r: Option<Symbol>)
      requires Ok(g, q) && q.stack != [] && ConditionDeps(c) <= Followed(g, q.stack[|q.stack| - 1])
      modifies this
      ensures Ok(g, q) && Progress(old(q), q) && Searched(q, r, ConditionDeps(c)) && Unchecked() <= old(Unchecked())
      decreases Unchecked(), 3
    {
      hide Ok, Followed;
      if c.None? {
        return None;
      }
      r := CheckExprDeps(c.value);
    }

    /** The expressions of one property. */
    method CheckProperty(p: Property) returns (r: Option<Symbol>)
      requires Ok(g, q) && q.stack != [] && Entered(p) <= Followed(g, q.stack[|q.stack| - 1])
      modifies this
      ensures Ok(g, q) && Progress(old(q), q) && Searched(q, r, Entered(p)) && Unchecked() <= old(Unchecked())
      decreases Unchecked(), 4
    {
      hide Ok, Followed, ConditionDeps;
      if p.kind.Choice? || p.kind.Select? {
        return None;
      }
      r := CheckConditionDeps(p.visible);
      if r.None? && p.kind.DefaultValue? {
        r := CheckConditionDeps(p.value);
      }
    }

    /** sym_check_sym_deps for the symbol entered last. */
    method CheckSymDeps(s: Symbol) returns (r: Option<Symbol>)
      requires Ok(g, q) && q.stack != [] && s == q.stack[|q.stack| - 1]
      modifies this
      ensures Ok(g, q) && Progress(old(q), q) && Searched(q, r, Followed(g, s)) && Unchecked() <= old(Unchecked())
      decreases Unchecked(), 5
    {
      hide Ok, ConditionDeps, Entered, Unchecked;
      if s !in g {
        return None;
      }
      r := CheckConditionDeps(g[s].revDep);
      if r.Some? {
        return;
      }
      var props := g[s].props;
      var i := 0;
      assert props[..|props|] == props;
      while i < |props|
        invariant 0 <= i <= |props| && Ok(g, q) && Progress(old(q), q) && Unchecked() <= old(Unchecked())
        invariant Searched(q, None, ConditionDeps(g[s].revDep) + EnteredAll(props[..i]))
      {
        EnteredWithin(props, i);
        assert props[..i + 1][..i] == props[..i];
        r := CheckProperty(props[i]);
        if r.Some? {
          return;
        }
        i := i + 1;
      }
      r := None;
    }

    /** sym_check_deps. */
    method CheckDeps(s: Symbol) returns (r: Option<Symbol>)
      requires Ok(g, q) && (q.stack == [] || s in Followed(g, q.stack[|q.stack| - 1]))
      modifies this
      ensures Ok(g, q) && Progress(old(q), q) && Searched(q, r, {s}) && Unchecked() <= old(Unchecked())
      decreases Unchecked(), 1
    {
      hide Followed;
      if s in q.check {
        PrintRecursive(s);
        return Some(s);
      }
      if s in q.checked {
        return None;
      }
      r := CheckUnmarked(s);
    }

    /** The case of a symbol met for the first time. */
    method CheckUnmarked(s: Symbol) returns (r: Option<Symbol>)
      requires Ok(g, q) && (q.stack == [] || s in Followed(g, q.stack[|q.stack| - 1])) && s !in q.checked
      modifies this
      ensures Ok(g, q) && Progress(old(q), q) && Searched(q, r, {s}) && Unchecked() <= old(Unchecked())
      decreases Unchecked(), 0
    {
      hide Followed, Ok, Searched, Progress, Leave;
      CheckedWithin(g, q);
      EnterOk(g, q, s);
      ghost var before := q;
      q := Enter(q, s);
      Marked(before, s);
      ghost var entered := q;
      r := None;
      if s in g {
        r := CheckSymDeps(s);
      } else {
        Leaf(s, q);
      }
      LeaveSearch(g, before, entered, q, s, r);
      q := Leave(q, s);
      if r == Some(s) {
        r := None;
      }
    }

    /** The loop over all symbols after parsing: the result of sym_check_deps is what counts as an error there. */
    method CheckAll(order: seq<Symbol>) returns (errors: int)
      requires q == Search({}, {}, [], [], map[], 0)
      requires forall s :: s in g ==> s in order
      modifies this
      ensures q.stack == [] && q.check == {}
      ensures Exact(g, q.reports)
      ensures errors == 0
    {
      hide Followed, IsCycle, Ok, Searched, Progress, Ranked, Exact, Unchecked;
      StartOk(g, q);
      errors := 0;
      var i := 0;
      while i < |order|
        invariant 0 <= i <= |order| && errors == 0
        invariant Ok(g, q) && q.stack == [] && q.check == {}
        invariant q.reports == [] ==> forall j :: 0 <= j < i ==> order[j] in q.checked
      {
        ghost var before := q;
        var r := CheckDeps(order[i]);
        TopStep(before, q, r, order[i]);
        if r.Some? {
          errors := errors + 1;
        }
        i := i + 1;
      }
      Verdict(g, q);
    }

    lemma Leaf(s: Symbol, q: Search)
      requires s !in g
      ensures Progress(q, q) && Searched(q, None, Followed(g, s))
    {
    }

    lemma Marked(before: Search, s: Symbol)
      requires q == Enter(before, s) && s !in before.checked && before.check <= before.checked
      ensures Unchecked() <= |g.Keys - before.checked|
      ensures s in g ==> Unchecked() < |g.Keys - before.checked|
      ensures q.check - {s} == before.check && q.stack[..|q.stack| - 1] == before.stack
    {
      if s in g {
        assert g.Keys - before.checked == (g.Keys - q.checked) + {s};
      } else {
        assert g.Keys - before.checked == g.Keys - q.checked;
      }
    }
  }

  lemma {:induction false} EnteredWithin(props: seq<Property>, i: nat)
    requires i < |props|
    ensures Entered(props[i]) <= EnteredAll(props)
    decreases |props|
  {
    hide Entered;
    if i < |props| - 1 {
      EnteredWithin(props[..|props| - 1], i);
    }
  }

  lemma StartOk(g: Graph, q: Search)
    requires q.check == {} && q.checked == {} && q.stack == [] && q.reports == []
    ensures Ok(g, q)
  {
  }

  /** From an empty stack no symbol can be returned: it would have to be on the stack. */
  lemma TopStep(q: Search, q': Search, r: Option<Symbol>, s: Symbol)
    requires q.stack == [] && q.check == {} && Progress(q, q') && Searched(q', r, {s})
    ensures r == None && q'.stack == [] && q'.check == {}
    ensures q'.reports == [] ==> q.reports == [] && q.checked + {s} <= q'.checked
  {
  }

  lemma Verdict(g: Graph, q: Search)
    requires Ok(g, q) && q.check == {}
    requires q.reports == [] ==> forall s :: s in g ==> s in q.checked
    ensures Exact(g, q.reports)
  {
    hide IsCycle, Ranked;
    if q.reports == [] {
      var rank := SilenceRanks(g, q);
      RankedHasNoCycle(g, rank);
    } else {
      assert q.reports[0] in q.reports;
      forall rank: Symbol -> nat | Ranked(g, rank) ensures false {
        RankedHasNoCycle(g, rank);
      }
    }
  }

  /** After a silent search the order in which symbols were left ranks them. */
  lemma SilenceRanks(g: Graph, q: Search) returns (rank: Symbol -> nat)
    requires Ok(g, q) && q.check == {} && q.reports == []
    requires forall s :: s in g ==> s in q.checked
    ensures Ranked(g, rank)
  {
    var ended := q.ended;
    rank := (s: Symbol) => if s in ended then ended[s] else 0;
    forall s, t | t in Followed(g, s) ensures rank(t) < rank(s) {
      assert s in g;
      assert Settled(g, q, s);
    }
  }

  lemma {:induction false} RankFallsAlong(g: Graph, rank: Symbol -> nat, p: seq<Symbol>, i: nat)
    requires Ranked(g, rank) && IsPath(g, p) && i < |p|
    ensures rank(p[i]) + i <= rank(p[0])
  {
    hide Followed;
    if i > 0 {
      RankFallsAlong(g, rank, p, i - 1);
      assert p[i] in Followed(g, p[i - 1]);
    }
  }

  lemma RankedHasNoCycle(g: Graph, rank: Symbol -> nat)
    requires Ranked(g, rank)
    ensures !exists c :: IsCycle(g, c)
  {
    hide Followed;
    forall c | IsCycle(g, c) ensures false {
      RankFallsAlong(g, rank, c, |c| - 1);
    }
  }

  /** The dependencies of the evaluator as edges. */
  ghost function DepEdges(defs: Defs): Edges {
    map s | s in defs :: Deps(s, defs[s])
  }

  /** The equations of the evaluator can be ranked exactly if no symbol depends on itself, however indirectly. */
  lemma AcyclicExact(defs: Defs)
    ensures (exists rank :: Acyclic(defs, rank)) <==> !exists c :: Loop(DepEdges(defs), c)
  {
    hide Deps, Loop;
    RankingExact(DepEdges(defs));
    forall rank: Symbol -> nat ensures Acyclic(defs, rank) <==> Falls(DepEdges(defs), rank) {
      if Falls(DepEdges(defs), rank) {
        forall s, t | s in defs && t in Deps(s, defs[s]) ensures rank(t) < rank(s) {
          assert Edge(DepEdges(defs), s, t);
        }
      }
    }
  }

  /** A property of a menu node of the symbol, P_SYMBOL, that has `t` in its condition. */
  ghost predicate CarriedBySymbol(g: Graph, s: Symbol, t: Symbol) {
    s in g && exists p :: p in g[s].props && p.kind.OtherProp? && t in ConditionDeps(p.visible)
  }

  /**
    The properties of the symbols are in the graph, with whatever others there are. Every menu node of a
    symbol gives it a P_SYMBOL property, whose condition is the dependency of the node; the direct
    dependency is what these have in common.
   */
  ghost predicate Shows(g: Graph, defs: Defs) {
    forall s :: s in defs ==>
      && s in g && g[s].revDep == defs[s].revDep
      && (forall c :: c in defs[s].prompts ==> Property(Prompt, c, None) in g[s].props)
      && (forall p :: p in defs[s].defaults ==> Property(DefaultValue, p.cond, Some(p.value)) in g[s].props)
      && (forall p :: p in defs[s].ranges ==> Property(RangeOf, p.cond, None) in g[s].props)
      && forall t :: t in ConditionDeps(defs[s].dirDep) && t in defs ==> CarriedBySymbol(g, s, t)
  }

  /** expr_alloc_or over the dependencies of the menu nodes of a symbol. */
  function AnyOf(deps: seq<Condition>): Condition {
    if deps == [] then None
    else
      var before, last := AnyOf(deps[..|deps| - 1]), deps[|deps| - 1];
      if before.None? then last else if last.None? then before else Some(Bin(OpOr, before.value, last.value))
  }

  /** The condition that menu_finalize leaves in a P_SYMBOL property of a node with the given dependency. */
  function SymbolCondition(s: Symbol, dep: Condition): Condition {
    if dep.Some? && !s.ty.Tri? then Some(TransBool(dep.value)) else dep
  }

  /** Menu nodes carry all symbols of the direct dependency but the constant n. */
  lemma {:induction false} NodesCarry(g: Graph, s: Symbol, deps: seq<Condition>, t: Symbol)
    requires s in g && forall c :: c in deps ==> Property(OtherProp, SymbolCondition(s, c), None) in g[s].props
    requires t in ConditionDeps(AnyOf(deps)) && t != SYM_NO
    ensures CarriedBySymbol(g, s, t)
  {
    hide Mentions;
    if deps != [] {
      var before, last := deps[..|deps| - 1], deps[|deps| - 1];
      OrMentions(AnyOf(before), last);
      if t in ConditionDeps(AnyOf(before)) {
        NodesCarry(g, s, before, t);
      } else {
        TransBoolMentions(last.value);
        assert last in deps && t in ConditionDeps(SymbolCondition(s, last));
        assert Property(OtherProp, SymbolCondition(s, last), None) in g[s].props;
      }
    }
  }

  lemma OrMentions(c: Condition, d: Condition)
    ensures c.Some? && d.Some? ==> Mentions(Bin(OpOr, c.value, d.value)) == ConditionDeps(c) + ConditionDeps(d)
  {
  }

  ghost function Bounds(p: Range): set<Symbol> {
    {p.lo, p.hi}
  }

  /** Two kinds of dependencies are evaluated and not followed: range bounds of numbers, and implies. */
  ghost function Unfollowed(s: Symbol, d: SymDef): set<Symbol> {
    (set p, t | (s.ty.Int? || s.ty.Hex?) && p in d.ranges && t in Bounds(p) :: t) + ConditionDeps(d.implied)
  }

  /** There is no third kind. */
  lemma UnfollowedExact(g: Graph, defs: Defs, s: Symbol, t: Symbol)
    requires Shows(g, defs) && s in defs && t in defs && t in Deps(s, defs[s])
    ensures t in Followed(g, s) || t in Unfollowed(s, defs[s])
    ensures Unfollowed(s, defs[s]) <= Deps(s, defs[s])
  {
    hide ConditionDeps, Mentions, Entered, EnteredAll, Deps, Followed, Unfollowed;
    var d := defs[s];
    UnfollowedWithin(s, d);
    if t in ConditionDeps(d.dirDep) {
      CarriedFollowed(g, s, t);
    } else if t !in Unfollowed(s, d) {
      RevDepFollowed(g, s);
      if t !in ConditionDeps(d.revDep) {
        var p := PropertyFor(s, d, t);
        EnteredFollowed(g, s, p);
      }
    }
  }

  lemma CarriedFollowed(g: Graph, s: Symbol, t: Symbol)
    requires CarriedBySymbol(g, s, t)
    ensures t in Followed(g, s)
  {
    hide ConditionDeps, EnteredAll, Followed;
    var p :| p in g[s].props && p.kind.OtherProp? && t in ConditionDeps(p.visible);
    EnteredFollowed(g, s, p);
  }

  lemma UnfollowedWithin(s: Symbol, d: SymDef)
    ensures Unfollowed(s, d) <= Deps(s, d)
  {
    hide ConditionDeps, Mentions, Deps;
    DepsParts(s, d);
  }

  /** Cycles of direct dependencies are never missed. */
  lemma DirectNoticed(g: Graph, defs: Defs, c: seq<Symbol>)
    requires Shows(g, defs) && c != [] && forall i :: 0 <= i < |c| ==> c[i] in defs
    requires forall i :: 0 <= i < |c| ==> After(c, i) in ConditionDeps(defs[c[i]].dirDep)
    ensures IsCycle(g, c)
  {
    hide ConditionDeps, Followed;
    forall i | 0 <= i < |c| ensures After(c, i) in Followed(g, c[i]) {
      assert After(c, i) in defs;
      CarriedFollowed(g, c[i], After(c, i));
    }
    assert forall i :: 0 < i < |c| ==> c[i] == After(c, i - 1);
    assert After(c, |c| - 1) == c[0];
  }

  lemma RevDepFollowed(g: Graph, s: Symbol)
    requires s in g
    ensures ConditionDeps(g[s].revDep) <= Followed(g, s)
  {
    hide ConditionDeps, EnteredAll;
  }

  lemma EnteredFollowed(g: Graph, s: Symbol, p: Property)
    requires s in g && p in g[s].props
    ensures Entered(p) <= Followed(g, s)
  {
    hide ConditionDeps, Entered, EnteredAll;
    var i :| 0 <= i < |g[s].props| && g[s].props[i] == p;
    EnteredWithin(g[s].props, i);
  }

  /** Every other dependency comes from a property that the search enters. */
  lemma PropertyFor(s: Symbol, d: SymDef, t: Symbol) returns (q: Property)
    requires t in Deps(s, d) && t !in Unfollowed(s, d)
    requires t !in ConditionDeps(d.revDep) && t !in ConditionDeps(d.dirDep)
    ensures t in Entered(q)
    ensures || (exists c :: c in d.prompts && q == Property(Prompt, c, None))
            || (exists p :: p in d.defaults && q == Property(DefaultValue, p.cond, Some(p.value)))
            || (exists p :: p in d.ranges && q == Property(RangeOf, p.cond, None))
  {
    hide ConditionDeps, Mentions;
    if c :| c in d.prompts && t in ConditionDeps(c) {
      q := Property(Prompt, c, None);
    } else if p :| p in d.defaults && t in DefaultDeps(p) {
      q := Property(DefaultValue, p.cond, Some(p.value));
      SomeDeps(p.value);
    } else {
      var p :| p in d.ranges && t in RangeDeps(p);
      assert t !in Bounds(p);
      q := Property(RangeOf, p.cond, None);
    }
  }

  lemma SomeDeps(e: Expr)
    ensures ConditionDeps(Some(e)) == Mentions(e)
  {
  }

  /**
    What a silent search is worth to the evaluator: if the search reports nothing, every cycle in what
    the evaluator looks at runs through a range bound or an imply that is not followed.
   */
  lemma SilentCycle(g: Graph, defs: Defs, rank: Symbol -> nat, c: seq<Symbol>)
    requires Shows(g, defs) && Ranked(g, rank) && Loop(DepEdges(defs), c)
    ensures exists i :: Escapes(g, defs, c, i)
  {
    hide Followed, Deps, Unfollowed;
    if forall i :: 0 <= i < |c| ==> After(c, i) in Followed(g, c[i]) {
      assert forall i :: 0 < i < |c| ==> c[i] == After(c, i - 1);
      assert After(c, |c| - 1) == c[0];
      assert IsCycle(g, c);
      RankedHasNoCycle(g, rank);
    } else {
      var i :| 0 <= i < |c| && After(c, i) !in Followed(g, c[i]);
      assert Edge(DepEdges(defs), c[i], After(c, i)) by {
        if i + 1 < |c| {
          assert Edge(DepEdges(defs), c[i + 1 - 1], c[i + 1]);
        }
      }
      LoopInside(defs, c, i);
      UnfollowedExact(g, defs, c[i], After(c, i));
      assert Escapes(g, defs, c, i);
    }
  }

  lemma LoopInside(defs: Defs, c: seq<Symbol>, i: nat)
    requires Loop(DepEdges(defs), c) && i < |c|
    ensures c[i] in defs && After(c, i) in defs
  {
    hide Deps;
    var j := if i + 1 < |c| then i + 1 else 0;
    assert i < |c| - 1 ==> Edge(DepEdges(defs), c[i + 1 - 1], c[i + 1]);
    assert j < |c| - 1 ==> Edge(DepEdges(defs), c[j + 1 - 1], c[j + 1]);
  }

  /** The edge of a loop at `i` is one that the search does not follow. */
  ghost predicate Escapes(g: Graph, defs: Defs, c: seq<Symbol>, i: nat) {
    i < |c| && c[i] in defs && After(c, i) in Unfollowed(c[i], defs[c[i]]) - Followed(g, c[i])
  }

  /** After a silent search the equations can be ranked exactly if no cycle runs through such an edge. */
  lemma SilenceExact(g: Graph, defs: Defs, rank: Symbol -> nat)
    requires Shows(g, defs) && Ranked(g, rank)
    ensures (exists r :: Acyclic(defs, r)) <==> !exists c, i :: Loop(DepEdges(defs), c) && Escapes(g, defs, c, i)
  {
    hide Followed, Deps, Unfollowed, Loop, Shows, Ranked;
    AcyclicExact(defs);
    forall c | Loop(DepEdges(defs), c) ensures exists i :: Escapes(g, defs, c, i) {
      SilentCycle(g, defs, rank, c);
    }
  }

  /** Where a property comes from: the definition, a menu node, or a select, an imply or a list of choice values. */
  ghost predicate ComesFrom(p: Property, d: SymDef) {
    match p.kind
    case Prompt => p.visible in d.prompts
    case DefaultValue => exists q :: q in d.defaults && p.visible == q.cond && p.value == Some(q.value)
    case RangeOf => exists q :: q in d.ranges && p.visible == q.cond
    case OtherProp => ConditionDeps(p.visible) <= ConditionDeps(d.dirDep)
    case Select => true
    case Imply => true
    case Choice => true
  }

  /** The graph has nothing but the properties of the definitions, and selects, implies and lists of choices. */
  ghost predicate ShowsOnly(g: Graph, defs: Defs) {
    forall s :: s in g ==>
      s in defs && g[s].revDep == defs[s].revDep && forall p :: p in g[s].props ==> ComesFrom(p, defs[s])
  }

  /** What is followed and not evaluated: the condition of an imply, and of a range of what is no number. */
  ghost predicate Unevaluated(g: Graph, s: Symbol, t: Symbol) {
    s in g && exists p :: p in g[s].props && t in ConditionDeps(p.visible)
                          && (p.kind.Imply? || (p.kind.RangeOf? && !s.ty.Int? && !s.ty.Hex?))
  }

  /** Whatever else is followed is evaluated. */
  lemma FollowedExact(g: Graph, defs: Defs, s: Symbol, t: Symbol)
    requires ShowsOnly(g, defs) && t in Followed(g, s)
    ensures s in defs && (t in Deps(s, defs[s]) || Unevaluated(g, s, t))
  {
    hide ConditionDeps, Entered, EnteredAll, Deps, Unevaluated;
    var d := defs[s];
    DepsParts(s, d);
    if t !in ConditionDeps(d.revDep) {
      var p := EnteredBy(g[s].props, t);
      PropertyEvaluated(g, s, d, p, t);
    }
  }

  lemma {:induction false} EnteredBy(props: seq<Property>, t: Symbol) returns (p: Property)
    requires t in EnteredAll(props)
    ensures p in props && t in Entered(p)
    decreases |props|
  {
    hide Entered;
    p := props[|props| - 1];
    if t !in Entered(p) {
      p := EnteredBy(props[..|props| - 1], t);
    }
  }

  lemma PropertyEvaluated(g: Graph, s: Symbol, d: SymDef, p: Property, t: Symbol)
    requires s in g && p in g[s].props && ComesFrom(p, d) && t in Entered(p)
    ensures t in Deps(s, d) || Unevaluated(g, s, t)
  {
    hide ConditionDeps, Mentions, Deps;
    DepsParts(s, d);
    if p.kind.DefaultValue? {
      var q :| q in d.defaults && p.visible == q.cond && p.value == Some(q.value);
      SomeDeps(q.value);
      assert t in DefaultDeps(q);
    } else if p.kind.RangeOf? && (s.ty.Int? || s.ty.Hex?) {
      var q :| q in d.ranges && p.visible == q.cond;
      assert t in RangeDeps(q);
    }
  }

  /** So a report is a cycle of what the evaluator looks at, unless it runs through such an edge. */
  lemma ReportedLoop(g: Graph, defs: Defs, c: seq<Symbol>)
    requires ShowsOnly(g, defs) && IsCycle(g, c)
    ensures Loop(DepEdges(defs), c) || exists i :: 0 <= i < |c| && Unevaluated(g, c[i], After(c, i))
  {
    assert c != [];
    hide Followed, Deps, Unevaluated, ShowsOnly, IsCycle, Loop;
    if forall i :: 0 <= i < |c| ==> !Unevaluated(g, c[i], After(c, i)) {
      forall i | 0 <= i < |c| ensures Edge(DepEdges(defs), c[i], After(c, i)) {
        CycleEdge(g, c, i);
        FollowedExact(g, defs, c[i], After(c, i));
      }
      EdgesLoop(DepEdges(defs), c);
    }
  }

  lemma CycleEdge(g: Graph, c: seq<Symbol>, i: nat)
    requires IsCycle(g, c) && i < |c|
    ensures After(c, i) in Followed(g, c[i])
  {
    hide Followed;
    assert i + 1 < |c| ==> c[i + 1] in Followed(g, c[i + 1 - 1]);
  }

  lemma EdgesLoop(es: Edges, c: seq<Symbol>)
    requires c != [] && forall i :: 0 <= i < |c| ==> Edge(es, c[i], After(c, i))
    ensures Loop(es, c)
  {
    hide Edge;
    assert forall i :: 0 < i < |c| ==> c[i] == After(c, i - 1);
  }

  /** The conditions of all other properties are, and the values of defaults. */
  lemma PropertyFollowed(g: Graph, s: Symbol, p: Property)
    requires s in g && p in g[s].props && !p.kind.Select? && !p.kind.Choice?
    ensures ConditionDeps(p.visible) <= Followed(g, s)
    ensures p.kind.DefaultValue? ==> ConditionDeps(p.value) <= Followed(g, s)
  {
    hide ConditionDeps, EnteredAll, Followed;
    EnteredFollowed(g, s, p);
  }

  /** `A` that implies `B` if `C`, where `C` depends on `A`, is a cycle. */
  lemma ImplyEntered(a: Symbol, b: Symbol, c: Symbol)
    requires a != c
    ensures var g := map[a := Node(None, [Property(Imply, Some(Sym(c)), Some(Sym(b)))]),
                         c := Node(None, [Property(OtherProp, Some(Sym(a)), None)])];
            IsCycle(g, [a, c])
  {
    hide Followed;
    var g := map[a := Node(None, [Property(Imply, Some(Sym(c)), Some(Sym(b)))]),
                 c := Node(None, [Property(OtherProp, Some(Sym(a)), None)])];
    PropertyFollowed(g, a, g[a].props[0]);
    PropertyFollowed(g, c, g[c].props[0]);
    assert c in ConditionDeps(Some(Sym(c))) && a in ConditionDeps(Some(Sym(a)));
  }

  lemma EnteredOne(p: Property)
    ensures EnteredAll([p]) == Entered(p)
  {
    assert [p][..0] == [] && EnteredAll([]) == {};
  }

  /** The conditions of selects are not entered: `A` that selects `B` if `C`, where `C` depends on `A`, is no cycle. */
  lemma SelectNotEntered(a: Symbol, b: Symbol, c: Symbol)
    requires a != b && b != c && a != c
    ensures var g := map[a := Node(None, [Property(Select, Some(Sym(c)), Some(Sym(b)))]),
                         b := Node(Some(Bin(OpAnd, Sym(a), Sym(c))), []),
                         c := Node(None, [Property(OtherProp, Some(Sym(a)), None)])];
            !exists p :: IsCycle(g, p)
  {
    var g := map[a := Node(None, [Property(Select, Some(Sym(c)), Some(Sym(b)))]),
                 b := Node(Some(Bin(OpAnd, Sym(a), Sym(c))), []),
                 c := Node(None, [Property(OtherProp, Some(Sym(a)), None)])];
    var rank := (s: Symbol) => if s == b then 2 else if s == c then 1 else 0;
    EnteredOne(g[a].props[0]);
    EnteredOne(g[c].props[0]);
    assert Mentions(Sym(a)) == {a};
    assert Followed(g, a) == {} && Followed(g, c) == {a};
    assert Mentions(Bin(OpAnd, Sym(a), Sym(c))) == {a, c};
    assert Followed(g, b) == {a, c};
    RankedHasNoCycle(g, rank);
  }

  /** Two symbols whose nodes have no followed edge, and that depend on each other all the same. */
  lemma MutualUnnoticed(g: Graph, defs: Defs, a: Symbol, b: Symbol)
    requires g.Keys == defs.Keys == {a, b} && a != b
    requires forall s :: s in g ==> g[s].revDep == None && EnteredAll(g[s].props) == {}
    requires b in Deps(a, defs[a]) && a in Deps(b, defs[b])
    ensures !exists c :: IsCycle(g, c)
    ensures !exists rank :: Acyclic(defs, rank)
  {
    hide Deps, EnteredAll;
    RankedHasNoCycle(g, s => 0);
    forall rank ensures !Acyclic(defs, rank) {
      assert !(rank(b) < rank(a) && rank(a) < rank(b));
    }
  }

  lemma NothingEntered(props: seq<Property>)
    requires |props| <= 1 && (props == [] || Entered(props[0]) == {})
    ensures EnteredAll(props) == {}
  {
    if props != [] {
      assert props[..0] == [] && EnteredAll([]) == {};
    }
  }

  /** Targets of imply are not followed: two symbols that imply each other go unnoticed. */
  lemma ImplyUnnoticed(a: Symbol, b: Symbol)
    requires a != b
    ensures var node := (t: Symbol) => Node(None, [Property(Imply, None, Some(Sym(t)))]);
            var def := (t: Symbol) => SymDef([], [], [], None, None, Some(Sym(t)), false);
            var g, defs := map[a := node(b), b := node(a)], map[a := def(b), b := def(a)];
            Shows(g, defs) && (!exists c :: IsCycle(g, c)) && !exists rank :: Acyclic(defs, rank)
  {
    hide EnteredAll, Deps;
    var node := (t: Symbol) => Node(None, [Property(Imply, None, Some(Sym(t)))]);
    var def := (t: Symbol) => SymDef([], [], [], None, None, Some(Sym(t)), false);
    var g, defs := map[a := node(b), b := node(a)], map[a := def(b), b := def(a)];
    NothingEntered(node(a).props);
    NothingEntered(node(b).props);
    DepsParts(a, defs[a]);
    DepsParts(b, defs[b]);
    assert b in ConditionDeps(defs[a].implied) && a in ConditionDeps(defs[b].implied);
    MutualUnnoticed(g, defs, a, b);
  }

  /** Nor are the bounds of ranges: two numbers that bound each other. */
  lemma RangeUnnoticed(a: Symbol, b: Symbol)
    requires a != b && (a.ty.Int? || a.ty.Hex?) && (b.ty.Int? || b.ty.Hex?)
    ensures var node := Node(None, [Property(RangeOf, None, None)]);
            var def := (t: Symbol) => SymDef([], [], [Range(None, t, t)], None, None, None, false);
            var g, defs := map[a := node, b := node], map[a := def(b), b := def(a)];
            Shows(g, defs) && (!exists c :: IsCycle(g, c)) && !exists rank :: Acyclic(defs, rank)
  {
    hide EnteredAll, Deps;
    var node := Node(None, [Property(RangeOf, None, None)]);
    var def := (t: Symbol) => SymDef([], [], [Range(None, t, t)], None, None, None, false);
    var g, defs := map[a := node, b := node], map[a := def(b), b := def(a)];
    NothingEntered(node.props);
    DepsParts(a, defs[a]);
    DepsParts(b, defs[b]);
    assert Range(None, b, b) in defs[a].ranges && Range(None, a, a) in defs[b].ranges;
    MutualUnnoticed(g, defs, a, b);
  }
}
