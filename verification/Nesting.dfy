/**
  Where menu_finalize (menu.c) puts the siblings that follow a symbol: which of them belong below it, and
  what that means for the tree as a whole.
 */
module Nesting {
  import opened Options
  import opened Tristates
  import opened Exprs
  import opened Simplify
  import opened Operands
  import opened Join
  import opened Regions
  import opened Dedup
  import opened Duplicates
  import opened NormalForm
  import opened Submenu
  import opened MenuTree

  /** The condition that decides where a node is listed: its prompt's, or its own without a prompt. */
  function NodeCondition(m: Menu): Condition
    reads m`dep, m`props
  {
    if m.prompt.None? then m.dep
    else if m.prompt.value < |m.props| then m.props[m.prompt.value].visible
    else None
  }

  /**
    An item belongs below the symbol before it when its condition mentions the symbol, and either needs
    it or, compared with n, lies below the condition of the symbol's own prompt.
   */
  ghost predicate Belongs(sym: Symbol, dep: Condition, base: Condition) {
    && dep.Some? && sym in Mentions(dep.value)
    && (DependsOn(dep.value, sym) || forall env | Typed(env) :: Eval(env, NotNo(dep)) <= Eval(env, NotNo(base)))
  }

  /** The test of menu_finalize. */
  ghost predicate Passes(sym: Symbol, dep: Condition, base: Condition) {
    && Usable(dep) && Usable(base)
    && dep.Some? && sym in Mentions(dep.value) && (DependsOn(dep.value, sym) || Superset(dep, base))
  }

  /** What passes the test belongs there. */
  lemma PassesBelongs(sym: Symbol, dep: Condition, base: Condition)
    requires Passes(sym, dep, base)
    ensures Belongs(sym, dep, base)
  {
    hide Superset, NotNo, Eval, Typed, Usable;
    if !DependsOn(dep.value, sym) {
      forall env | Typed(env) ensures Eval(env, NotNo(dep)) <= Eval(env, NotNo(base)) {
        SupersetBelow(env, dep, base);
      }
    }
  }

  /** The condition of a symbol's prompt, absent without a prompt. */
  function PromptCondition(m: Menu): Condition
    reads m`dep, m`props
  {
    if m.prompt.Some? then NodeCondition(m) else None
  }

  method BelongsBelow(sym: Symbol, dep: Condition, ghost base: Condition, basedep: Expr) returns (below: bool)
    requires Usable(dep) && Usable(base) && basedep == CompareFormOf(base)
    ensures below <==> Passes(sym, dep, base)
  {
    hide Typed, Eval, WellFormed, Normal;
    if dep.None? {
      return false;
    }
    if sym !in Mentions(dep.value) {
      return false;
    }
    if DependsOn(dep.value, sym) {
      return true;
    }
    below := IsSuperset(dep, base, basedep);
  }

  /** An absolute dependency always passes. */
  lemma AbsolutePasses(sym: Symbol, dep: Condition, base: Condition)
    requires Usable(dep) && Usable(base) && dep.Some? && DependsOn(dep.value, sym)
    ensures Passes(sym, dep, base)
  {
    DependsOnMentions(dep.value, sym);
  }

  /** An item passes that mentions the symbol and needs, beside other things, all that the symbol's prompt needs. */
  lemma ConjunctionPasses(sym: Symbol, dep: Condition, base: Condition)
    requires Usable(dep) && Usable(base) && dep.Some? && sym in Mentions(dep.value)
    requires IsBin(OpAnd, CompareFormOf(dep))
    requires Conjuncts(CompareFormOf(base)) <= Conjuncts(CompareFormOf(dep))
    requires Sym(SYM_NO) !in Conjuncts(CompareFormOf(base))
    ensures Passes(sym, dep, base)
  {
    hide Superset, CompareFormOf;
    SupersetTaken(dep, base);
  }

  /** A normal form without redundant operands is compared as it is, but for tests of tristate symbols. */
  lemma CompareFormIs(e: Expr)
    requires WellFormed(e) && Normal(e) && Irredundant(Tests(e))
    ensures CompareFormOf(Some(e)) == Tests(e)
  {
    hide WellFormed, Normal, Irredundant, Transform, TransCompare, Deduplicated;
    TransCompareForm(e);
    CompareFormUsable(Some(e));
    DeduplicatedFixed(Tests(e));
  }

  /**
    A symbol `s` whose prompt depends on `r`, followed by an item that depends on `(s || q) && r`: the item
    does not need `s`, but is listed below it.
   */
  lemma EnclosingDependency(s: Symbol, q: Symbol, r: Symbol)
    requires s.ty.Boolean? && q.ty.Boolean? && r.ty.Boolean? && s != q && q != r && s != r
    ensures var item := Bin(OpAnd, Bin(OpOr, Sym(s), Sym(q)), Sym(r));
            !DependsOn(item, s) && Passes(s, Some(item), Some(Sym(r)))
  {
    hide Superset, CompareFormOf, Irredundant;
    var item := Bin(OpAnd, Bin(OpOr, Sym(s), Sym(q)), Sym(r));
    ItemIrredundant(s, q, r);
    LeafIrredundant(Sym(r));
    ItemForm(s, q, r);
    CompareFormIs(item);
    CompareFormIs(Sym(r));
    assert Flat(OpAnd, item) == [item.l, item.r] && Flat(OpAnd, Sym(r)) == [Sym(r)];
    ConjunctionPasses(s, Some(item), Some(Sym(r)));
  }

  lemma ItemForm(s: Symbol, q: Symbol, r: Symbol)
    requires s.ty.Boolean? && q.ty.Boolean? && r.ty.Boolean?
    ensures var item := Bin(OpAnd, Bin(OpOr, Sym(s), Sym(q)), Sym(r));
            WellFormed(item) && Normal(item) && Tests(item) == item && s in Mentions(item) && Tests(Sym(r)) == Sym(r)
  {
    var x, y, z := Sym(s), Sym(q), Sym(r);
    assert WellFormed(x) && WellFormed(y) && WellFormed(z) && Tests(x) == x && Tests(y) == y && Tests(z) == z;
    assert Mentions(x) == {s};
    var either := Bin(OpOr, x, y);
    assert WellFormed(either) && Normal(either) && Tests(either) == either && s in Mentions(either);
  }

  lemma ItemIrredundant(s: Symbol, q: Symbol, r: Symbol)
    requires s != q
    ensures Irredundant(Bin(OpAnd, Bin(OpOr, Sym(s), Sym(q)), Sym(r)))
  {
    var e := Bin(OpAnd, Bin(OpOr, Sym(s), Sym(q)), Sym(r));
    forall p: Path, t1: Path, t2: Path | HasSlot(e, p) && At(e, p).Bin? ensures Irreducible(At(e, p), t1, t2) {
      PairOf(OpAnd, e.l, e.r, t1, t2);
      PairOf(OpOr, Sym(s), Sym(q), t1, t2);
      RegionsOfItem(e, p);
    }
  }

  lemma RegionsOfItem(e: Expr, p: Path)
    requires e.Bin? && e.l.Bin? && !e.r.Bin? && !e.l.l.Bin? && !e.l.r.Bin? && HasSlot(e, p) && At(e, p).Bin?
    ensures At(e, p) == e || At(e, p) == e.l
  {
    if p != [] {
      assert HasSlot(Child(e, p[0]), p[1..]) && At(e, p) == At(Child(e, p[0]), p[1..]);
      if p[0].Left? {
        NothingBelowPair(e.l, p[1..]);
      }
    }
  }

  /** Nothing is eliminated from y. */
  lemma {:induction false} LeavesSpareYes(op: Op, e: Expr)
    ensures EliminateEqLeaves(op, e, Sym(SYM_YES)).1 == Sym(SYM_YES)
  {
    if IsBin(op, e) {
      LeavesSpareYes(op, e.l);
      LeavesSpareYes(op, e.r);
    }
  }

  /** The comparison of an absent condition is y. */
  lemma AbsentForm()
    ensures CompareFormOf(None) == Sym(SYM_YES)
  {
    assert Transform(Neg(Sym(SYM_NO))) == Sym(SYM_YES);
    CompareFormUsable(None);
  }

  /** A symbol without a prompt takes every item that mentions it. */
  lemma PromptlessTakes(sym: Symbol, dep: Condition)
    requires Usable(dep)
    ensures Passes(sym, dep, None) <==> dep.Some? && sym in Mentions(dep.value)
  {
    hide EliminateEqLeaves, CompareFormOf;
    if dep.Some? {
      AbsentForm();
      var d := CompareFormOf(dep);
      if d.Bin? {
        LeavesSpareYes(d.op, d);
      }
    }
  }

  lemma {:induction false} DependsOnMentions(e: Expr, sym: Symbol)
    ensures DependsOn(e, sym) ==> sym in Mentions(e)
  {
    match e
    case Bin(_, l, r) =>
      DependsOnMentions(l, sym);
      DependsOnMentions(r, sym);
    case _ =>
  }

  /**
    Without modules, an item that belongs below a symbol shows only if the symbol is set or the condition of
    its prompt holds; that of a symbol without a prompt always does.
   */
  lemma BelongsHidesWithParent(env: Env, sym: Symbol, item: Expr, base: Condition)
    requires Typed(env) && env.modules == NO && Belongs(sym, Some(item), base)
    requires sym.ty.Boolean? || sym.ty.Tri?
    requires LogicalAtoms(item) && Normal(item) && (base.Some? ==> LogicalAtoms(base.value))
    ensures Eval(env, item) != NO ==> env.val(sym).tri != NO || EvalCondition(env, base) != NO
  {
    if DependsOn(item, sym) {
      if Eval(env, item) != NO {
        DependsOnSound(env, item, sym);
      }
    } else {
      TwoValuedNoNegatedMod(env, item);
      SupersetHidesWithParent(env, item, base);
    }
  }

  /** The node passes the test of one of the given nodes. */
  ghost predicate BelongsToOneOf(m: Menu, ps: set<Menu>)
    reads m`dep, m`props, ps`dep, ps`props
  {
    exists p :: p in ps && p.sym.Some? && Passes(p.sym.value, NodeCondition(m), PromptCondition(p))
  }

  /** Every node of a chain passes the test of one of `ps` or of an earlier node of the chain. */
  ghost predicate ChainNested(f: Forest, ps: set<Menu>)
    reads Nodes(f)`dep, Nodes(f)`props, ps`dep, ps`props
  {
    f.Cons? ==> BelongsToOneOf(f.node, ps) && ChainNested(f.next, ps + {f.node})
  }

  lemma {:induction false} ChainNestedMonotone(f: Forest, ps: set<Menu>, qs: set<Menu>)
    requires ChainNested(f, ps) && ps <= qs
    ensures ChainNested(f, qs)
  {
    hide Passes;
    if f.Cons? {
      ChainNestedMonotone(f.next, ps + {f.node}, qs + {f.node});
    }
  }

  lemma ChainNestedFirst(f: Forest, ps: set<Menu>)
    requires f.Cons? && BelongsToOneOf(f.node, ps) && ChainNested(f.next, {f.node})
    ensures ChainNested(f, ps)
  {
    hide Passes;
    ChainNestedMonotone(f.next, {f.node}, ps + {f.node});
  }

  lemma {:induction false} ChainNestedAppend(f: Forest, g: Forest, ps: set<Menu>)
    requires ChainNested(f, ps) && ChainNested(g, ps)
    ensures ChainNested(Append(f, g), ps)
  {
    hide Passes;
    if f.Cons? {
      ChainNestedMonotone(g, ps, ps + {f.node});
      ChainNestedAppend(f.next, g, ps + {f.node});
    }
  }

  ghost function Given(m: Menu?): set<Menu> {
    if m == null then {} else {m}
  }

  /** A node that does not pass the test. */
  ghost predicate LeftAlone(q: Menu, n: Menu?)
    reads q`dep, q`props, Given(n)`dep, Given(n)`props
  {
    q.sym.Some? && n != null ==> !Passes(q.sym.value, NodeCondition(n), PromptCondition(q))
  }

  /**
    What becomes of a node `q` without children as parsed, where the siblings `f` and then `tail` follow:
    it takes the first `k` of them, each of which passes the test of `q` or of one taken before it, and the
    next one does not pass the test of `q`. If `q` has a title, `below` lists the siblings taken and no others.
   */
  ghost predicate Takes(q: Menu, f: Forest, tail: Menu?, below: seq<Menu>, k: nat)
    reads q`dep, q`props, Nodes(f)`dep, Nodes(f)`props, Given(tail)`dep, Given(tail)`props
  {
    assert Drop(f, k).Cons? ==> Drop(f, k).node in Nodes(Drop(f, k));
    && k <= Length(f) && ChainNested(Take(f, k), {q}) && LeftAlone(q, First(Drop(f, k), tail))
    && (HasTitle(q) ==> below == Preorder(Take(f, k)))
  }

  ghost predicate LeafNests(q: Menu, f: Forest, tail: Menu?, below: seq<Menu>)
    reads q`dep, q`props, Nodes(f)`dep, Nodes(f)`props, Given(tail)`dep, Given(tail)`props
  {
    exists k :: Takes(q, f, tail, below, k)
  }

  /** The first node of a parsed chain: nodes that have children as parsed keep them and take no others. */
  ghost predicate NodeNests(f: Forest, tail: Menu?, below: seq<Menu>)
    requires f.Cons?
    reads Nodes(f)`dep, Nodes(f)`props, Given(tail)`dep, Given(tail)`props
  {
    if f.list.Nil? then LeafNests(f.node, f.next, tail, below) else HasTitle(f.node) ==> below == Preorder(f.list)
  }

  /**
    The new shape `g` has the nodes of the parsed chain `f`, which `tail` follows, nested as they should be.
   */
  ghost predicate Nests(f: Forest, tail: Menu?, g: Forest)
    reads Nodes(f)`dep, Nodes(f)`props, Given(tail)`dep, Given(tail)`props
  {
    f.Cons? ==> NodeNests(f, tail, Preorder(Under(g, f.node))) && Nests(f.list, null, g) && Nests(f.next, tail, g)
  }

  /** What is below the nodes with a title is the same in both shapes. */
  ghost predicate SameBelow(g: Forest, g': Forest) {
    forall q :: q in Nodes(g) && HasTitle(q) ==> Preorder(Under(g', q)) == Preorder(Under(g, q))
  }

  /** Nesting is about what is below the nodes with a title. */
  lemma {:induction false} NestsSame(f: Forest, tail: Menu?, g: Forest, g': Forest)
    requires Nests(f, tail, g)
    requires forall q :: q in Nodes(f) && HasTitle(q) ==> Preorder(Under(g', q)) == Preorder(Under(g, q))
    ensures Nests(f, tail, g')
  {
    hide ChainNested, LeftAlone, HasTitle, Preorder, Under;
    if f.Cons? {
      NestsSame(f.list, null, g, g');
      NestsSame(f.next, tail, g, g');
      if f.list.Nil? {
        var k :| Takes(f.node, f.next, tail, Preorder(Under(g, f.node)), k);
        assert Takes(f.node, f.next, tail, Preorder(Under(g', f.node)), k);
      }
    }
  }

  lemma {:induction false} NestsAppend(f: Forest, d: Forest, tail: Menu?, g: Forest)
    requires Nests(f, First(d, tail), g) && Nests(d, tail, g)
    ensures Nests(Append(f, d), tail, g)
  {
    hide ChainNested, LeftAlone, HasTitle, Preorder, Under;
    if f.Cons? {
      NestsAppend(f.next, d, tail, g);
      if f.list.Nil? {
        var below := Preorder(Under(g, f.node));
        var k :| Takes(f.node, f.next, First(d, tail), below, k);
        TakeAppend(f.next, d, k);
        FirstAppend(Drop(f.next, k), d);
        assert Takes(f.node, Append(f.next, d), tail, below, k);
      }
    }
  }

  /** Two consecutive parts of a chain and what became of them. */
  lemma NestsMore(f: Forest, now: Forest, d: Forest, node: Forest, tail: Menu?)
    requires Nests(f, First(d, tail), now) && Nests(d, tail, node)
    requires Nodes(f) == Nodes(now) && Nodes(d) == Nodes(node) && Nodes(f) !! Nodes(d)
    ensures Nests(Append(f, d), tail, Append(now, node))
  {
    hide Nests, Preorder, Under, HasTitle, Nodes, Append;
    var g := Append(now, node);
    forall q | q in Nodes(f) && HasTitle(q) ensures Preorder(Under(g, q)) == Preorder(Under(now, q)) {
      UnderAppend(now, node, q);
    }
    forall q | q in Nodes(d) && HasTitle(q) ensures Preorder(Under(g, q)) == Preorder(Under(node, q)) {
      UnderAppend(now, node, q);
    }
    NestsSame(f, First(d, tail), now, g);
    NestsSame(d, tail, node, g);
    NestsAppend(f, d, tail, g);
  }

  /** A node that has taken the chain `taken`, which has become `below`. */
  lemma NestsTaken(parent: Menu, below: Forest, taken: Forest, tail: Menu?)
    requires Nests(taken, tail, below) && ChainNested(taken, {parent}) && LeftAlone(parent, tail)
    requires parent !in Nodes(taken) && Nodes(below) == Nodes(taken) && Preorder(below) == Preorder(taken)
    ensures Nests(Cons(parent, Nil, taken), tail, Cons(parent, below, Nil))
  {
    hide ChainNested, LeftAlone, HasTitle, Preorder;
    var g := Cons(parent, below, Nil);
    assert forall q :: q in Nodes(taken) ==> Under(g, q) == Under(below, q);
    NestsSame(taken, tail, below, g);
    TakeAll(taken);
    assert Takes(parent, taken, tail, Preorder(below), Length(taken));
  }

  /** A node with the children it had as parsed, which have become `list'`. */
  lemma NestsParent(parent: Menu, list: Forest, list': Forest, tail: Menu?)
    requires list.Cons? && Nests(list, null, list')
    requires parent !in Nodes(list) && Nodes(list') == Nodes(list) && Preorder(list') == Preorder(list)
    ensures Nests(Cons(parent, list, Nil), tail, Cons(parent, list', Nil))
  {
    hide ChainNested, LeftAlone, HasTitle, Preorder;
    var g := Cons(parent, list', Nil);
    assert forall q :: q in Nodes(list) ==> Under(g, q) == Under(list', q);
    NestsSame(list, null, list', g);
  }

  /** A node that has and takes no children. */
  lemma NestsAlone(parent: Menu, tail: Menu?)
    requires LeftAlone(parent, tail)
    ensures Nests(Cons(parent, Nil, Nil), tail, Cons(parent, Nil, Nil))
  {
    assert Takes(parent, Nil, tail, [], 0);
  }

  /** Flattening the children of a node keeps it. */
  lemma NestsFlattened(f: Forest, tail: Menu?, parent: Menu, list: Forest, list': Forest)
    requires Nests(f, tail, Cons(parent, list, Nil)) && SameBelow(list, list')
    requires Preorder(list') == Preorder(list) && Nodes(f) == {parent} + Nodes(list) && parent !in Nodes(list)
    ensures Nests(f, tail, Cons(parent, list', Nil))
  {
    hide ChainNested, LeftAlone, HasTitle, Preorder, Nests;
    SameListing(list, list');
    NestsSame(f, tail, Cons(parent, list, Nil), Cons(parent, list', Nil));
  }

  lemma SameBelowItself(g: Forest)
    ensures SameBelow(g, g)
  {
  }

  /** Splicing the children of a node without a title changes nothing below the others. */
  lemma SplicedBelow(f: Forest)
    requires f.Cons? && !HasTitle(f.node) && Distinct(f)
    ensures SameBelow(f, Cons(f.node, Nil, Append(f.list, f.next)))
  {
    hide Distinct, Preorder, HasTitle;
    DistinctParts(f);
    forall q | q in Nodes(f) && HasTitle(q)
      ensures Under(Cons(f.node, Nil, Append(f.list, f.next)), q) == Under(f, q)
    {
      UnderAppend(f.list, f.next, q);
    }
  }

  /** A change behind other nodes. */
  lemma SameBelowBehind(f: Forest, before: Forest, rest: Forest, rest': Forest)
    requires SameBelow(f, Append(before, rest)) && SameBelow(rest, rest')
    requires Nodes(f) == Nodes(before) + Nodes(rest)
    ensures SameBelow(f, Append(before, rest'))
  {
    hide HasTitle, Preorder, Under;
    forall q | q in Nodes(f) && HasTitle(q)
      ensures Preorder(Under(Append(before, rest'), q)) == Preorder(Under(f, q))
    {
      UnderAppend(before, rest, q);
      UnderAppend(before, rest', q);
    }
  }

  /** The part of a parsed chain that starts with the given node. */
  ghost function From(f: Forest, q: Menu): (part: Forest)
    ensures Nodes(part) <= Nodes(f) && (q in Nodes(f) ==> part.Cons? && part.node == q)
  {
    if f.Nil? then Nil
    else if f.node == q then f
    else if q in Nodes(f.list) then From(f.list, q) else From(f.next, q)
  }

  /** What follows the chain of that node. */
  ghost function TailOf(f: Forest, tail: Menu?, q: Menu): (n: Menu?)
    ensures n == tail || n == null
  {
    if f.Nil? || f.node == q then tail
    else if q in Nodes(f.list) then TailOf(f.list, null, q) else TailOf(f.next, tail, q)
  }

  ghost predicate NestsAt(f: Forest, tail: Menu?, g: Forest, q: Menu)
    requires q in Nodes(f)
    reads Nodes(f)`dep, Nodes(f)`props, Given(tail)`dep, Given(tail)`props
  {
    NodeNests(From(f, q), TailOf(f, tail, q), Preorder(Under(g, q)))
  }

  /** The tree is nested as it should be exactly if each of its nodes is. */
  lemma {:induction false} NestsExact(f: Forest, tail: Menu?, g: Forest)
    requires Distinct(f)
    ensures Nests(f, tail, g) <==> forall q :: q in Nodes(f) ==> NestsAt(f, tail, g, q)
  {
    hide NodeNests, Preorder, Under, Distinct;
    if f.Cons? {
      DistinctParts(f);
      NestsExact(f.list, null, g);
      NestsExact(f.next, tail, g);
      assert forall q :: q in Nodes(f.list) ==> NestsAt(f, tail, g, q) == NestsAt(f.list, null, g, q);
      assert forall q :: q in Nodes(f.next) ==> NestsAt(f, tail, g, q) == NestsAt(f.next, tail, g, q);
      assert NestsAt(f, tail, g, f.node) == NodeNests(f, tail, Preorder(Under(g, f.node)));
    }
  }

  /** A node with a prompt and a text that has children as parsed keeps all of them and nothing else below it. */
  lemma TitledKeepsChildren(f: Forest, tail: Menu?, g: Forest, q: Menu)
    requires Distinct(f) && Nests(f, tail, g) && q in Nodes(f) && q.prompt.Some? && q.promptText.Some?
    ensures From(f, q).list.Cons? ==> Preorder(Under(g, q)) == Preorder(From(f, q).list)
  {
    hide Preorder, Under, Distinct, Nests;
    NestsExact(f, tail, g);
    assert NestsAt(f, tail, g, q);
    FromHead(f, q);
  }

  lemma {:induction false} FromHead(f: Forest, q: Menu)
    requires q in Nodes(f)
    ensures From(f, q).Cons? && From(f, q).node == q
  {
    if f.node != q {
      if q in Nodes(f.list) {
        FromHead(f.list, q);
      } else {
        FromHead(f.next, q);
      }
    }
  }

  /** What can be said about the conditions of a node without modules. */
  ghost predicate TwoValued(m: Menu)
    reads m`dep, m`props
  {
    && (NodeCondition(m).Some? ==> LogicalAtoms(NodeCondition(m).value) && Normal(NodeCondition(m).value))
    && (m.sym.Some? ==> m.sym.value.ty.Boolean? || m.sym.value.ty.Tri?)
  }

  /** The node shows, as far as the condition goes that it is listed by. */
  ghost predicate Shows(env: Env, m: Menu)
    reads m`dep, m`props
  {
    && (m.prompt.None? ==> EvalCondition(env, m.dep) != NO)
    && (m.prompt.Some? && m.prompt.value < |m.props| ==> EvalCondition(env, m.props[m.prompt.value].visible) != NO)
  }

  ghost predicate PromptShows(env: Env, m: Menu)
    reads m`dep, m`props
  {
    m.prompt.Some? && Shows(env, m)
  }

  /** The symbol is set or has no prompt: what was taken by it may show whether it shows itself or not. */
  predicate Loose(env: Env, m: Menu) {
    m.sym.Some? && (env.val(m.sym.value).tri != NO || m.prompt.None?)
  }

  ghost predicate SomeLoose(env: Env, ps: set<Menu>) {
    exists p :: p in ps && Loose(env, p)
  }

  /** The node is not hidden together with all that is below it. */
  ghost predicate Open(env: Env, q: Menu)
    reads q`dep, q`props
  {
    Loose(env, q) || PromptShows(env, q)
  }

  ghost function Heads(f: Forest): (ms: set<Menu>)
    ensures ms <= Nodes(f)
  {
    if f.Nil? then {} else {f.node} + Heads(f.next)
  }

  /** The nodes of a chain before the given one. */
  ghost function Earlier(f: Forest, m: Menu): (ms: set<Menu>)
    ensures ms <= Heads(f)
  {
    if f.Nil? || f.node == m then {} else {f.node} + Earlier(f.next, m)
  }

  /** One step: the node that took an item is open if the item shows. */
  lemma TakerOpen(env: Env, p: Menu, m: Menu)
    requires Typed(env) && env.modules == NO && p.sym.Some?
    requires Passes(p.sym.value, NodeCondition(m), PromptCondition(p))
    requires TwoValued(p) && TwoValued(m) && Shows(env, m)
    ensures Open(env, p)
  {
    hide Passes, Eval, LogicalAtoms, Normal;
    PassesBelongs(p.sym.value, NodeCondition(m), PromptCondition(p));
    BelongsHidesWithParent(env, p.sym.value, NodeCondition(m).value, PromptCondition(p));
  }

  /**
    The nodes of the chain, and `done` before them, have been taken by `q`. If all of `done` that shows has a
    reason to, so has every node of the chain: the prompt of `q` shows, or `q` or one taken earlier is loose.
   */
  lemma {:induction false} TakenShows(env: Env, f: Forest, q: Menu, done: set<Menu>, m: Menu)
    requires Typed(env) && env.modules == NO && ChainNested(f, {q} + done) && m in Heads(f)
    requires forall x :: x in {q} + done + Heads(f) ==> TwoValued(x)
    requires forall p :: p in done && Shows(env, p) ==> PromptShows(env, q) || SomeLoose(env, {q} + done)
    requires Shows(env, m)
    ensures PromptShows(env, q) || SomeLoose(env, {q} + done + Earlier(f, m))
    decreases f
  {
    hide Passes, TwoValued, Shows;
    if Shows(env, f.node) {
      var p :| p in {q} + done && p.sym.Some? && Passes(p.sym.value, NodeCondition(f.node), PromptCondition(p));
      assert f.node in {q} + done + Heads(f);
      TakerOpen(env, p, f.node);
      if Loose(env, p) {
        assert SomeLoose(env, {q} + done);
      }
    }
    if m == f.node {
      assert {q} + done + {} == {q} + done;
    } else {
      var done' := done + {f.node};
      assert {q} + done' == {q} + done + {f.node};
      assert {q} + done' + Heads(f.next) == {q} + done + Heads(f);
      if SomeLoose(env, {q} + done) {
        assert SomeLoose(env, {q} + done');
      }
      TakenShows(env, f.next, q, done', m);
      assert {q} + done' + Earlier(f.next, m) == {q} + done + Earlier(f, m);
    }
  }

  /**
    Without modules, a sibling taken by `q` or by one that `q` took shows only if the prompt of `q` shows, or
    `q` or a sibling taken earlier has its symbol set or has no prompt.
   */
  lemma TakenHidesWithParent(env: Env, f: Forest, q: Menu, m: Menu)
    requires Typed(env) && env.modules == NO && ChainNested(f, {q}) && m in Heads(f)
    requires forall x :: x in {q} + Heads(f) ==> TwoValued(x)
    ensures Shows(env, m) ==> PromptShows(env, q) || SomeLoose(env, {q} + Earlier(f, m))
  {
    hide ChainNested, TwoValued, Shows;
    assert {q} + {} == {q} && {q} + {} + Heads(f) == {q} + Heads(f);
    if Shows(env, m) {
      TakenShows(env, f, q, {}, m);
      assert {q} + {} + Earlier(f, m) == {q} + Earlier(f, m);
    }
  }

  /**
    What was taken is hidden with `q` exactly if nothing shows that comes behind a sibling that is loose: only
    these can stand out.
   */
  lemma TakenHiddenExact(env: Env, f: Forest, q: Menu)
    requires Typed(env) && env.modules == NO && ChainNested(f, {q})
    requires forall x :: x in {q} + Heads(f) ==> TwoValued(x)
    ensures (forall m :: m in Heads(f) && Shows(env, m) ==> Open(env, q))
            <==> Open(env, q) || forall m :: m in Heads(f) && SomeLoose(env, Earlier(f, m)) ==> !Shows(env, m)
  {
    hide ChainNested, TwoValued, Shows, PromptShows, Loose;
    if !Open(env, q) {
      forall m | m in Heads(f) && Shows(env, m) ensures SomeLoose(env, Earlier(f, m)) {
        TakenHidesWithParent(env, f, q, m);
      }
    }
  }

  /**
    An item that shows below a symbol that is hidden and n: `p` has no prompt and depends on `q`, and the item
    depends on `p` or something else.
   */
  lemma PromptlessLeaks(env: Env, q: Menu, p: Menu, m: Menu, h: Symbol, x: Symbol)
    requires Typed(env) && env.modules == NO
    requires q.sym.Some? && q.prompt.Some? && NodeCondition(q) == Some(Sym(h))
    requires p.sym.Some? && p.prompt.None? && p.dep == Some(Sym(q.sym.value))
    requires NodeCondition(m) == Some(Bin(OpOr, Sym(p.sym.value), Sym(x)))
    requires IsBoolSymbol(q.sym.value) && IsBoolSymbol(p.sym.value) && IsBoolSymbol(h) && IsBoolSymbol(x)
    requires env.val(q.sym.value).tri == NO && env.val(p.sym.value).tri == NO && env.val(h).tri == NO
    requires env.val(x).tri == YES
    ensures ChainNested(Cons(p, Nil, Cons(m, Nil, Nil)), {q}) && Shows(env, m) && !Open(env, q)
  {
    hide Superset, DependsOn;
    var a, b := q.sym.value, p.sym.value;
    var item := Bin(OpOr, Sym(b), Sym(x));
    assert Eval(env, Sym(b)) == NO && Eval(env, Sym(x)) == YES && WellFormed(Sym(b)) && WellFormed(Sym(x));
    assert Mentions(item) == {b} + Mentions(Sym(x));
    PromptlessTakes(b, Some(item));
    DependsOnItself(a);
    AbsolutePasses(a, Some(Sym(a)), Some(Sym(h)));
    assert BelongsToOneOf(p, {q}) && BelongsToOneOf(m, {q} + {p});
    assert ChainNested(Nil, {q} + {p} + {m});
    assert ChainNested(Cons(m, Nil, Nil), {q} + {p});
  }

  predicate IsBoolSymbol(s: Symbol) {
    s.ty.Boolean?
  }

  lemma DependsOnItself(s: Symbol)
    ensures DependsOn(Sym(s), s)
  {
  }
}
