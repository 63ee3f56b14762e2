/** menu_finalize (menu.c): inheritance of conditions, automatic submenus and the flattening of ifs. */
module MenuFinalize {
  import opened Listings
  import opened Options
  import opened Tristates
  import opened Exprs
  import opened NormalForm
  import opened Dedup
  import opened Submenu
  import opened MenuTree
  import opened Nesting

  predicate UsableNode(m: Menu)
    reads m`dep, m`props
  {
    && Usable(m.dep)
    && (forall i :: 0 <= i < |m.props| ==> Usable(m.props[i].visible))
    && (m.prompt.Some? ==> m.prompt.value < |m.props|)
    && (m.sym.Some? ==> !m.sym.value.ty.Other?)
  }

  predicate PreparedNode(m: Menu)
    reads m`dep, m`props
  {
    && UsableNode(m)
    && Prepared(m.dep)
    && (forall i :: 0 <= i < |m.props| ==> Prepared(m.props[i].visible))
  }

  /** Nothing inherited yet: every node below and beside is as the parser left it. */
  ghost predicate Parsed(f: Forest)
    reads Nodes(f)`dep, Nodes(f)`props
  {
    f.Cons? ==>
      && UsableNode(f.node) && f.node.dep == f.node.parsedDep && f.node.props == f.node.parsedProps
      && Parsed(f.list) && Parsed(f.next)
  }

  /** The nodes of the chain have inherited from their parent, what is below them has not. */
  ghost predicate Ready(f: Forest)
    reads Nodes(f)`dep, Nodes(f)`props
  {
    f.Cons? ==> PreparedNode(f.node) && Parsed(f.list) && Ready(f.next)
  }

  /** What a node passes down: the choice symbol, its prompt's condition, or (for `if`) its own condition. */
  function ParentDep(m: Menu): (c: Condition)
    requires PreparedNode(m)
    reads m`dep, m`props
    ensures Prepared(c)
  {
    if m.sym.Some? && m.isChoice then Some(Sym(m.sym.value))
    else if m.prompt.Some? then m.props[m.prompt.value].visible
    else m.dep
  }

  predicate IsBoolNode(m: Menu) {
    m.sym.Some? && !m.sym.value.ty.Tri?
  }

  /** The condition of a property after inheritance; in a node of a symbol that is not tristate, up to promotion. */
  ghost predicate VisibleInherits(env: Env, modules: Symbol, promote: bool, dep: Condition, parsed: Condition,
      c: Condition) {
    var expected := And(EvalCondition(env, dep), EvalCondition(env, RewriteMIn(modules, parsed)));
    if promote then Promote(EvalCondition(env, c)) == Promote(expected) else EvalCondition(env, c) == expected
  }

  /** A condition is left without duplicate operands, and in a node of a bool without tests of tristates. */
  ghost predicate Tidy(promote: bool, c: Condition) {
    c.Some? ==> if promote then NoTests(c.value) && exists x :: Apart(x) && c.value == TransBool(x) else Apart(c.value)
  }

  ghost predicate TidyNode(m: Menu)
    reads m`dep, m`props
  {
    Tidy(false, m.dep) && forall i :: 0 <= i < |m.props| ==> Tidy(IsBoolNode(m), m.props[i].visible)
  }

  /** The conditions of `m` are those the parser left, below the condition `pd` of its parent. */
  ghost predicate NodeInherits(modules: Symbol, m: Menu, pd: Condition)
    reads m`dep, m`props
  {
    && PreparedNode(m) && TidyNode(m)
    && |m.props| == |m.parsedProps|
    && (forall env | Typed(env) ::
          EvalCondition(env, m.dep) == And(EvalCondition(env, pd), EvalCondition(env, RewriteMIn(modules, m.parsedDep))))
    && (forall env, i | Typed(env) && 0 <= i < |m.props| ::
          VisibleInherits(env, modules, IsBoolNode(m), m.dep, m.parsedProps[i].visible, m.props[i].visible))
  }

  /** The nodes of a chain have inherited `pd`. */
  ghost predicate ChainInherits(modules: Symbol, f: Forest, pd: Condition)
    reads Nodes(f)`dep, Nodes(f)`props
  {
    f.Cons? ==> NodeInherits(modules, f.node, pd) && ChainInherits(modules, f.next, pd)
  }

  /** Every node of the parsed tree has inherited from its parent in that tree. */
  ghost predicate AllInherit(modules: Symbol, f: Forest, pd: Condition)
    reads Nodes(f)`dep, Nodes(f)`props
  {
    f.Cons? ==>
      && NodeInherits(modules, f.node, pd)
      && AllInherit(modules, f.list, ParentDep(f.node))
      && AllInherit(modules, f.next, pd)
  }

  /** Every node below the nodes of the chain has inherited from its parent in the parsed tree. */
  ghost predicate Finalized(modules: Symbol, f: Forest)
    reads Nodes(f)`dep, Nodes(f)`props
  {
    f.Cons? ==>
      && PreparedNode(f.node)
      && AllInherit(modules, f.list, ParentDep(f.node))
      && Finalized(modules, f.next)
  }

  lemma {:induction false} FinalizedChainInherits(modules: Symbol, f: Forest, pd: Condition)
    requires Finalized(modules, f) && ChainInherits(modules, f, pd)
    ensures AllInherit(modules, f, pd)
  {
    if f.Cons? {
      FinalizedChainInherits(modules, f.next, pd);
    }
  }

  lemma {:induction false} FinalizedAppend(modules: Symbol, f: Forest, g: Forest)
    ensures Finalized(modules, Append(f, g)) <==> Finalized(modules, f) && Finalized(modules, g)
  {
    if f.Cons? {
      FinalizedAppend(modules, f.next, g);
    }
  }

  lemma {:induction false} ReadyAppend(f: Forest, g: Forest)
    ensures Ready(Append(f, g)) <==> Ready(f) && Ready(g)
  {
    if f.Cons? {
      ReadyAppend(f.next, g);
    }
  }

  lemma {:induction false} ChainInheritsAppend(modules: Symbol, f: Forest, g: Forest, pd: Condition)
    ensures ChainInherits(modules, Append(f, g), pd) <==> ChainInherits(modules, f, pd) && ChainInherits(modules, g, pd)
  {
    if f.Cons? {
      ChainInheritsAppend(modules, f.next, g, pd);
    }
  }

  lemma ApartIsTidy(c: Condition)
    requires c.Some? ==> Apart(c.value)
    ensures Tidy(false, c)
  {
  }

  /**
    What an item needs of the menu it is in: of a choice its value, of a menu with a prompt the prompt's
    condition, of an `if` its condition; and beside that what the parser found at the item itself.
   */
  lemma ChildNeeds(env: Env, modules: Symbol, parent: Menu, child: Menu)
    requires Typed(env) && PreparedNode(parent) && NodeInherits(modules, child, ParentDep(parent))
    ensures var own := EvalCondition(env, RewriteMIn(modules, child.parsedDep));
            && (parent.sym.Some? && parent.isChoice ==>
                  EvalCondition(env, child.dep) == And(env.val(parent.sym.value).tri, own))
            && (!(parent.sym.Some? && parent.isChoice) && parent.prompt.Some? ==>
                  EvalCondition(env, child.dep)
                  == And(EvalCondition(env, parent.props[parent.prompt.value].visible), own))
            && (!(parent.sym.Some? && parent.isChoice) && parent.prompt.None? ==>
                  EvalCondition(env, child.dep) == And(EvalCondition(env, parent.dep), own))
    ensures forall i :: 0 <= i < |child.props| && EvalCondition(env, child.dep) == NO ==>
              EvalCondition(env, child.props[i].visible) == NO
  {
    hide WellFormed, Normal, RewriteM, CompareIn, Tidy;
    forall i | 0 <= i < |child.props| && EvalCondition(env, child.dep) == NO
      ensures EvalCondition(env, child.props[i].visible) == NO
    {
      assert VisibleInherits(env, modules, IsBoolNode(child), child.dep, child.parsedProps[i].visible,
                             child.props[i].visible);
    }
  }

  /** One child: its condition, then the conditions of its properties. */
  method InheritInto(modules: Symbol, m: Menu, pd: Condition)
    requires !modules.ty.Other? && Prepared(pd)
    requires UsableNode(m) && m.dep == m.parsedDep && m.props == m.parsedProps
    modifies m`dep, m`props
    ensures NodeInherits(modules, m, pd) && PreparedNode(m)
  {
    hide Typed, WellFormed, Normal, Eval, Tidy;
    m.dep := Inherit(modules, pd, m.dep);
    ApartIsTidy(m.dep);
    var i := 0;
    while i < |m.props|
      invariant 0 <= i <= |m.props| == |m.parsedProps|
      invariant Prepared(m.dep) && Tidy(false, m.dep)
      invariant forall j :: 0 <= j < i ==> Tidy(IsBoolNode(m), m.props[j].visible)
      invariant forall env | Typed(env) ::
          EvalCondition(env, m.dep) == And(EvalCondition(env, pd), EvalCondition(env, RewriteMIn(modules, m.parsedDep)))
      invariant forall j :: i <= j < |m.props| ==> m.props[j] == m.parsedProps[j]
      invariant forall j :: 0 <= j < i ==> Prepared(m.props[j].visible)
      invariant forall env, j | Typed(env) && 0 <= j < i ::
          VisibleInherits(env, modules, IsBoolNode(m), m.dep, m.parsedProps[j].visible, m.props[j].visible)
    {
      var visible := InheritProperty(modules, IsBoolNode(m), m.dep, m.props[i].visible);
      m.props := m.props[i := Prop(visible)];
      i := i + 1;
    }
  }

  method InheritProperty(modules: Symbol, promote: bool, dep: Condition, parsed: Condition) returns (c: Condition)
    requires !modules.ty.Other? && Prepared(dep) && Usable(parsed)
    ensures Prepared(c) && Tidy(promote, c)
    ensures forall env | Typed(env) :: VisibleInherits(env, modules, promote, dep, parsed, c)
  {
    hide CompareIn, Denotes, Apart;
    c := Inherit(modules, dep, parsed);
    if promote && c.Some? {
      ghost var before := c;
      TransBoolComplete(c.value);
      TransBoolWellFormed(c.value);
      assert Typed(Join.Uniform(NO));
      TransBoolKeepsVisibility(Join.Uniform(NO), c.value);
      c := Some(TransBool(c.value));
      forall env | Typed(env) ensures VisibleInherits(env, modules, promote, dep, parsed, c) {
        TransBoolKeepsVisibility(env, before.value);
      }
    }
  }

  /** The first loop of menu_finalize: every child inherits from `parent`. */
  method InheritChildren(modules: Symbol, parent: Menu, ghost f: Forest)
    requires !modules.ty.Other? && PreparedNode(parent) && parent !in Nodes(f)
    requires Distinct(f) && Linked(f, parent, null) && parent.list == First(f, null) && Parsed(f)
    modifies Nodes(f)`dep, Nodes(f)`props
    ensures Ready(f) && ChainInherits(modules, f, ParentDep(parent))
  {
    hide Typed, Eval, EvalCondition, WellFormed, Normal, NodeInherits, Distinct, ParentDep;
    ghost var nodes := Footprint(f);
    var pd := ParentDep(parent);
    var menu := parent.list;
    ghost var before, rest := Nil, f;
    ghost var nodesBefore, nodesRest := {}, nodes;
    while menu != null
      invariant f == Append(before, rest) && menu == First(rest, null)
      invariant nodesBefore == Nodes(before) && nodesRest == Nodes(rest)
      invariant nodesBefore !! nodesRest && nodesBefore + nodesRest == nodes
      invariant Linked(rest, parent, null) && Distinct(rest)
      invariant Parsed(rest)
      invariant Ready(before)
      invariant ChainInherits(modules, before, pd)
      decreases rest
    {
      DistinctParts(rest);
      ghost var child, later := Cons(menu, rest.list, Nil), rest.next;
      InheritInto(modules, menu, pd);
      assert Linked(later, parent, null) && Parsed(later);
      assert Ready(child) && ChainInherits(modules, child, pd);
      assert Ready(before) && ChainInherits(modules, before, pd);
      ReadyAppend(before, child);
      ChainInheritsAppend(modules, before, child, pd);
      AppendAssociative(before, child, later);
      AppendLists(before, child);
      before, rest := Append(before, child), later;
      nodesBefore := Footprint(before);
      nodesRest := Footprint(rest);
      menu := menu.next;
    }
    AppendNil(before);
  }

  lemma {:induction false} AppendAssociative(f: Forest, g: Forest, h: Forest)
    ensures Append(Append(f, g), h) == Append(f, Append(g, h))
  {
    if f.Cons? {
      AppendAssociative(f.next, g, h);
    }
  }

  lemma {:induction false} AppendNil(f: Forest)
    ensures Append(f, Nil) == f
  {
    if f.Cons? {
      AppendNil(f.next);
    }
  }

  lemma ConcatCancel<T>(a: seq<T>, b: seq<T>, c: seq<T>)
    requires a + c == b + c
    ensures a == b
  {
    assert |a| == |b|;
    forall i | 0 <= i < |a| ensures a[i] == b[i] {
      assert (a + c)[i] == (b + c)[i];
    }
  }

  /** The walk along the children of `menu` that gives them the parent `parent`; ends at the last child. */
  method AdoptChildren(parent: Menu, menu: Menu, ghost list: Forest)
    returns (last: Menu, ghost before: Forest, ghost child: Forest)
    requires list.Cons? && Distinct(list) && menu !in Nodes(list)
    requires Linked(list, menu, null) && menu.list == list.node
    modifies Nodes(list)`parent
    ensures list == Append(before, child) && child.Cons? && child.next.Nil? && child.node == last
    ensures Linked(before, parent, last) && Linked(child, parent, null)
  {
    hide Distinct, Preorder;
    ghost var rest;
    before, rest := Nil, list;
    ghost var beforeNodes := {};
    ghost var restNodes := Footprint(list);
    last := menu.list;
    while last.next != null
      invariant rest.Cons? && last == rest.node && list == Append(before, rest)
      invariant beforeNodes == Nodes(before) && restNodes == Nodes(rest)
      invariant beforeNodes !! restNodes && beforeNodes + restNodes == Nodes(list) && Distinct(rest)
      invariant Linked(before, parent, last) && Linked(rest, menu, null)
      decreases rest
    {
      DistinctParts(rest);
      ghost var node, later := Cons(last, rest.list, Nil), rest.next;
      last.parent := parent;
      assert Linked(node, parent, First(later, null));
      assert Linked(later, menu, null);
      assert Linked(before, parent, last);
      AppendLinked(before, node, parent, First(later, null));
      AppendLists(before, node);
      AppendAssociative(before, node, later);
      before, rest := Append(before, node), later;
      beforeNodes := Footprint(before);
      restNodes := Footprint(rest);
      last := last.next;
    }
    DistinctParts(rest);
    last.parent := parent;
    child := rest;
  }

  /**
    The flattening of one node: its children follow it as siblings, children of `parent`.
    The nodes are listed in the same order before and after.
   */
  method SpliceChildren(parent: Menu, menu: Menu, ghost f: Forest)
    requires f.Cons? && f.node == menu && f.list.Cons? && Distinct(f) && Linked(f, parent, null)
    modifies Nodes(f)`parent, Nodes(f)`list, Nodes(f)`next
    ensures Linked(Cons(menu, Nil, Append(f.list, f.next)), parent, null)
  {
    hide Distinct, Preorder;
    DistinctParts(f);
    ghost var list, next := f.list, f.next;
    ghost var listNodes := Footprint(list);
    ghost var nextNodes := Footprint(next);
    var last: Menu;
    ghost var before, child;
    last, before, child := AdoptChildren(parent, menu, list);
    assert Linked(next, parent, null);
    DistinctAppend(before, child);
    AppendLists(before, child);
    ghost var beforeNodes := Footprint(before);
    ghost var childNodes := Footprint(child);
    DistinctParts(child);
    last.next := menu.next;
    assert Linked(before, parent, last);
    assert Linked(child, parent, First(next, null));
    assert Linked(next, parent, null);
    AppendLinked(before, child, parent, First(next, null));
    AppendLinked(list, next, parent, null);
    ghost var flat := Append(list, next);
    AppendLists(list, next);
    ghost var flatNodes := Footprint(flat);
    menu.next := menu.list;
    menu.list := null;
    assert Linked(flat, parent, null);
  }

  /** One step of the last loop of menu_finalize: a node with children but no prompt text is flattened. */
  method FlattenNode(parent: Menu, menu: Menu, ghost f: Forest) returns (ghost f': Forest)
    requires f.Cons? && f.node == menu && Distinct(f) && Linked(f, parent, null) && BelowFlat(f)
    modifies Nodes(f)`parent, Nodes(f)`list, Nodes(f)`next
    ensures f'.Cons? && f'.node == menu && Linked(f', parent, null) && Preorder(f') == Preorder(f)
    ensures f'.list.Cons? ==> HasTitle(menu)
    ensures AllFlat(f'.list) && BelowFlat(f'.next)
    ensures SameBelow(f, f')
  {
    f' := f;
    if menu.list != null && !HasTitle(menu) {
      SpliceChildren(parent, menu, f);
      f' := Cons(menu, Nil, Append(f.list, f.next));
      SplicedListing(f);
      AllFlatBelow(f.list);
      FlatAppend(f.list, f.next);
      SplicedBelow(f);
    }
  }

  /** The last loop of menu_finalize. */
  method FlattenChildren(parent: Menu, ghost f: Forest) returns (ghost f': Forest)
    requires Distinct(f) && Linked(f, parent, null) && parent.list == First(f, null) && parent !in Nodes(f)
    requires BelowFlat(f)
    modifies Nodes(f)`parent, Nodes(f)`list, Nodes(f)`next
    ensures Linked(f', parent, null) && parent.list == First(f', null)
    ensures Preorder(f') == Preorder(f)
    ensures AllFlat(f')
    ensures SameBelow(f, f')
  {
    hide Distinct, Preorder, AllFlat, BelowFlat, HasTitle, SameBelow;
    ghost var nodes := Footprint(f);
    ghost var before, rest := Nil, f;
    ghost var beforeNodes, restNodes := {}, nodes;
    var menu := parent.list;
    NilFacts(parent, menu);
    NilAppend(f);
    SameBelowItself(f);
    while menu != null
      invariant beforeNodes == Nodes(before) && restNodes == Nodes(rest)
      invariant beforeNodes !! restNodes && beforeNodes + restNodes == nodes && Distinct(rest)
      invariant Linked(before, parent, menu) && Linked(rest, parent, null) && menu == First(rest, null)
      invariant parent.list == First(before, menu)
      invariant Preorder(before) + Preorder(rest) == Preorder(f)
      invariant AllFlat(before) && BelowFlat(rest)
      invariant SameBelow(f, Append(before, rest))
      decreases |Preorder(rest)|
    {
      ghost var flat := FlattenNode(parent, menu, rest);
      assert Linked(before, parent, menu);
      SameListing(rest, flat);
      DistinctParts(flat);
      ghost var node, later := Cons(menu, flat.list, Nil), flat.next;
      assert Linked(node, parent, First(later, null));
      AppendLinked(before, node, parent, First(later, null));
      ListingMove(before, flat);
      FlatMove(before, flat);
      SameBelowBehind(f, before, rest, flat);
      AppendAssociative(before, node, later);
      assert Append(node, later) == flat;
      assert Linked(later, parent, null);
      before, rest := Append(before, node), later;
      beforeNodes := Footprint(before);
      restNodes := Footprint(rest);
      menu := menu.next;
    }
    assert rest.Nil?;
    AppendNil(before);
    f' := before;
  }

  lemma NilFacts(p: Menu?, tail: Menu?)
    ensures Preorder(Nil) == [] && AllFlat(Nil) && BelowFlat(Nil) && Linked(Nil, p, tail)
  {
  }

  lemma FlatMove(before: Forest, f: Forest)
    requires f.Cons? && AllFlat(before) && AllFlat(f.list)
    requires f.list.Cons? ==> HasTitle(f.node)
    ensures AllFlat(Append(before, Cons(f.node, f.list, Nil)))
  {
    FlatAppend(before, Cons(f.node, f.list, Nil));
  }

  /** The listing of a chain: its first node with what is below it, then the others. */
  lemma NodeListing(f: Forest)
    requires f.Cons?
    ensures Preorder(f) == Preorder(Cons(f.node, f.list, Nil)) + Preorder(f.next)
    ensures Preorder(Cons(f.node, f.list, Nil)) == [f.node] + Preorder(f.list)
    ensures |Preorder(f.next)| < |Preorder(f)| && |Preorder(f.list)| < |Preorder(f)|
  {
  }

  /** Moving the first node of a chain to the end of the chain before it. */
  lemma ListingMove(before: Forest, f: Forest)
    requires f.Cons?
    ensures var before' := Append(before, Cons(f.node, f.list, Nil));
            && Preorder(before') + Preorder(f.next) == Preorder(before) + Preorder(f)
            && Nodes(before') == Nodes(before) + Nodes(Cons(f.node, f.list, Nil))
            && Nodes(f) == Nodes(Cons(f.node, f.list, Nil)) + Nodes(f.next)
            && |Preorder(f.next)| < |Preorder(f)|
  {
    AppendLists(before, Cons(f.node, f.list, Nil));
    NodeListing(f);
  }

  lemma SplicedListing(f: Forest)
    requires f.Cons?
    ensures Preorder(Cons(f.node, Nil, Append(f.list, f.next))) == Preorder(f)
  {
    AppendLists(f.list, f.next);
  }

  /** Only nodes with a prompt text have children. */
  ghost predicate AllFlat(f: Forest) {
    f.Cons? ==> (f.list.Cons? ==> HasTitle(f.node)) && AllFlat(f.list) && AllFlat(f.next)
  }

  /** Afterwards a node without a prompt, or with a prompt that has no text, has no children. */
  lemma {:induction false} FlatExact(f: Forest, q: Menu)
    requires AllFlat(f) && q in Nodes(f) && (q.prompt.None? || q.promptText.None?)
    ensures From(f, q).Cons? && From(f, q).node == q && From(f, q).list.Nil?
  {
    if f.node != q {
      if q in Nodes(f.list) {
        FlatExact(f.list, q);
      } else {
        FlatExact(f.next, q);
      }
    }
  }

  /** The same for everything below the nodes of a chain. */
  ghost predicate BelowFlat(f: Forest) {
    f.Cons? ==> AllFlat(f.list) && BelowFlat(f.next)
  }

  lemma {:induction false} AllFlatBelow(f: Forest)
    requires AllFlat(f)
    ensures BelowFlat(f)
  {
    if f.Cons? {
      AllFlatBelow(f.next);
    }
  }

  lemma {:induction false} FlatAppend(f: Forest, g: Forest)
    ensures AllFlat(Append(f, g)) <==> AllFlat(f) && AllFlat(g)
    ensures BelowFlat(Append(f, g)) <==> BelowFlat(f) && BelowFlat(g)
  {
    if f.Cons? {
      FlatAppend(f.next, g);
    }
  }

  /**
    A call on the first node of `rest` made it `rest'`; `d` is the part of the parsed chain that the
    call consumed, and the first node of `rest'` with what is below it is what became of that part.
   */
  lemma ConsumedPart(rest: Forest, rest': Forest, d: Forest)
    requires rest'.Cons? && Preorder(rest') == Preorder(rest) && rest == Append(d, rest'.next) && d.Cons?
    requires Distinct(rest)
    ensures var node := Cons(rest'.node, rest'.list, Nil); Preorder(node) == Preorder(d) && Nodes(node) == Nodes(d)
    ensures Nodes(rest) == Nodes(d) + Nodes(rest'.next) && Nodes(d) !! Nodes(rest'.next)
    ensures Distinct(rest'.next) && Distinct(rest') && Nodes(rest') == Nodes(rest)
    ensures |Preorder(rest'.next)| < |Preorder(rest)|
  {
    hide Distinct, Preorder, Nodes, Append;
    var node := Cons(rest'.node, rest'.list, Nil);
    NodeListing(rest');
    AppendLists(d, rest'.next);
    ConcatCancel(Preorder(node), Preorder(d), Preorder(rest'.next));
    SameListing(node, d);
    DistinctAppend(d, rest'.next);
    SameListing(rest, rest');
  }

  /** The same parts behind those handled before, `done` as parsed and `now` as it has become. */
  lemma ConsumedListing(done: Forest, now: Forest, rest: Forest, rest': Forest, d: Forest)
    requires rest'.Cons? && rest == Append(d, rest'.next) && Preorder(now) == Preorder(done)
    requires Preorder(Cons(rest'.node, rest'.list, Nil)) == Preorder(d)
    ensures var now' := Append(now, Cons(rest'.node, rest'.list, Nil));
            && Preorder(now') == Preorder(Append(done, d)) == Preorder(done) + Preorder(d)
            && Nodes(now') == Nodes(Append(done, d)) == Nodes(done) + Nodes(d)
    ensures Append(Append(done, d), rest'.next) == Append(done, rest)
  {
    hide Distinct, Preorder, Nodes, Append;
    var node := Cons(rest'.node, rest'.list, Nil);
    AppendLists(now, node);
    AppendLists(done, d);
    SameListing(Append(now, node), Append(done, d));
    AppendAssociative(done, d, rest'.next);
  }

  /**
    The state of a loop over a parsed chain `f`: `done` is the part consumed, finalized, `now` what became of
    it, children of `parent`, and `rest` the part still to come, children of `h`.
   */
  ghost predicate Consumed(modules: Symbol, parent: Menu, f: Forest, h: Menu?, pd: Condition,
                           done: Forest, now: Forest, rest: Forest)
    reads Nodes(done), Nodes(now), Nodes(rest)
  {
    && f == Append(done, rest) && Distinct(rest) && (now.Nil? ==> done.Nil?)
    && Nodes(done) == Nodes(now) && Nodes(done) !! Nodes(rest)
    && Linked(now, parent, First(rest, null)) && Linked(rest, h, null)
    && Preorder(now) == Preorder(done) && BelowFlat(now)
    && Finalized(modules, done) && Ready(rest)
    && ChainInherits(modules, done, pd) && ChainInherits(modules, rest, pd)
    && Nests(done, First(rest, null), now)
  }

  /** One step of the second loop of menu_finalize. */
  method FinalizeChild(modules: Symbol, parent: Menu, menu: Menu, ghost f: Forest, ghost pd: Condition,
                       ghost done: Forest, ghost now: Forest, ghost rest: Forest)
    returns (ghost done': Forest, ghost now': Forest, ghost rest': Forest, ghost t: seq<Menu>)
    requires !modules.ty.Other? && Consumed(modules, parent, f, parent, pd, done, now, rest)
    requires rest.Cons? && rest.node == menu && parent !in Nodes(now) && parent !in Nodes(rest)
    modifies Nodes(rest)
    ensures Consumed(modules, parent, f, parent, pd, done', now', rest')
    ensures Nodes(now') + Nodes(rest') == Nodes(now) + Nodes(rest) && |Preorder(rest')| < |Preorder(rest)|
    ensures Preorder(now') == Preorder(now) + t
    ensures menu.next == First(rest', null)
    ensures forall tail :: First(now', tail) == First(now, menu)
    decreases |Preorder(rest)|, 3
  {
    hide Distinct, Preorder, Typed, Eval, WellFormed, Normal, NodeInherits, AllFlat, ParentDep, Nodes, Append;
    ghost var nowNodes := Footprint(now);
    assert Given(menu) == {menu};
    ghost var r, d;
    r, d, t := Finalize(modules, menu, rest, parent, pd);
    ghost var node := Cons(menu, r.list, Nil);
    assert Linked(now, parent, menu);
    assert Finalized(modules, done) && ChainInherits(modules, done, pd);
    assert Nests(done, menu, now);
    ConsumedPart(rest, r, d);
    ConsumedListing(done, now, rest, r, d);
    NestsMore(done, now, d, node, First(r.next, null));
    AppendLinked(now, node, parent, First(r.next, null));
    AppendLast(now, menu, r.list);
    FirstAppend(now, node);
    FlatAppend(now, node);
    FinalizedAppend(modules, done, d);
    ChainInheritsAppend(modules, d, r.next, pd);
    ChainInheritsAppend(modules, done, d, pd);
    done', now', rest' := Append(done, d), Append(now, node), r.next;
  }

  /** The second loop of menu_finalize: every child is finalized, and may take its following siblings below it. */
  method FinalizeChildren(modules: Symbol, parent: Menu, ghost f: Forest, ghost pd: Condition)
    returns (ghost f': Forest, ghost trace: seq<Menu>)
    requires !modules.ty.Other? && parent !in Nodes(f)
    requires Distinct(f) && Linked(f, parent, null) && parent.list == First(f, null)
    requires Ready(f) && ChainInherits(modules, f, pd)
    modifies Nodes(f)
    ensures Linked(f', parent, null) && parent.list == First(f', null)
    ensures Preorder(f') == Preorder(f) && BelowFlat(f')
    ensures Finalized(modules, f) && ChainInherits(modules, f, pd) && Nests(f, null, f')
    ensures trace == Preorder(f)
    decreases |Preorder(f)|, 4
  {
    hide Distinct, Preorder, Typed, Eval, WellFormed, Normal, NodeInherits, AllFlat, ParentDep, Nodes, Append;
    ghost var nodes := Footprint(f);
    ghost var done, now, rest := Nil, Nil, f;
    ghost var restNodes := nodes;
    var menu := parent.list;
    NilFacts(parent, menu);
    NilAppend(f);
    trace := [];
    while menu != null
      invariant Consumed(modules, parent, f, parent, pd, done, now, rest) && menu == First(rest, null)
      invariant Nodes(now) + Nodes(rest) == nodes && restNodes == Nodes(rest)
      invariant parent.list == First(now, menu)
      invariant trace == Preorder(now) && |Preorder(rest)| <= |Preorder(f)|
      decreases |Preorder(rest)|
    {
      ghost var t;
      done, now, rest, t := FinalizeChild(modules, parent, menu, f, pd, done, now, rest);
      trace := trace + t;
      restNodes := Footprint(rest);
      menu := menu.next;
    }
    AppendNil(done);
    f' := now;
  }

  ghost function Last(f: Forest): Menu?
  {
    if f.Nil? then null else if f.next.Nil? then f.node else Last(f.next)
  }

  lemma {:induction false} AppendLast(f: Forest, m: Menu, list: Forest)
    ensures Last(Append(f, Cons(m, list, Nil))) == m
  {
    if f.Cons? {
      AppendLast(f.next, m, list);
      assert Append(f.next, Cons(m, list, Nil)).Cons?;
    }
  }

  /** A chain taken apart before its last node. */
  lemma {:induction false} SplitLast(f: Forest, p: Menu?, tail: Menu?) returns (before: Forest, node: Forest)
    requires f.Cons? && Linked(f, p, tail)
    ensures f == Append(before, node) && node.Cons? && node.next.Nil? && node.node == Last(f)
    ensures Linked(before, p, node.node) && Linked(node, p, tail)
  {
    if f.next.Nil? {
      before, node := Nil, f;
    } else {
      var b, n := SplitLast(f.next, p, tail);
      before, node := Cons(f.node, f.list, b), n;
    }
  }

  /** The relinking of menu_finalize: the chain up to `last` goes below `parent`, the rest follows it. */
  method PutBelow(parent: Menu, last: Menu, ghost below: Forest, ghost rest: Forest, ghost h: Menu?)
    requires below.Cons? && last == Last(below) && Distinct(below)
    requires parent !in Nodes(below) && parent !in Nodes(rest) && Nodes(below) !! Nodes(rest)
    requires Linked(below, parent, First(rest, null)) && Linked(rest, h, null)
    requires parent.parent == h && parent.next == below.node
    modifies parent`list, parent`next, last`next
    ensures Linked(Cons(parent, below, rest), h, null)
  {
    hide Distinct, Preorder;
    ghost var belowNodes := Footprint(below);
    ghost var restNodes := Footprint(rest);
    ghost var before, node := SplitLast(below, parent, First(rest, null));
    DistinctAppend(before, node);
    AppendLists(before, node);
    DistinctParts(node);
    ghost var beforeNodes := Footprint(before);
    ghost var listNodes := Footprint(node.list);
    parent.list := parent.next;
    parent.next := last.next;
    last.next := null;
    assert Linked(rest, h, null);
    assert Linked(node.list, last, null);
    assert Linked(before, parent, last);
    AppendLinked(before, node, parent, null);
  }

  /** One step of automatic submenu creation: the next sibling is finalized and gets `parent` for a parent. */
  method FinalizeSibling(modules: Symbol, parent: Menu, menu: Menu, ghost rest: Forest, ghost h: Menu?,
      ghost pd: Condition)
    returns (ghost rest': Forest, ghost d: Forest, ghost t: seq<Menu>)
    requires !modules.ty.Other?
    requires rest.Cons? && rest.node == menu && Distinct(rest) && Linked(rest, h, null)
    requires Ready(rest) && ChainInherits(modules, rest, pd)
    modifies Nodes(rest)
    ensures rest'.Cons? && rest'.node == menu && rest == Append(d, rest'.next) && d.Cons?
    ensures Linked(Cons(menu, rest'.list, Nil), parent, First(rest'.next, null)) && Linked(rest'.next, h, null)
    ensures Preorder(rest') == Preorder(rest) && AllFlat(rest'.list)
    ensures Finalized(modules, d) && Ready(rest'.next)
    ensures ChainInherits(modules, d, pd) && ChainInherits(modules, rest'.next, pd)
    ensures t == Preorder(d)
    ensures d.node == menu && menu.dep == old(menu.dep) && menu.props == old(menu.props) && ChainNested(d.next, {menu})
    ensures Nests(d, First(rest'.next, null), Cons(menu, rest'.list, Nil))
    decreases |Preorder(rest)|, 3
  {
    hide Distinct, Preorder, Typed, Eval, WellFormed, Normal, NodeInherits, AllFlat, ParentDep;
    rest', d, t := Finalize(modules, menu, rest, h, pd);
    ChainInheritsAppend(modules, d, rest'.next, pd);
    ConsumedPart(rest, rest', d);
    DistinctParts(rest');
    ghost var listNodes := Footprint(rest'.list);
    ghost var laterNodes := Footprint(rest'.next);
    ghost var nodes := Footprint(d);
    menu.parent := parent;
    assert Linked(rest'.list, menu, null) && Linked(rest'.next, h, null);
  }

  /**
    The state of the loop of automatic submenu creation on the chain `f` of siblings after `parent`: `taken`
    is the part of the parsed chain consumed, `below` what became of it, `rest` the part still to be looked at.
   */
  ghost predicate Taking(modules: Symbol, parent: Menu, f: Forest, h: Menu?, pd: Condition,
                         taken: Forest, below: Forest, rest: Forest)
    reads Nodes(taken), Nodes(below), Nodes(rest), parent`dep, parent`props
  {
    Consumed(modules, parent, f, h, pd, taken, below, rest) && ChainNested(taken, {parent})
  }

  /** One step of that loop. */
  method TakeSibling(modules: Symbol, parent: Menu, menu: Menu, ghost f: Forest, ghost h: Menu?, ghost pd: Condition,
                     ghost taken: Forest, ghost below: Forest, ghost rest: Forest)
    returns (ghost taken': Forest, ghost below': Forest, ghost rest': Forest, ghost t: seq<Menu>)
    requires !modules.ty.Other? && Taking(modules, parent, f, h, pd, taken, below, rest)
    requires rest.Cons? && rest.node == menu && parent !in Nodes(rest)
    requires parent.sym.Some? && Passes(parent.sym.value, NodeCondition(menu), PromptCondition(parent))
    modifies Nodes(rest)
    ensures Taking(modules, parent, f, h, pd, taken', below', rest')
    ensures Nodes(taken') + Nodes(rest') == Nodes(taken) + Nodes(rest) && |Preorder(rest')| < |Preorder(rest)|
    ensures Preorder(taken') == Preorder(taken) + t
    ensures menu.next == First(rest', null) && Last(below') == menu
    ensures forall tail :: First(below', tail) == First(below, menu)
    decreases |Preorder(rest)|, 4
  {
    hide Distinct, Preorder, Typed, Eval, WellFormed, Normal, NodeInherits, AllFlat, ParentDep, Nodes, Append, Passes,
        Nests, ChainNested, Finalized, ChainInherits;
    ghost var takenNodes := Footprint(taken);
    ghost var r, d;
    r, d, t := FinalizeSibling(modules, parent, menu, rest, h, pd);
    ghost var moved := Cons(menu, r.list, Nil);
    assert Linked(below, parent, menu);
    assert Finalized(modules, taken) && ChainInherits(modules, taken, pd);
    ConsumedPart(rest, r, d);
    assert Given(menu) == {menu};
    assert Nests(taken, menu, below);
    ConsumedListing(taken, below, rest, r, d);
    NestsMore(taken, below, d, moved, First(r.next, null));
    AppendLinked(below, moved, parent, First(r.next, null));
    AppendLast(below, menu, r.list);
    FirstAppend(below, moved);
    FlatAppend(below, moved);
    FinalizedAppend(modules, taken, d);
    ChainInheritsAppend(modules, taken, d, pd);
    assert ChainNested(taken, {parent});
    assert BelongsToOneOf(menu, {parent});
    ChainNestedFirst(d, {parent});
    ChainNestedAppend(taken, d, {parent});
    taken', below', rest' := Append(taken, d), Append(below, moved), r.next;
  }

  /** The loop of automatic submenu creation: the siblings after `parent` that belong below it,
      up to the last one taken. */
  method TakeSiblings(modules: Symbol, parent: Menu, sym: Symbol, ghost f: Forest, ghost h: Menu?, ghost pd: Condition)
    returns (lastMenu: Menu?, ghost below: Forest, ghost taken: Forest, ghost rest: Forest, ghost trace: seq<Menu>)
    requires !modules.ty.Other? && PreparedNode(parent) && parent !in Nodes(f) && parent.sym == Some(sym)
    requires Distinct(f) && Linked(f, h, null) && parent.next == First(f, null)
    requires Ready(f) && ChainInherits(modules, f, pd)
    modifies Nodes(f)
    ensures Taking(modules, parent, f, h, pd, taken, below, rest) && Nodes(f) == Nodes(taken) + Nodes(rest)
    ensures parent.next == First(below, First(rest, null))
    ensures lastMenu == Last(below) && (lastMenu == null ==> below.Nil?)
    ensures trace == Preorder(taken)
    ensures parent.dep == old(parent.dep) && parent.props == old(parent.props)
    ensures LeftAlone(parent, First(rest, null))
    decreases |Preorder(f)|, 5
  {
    hide Distinct, Preorder, Typed, Eval, WellFormed, Normal, NodeInherits, AllFlat, ParentDep, Nodes, Append,
        Passes;
    ghost var nodes := Footprint(f);
    var basedep := CompareForm(PromptCondition(parent));
    taken, below, rest := Nil, Nil, f;
    ghost var restNodes := nodes;
    lastMenu := null;
    var menu := parent.next;
    NilFacts(parent, menu);
    NilAppend(f);
    trace := [];
    while menu != null
      invariant Taking(modules, parent, f, h, pd, taken, below, rest) && menu == First(rest, null)
      invariant Nodes(taken) + Nodes(rest) == nodes && restNodes == Nodes(rest)
      invariant parent.next == First(below, menu)
      invariant lastMenu == Last(below) && (lastMenu == null ==> below.Nil?)
      invariant trace == Preorder(taken) && |Preorder(rest)| <= |Preorder(f)|
      decreases |Preorder(rest)|
    {
      ghost var before := Footprint(below);
      var belongs := SiblingBelongs(sym, menu, rest, PromptCondition(parent), basedep);
      if !belongs {
        break;
      }
      ghost var t;
      taken, below, rest, t := TakeSibling(modules, parent, menu, f, h, pd, taken, below, rest);
      trace := trace + t;
      restNodes := Footprint(rest);
      lastMenu := menu;
      menu := menu.next;
    }
  }

  lemma NilAppend(f: Forest)
    ensures Append(Nil, f) == f && Nodes(Nil) == {}
  {
  }

  lemma {:induction false} LastIsNode(f: Forest)
    requires f.Cons?
    ensures Last(f) != null && (Last(f) as Menu) in Nodes(f)
  {
    if f.next.Cons? {
      LastIsNode(f.next);
    }
  }

  /** The test of the loop, on the condition of the sibling's prompt or of the sibling itself. */
  method SiblingBelongs(sym: Symbol, menu: Menu, ghost f: Forest, ghost base: Condition, basedep: Expr)
    returns (belongs: bool)
    requires f.Cons? && f.node == menu && Ready(f)
    requires Usable(base) && basedep == CompareFormOf(base)
    ensures belongs <==> Passes(sym, NodeCondition(menu), base)
  {
    belongs := BelongsBelow(sym, NodeCondition(menu), base, basedep);
  }

  /** Automatic submenus: the siblings taken become the children of `parent`. */
  method AbsorbSiblings(modules: Symbol, parent: Menu, sym: Symbol, ghost f: Forest, ghost h: Menu?, ghost pd: Condition)
    returns (ghost f': Forest, ghost done: Forest, ghost trace: seq<Menu>)
    requires !modules.ty.Other?
    requires f.Cons? && f.node == parent && Distinct(f) && Linked(f, h, null)
    requires Ready(f) && ChainInherits(modules, f, pd)
    requires f.list.Nil? && parent.sym == Some(sym)
    modifies Nodes(f)
    ensures f'.Cons? && f'.node == parent && Linked(f', h, null)
    ensures Preorder(f') == Preorder(f) && BelowFlat(f'.list)
    ensures done.Cons? && done.node == parent && done.list == f.list && f == Append(done, f'.next)
    ensures Finalized(modules, done) && Ready(f'.next) && ChainInherits(modules, f, pd)
    ensures parent.dep == old(parent.dep) && parent.props == old(parent.props) && ChainNested(done.next, {parent})
    ensures f.list.Nil? ==> LeftAlone(parent, First(f'.next, null))
    ensures Nests(done, First(f'.next, null), Cons(parent, f'.list, Nil))
    ensures trace == Preorder(done)
    decreases |Preorder(f)|, 0
  {
    hide Distinct, Preorder, Typed, Eval, WellFormed, Normal, NodeInherits, AllFlat, ParentDep, Passes,
        LeftAlone, Nests;
    DistinctParts(f);
    NodeListing(f);
    ghost var nodes := Footprint(f.next);
    var lastMenu: Menu?;
    ghost var below, taken, rest;
    lastMenu, below, taken, rest, trace := TakeSiblings(modules, parent, sym, f.next, h, pd);
    f', done := Cons(parent, below, rest), Cons(parent, Nil, taken);
    ghost var takenNodes := Footprint(taken);
    ghost var restNodes := Footprint(rest);
    assert Given(First(rest, null)) <= restNodes && LeftAlone(parent, First(rest, null));
    RelinkTaken(modules, parent, lastMenu, f.next, h, pd, taken, below, rest);
    assert LeftAlone(parent, First(rest, null));
    trace := [parent] + trace;
    ShapeListing(f, f', done, taken);
    NestsTaken(parent, below, taken, First(rest, null));
  }

  /** The siblings taken are put below `parent`: only links change. */
  method RelinkTaken(modules: Symbol, parent: Menu, lastMenu: Menu?, ghost f: Forest, ghost h: Menu?, ghost pd: Condition,
                     ghost taken: Forest, ghost below: Forest, ghost rest: Forest)
    requires Taking(modules, parent, f, h, pd, taken, below, rest) && parent !in Nodes(f) && Distinct(f)
    requires Nodes(f) == Nodes(taken) + Nodes(rest)
    requires parent.parent == h && parent.list == null && parent.next == First(below, First(rest, null))
    requires lastMenu == Last(below) && (lastMenu == null ==> below.Nil?)
    modifies parent`list, parent`next, Nodes(f)`next
    ensures Linked(Cons(parent, below, rest), h, null)
    ensures Finalized(modules, taken) && Ready(rest) && ChainInherits(modules, f, pd) && ChainNested(taken, {parent})
    ensures Nests(taken, First(rest, null), below)
  {
    hide Distinct, Preorder, Typed, Eval, WellFormed, Normal, NodeInherits, AllFlat, ParentDep, Passes;
    ghost var takenNodes := Footprint(taken);
    ghost var restNodes := Footprint(rest);
    DistinctAppend(taken, rest);
    SameListing(taken, below);
    ChainInheritsAppend(modules, taken, rest, pd);
    if lastMenu != null {
      LastIsNode(below);
      assert parent !in takenNodes && Given(First(rest, null)) <= restNodes;
      PutBelow(parent, lastMenu, below, rest, h);
      assert Nests(taken, First(rest, null), below);
    }
  }

  lemma ShapeListing(f: Forest, f': Forest, done: Forest, taken: Forest)
    requires f.Cons? && f.list.Nil? && f'.Cons? && f'.node == f.node
    requires f.next == Append(taken, f'.next) && Preorder(f'.list) == Preorder(taken)
    requires done == Cons(f.node, Nil, taken)
    ensures Preorder(f') == Preorder(f) && Preorder(done) == [f.node] + Preorder(taken)
  {
    hide Preorder, Nodes, Append;
    AppendLists(taken, f'.next);
    PreorderCons(f.node, Nil, f.next);
    PreorderCons(f.node, f'.list, f'.next);
    PreorderCons(f.node, Nil, taken);
    PreorderLeaf(taken);
    PreorderLeaf(f.next);
  }

  lemma PreorderCons(m: Menu, list: Forest, next: Forest)
    ensures Preorder(Cons(m, list, next)) == [m] + (Preorder(list) + Preorder(next))
  {
    assert [m] + Preorder(list) + Preorder(next) == [m] + (Preorder(list) + Preorder(next));
  }

  lemma PreorderLeaf(f: Forest)
    ensures Preorder(Nil) + Preorder(f) == Preorder(f)
  {
  }

  /** What menu_finalize does below `parent` before flattening: inheritance, or an automatic submenu. */
  method FinalizeBelow(modules: Symbol, parent: Menu, ghost f: Forest, ghost h: Menu?, ghost pd: Condition)
    returns (ghost f': Forest, ghost done: Forest, ghost trace: seq<Menu>)
    requires !modules.ty.Other?
    requires f.Cons? && f.node == parent && Distinct(f) && Linked(f, h, null)
    requires Ready(f) && ChainInherits(modules, f, pd)
    modifies Nodes(f)
    ensures f'.Cons? && f'.node == parent && Linked(f', h, null)
    ensures Preorder(f') == Preorder(f) && BelowFlat(f'.list)
    ensures done.Cons? && done.node == parent && done.list == f.list && f == Append(done, f'.next)
    ensures Finalized(modules, done) && Ready(f'.next) && ChainInherits(modules, f, pd)
    ensures parent.dep == old(parent.dep) && parent.props == old(parent.props) && ChainNested(done.next, {parent})
    ensures f.list.Nil? ==> LeftAlone(parent, First(f'.next, null))
    ensures Nests(done, First(f'.next, null), Cons(parent, f'.list, Nil))
    ensures trace == Preorder(done)
    decreases |Preorder(f)|, 1
  {
    hide Distinct, Preorder, Typed, Eval, WellFormed, Normal, NodeInherits, AllFlat, ParentDep;
    DistinctParts(f);
    NodeListing(f);
    ghost var listNodes := Footprint(f.list);
    ghost var nextNodes := Footprint(f.next);
    if parent.list != null {
      InheritChildren(modules, parent, f.list);
      ghost var list', t := FinalizeChildren(modules, parent, f.list, ParentDep(parent));
      assert Linked(f.next, h, null) && Ready(f.next) && ChainInherits(modules, f.next, pd);
      FinalizedChainInherits(modules, f.list, ParentDep(parent));
      f', done, trace := Cons(parent, list', f.next), Cons(parent, f.list, Nil), [parent] + t;
      SameListing(f.list, list');
      NestsParent(parent, f.list, list', First(f.next, null));
      NodeListing(f');
    } else if parent.sym.Some? {
      f', done, trace := AbsorbSiblings(modules, parent, parent.sym.value, f, h, pd);
    } else {
      f', done, trace := f, Cons(parent, f.list, Nil), [parent];
      NestsAlone(parent, First(f.next, null));
      NilFacts(parent, null);
    }
  }

  /**
    menu_finalize. `f` is the shape of `parent` with its following siblings as parsed, `h` their parent
    and `pd` what they have inherited from it. The new shape `f'` lists the same nodes in the same order,
    `done` is the part of `f` now finalized and `trace` lists the calls made, each node's once and in order.
   */
  method Finalize(modules: Symbol, parent: Menu, ghost f: Forest, ghost h: Menu?, ghost pd: Condition)
    returns (ghost f': Forest, ghost done: Forest, ghost trace: seq<Menu>)
    requires !modules.ty.Other?
    requires f.Cons? && f.node == parent && Distinct(f) && Linked(f, h, null)
    requires Ready(f) && ChainInherits(modules, f, pd)
    modifies Nodes(f)
    ensures f'.Cons? && f'.node == parent && Linked(f', h, null)
    ensures Preorder(f') == Preorder(f) && AllFlat(f'.list)
    ensures done.Cons? && done.node == parent && done.list == f.list && f == Append(done, f'.next)
    ensures Finalized(modules, done) && Ready(f'.next) && ChainInherits(modules, f, pd)
    ensures parent.dep == old(parent.dep) && parent.props == old(parent.props) && ChainNested(done.next, {parent})
    ensures f.list.Nil? ==> LeftAlone(parent, First(f'.next, null))
    ensures Nests(done, First(f'.next, null), Cons(parent, f'.list, Nil))
    ensures trace == Preorder(done)
    decreases |Preorder(f)|, 2
  {
    hide Distinct, Preorder, Typed, Eval, WellFormed, Normal, NodeInherits, AllFlat, BelowFlat, ParentDep, Nests,
        SameBelow, Passes, LeftAlone, PreparedNode, UsableNode;
    f', done, trace := FinalizeBelow(modules, parent, f, h, pd);
    SameListing(f, f');
    DistinctParts(f');
    NodeListing(f');
    ghost var below := Footprint(f'.list);
    ghost var beside := Footprint(f'.next);
    ghost var finished := Footprint(done);
    ghost var nodes := Footprint(f);
    ConsumedPart(f, f', done);
    ghost var before := Cons(parent, f'.list, Nil);
    assert Given(First(f'.next, null)) <= beside && Nests(done, First(f'.next, null), before);
    ghost var list' := FlattenChildren(parent, f'.list);
    assert Nests(done, First(f'.next, null), before);
    NestsFlattened(done, First(f'.next, null), parent, f'.list, list');
    assert Linked(f'.next, h, null);
    f' := Cons(parent, list', f'.next);
    NodeListing(f');
  }

  /**
    menu_finalize(&rootmenu) on a freshly parsed tree: the links are those of a tree again, the listing of
    all nodes is unchanged, each node was finalized once, every node has inherited from its parsed parent,
    and only nodes with a prompt text have children.
   */
  method FinalizeRoot(modules: Symbol, root: Menu, ghost f: Forest) returns (ghost f': Forest, ghost trace: seq<Menu>)
    requires !modules.ty.Other?
    requires f.Cons? && f.node == root && f.next.Nil? && Distinct(f) && Linked(f, null, null)
    requires root.sym.None? && NodeInherits(modules, root, None) && Parsed(f.list)
    modifies Nodes(f)
    ensures f'.Cons? && f'.node == root && f'.next.Nil? && Linked(f', null, null)
    ensures Preorder(f') == Preorder(f) && trace == Preorder(f) && NoDuplicates(trace)
    ensures PreparedNode(root) && AllInherit(modules, f.list, ParentDep(root))
    ensures AllFlat(f'.list) && Nests(f, null, f')
  {
    hide Distinct, Preorder, Typed, Eval, WellFormed, Normal, NodeInherits, AllFlat, ParentDep, Passes;
    RootPrepared(modules, root);
    ghost var done;
    f', done, trace := Finalize(modules, root, f, null, None);
    NoNextAppend(done, f'.next, f);
    TraceDistinct(f);
  }

  lemma RootPrepared(modules: Symbol, root: Menu)
    requires NodeInherits(modules, root, None)
    ensures PreparedNode(root)
  {
  }

  lemma NoNextAppend(done: Forest, rest: Forest, f: Forest)
    requires f.Cons? && f.next.Nil? && done.Cons? && f == Append(done, rest)
    ensures done == f && rest.Nil?
  {
  }

  lemma TraceDistinct(f: Forest)
    requires Distinct(f)
    ensures NoDuplicates(Preorder(f))
  {
  }
}
