/** Sequences without repetition. */
module Listings {

  function Elements<T>(s: seq<T>): set<T> {
    if s == [] then {} else {s[0]} + Elements(s[1..])
  }

  predicate NoDuplicates<T(==)>(s: seq<T>) {
    s == [] || (s[0] !in Elements(s[1..]) && NoDuplicates(s[1..]))
  }

  lemma {:induction false} ElementsConcat<T>(a: seq<T>, b: seq<T>)
    ensures Elements(a + b) == Elements(a) + Elements(b)
  {
    if a == [] {
      assert a + b == b;
    } else {
      assert (a + b)[1..] == a[1..] + b;
      ElementsConcat(a[1..], b);
    }
  }

  lemma {:induction false} NoDuplicatesConcat<T>(a: seq<T>, b: seq<T>)
    ensures NoDuplicates(a + b) <==> NoDuplicates(a) && NoDuplicates(b) && Elements(a) !! Elements(b)
  {
    if a == [] {
      assert a + b == b;
    } else {
      assert (a + b)[1..] == a[1..] + b;
      NoDuplicatesConcat(a[1..], b);
      ElementsConcat(a[1..], b);
    }
  }

  lemma {:induction false} ElementsMembers<T>(s: seq<T>, x: T)
    ensures x in Elements(s) <==> x in s
  {
    if s != [] {
      ElementsMembers(s[1..], x);
      assert s == [s[0]] + s[1..];
    }
  }
}

/**
  The menu tree (struct menu): nodes linked by `list` (first child), `next` (following sibling) and
  `parent`. A Forest is the shape of a chain of siblings with everything below them.
 */
module MenuTree {
  import opened Listings
  import opened Options
  import opened Exprs
  import opened Submenu

  /** A property whose menu is this node, as far as menu_finalize rewrites it: its condition. */
  datatype Prop = Prop(visible: Condition)

  class Menu {
    const sym: Option<Symbol>
    const isChoice: bool
    /** The index of the prompt among the properties, and the text of the prompt. */
    const prompt: Option<nat>
    const promptText: Option<string>
    /** The condition of a `visible if` of the menu. */
    const visibility: Condition
    var next: Menu?
    var list: Menu?
    var parent: Menu?
    var dep: Condition
    var props: seq<Prop>
    /** The conditions as the parser left them. */
    ghost const parsedDep: Condition
    ghost const parsedProps: seq<Prop>

    constructor (sym: Option<Symbol>, isChoice: bool, prompt: Option<nat>, promptText: Option<string>,
                 visibility: Condition, dep: Condition, props: seq<Prop>, parent: Menu?)
      ensures this.sym == sym && this.isChoice == isChoice
      ensures this.prompt == prompt && this.promptText == promptText && this.visibility == visibility
      ensures this.dep == parsedDep == dep && this.props == parsedProps == props
      ensures next == null && list == null && this.parent == parent
    {
      this.sym, this.isChoice, this.prompt, this.promptText := sym, isChoice, prompt, promptText;
      this.visibility := visibility;
      this.dep, this.props, this.parent := dep, props, parent;
      parsedDep, parsedProps := dep, props;
      next, list := null, null;
    }
  }

  /** First child / next sibling: exactly the two links of a node. */
  datatype Forest = Nil | Cons(node: Menu, list: Forest, next: Forest)

  /** The nodes in the order in which they are displayed and written. */
  ghost function Preorder(f: Forest): seq<Menu> {
    if f.Nil? then [] else [f.node] + Preorder(f.list) + Preorder(f.next)
  }

  ghost function Nodes(f: Forest): set<Menu> {
    if f.Nil? then {} else {f.node} + Nodes(f.list) + Nodes(f.next)
  }

  /** Every node occurs once in the shape. */
  ghost predicate Distinct(f: Forest) {
    NoDuplicates(Preorder(f))
  }

  /** The first node of a chain that continues with `tail`. */
  ghost function First(f: Forest, tail: Menu?): Menu? {
    if f.Nil? then tail else f.node
  }

  /** The links in the heap have this shape: a chain of children of `p` that continues with `tail`. */
  ghost predicate Linked(f: Forest, p: Menu?, tail: Menu?)
    reads Nodes(f)`parent, Nodes(f)`list, Nodes(f)`next
  {
    f.Cons? ==>
      && f.node.parent == p
      && f.node.list == First(f.list, null)
      && f.node.next == First(f.next, tail)
      && Linked(f.list, f.node, null)
      && Linked(f.next, p, tail)
  }

  ghost function Append(f: Forest, g: Forest): Forest {
    if f.Nil? then g else Cons(f.node, f.list, Append(f.next, g))
  }

  /** The nodes of a shape as a value: an out-parameter is known to hold allocated objects only. */
  lemma Footprint(f: Forest) returns (nodes: set<Menu>)
    ensures nodes == Nodes(f)
  {
    nodes := Nodes(f);
  }

  lemma {:induction false} AppendLists(f: Forest, g: Forest)
    ensures Preorder(Append(f, g)) == Preorder(f) + Preorder(g)
    ensures Nodes(Append(f, g)) == Nodes(f) + Nodes(g)
  {
    if f.Cons? {
      AppendLists(f.next, g);
    }
  }

  lemma {:induction false} AppendLinked(f: Forest, g: Forest, p: Menu?, tail: Menu?)
    requires Linked(f, p, First(g, tail)) && Linked(g, p, tail)
    ensures Linked(Append(f, g), p, tail)
  {
    if f.Cons? {
      AppendLinked(f.next, g, p, tail);
    }
  }

  lemma {:induction false} NodesOfPreorder(f: Forest)
    ensures Nodes(f) == Elements(Preorder(f))
  {
    if f.Cons? {
      NodesOfPreorder(f.list);
      NodesOfPreorder(f.next);
      ElementsConcat([f.node], Preorder(f.list));
      ElementsConcat([f.node] + Preorder(f.list), Preorder(f.next));
    }
  }

  /** A shape is free of duplicates when its parts are and share no node. */
  lemma DistinctParts(f: Forest)
    requires f.Cons?
    ensures Distinct(f) <==>
              && f.node !in Nodes(f.list) && f.node !in Nodes(f.next) && Nodes(f.list) !! Nodes(f.next)
              && Distinct(f.list) && Distinct(f.next)
  {
    var l, n := Preorder(f.list), Preorder(f.next);
    NodesOfPreorder(f.list);
    NodesOfPreorder(f.next);
    NoDuplicatesConcat([f.node] + l, n);
    NoDuplicatesConcat([f.node], l);
    ElementsConcat([f.node], l);
  }

  lemma DistinctAppend(f: Forest, g: Forest)
    ensures Distinct(Append(f, g)) <==> Distinct(f) && Distinct(g) && Nodes(f) !! Nodes(g)
  {
    AppendLists(f, g);
    NodesOfPreorder(f);
    NodesOfPreorder(g);
    NoDuplicatesConcat(Preorder(f), Preorder(g));
  }

  /** Shapes with the same listing have the same nodes, and both repeat none if one does. */
  lemma SameListing(f: Forest, g: Forest)
    requires Preorder(f) == Preorder(g)
    ensures Nodes(f) == Nodes(g) && (Distinct(f) <==> Distinct(g))
  {
    NodesOfPreorder(f);
    NodesOfPreorder(g);
  }

  /** The node has a prompt with a text. */
  predicate HasTitle(m: Menu) {
    m.prompt.Some? && m.promptText.Some?
  }

  lemma FirstAppend(f: Forest, g: Forest)
    ensures forall tail :: First(Append(f, g), tail) == First(f, First(g, tail))
  {
  }

  lemma {:induction false} AppendNodes(f: Forest, g: Forest)
    ensures Nodes(Append(f, g)) == Nodes(f) + Nodes(g)
  {
    if f.Cons? {
      AppendNodes(f.next, g);
    }
  }

  /** What is below a node of the shape. */
  ghost function Under(g: Forest, q: Menu): Forest {
    if g.Nil? then Nil
    else if g.node == q then g.list
    else if q in Nodes(g.list) then Under(g.list, q) else Under(g.next, q)
  }

  lemma {:induction false} UnderAppend(f: Forest, g: Forest, q: Menu)
    ensures Under(Append(f, g), q) == if q in Nodes(f) then Under(f, q) else Under(g, q)
  {
    if f.Cons? {
      UnderAppend(f.next, g, q);
      AppendNodes(f.next, g);
    }
  }

  ghost function Length(f: Forest): nat {
    if f.Nil? then 0 else 1 + Length(f.next)
  }

  /** The first `k` nodes of a chain, with what is below them. */
  ghost function Take(f: Forest, k: nat): (g: Forest)
    ensures Nodes(g) <= Nodes(f)
  {
    if k == 0 || f.Nil? then Nil else Cons(f.node, f.list, Take(f.next, k - 1))
  }

  ghost function Drop(f: Forest, k: nat): (g: Forest)
    ensures Nodes(g) <= Nodes(f)
  {
    if k == 0 || f.Nil? then f else Drop(f.next, k - 1)
  }

  lemma {:induction false} TakeAppend(f: Forest, g: Forest, k: nat)
    requires k <= Length(f)
    ensures Take(Append(f, g), k) == Take(f, k) && Drop(Append(f, g), k) == Append(Drop(f, k), g)
    ensures Length(Append(f, g)) == Length(f) + Length(g)
    decreases f
  {
    if f.Cons? {
      TakeAppend(f.next, g, if k == 0 then 0 else k - 1);
    }
  }

  lemma {:induction false} TakeAll(f: Forest)
    ensures Take(f, Length(f)) == f && Drop(f, Length(f)) == Nil
  {
    if f.Cons? {
      TakeAll(f.next);
    }
  }
}
