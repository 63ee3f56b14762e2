/**
  The walk over the menu tree in conf_write and conf_write_defconfig (confdata.c): without a stack,
  along list, next and parent links. A Level of the ghost zipper is an ancestor with its later siblings.
 */
module MenuWalk {
  import opened MenuTree

  datatype Zipper = Top | Level(node: Menu, next: Forest, up: Zipper)

  ghost function ParentOf(z: Zipper): Menu? {
    if z.Top? then null else z.node
  }

  ghost function ZipperNodes(z: Zipper): set<Menu> {
    if z.Top? then {} else {z.node} + Nodes(z.next) + ZipperNodes(z.up)
  }

  /** The ancestors are linked upwards and to their later siblings. */
  ghost predicate LinkedUp(z: Zipper)
    reads ZipperNodes(z)`parent, ZipperNodes(z)`list, ZipperNodes(z)`next
  {
    z.Level? ==>
      && z.node.parent == ParentOf(z.up)
      && z.node.next == First(z.next, null)
      && Linked(z.next, ParentOf(z.up), null)
      && LinkedUp(z.up)
  }

  /** What the walk still has to visit after everything below the current level. */
  ghost function Remaining(z: Zipper): seq<Menu> {
    if z.Top? then [] else Preorder(z.next) + Remaining(z.up)
  }

  /** A node of the walk: its subtree and later siblings, below its ancestors. */
  ghost predicate Position(menu: Menu, f: Forest, z: Zipper)
    reads Nodes(f), ZipperNodes(z)
  {
    f.Cons? && f.node == menu && Linked(f, ParentOf(z), null) && LinkedUp(z)
  }

  /** The nodes the walk visits from this position on, the current one first. */
  ghost function Ahead(f: Forest, z: Zipper): seq<Menu> {
    Preorder(f) + Remaining(z)
  }

  /** The end of the loop body: the next node of the walk, or null after the last. */
  method NextMenu(menu: Menu, ghost f: Forest, ghost z: Zipper) returns (next: Menu?, ghost f': Forest, ghost z': Zipper)
    requires Position(menu, f, z)
    ensures next == null ==> Ahead(f, z) == [menu]
    ensures next != null ==> Position(next, f', z') && Ahead(f, z) == [menu] + Ahead(f', z')
    ensures next != null ==> Nodes(f') + ZipperNodes(z') <= Nodes(f) + ZipperNodes(z)
  {
    f', z' := f, z;
    if menu.list != null {
      next := menu.list;
      f', z' := f.list, Level(menu, f.next, z);
      assert Ahead(f, z) == [menu] + (Preorder(f.list) + (Preorder(f.next) + Remaining(z)));
    } else if menu.next != null {
      next := menu.next;
      f' := f.next;
      assert Ahead(f, z) == [menu] + (Preorder(f.next) + Remaining(z));
    } else {
      next := menu.parent;
      while next != null
        invariant next == ParentOf(z') && LinkedUp(z') && Remaining(z') == Remaining(z)
        invariant ZipperNodes(z') <= ZipperNodes(z)
        decreases z'
      {
        if next.next != null {
          next := next.next;
          f', z' := z'.next, z'.up;
          return;
        }
        assert Remaining(z') == Remaining(z'.up);
        next, z' := next.parent, z'.up;
      }
    }
  }

  /**
    The walk from the first child of the root: it ends, and visits every node below the root exactly
    once and in listing order.
   */
  method Walk(root: Menu, ghost f: Forest) returns (visited: seq<Menu>)
    requires f.Cons? && f.node == root && f.next.Nil? && Linked(f, null, null)
    ensures visited == Preorder(f.list)
  {
    hide Preorder, Position, Ahead;
    visited := [];
    var menu := root.list;
    ghost var g, z := f.list, Level(root, Nil, Top);
    Start(root, f);
    while menu != null
      invariant menu != null ==> Position(menu, g, z) && visited + Ahead(g, z) == Preorder(f.list)
      invariant menu == null ==> visited == Preorder(f.list)
      decreases |Preorder(f.list)| - |visited|, menu != null
    {
      ghost var ahead := Ahead(g, z);
      var next;
      ghost var g', z';
      next, g', z' := NextMenu(menu, g, z);
      OneVisited(Preorder(f.list), visited, menu, if next != null then Ahead(g', z') else []);
      visited, menu, g, z := visited + [menu], next, g', z';
    }
  }

  /** Moving the current node from what lies ahead to what has been visited. */
  lemma OneVisited(all: seq<Menu>, visited: seq<Menu>, menu: Menu, rest: seq<Menu>)
    requires visited + ([menu] + rest) == all
    ensures |visited| < |all| && all[|visited|] == menu && (visited + [menu]) + rest == all
    ensures rest == [] ==> visited + [menu] == all
  {
  }

  /** The walk starts before all nodes below the root. */
  lemma Start(root: Menu, f: Forest)
    requires f.Cons? && f.node == root && f.next.Nil? && Linked(f, null, null)
    ensures root.list != null ==> Position(root.list, f.list, Level(root, Nil, Top))
    ensures Ahead(f.list, Level(root, Nil, Top)) == Preorder(f.list)
    ensures root.list == null ==> Preorder(f.list) == []
  {
    assert Remaining(Level(root, Nil, Top)) == [];
  }
}
