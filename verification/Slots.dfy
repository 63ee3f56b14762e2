/**
  Slots in memory: a `struct expr **` is the address of the place that holds a node, either the variable
  with the whole expression or a field of an operator node. Writing through a slot is writing at the path
  that leads to it.
 */
module Slots {
  import opened Exprs
  import opened Regions
  import opened ExprNodes

  datatype Slot = Top | Side(node: Node, d: Dir)

  ghost function ChildTree(t: Tree, d: Dir): Tree
    requires t.Two?
  {
    if d.Left? then t.l else t.r
  }

  ghost predicate HasPart(t: Tree, p: Path)
    decreases |p|
  {
    p == [] || (t.Two? && HasPart(ChildTree(t, p[0]), p[1..]))
  }

  ghost function Part(t: Tree, p: Path): Tree
    requires HasPart(t, p)
    decreases |p|
  {
    if p == [] then t else Part(ChildTree(t, p[0]), p[1..])
  }

  ghost function PutPart(t: Tree, p: Path, x: Tree): Tree
    requires HasPart(t, p)
    decreases |p|
  {
    if p == [] then x
    else if p[0].Left? then Two(t.node, PutPart(t.l, p[1..], x), t.r)
    else Two(t.node, t.l, PutPart(t.r, p[1..], x))
  }

  /** The node whose field a slot is. */
  ghost function Owner(t: Tree, p: Path): Node
    requires HasPart(t, p) && p != []
    decreases |p|
  {
    if |p| == 1 then t.node else Owner(ChildTree(t, p[0]), p[1..])
  }

  /** The slot at a path. */
  ghost predicate IsSlot(t: Tree, s: Slot, p: Path) {
    HasPart(t, p) && s == if p == [] then Top else Side(Owner(t, p), p[|p| - 1])
  }

  /** The same slot leads to the path in both trees. */
  ghost predicate SamePlace(t: Tree, t': Tree, p: Path) {
    HasPart(t, p) && HasPart(t', p) && (p != [] ==> Owner(t', p) == Owner(t, p))
  }

  /** The contents of a node. */
  datatype Cell = Cell(kind: Kind, left: Operand, right: Operand)

  type Memory = map<Node, Cell>

  ghost function Snapshot(ns: set<Node>): Memory
    reads ns
  {
    map n | n in ns :: Cell(n.kind, n.left, n.right)
  }

  /** Stores, in a snapshot of memory. */
  ghost predicate Holds(mem: Memory, t: Tree, e: Expr) {
    && t.node in mem
    && var c := mem[t.node];
       match e
       case Sym(s) => t.Leaf? && c.kind == IsSymbol && c.left == OfSym(s)
       case Comp(rel, a, b) => t.Leaf? && c.kind == IsComp(rel) && c.left == OfSym(a) && c.right == OfSym(b)
       case Neg(x) =>
         t.One? && c.kind == IsNot && c.left == OfExpr(t.l.node) && t.node !in Nodes(t.l) && Holds(mem, t.l, x)
       case Bin(op, x, y) =>
         && t.Two? && c.kind == IsOp(op) && c.left == OfExpr(t.l.node) && c.right == OfExpr(t.r.node)
         && t.node !in Nodes(t.l) && t.node !in Nodes(t.r) && Nodes(t.l) !! Nodes(t.r)
         && Holds(mem, t.l, x) && Holds(mem, t.r, y)
  }

  lemma {:induction false} HoldsStores(mem: Memory, t: Tree, e: Expr)
    requires forall n :: n in Nodes(t) ==> n in mem && mem[n] == Cell(n.kind, n.left, n.right)
    ensures Holds(mem, t, e) <==> Stores(t, e)
  {
    match e
    case Neg(x) =>
      if t.One? {
        HoldsStores(mem, t.l, x);
      }
    case Bin(_, x, y) =>
      if t.Two? {
        HoldsStores(mem, t.l, x);
        HoldsStores(mem, t.r, y);
      }
    case _ =>
  }

  lemma {:induction false} HoldsAgree(mem: Memory, mem': Memory, t: Tree, e: Expr)
    requires Holds(mem, t, e) && forall n :: n in Nodes(t) && n in mem ==> n in mem' && mem'[n] == mem[n]
    ensures Holds(mem', t, e)
  {
    match e
    case Neg(x) => HoldsAgree(mem, mem', t.l, x);
    case Bin(_, x, y) =>
      HoldsAgree(mem, mem', t.l, x);
      HoldsAgree(mem, mem', t.r, y);
    case _ =>
  }

  /** The contents of an operator node with another operand on one side. */
  function WithOperand(c: Cell, d: Dir, m: Node): Cell {
    if d.Left? then c.(left := OfExpr(m)) else c.(right := OfExpr(m))
  }

  /** Writing through a slot in a snapshot. */
  lemma {:induction false} HoldsPut(mem: Memory, mem': Memory, t: Tree, e: Expr, p: Path, x: Tree, ex: Expr)
    requires Holds(mem, t, e) && HasSlot(e, p) && p != [] && HasPart(t, p)
    requires Holds(mem', x, ex) && Nodes(x) !! Nodes(t)
    requires forall n :: n in Nodes(t) && n in mem ==>
               n in mem' && mem'[n] == if n == Owner(t, p) then WithOperand(mem[n], p[|p| - 1], x.node) else mem[n]
    ensures Holds(mem', PutPart(t, p, x), Put(e, p, ex)) && Nodes(PutPart(t, p, x)) <= Nodes(t) + Nodes(x)
    ensures PutPart(t, p, x).node == t.node
    decreases |p|
  {
    var d := p[0];
    OwnerInside(t, p);
    if |p| == 1 {
      assert p[1..] == [];
      HoldsAgree(mem, mem', ChildTree(t, if d.Left? then Right else Left), Child(e, if d.Left? then Right else Left));
    } else {
      assert p[1..][|p| - 2] == p[|p| - 1];
      OwnerInside(ChildTree(t, d), p[1..]);
      HoldsPut(mem, mem', ChildTree(t, d), Child(e, d), p[1..], x, ex);
      HoldsAgree(mem, mem', ChildTree(t, if d.Left? then Right else Left), Child(e, if d.Left? then Right else Left));
    }
  }

  lemma {:induction false} OwnerInside(t: Tree, p: Path)
    requires HasPart(t, p) && p != []
    ensures Owner(t, p) in Nodes(t)
    decreases |p|
  {
    if |p| > 1 {
      OwnerInside(ChildTree(t, p[0]), p[1..]);
    }
  }

  /** What is at a slot of an expression is in the part of its nodes at that path. */
  lemma {:induction false} PartAt(t: Tree, e: Expr, p: Path)
    requires Stores(t, e) && HasSlot(e, p)
    ensures HasPart(t, p) && Stores(Part(t, p), At(e, p)) && Nodes(Part(t, p)) <= Nodes(t)
    ensures p != [] ==> (Owner(t, p).kind.IsOp?
                         && (if p[|p| - 1].Left? then Owner(t, p).left else Owner(t, p).right) == OfExpr(Part(t, p).node))
    decreases |p|
  {
    if p != [] {
      PartAt(ChildTree(t, p[0]), Child(e, p[0]), p[1..]);
    }
  }

  /** The slots that are not behind the one written stay where they are. */
  lemma {:induction false} PutPlaces(t: Tree, p: Path, x: Tree, u: Path)
    requires HasPart(t, p) && HasPart(t, u) && !(p <= u && p != u)
    ensures SamePlace(t, PutPart(t, p, x), u)
    decreases |p|
  {
    if p != [] && u != [] && p[0] == u[0] {
      assert p[1..] <= u[1..] ==> p <= u;
      PutPlaces(ChildTree(t, p[0]), p[1..], x, u[1..]);
    }
  }

  /** The children of an operator node are slots. */
  lemma {:induction false} ChildSlot(t: Tree, p: Path, d: Dir)
    requires HasPart(t, p) && Part(t, p).Two?
    ensures IsSlot(t, Side(Part(t, p).node, d), p + [d])
    decreases |p|
  {
    if p == [] {
      assert p + [d] == [d] && [d][1..] == [];
    } else {
      assert (p + [d])[1..] == p[1..] + [d];
      ChildSlot(ChildTree(t, p[0]), p[1..], d);
    }
  }

  lemma SideOwner(t: Tree, m: Node, d: Dir, p: Path)
    requires IsSlot(t, Side(m, d), p)
    ensures p != [] && HasPart(t, p) && m == Owner(t, p) && d == p[|p| - 1] && m in Nodes(t)
  {
    OwnerInside(t, p);
  }

  /** Writing to a field of an operator node. */
  method WriteSide(m: Node, d: Dir, n: Node, ghost t: Tree, ghost e: Expr, ghost p: Path, ghost x: Tree, ghost ex: Expr)
    requires Stores(t, e) && HasSlot(e, p) && IsSlot(t, Side(m, d), p)
    requires Stores(x, ex) && x.node == n && Nodes(x) !! Nodes(t)
    modifies m
    ensures HasPart(t, p) && Stores(PutPart(t, p, x), Put(e, p, ex)) && Nodes(PutPart(t, p, x)) <= Nodes(t) + Nodes(x)
    ensures PutPart(t, p, x).node == t.node
  {
    hide Put, PutPart, Part, At, Stores, Holds, Nodes, HasSlot, HasPart, Owner, IsSlot;
    SideOwner(t, m, d, p);
    ghost var nodes := Footprint(t);
    ghost var more := Footprint(x);
    ghost var before := Snapshot(nodes);
    HoldsStores(before, t, e);
    if d.Left? {
      m.left := OfExpr(n);
    } else {
      m.right := OfExpr(n);
    }
    ghost var after := Snapshot(nodes + more);
    HoldsStores(after, x, ex);
    HoldsPut(before, after, t, e, p, x, ex);
    HoldsStores(after, PutPart(t, p, x), Put(e, p, ex));
  }

  /** The expression that nodes hold, as a value. */
  method ReadBack(n: Node, ghost t: Tree, ghost e: Expr) returns (v: Expr)
    requires Stores(t, e) && t.node == n
    ensures v == e
    decreases e
  {
    match n.kind {
      case IsSymbol => v := Sym(n.left.s);
      case IsComp(rel) => v := Comp(rel, n.left.s, n.right.s);
      case IsNot =>
        var x := ReadBack(n.left.node, t.l, e.e);
        v := Neg(x);
      case IsOp(op) =>
        ghost var rn := Footprint(t.r);
        var x := ReadBack(n.left.node, t.l, e.l);
        var y := ReadBack(n.right.node, t.r, e.r);
        v := Bin(op, x, y);
    }
  }

  /** New nodes for an expression. */
  method Build(e: Expr) returns (n: Node, ghost t: Tree)
    ensures Stores(t, e) && t.node == n && fresh(Nodes(t))
    decreases e
  {
    match e
    case Sym(s) =>
      n := new Node(IsSymbol, OfSym(s), Nothing);
      t := Leaf(n);
    case Comp(rel, a, b) =>
      n := new Node(IsComp(rel), OfSym(a), OfSym(b));
      t := Leaf(n);
    case Neg(x) =>
      var left;
      ghost var l;
      left, l := Build(x);
      ghost var ln := Footprint(l);
      n := new Node(IsNot, OfExpr(left), Nothing);
      t := One(n, l);
    case Bin(op, x, y) =>
      var left, right;
      ghost var l, r;
      left, l := Build(x);
      ghost var ln := Footprint(l);
      right, r := Build(y);
      ghost var rn := Footprint(r);
      n := new Node(IsOp(op), OfExpr(left), OfExpr(right));
      t := Two(n, l, r);
  }
}
