/** rewrite_m (menu.c) on struct expr as it is in memory. */
module RewriteNodes {
  import opened Exprs
  import opened ExprNodes
  import opened Submenu

  /** rewrite_m (menu.c): every `m` gets the MODULES symbol as a companion. */
  method RewriteMInPlace(modules: Symbol, n: Node, ghost t: Tree, ghost e: Expr) returns (m: Node, ghost t': Tree)
    requires Stores(t, e) && t.node == n
    modifies Nodes(t)
    ensures Stores(t', RewriteM(modules, e)) && t'.node == m
    ensures forall m :: m in Nodes(t') ==> m in Nodes(t) || fresh(m)
    decreases e, 1
  {
    m, t' := n, t;
    match n.kind {
      case IsNot =>
        var left;
        ghost var l;
        left, l := RewriteMInPlace(modules, n.left.node, t.l, e.e);
        n.left := OfExpr(left);
        t' := One(n, l);
      case IsOp(_) =>
        t' := RewriteMOperands(modules, n, t, e);
      case IsSymbol =>
        if n.left == OfSym(SYM_MOD) {
          var c := new Node(IsSymbol, OfSym(modules), Nothing);
          m := new Node(IsOp(OpAnd), OfExpr(n), OfExpr(c));
          t' := Two(m, t, Leaf(c));
        }
      case IsComp(_) =>
    }
  }

  method RewriteMOperands(modules: Symbol, n: Node, ghost t: Tree, ghost e: Expr) returns (ghost t': Tree)
    requires Stores(t, e) && t.node == n && e.Bin?
    modifies Nodes(t)
    ensures Stores(t', Bin(e.op, RewriteM(modules, e.l), RewriteM(modules, e.r))) && t'.node == n
    ensures forall m :: m in Nodes(t') ==> m in Nodes(t) || fresh(m)
    decreases e, 0
  {
    hide RewriteM, Stores, Nodes;
    Parts(t, e);
    var left, right := n.left.node, n.right.node;
    ghost var rn := Footprint(t.r);
    ghost var l, r;
    left, l := RewriteMInPlace(modules, left, t.l, e.l);
    ghost var ln := Footprint(l);
    right, r := RewriteMInPlace(modules, right, t.r, e.r);
    n.left, n.right := OfExpr(left), OfExpr(right);
    t' := Two(n, l, r);
    Assemble(n, l, r, e.op, RewriteM(modules, e.l), RewriteM(modules, e.r));
  }
}
