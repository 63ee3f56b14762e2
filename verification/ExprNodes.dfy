/**
  The optimiser on struct expr as it is in memory: nodes that are overwritten, relinked and freed
  (expr.c), proved to compute the functions of Simplify and NormalForm on the expressions they hold.
 */
module ExprNodes {
  import opened Exprs
  import opened Simplify
  import opened NormalForm

  /** enum expr_type. */
  datatype Kind = IsSymbol | IsNot | IsOp(op: Op) | IsComp(rel: Rel)

  /** union expr_data. */
  datatype Operand = Nothing | OfExpr(node: Node) | OfSym(s: Symbol)

  class Node {
    var kind: Kind
    var left: Operand
    var right: Operand

    /** expr_alloc_one, expr_alloc_two, expr_alloc_comp and expr_alloc_symbol. */
    constructor (kind: Kind, left: Operand, right: Operand)
      ensures this.kind == kind && this.left == left && this.right == right
    {
      this.kind, this.left, this.right := kind, left, right;
    }
  }

  /** The nodes of an expression. */
  datatype Tree = Leaf(node: Node) | One(node: Node, l: Tree) | Two(node: Node, l: Tree, r: Tree)

  ghost function Nodes(t: Tree): set<Node> {
    match t
    case Leaf(n) => {n}
    case One(n, l) => {n} + Nodes(l)
    case Two(n, l, r) => {n} + Nodes(l) + Nodes(r)
  }

  /** The nodes hold this expression, and no node is part of it twice. */
  ghost predicate Stores(t: Tree, e: Expr)
    reads Nodes(t)
  {
    match e
    case Sym(s) => t.Leaf? && t.node.kind == IsSymbol && t.node.left == OfSym(s)
    case Comp(rel, a, b) => t.Leaf? && t.node.kind == IsComp(rel) && t.node.left == OfSym(a) && t.node.right == OfSym(b)
    case Neg(x) =>
      t.One? && t.node.kind == IsNot && t.node.left == OfExpr(t.l.node) && t.node !in Nodes(t.l) && Stores(t.l, x)
    case Bin(op, x, y) =>
      && t.Two? && t.node.kind == IsOp(op) && t.node.left == OfExpr(t.l.node) && t.node.right == OfExpr(t.r.node)
      && t.node !in Nodes(t.l) && t.node !in Nodes(t.r) && Nodes(t.l) !! Nodes(t.r)
      && Stores(t.l, x) && Stores(t.r, y)
  }

  /** The nodes as a value: an out-parameter is known to hold allocated objects only. */
  lemma Footprint(t: Tree) returns (nodes: set<Node>)
    ensures nodes == Nodes(t) && t.node in nodes
  {
    nodes := Nodes(t);
  }

  /** An operator node and what is below it. */
  lemma Parts(t: Tree, e: Expr)
    requires Stores(t, e) && e.Bin?
    ensures t.Two? && t.node.kind == IsOp(e.op) && t.node.left == OfExpr(t.l.node) && t.node.right == OfExpr(t.r.node)
    ensures Stores(t.l, e.l) && Stores(t.r, e.r)
    ensures t.node !in Nodes(t.l) && t.node !in Nodes(t.r) && Nodes(t.l) !! Nodes(t.r)
    ensures Nodes(t) == {t.node} + Nodes(t.l) + Nodes(t.r)
  {
  }

  lemma Assemble(n: Node, l: Tree, r: Tree, op: Op, x: Expr, y: Expr)
    requires n.kind == IsOp(op) && n.left == OfExpr(l.node) && n.right == OfExpr(r.node)
    requires Stores(l, x) && Stores(r, y) && n !in Nodes(l) && n !in Nodes(r) && Nodes(l) !! Nodes(r)
    ensures Stores(Two(n, l, r), Bin(op, x, y)) && Nodes(Two(n, l, r)) == {n} + Nodes(l) + Nodes(r)
  {
  }

  /** The same tree with another node at its root. */
  ghost function Renode(t: Tree, n: Node): Tree {
    match t
    case Leaf(_) => Leaf(n)
    case One(_, l) => One(n, l)
    case Two(_, l, r) => Two(n, l, r)
  }

  /** `*n = *m`: the node takes over the contents of another one. */
  method Overwrite(n: Node, m: Node, ghost t: Tree, ghost e: Expr) returns (ghost t': Tree)
    requires Stores(t, e) && t.node == m && n !in Nodes(t)
    modifies n
    ensures Stores(t', e) && t'.node == n && Nodes(t') <= Nodes(t) + {n}
  {
    n.kind, n.left, n.right := m.kind, m.left, m.right;
    t' := Renode(t, n);
  }

  predicate Constant(n: Node, s: Symbol)
    reads n
  {
    n.kind == IsSymbol && n.left == OfSym(s)
  }

  /** expr_eliminate_yn: in place, and the root node stays the same. */
  method EliminateYnInPlace(n: Node, ghost t: Tree, ghost e: Expr) returns (ghost t': Tree)
    requires Stores(t, e) && t.node == n
    modifies Nodes(t)
    ensures Stores(t', EliminateYn(e)) && t'.node == n && Nodes(t') <= Nodes(t)
    decreases e, 1
  {
    t' := t;
    if n.kind.IsOp? {
      t' := FoldOperands(n, t, e);
    }
  }

  /** The E_AND and E_OR case of expr_eliminate_yn. */
  method FoldOperands(n: Node, ghost t: Tree, ghost e: Expr) returns (ghost t': Tree)
    requires Stores(t, e) && t.node == n && e.Bin?
    modifies Nodes(t)
    ensures Stores(t', EliminateYn(e)) && t'.node == n && Nodes(t') <= Nodes(t)
    decreases e, 0
  {
    ghost var x, y := EliminateYn(e.l), EliminateYn(e.r);
    FoldOf(e);
    hide Stores, Nodes, EliminateYn;
    Parts(t, e);
    var op, left, right := n.kind.op, n.left.node, n.right.node;
    ghost var rn := Footprint(t.r);
    ghost var l := EliminateYnInPlace(left, t.l, e.l);
    ghost var ln := Footprint(l);
    ghost var r := EliminateYnInPlace(right, t.r, e.r);
    ConstantExact(l, x);
    ConstantExact(r, y);
    if Constant(left, Zero(op)) || (Constant(right, Zero(op)) && !Constant(left, Unit(op))) {
      n.kind, n.left, n.right := IsSymbol, OfSym(Zero(op)), Nothing;
      t' := Leaf(n);
      StoresLeaf(n, Zero(op));
    } else if Constant(left, Unit(op)) {
      t' := Overwrite(n, right, r, y);
    } else if Constant(right, Unit(op)) {
      t' := Overwrite(n, left, l, x);
    } else {
      t' := Two(n, l, r);
      Assemble(n, l, r, op, x, y);
    }
  }

  /** The cases of the fold. */
  lemma FoldOf(e: Expr)
    requires e.Bin?
    ensures var x, y, zero, unit := EliminateYn(e.l), EliminateYn(e.r), Sym(Zero(e.op)), Sym(Unit(e.op));
            EliminateYn(e) == if x == zero || (y == zero && x != unit) then zero
                              else if x == unit then y
                              else if y == unit then x
                              else Bin(e.op, x, y)
  {
  }

  lemma ConstantExact(t: Tree, e: Expr)
    requires Stores(t, e)
    ensures forall s :: Constant(t.node, s) <==> e == Sym(s)
  {
  }

  lemma SymbolRoot(t: Tree, e: Expr)
    requires Stores(t, e)
    ensures (t.node.kind == IsSymbol <==> e.Sym?) && (e.Sym? ==> t.node.left == OfSym(e.s))
  {
  }

  lemma StoresLeaf(n: Node, s: Symbol)
    requires Constant(n, s)
    ensures Stores(Leaf(n), Sym(s)) && Nodes(Leaf(n)) == {n}
  {
  }

  /** expr_trans_bool: in place. */
  method TransBoolInPlace(n: Node, ghost t: Tree, ghost e: Expr)
    requires Stores(t, e) && t.node == n
    modifies Nodes(t)
    ensures Stores(t, TransBool(e))
    decreases e
  {
    match n.kind {
      case IsOp(_) =>
        var left, right := n.left.node, n.right.node;
        ghost var ln := Footprint(t.l);
        ghost var rn := Footprint(t.r);
        TransBoolInPlace(left, t.l, e.l);
        TransBoolInPlace(right, t.r, e.r);
      case IsNot =>
        ghost var ln := Footprint(t.l);
        TransBoolInPlace(n.left.node, t.l, e.e);
      case IsComp(rel) =>
        if rel.Unequal? && n.left.s.ty.Tri? && n.right == OfSym(SYM_NO) {
          n.kind, n.right := IsSymbol, Nothing;
        }
      case IsSymbol =>
    }
  }

  /** The comparisons in expr_transform: a bool tested for y, m or n. */
  method TransformTestInPlace(n: Node, ghost t: Tree, ghost e: Expr) returns (ghost t': Tree)
    requires Stores(t, e) && t.node == n && e.Comp?
    modifies n
    ensures Stores(t', TransformTest(e)) && t'.node == n
    ensures forall m :: m in Nodes(t') ==> m == n || fresh(m)
  {
    t' := t;
    var rel, a, b := n.kind.rel, n.left.s, n.right.s;
    if !(rel.Equal? || rel.Unequal?) || !a.ty.Boolean? {
      return;
    }
    if b == SYM_MOD {
      n.kind, n.left, n.right := IsSymbol, OfSym(if rel.Equal? then SYM_NO else SYM_YES), Nothing;
    } else if b == (if rel.Equal? then SYM_NO else SYM_YES) {
      var m := new Node(IsSymbol, OfSym(a), Nothing);
      n.kind, n.left, n.right := IsNot, OfExpr(m), Nothing;
      t' := One(n, Leaf(m));
    } else if b == (if rel.Equal? then SYM_YES else SYM_NO) {
      n.kind, n.right := IsSymbol, Nothing;
    }
  }

  /** De Morgan's laws in place: the operator node becomes a negation, the negation the dual operator. */
  method DeMorganInPlace(n: Node, ghost t: Tree, ghost e: Expr) returns (ghost t': Tree)
    requires Stores(t, e) && t.node == n && e.Neg? && e.e.Bin?
    modifies Nodes(t)
    ensures Stores(t', Bin(Dual(e.e.op), Neg(e.e.l), Neg(e.e.r))) && t'.node == n
    ensures forall m :: m in Nodes(t') ==> m in Nodes(t) || fresh(m)
  {
    var tmp := n.left.node;
    ghost var ln := Footprint(t.l.l);
    ghost var rn := Footprint(t.l.r);
    var m := new Node(IsNot, tmp.right, Nothing);
    n.kind, n.right := IsOp(Dual(tmp.kind.op)), OfExpr(m);
    tmp.kind, tmp.right := IsNot, Nothing;
    t' := Two(n, One(tmp, t.l.l), One(m, t.l.r));
  }

  /** expr_transform: the nodes of the result are old nodes of the expression and new ones. */
  method TransformInPlace(n: Node, ghost t: Tree, ghost e: Expr) returns (m: Node, ghost t': Tree)
    requires Stores(t, e) && t.node == n
    modifies Nodes(t)
    ensures Stores(t', Transform(e)) && t'.node == m
    ensures forall m :: m in Nodes(t') ==> m in Nodes(t) || fresh(m)
    decreases Weight(e), 1
  {
    m, t' := n, t;
    match n.kind {
      case IsSymbol =>
      case IsComp(_) =>
        t' := TransformTestInPlace(n, t, e);
      case IsOp(_) =>
        t' := TransformOperands(n, t, e);
      case IsNot =>
        var left := n.left.node;
        ghost var l;
        left, l := TransformInPlace(left, t.l, e.e);
        ghost var ln' := Footprint(l);
        n.left := OfExpr(left);
        TransformIdempotent(e.e);
        m, t' := TransformNot(n, One(n, l), Transform(e.e));
    }
  }

  /** The E_AND and E_OR case. */
  method TransformOperands(n: Node, ghost t: Tree, ghost e: Expr) returns (ghost t': Tree)
    requires Stores(t, e) && t.node == n && e.Bin?
    modifies Nodes(t)
    ensures Stores(t', Bin(e.op, Transform(e.l), Transform(e.r))) && t'.node == n
    ensures forall m :: m in Nodes(t') ==> m in Nodes(t) || fresh(m)
    decreases Weight(e), 0
  {
    hide Transform, Stores, Nodes;
    Parts(t, e);
    var left, right := n.left.node, n.right.node;
    ghost var rn := Footprint(t.r);
    ghost var l, r;
    left, l := TransformInPlace(left, t.l, e.l);
    ghost var ln := Footprint(l);
    right, r := TransformInPlace(right, t.r, e.r);
    n.left, n.right := OfExpr(left), OfExpr(right);
    t' := Two(n, l, r);
    Assemble(n, l, r, e.op, Transform(e.l), Transform(e.r));
  }

  /** The E_NOT case of expr_transform, below which everything has been transformed. */
  method TransformNot(n: Node, ghost t: Tree, ghost x: Expr) returns (m: Node, ghost t': Tree)
    requires Stores(t, Neg(x)) && t.node == n
    requires Transform(x) == x
    modifies Nodes(t)
    ensures Stores(t', Transform(Neg(x))) && t'.node == m
    ensures forall m :: m in Nodes(t') ==> m in Nodes(t) || fresh(m)
    decreases Weight(Neg(x)), 0
  {
    m, t' := n, t;
    var left := n.left.node;
    match left.kind {
      case IsNot =>
        m, t' := TransformInPlace(left.left.node, t.l.l, x.e);
      case IsComp(rel) =>
        left.kind := IsComp(NegatedRel(rel));
        m, t' := left, t.l;
      case IsOp(_) =>
        t' := DeMorganInPlace(n, t, Neg(x));
        DeMorganWeighsLess(x.op, x.l, x.r);
        m, t' := TransformInPlace(n, t', Bin(Dual(x.op), Neg(x.l), Neg(x.r)));
      case IsSymbol =>
        if left.left == OfSym(SYM_YES) {
          left.left := OfSym(SYM_NO);
          m, t' := left, t.l;
        } else if left.left == OfSym(SYM_MOD) {
          m, t' := left, t.l;
        } else if left.left == OfSym(SYM_NO) {
          left.left := OfSym(SYM_YES);
          m, t' := left, t.l;
        }
    }
  }

  /** expr_copy. */
  method Copy(n: Node, ghost t: Tree, ghost e: Expr) returns (m: Node, ghost t': Tree)
    requires Stores(t, e) && t.node == n
    ensures Stores(t', e) && t'.node == m && fresh(Nodes(t'))
    decreases e
  {
    match n.kind {
      case IsSymbol =>
        m := new Node(IsSymbol, n.left, Nothing);
        t' := Leaf(m);
      case IsComp(rel) =>
        m := new Node(IsComp(rel), n.left, n.right);
        t' := Leaf(m);
      case IsNot =>
        var left;
        ghost var l;
        left, l := Copy(n.left.node, t.l, e.e);
        ghost var ln := Footprint(l);
        m := new Node(IsNot, OfExpr(left), Nothing);
        t' := One(m, l);
      case IsOp(op) =>
        var left, right;
        ghost var l, r;
        ghost var rn := Footprint(t.r);
        left, l := Copy(n.left.node, t.l, e.l);
        ghost var ln' := Footprint(l);
        right, r := Copy(n.right.node, t.r, e.r);
        ghost var rn' := Footprint(r);
        m := new Node(IsOp(op), OfExpr(left), OfExpr(right));
        t' := Two(m, l, r);
    }
  }

  /** The two expressions that elimination works on: apart in memory. */
  ghost predicate StoreBoth(t1: Tree, t2: Tree, e1: Expr, e2: Expr)
    reads Nodes(t1), Nodes(t2)
  {
    Stores(t1, e1) && Stores(t2, e2) && Nodes(t1) !! Nodes(t2)
  }

  /** expr_eliminate_yn on two expressions. */
  method FoldBoth(n1: Node, n2: Node, ghost t1: Tree, ghost t2: Tree, ghost e1: Expr, ghost e2: Expr)
    returns (ghost t1': Tree, ghost t2': Tree)
    requires StoreBoth(t1, t2, e1, e2) && t1.node == n1 && t2.node == n2
    modifies Nodes(t1), Nodes(t2)
    ensures StoreBoth(t1', t2', EliminateYn(e1), EliminateYn(e2)) && t1'.node == n1 && t2'.node == n2
    ensures Nodes(t1') <= Nodes(t1) && Nodes(t2') <= Nodes(t2)
  {
    hide Stores, EliminateYn, Nodes;
    ghost var p2 := Footprint(t2);
    t1' := EliminateYnInPlace(n1, t1, e1);
    ghost var p1 := Footprint(t1');
    t2' := EliminateYnInPlace(n2, t2, e2);
  }

  /** The tags at the roots. */
  lemma RootKinds(t1: Tree, t2: Tree, e1: Expr, e2: Expr)
    requires Stores(t1, e1) && Stores(t2, e2)
    ensures (t1.node.kind.IsOp? <==> e1.Bin?) && (e1.Bin? ==> t1.node.kind == IsOp(e1.op))
    ensures (t2.node.kind.IsOp? <==> e2.Bin?) && (e2.Bin? ==> t2.node.kind == IsOp(e2.op))
    ensures t1.node.kind == t2.node.kind <==> SameKind(e1, e2)
    ensures t1.node in Nodes(t1) && t2.node in Nodes(t2)
  {
  }

  /** The test for the same constant, y or n, on both sides. */
  lemma BothConstant(t1: Tree, t2: Tree, e1: Expr, e2: Expr)
    requires Stores(t1, e1) && Stores(t2, e2)
    ensures t1.node.kind == IsSymbol && t2.node.kind == IsSymbol && t1.node.left == t2.node.left
            && (t1.node.left == OfSym(SYM_YES) || t1.node.left == OfSym(SYM_NO))
            <==> e1 == e2 && (e1 == Sym(SYM_YES) || e1 == Sym(SYM_NO))
  {
  }

  /** The cases of elimination on two operands. */
  lemma OperandsOf(op: Op, e1: Expr, e2: Expr)
    requires !IsBin(op, e1) && !IsBin(op, e2)
    ensures EliminateEqLeaves(op, e1, e2)
            == if (e1 == e2 && (e1 == Sym(SYM_YES) || e1 == Sym(SYM_NO))) || !ExprEq(e1, e2) then (e1, e2)
               else (Sym(Unit(op)), Sym(Unit(op)))
  {
    hide ExprEq;
  }

  class Eliminator {
    /** trans_count. */
    var transCount: nat

    constructor ()
    {
      transCount := 0;
    }

    /** __expr_eliminate_eq: the nodes that take the places of `n1` and `n2`. */
    method EliminateEqLeavesInPlace(op: Op, n1: Node, n2: Node, ghost t1: Tree, ghost t2: Tree, ghost e1: Expr,
        ghost e2: Expr)
      returns (m1: Node, m2: Node, ghost t1': Tree, ghost t2': Tree)
      requires StoreBoth(t1, t2, e1, e2) && t1.node == n1 && t2.node == n2
      modifies this, Nodes(t1), Nodes(t2)
      ensures StoreBoth(t1', t2', EliminateEqLeaves(op, e1, e2).0, EliminateEqLeaves(op, e1, e2).1)
      ensures t1'.node == m1 && t2'.node == m2
      ensures forall m :: m in Nodes(t1') ==> m in Nodes(t1) || fresh(m)
      ensures forall m :: m in Nodes(t2') ==> m in Nodes(t2) || fresh(m)
      ensures transCount >= old(transCount)
      decreases Size(e1) + Size(e2), if IsBin(op, e1) || IsBin(op, e2) then 0 else 3, 2
    {
      hide EliminateEqLeaves;
      m1, m2, t1', t2' := n1, n2, t1, t2;
      if n1.kind == IsOp(op) {
        m2, t1', t2' := EliminateLeft(op, n1, n2, t1, t2, e1, e2);
      } else if n2.kind == IsOp(op) {
        m1, t1', t2' := EliminateRight(op, n1, n2, t1, t2, e1, e2);
      } else {
        m1, m2, t1', t2' := EliminateOperands(op, n1, n2, t1, t2, e1, e2);
      }
    }

    /** The first expression is an operator node of this kind: its operands one after the other. */
    method EliminateLeft(op: Op, n1: Node, n2: Node, ghost t1: Tree, ghost t2: Tree, ghost e1: Expr, ghost e2: Expr)
      returns (m2: Node, ghost t1': Tree, ghost t2': Tree)
      requires StoreBoth(t1, t2, e1, e2) && t1.node == n1 && t2.node == n2 && IsBin(op, e1)
      modifies this, Nodes(t1), Nodes(t2)
      ensures StoreBoth(t1', t2', EliminateEqLeaves(op, e1, e2).0, EliminateEqLeaves(op, e1, e2).1)
      ensures t1'.node == n1 && t2'.node == m2 && transCount >= old(transCount)
      ensures forall m :: m in Nodes(t1') ==> m in Nodes(t1) || fresh(m)
      ensures forall m :: m in Nodes(t2') ==> m in Nodes(t2) || fresh(m)
      decreases Size(e1) + Size(e2), 0, 1
    {
      ghost var (a, b) := EliminateEqLeaves(op, e1.l, e2);
      ghost var (c, d) := EliminateEqLeaves(op, e1.r, b);
      assert EliminateEqLeaves(op, e1, e2) == (Bin(op, a, c), d);
      hide EliminateEqLeaves, Stores, Nodes;
      m2, t1', t2' := FirstOnLeft(op, n1, n2, t1, t2, e1, e2);
      ghost var s1 := Footprint(t1');
      ghost var s2 := Footprint(t2');
      m2, t1', t2' := SecondOnLeft(op, n1, m2, t1', t2', Bin(op, a, e1.r), b);
    }

    method FirstOnLeft(op: Op, n1: Node, n2: Node, ghost t1: Tree, ghost t2: Tree, ghost e1: Expr, ghost e2: Expr)
      returns (m2: Node, ghost t1': Tree, ghost t2': Tree)
      requires StoreBoth(t1, t2, e1, e2) && t1.node == n1 && t2.node == n2 && IsBin(op, e1)
      modifies this, Nodes(t1), Nodes(t2)
      ensures StoreBoth(t1', t2', Bin(op, EliminateEqLeaves(op, e1.l, e2).0, e1.r), EliminateEqLeaves(op, e1.l, e2).1)
      ensures t1'.node == n1 && t2'.node == m2 && transCount >= old(transCount)
      ensures forall m :: m in Nodes(t1') ==> m in Nodes(t1) || fresh(m)
      ensures forall m :: m in Nodes(t2') ==> m in Nodes(t2) || fresh(m)
      decreases Size(e1) + Size(e2), 0, 0
    {
      hide EliminateEqLeaves, Stores, Nodes;
      Parts(t1, e1);
      var operand := n1.left.node;
      ghost var kept := Footprint(t1.r);
      ghost var part;
      operand, m2, part, t2' := EliminateEqLeavesInPlace(op, operand, n2, t1.l, t2, e1.l, e2);
      n1.left := OfExpr(operand);
      t1' := Two(n1, part, t1.r);
      Assemble(n1, part, t1.r, op, EliminateEqLeaves(op, e1.l, e2).0, e1.r);
    }

    method SecondOnLeft(op: Op, n1: Node, n2: Node, ghost t1: Tree, ghost t2: Tree, ghost e1: Expr, ghost e2: Expr)
      returns (m2: Node, ghost t1': Tree, ghost t2': Tree)
      requires StoreBoth(t1, t2, e1, e2) && t1.node == n1 && t2.node == n2 && IsBin(op, e1)
      modifies this, Nodes(t1), Nodes(t2)
      ensures StoreBoth(t1', t2', Bin(op, e1.l, EliminateEqLeaves(op, e1.r, e2).0), EliminateEqLeaves(op, e1.r, e2).1)
      ensures t1'.node == n1 && t2'.node == m2 && transCount >= old(transCount)
      ensures forall m :: m in Nodes(t1') ==> m in Nodes(t1) || fresh(m)
      ensures forall m :: m in Nodes(t2') ==> m in Nodes(t2) || fresh(m)
      decreases Size(e1) + Size(e2), 0, 0
    {
      hide EliminateEqLeaves, Stores, Nodes;
      Parts(t1, e1);
      var operand := n1.right.node;
      ghost var kept := Footprint(t1.l);
      ghost var part;
      operand, m2, part, t2' := EliminateEqLeavesInPlace(op, operand, n2, t1.r, t2, e1.r, e2);
      n1.right := OfExpr(operand);
      t1' := Two(n1, t1.l, part);
      Assemble(n1, t1.l, part, op, e1.l, EliminateEqLeaves(op, e1.r, e2).0);
    }

    /** The same on the other side. */
    method EliminateRight(op: Op, n1: Node, n2: Node, ghost t1: Tree, ghost t2: Tree, ghost e1: Expr, ghost e2: Expr)
      returns (m1: Node, ghost t1': Tree, ghost t2': Tree)
      requires StoreBoth(t1, t2, e1, e2) && t1.node == n1 && t2.node == n2 && !IsBin(op, e1) && IsBin(op, e2)
      modifies this, Nodes(t1), Nodes(t2)
      ensures StoreBoth(t1', t2', EliminateEqLeaves(op, e1, e2).0, EliminateEqLeaves(op, e1, e2).1)
      ensures t2'.node == n2 && t1'.node == m1 && transCount >= old(transCount)
      ensures forall m :: m in Nodes(t1') ==> m in Nodes(t1) || fresh(m)
      ensures forall m :: m in Nodes(t2') ==> m in Nodes(t2) || fresh(m)
      decreases Size(e1) + Size(e2), 0, 1
    {
      ghost var (a, b) := EliminateEqLeaves(op, e1, e2.l);
      ghost var (c, d) := EliminateEqLeaves(op, a, e2.r);
      assert EliminateEqLeaves(op, e1, e2) == (c, Bin(op, b, d));
      hide EliminateEqLeaves, Stores, Nodes;
      m1, t1', t2' := FirstOnRight(op, n1, n2, t1, t2, e1, e2);
      ghost var s1 := Footprint(t1');
      ghost var s2 := Footprint(t2');
      m1, t1', t2' := SecondOnRight(op, m1, n2, t1', t2', a, Bin(op, b, e2.r));
    }

    method FirstOnRight(op: Op, n1: Node, n2: Node, ghost t1: Tree, ghost t2: Tree, ghost e1: Expr, ghost e2: Expr)
      returns (m1: Node, ghost t1': Tree, ghost t2': Tree)
      requires StoreBoth(t1, t2, e1, e2) && t1.node == n1 && t2.node == n2 && IsBin(op, e2)
      modifies this, Nodes(t1), Nodes(t2)
      ensures StoreBoth(t1', t2', EliminateEqLeaves(op, e1, e2.l).0, Bin(op, EliminateEqLeaves(op, e1, e2.l).1, e2.r))
      ensures t2'.node == n2 && t1'.node == m1 && transCount >= old(transCount)
      ensures forall m :: m in Nodes(t1') ==> m in Nodes(t1) || fresh(m)
      ensures forall m :: m in Nodes(t2') ==> m in Nodes(t2) || fresh(m)
      decreases Size(e1) + Size(e2), 0, 0
    {
      hide EliminateEqLeaves, Stores, Nodes;
      Parts(t2, e2);
      var operand := n2.left.node;
      ghost var kept := Footprint(t2.r);
      ghost var part;
      m1, operand, t1', part := EliminateEqLeavesInPlace(op, n1, operand, t1, t2.l, e1, e2.l);
      n2.left := OfExpr(operand);
      t2' := Two(n2, part, t2.r);
      Assemble(n2, part, t2.r, op, EliminateEqLeaves(op, e1, e2.l).1, e2.r);
    }

    method SecondOnRight(op: Op, n1: Node, n2: Node, ghost t1: Tree, ghost t2: Tree, ghost e1: Expr, ghost e2: Expr)
      returns (m1: Node, ghost t1': Tree, ghost t2': Tree)
      requires StoreBoth(t1, t2, e1, e2) && t1.node == n1 && t2.node == n2 && IsBin(op, e2)
      modifies this, Nodes(t1), Nodes(t2)
      ensures StoreBoth(t1', t2', EliminateEqLeaves(op, e1, e2.r).0, Bin(op, e2.l, EliminateEqLeaves(op, e1, e2.r).1))
      ensures t2'.node == n2 && t1'.node == m1 && transCount >= old(transCount)
      ensures forall m :: m in Nodes(t1') ==> m in Nodes(t1) || fresh(m)
      ensures forall m :: m in Nodes(t2') ==> m in Nodes(t2) || fresh(m)
      decreases Size(e1) + Size(e2), 0, 0
    {
      hide EliminateEqLeaves, Stores, Nodes;
      Parts(t2, e2);
      var operand := n2.right.node;
      ghost var kept := Footprint(t2.l);
      ghost var part;
      m1, operand, t1', part := EliminateEqLeavesInPlace(op, n1, operand, t1, t2.r, e1, e2.r);
      n2.right := OfExpr(operand);
      t2' := Two(n2, t2.l, part);
      Assemble(n2, t2.l, part, op, e2.l, EliminateEqLeaves(op, e1, e2.r).1);
    }

    /** Two operands: if they are equal, both are replaced by the unit of the operator. */
    method EliminateOperands(op: Op, n1: Node, n2: Node, ghost t1: Tree, ghost t2: Tree, ghost e1: Expr, ghost e2: Expr)
      returns (m1: Node, m2: Node, ghost t1': Tree, ghost t2': Tree)
      requires StoreBoth(t1, t2, e1, e2) && t1.node == n1 && t2.node == n2 && !IsBin(op, e1) && !IsBin(op, e2)
      modifies this
      ensures StoreBoth(t1', t2', EliminateEqLeaves(op, e1, e2).0, EliminateEqLeaves(op, e1, e2).1)
      ensures t1'.node == m1 && t2'.node == m2
      ensures forall m :: m in Nodes(t1') ==> m in Nodes(t1) || fresh(m)
      ensures forall m :: m in Nodes(t2') ==> m in Nodes(t2) || fresh(m)
      ensures transCount >= old(transCount)
      decreases Size(e1) + Size(e2), 3, 0
    {
      OperandsOf(op, e1, e2);
      BothConstant(t1, t2, e1, e2);
      hide ExprEq, EliminateEqLeaves, Stores, Nodes;
      m1, m2, t1', t2' := n1, n2, t1, t2;
      if n1.kind == IsSymbol && n2.kind == IsSymbol && n1.left == n2.left
         && (n1.left == OfSym(SYM_YES) || n1.left == OfSym(SYM_NO)) {
        return;
      }
      ghost var s1 := Footprint(t1);
      ghost var s2 := Footprint(t2);
      var equal := ExprEqInPlace(n1, n2, t1, t2, e1, e2);
      if equal {
        transCount := transCount + 1;
        m1 := new Node(IsSymbol, OfSym(Unit(op)), Nothing);
        m2 := new Node(IsSymbol, OfSym(Unit(op)), Nothing);
        t1', t2' := Leaf(m1), Leaf(m2);
        StoresLeaf(m1, Unit(op));
        StoresLeaf(m2, Unit(op));
      }
    }

    /** expr_eliminate_eq. */
    method EliminateEqInPlace(n1: Node, n2: Node, ghost t1: Tree, ghost t2: Tree, ghost e1: Expr, ghost e2: Expr)
      returns (m1: Node, m2: Node, ghost t1': Tree, ghost t2': Tree)
      requires StoreBoth(t1, t2, e1, e2) && t1.node == n1 && t2.node == n2
      modifies this, Nodes(t1), Nodes(t2)
      ensures StoreBoth(t1', t2', EliminateEq(e1, e2).0, EliminateEq(e1, e2).1)
      ensures t1'.node == m1 && t2'.node == m2
      ensures forall m :: m in Nodes(t1') ==> m in Nodes(t1) || fresh(m)
      ensures forall m :: m in Nodes(t2') ==> m in Nodes(t2) || fresh(m)
      ensures transCount >= old(transCount)
      decreases Size(e1) + Size(e2), 1, 0
    {
      hide Stores, EliminateEqLeaves, EliminateYn, Nodes;
      m1, m2, t1', t2' := n1, n2, t1, t2;
      ghost var a, b := e1, e2;
      RootKinds(t1, t2, e1, e2);
      if n1.kind.IsOp? {
        m1, m2, t1', t2' := EliminateEqLeavesInPlace(n1.kind.op, n1, n2, t1, t2, e1, e2);
        a, b := EliminateEqLeaves(e1.op, e1, e2).0, EliminateEqLeaves(e1.op, e1, e2).1;
      }
      RootKinds(t1', t2', a, b);
      if m1.kind != m2.kind && m2.kind.IsOp? {
        ghost var op := b.op;
        ghost var s1 := Footprint(t1');
        ghost var s2 := Footprint(t2');
        m1, m2, t1', t2' := EliminateEqLeavesInPlace(m2.kind.op, m1, m2, t1', t2', a, b);
        a, b := EliminateEqLeaves(op, a, b).0, EliminateEqLeaves(op, a, b).1;
      }
      t1', t2' := FoldBoth(m1, m2, t1', t2', a, b);
    }

    /** expr_eq: on copies, and without a trace in trans_count. */
    method ExprEqInPlace(n1: Node, n2: Node, ghost t1: Tree, ghost t2: Tree, ghost e1: Expr,
        ghost e2: Expr) returns (res: bool)
      requires StoreBoth(t1, t2, e1, e2) && t1.node == n1 && t2.node == n2
      modifies this
      ensures res == ExprEq(e1, e2) && transCount == old(transCount)
      decreases Size(e1) + Size(e2), 2
    {
      if n1.kind != n2.kind {
        return false;
      }
      match n1.kind {
        case IsComp(_) =>
          res := n1.left == n2.left && n1.right == n2.right;
        case IsSymbol =>
          res := n1.left == n2.left;
        case IsNot =>
          res := ExprEqInPlace(n1.left.node, n2.left.node, t1.l, t2.l, e1.e, e2.e);
        case IsOp(_) =>
          res := EqualRegions(n1, n2, t1, t2, e1, e2);
      }
    }

    /** The E_AND and E_OR case of expr_eq. */
    method EqualRegions(n1: Node, n2: Node, ghost t1: Tree, ghost t2: Tree, ghost e1: Expr, ghost e2: Expr)
      returns (res: bool)
      requires StoreBoth(t1, t2, e1, e2) && t1.node == n1 && t2.node == n2
      modifies this
      ensures transCount == old(transCount)
      ensures var (a, b) := EliminateEq(e1, e2); res <==> a.Sym? && b.Sym? && a.s == b.s
      decreases Size(e1) + Size(e2), 1, 1
    {
      hide Stores, EliminateEq, Nodes;
      var oldCount := transCount;
      var c1, c2;
      ghost var u1, u2;
      ghost var s2 := Footprint(t2);
      c1, u1 := Copy(n1, t1, e1);
      ghost var s1' := Footprint(u1);
      c2, u2 := Copy(n2, t2, e2);
      ghost var s2' := Footprint(u2);
      c1, c2, u1, u2 := EliminateEqInPlace(c1, c2, u1, u2, e1, e2);
      SymbolRoot(u1, EliminateEq(e1, e2).0);
      SymbolRoot(u2, EliminateEq(e1, e2).1);
      res := c1.kind == IsSymbol && c2.kind == IsSymbol && c1.left == c2.left;
      transCount := oldCount;
    }
  }
}
