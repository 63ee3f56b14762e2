/**
  Slots in an expression tree. The optimiser passes `struct expr **`, the address of the slot that
  holds a node; here a slot is the path that leads to it, so two slots of one tree can be compared
  and overwriting one is visible through the other. A region is a maximal run of one operator.
 */
module Regions {
  import opened Tristates
  import opened Exprs
  import opened Simplify
  import opened NormalForm

  datatype Dir = Left | Right
  type Path = seq<Dir>

  function Child(e: Expr, d: Dir): Expr
    requires e.Bin?
  {
    if d.Left? then e.l else e.r
  }

  predicate HasSlot(e: Expr, p: Path)
    decreases |p|
  {
    p == [] || (e.Bin? && HasSlot(Child(e, p[0]), p[1..]))
  }

  function At(e: Expr, p: Path): Expr
    requires HasSlot(e, p)
    decreases |p|
  {
    if p == [] then e else At(Child(e, p[0]), p[1..])
  }

  function Put(e: Expr, p: Path, x: Expr): Expr
    requires HasSlot(e, p)
    decreases |p|
  {
    if p == [] then x
    else if p[0].Left? then Bin(e.op, Put(e.l, p[1..], x), e.r)
    else Bin(e.op, e.l, Put(e.r, p[1..], x))
  }

  lemma {:induction false} SlotAppend(e: Expr, q: Path, s: Path)
    requires HasSlot(e, q) && HasSlot(At(e, q), s)
    ensures HasSlot(e, q + s) && At(e, q + s) == At(At(e, q), s)
    ensures forall x :: Put(e, q + s, x) == Put(e, q, Put(At(e, q), s, x))
    decreases |q|
  {
    if q == [] {
      assert q + s == s;
    } else {
      SlotAppend(Child(e, q[0]), q[1..], s);
      assert (q + s)[1..] == q[1..] + s;
    }
  }

  lemma {:induction false} PutThenAt(e: Expr, q: Path, x: Expr)
    requires HasSlot(e, q)
    ensures HasSlot(Put(e, q, x), q) && At(Put(e, q, x), q) == x
    ensures forall y :: Put(Put(e, q, x), q, y) == Put(e, q, y)
    ensures Put(e, q, At(e, q)) == e
    decreases |q|
  {
    if q != [] {
      PutThenAt(Child(e, q[0]), q[1..], x);
    }
  }

  /** The slot lies in the region of `op` at the top of `e`: all nodes above it are `op` nodes. */
  predicate InRegion(op: Op, e: Expr, p: Path): (b: bool)
    ensures b ==> HasSlot(e, p)
    decreases |p|
  {
    p == [] || (IsBin(op, e) && InRegion(op, Child(e, p[0]), p[1..]))
  }

  /** An operand of the region: a slot in it that does not hold an `op` node. */
  predicate IsOperand(op: Op, e: Expr, p: Path) {
    InRegion(op, e, p) && !IsBin(op, At(e, p))
  }

  lemma {:induction false} RegionExtend(op: Op, e: Expr, p: Path, d: Dir)
    requires InRegion(op, e, p) && IsBin(op, At(e, p))
    ensures InRegion(op, e, p + [d])
    decreases |p|
  {
    if p != [] {
      RegionExtend(op, Child(e, p[0]), p[1..], d);
      assert (p + [d])[1..] == p[1..] + [d];
    }
  }

  /** The same arrangement of `op` nodes: operands may differ, but none is an `op` node in one only. */
  predicate SameShape(op: Op, a: Expr, b: Expr) {
    IsBin(op, a) == IsBin(op, b) && (IsBin(op, a) ==> SameShape(op, a.l, b.l) && SameShape(op, a.r, b.r))
  }

  lemma {:induction false} SameShapeTransitive(op: Op, a: Expr, b: Expr, c: Expr)
    requires SameShape(op, a, b) && SameShape(op, b, c)
    ensures SameShape(op, a, c)
  {
    if IsBin(op, a) {
      SameShapeTransitive(op, a.l, b.l, c.l);
      SameShapeTransitive(op, a.r, b.r, c.r);
    }
  }

  lemma {:induction false} SameShapeReflexive(op: Op, a: Expr)
    ensures SameShape(op, a, a)
  {
    if IsBin(op, a) {
      SameShapeReflexive(op, a.l);
      SameShapeReflexive(op, a.r);
    }
  }

  lemma {:induction false} SameShapeAt(op: Op, a: Expr, b: Expr, p: Path)
    requires SameShape(op, a, b) && InRegion(op, a, p)
    ensures InRegion(op, b, p) && SameShape(op, At(a, p), At(b, p))
    decreases |p|
  {
    if p != [] {
      SameShapeAt(op, Child(a, p[0]), Child(b, p[0]), p[1..]);
    }
  }

  /** Number of nodes of the region. */
  function Width(op: Op, e: Expr): nat {
    if IsBin(op, e) then 1 + Width(op, e.l) + Width(op, e.r) else 0
  }

  lemma {:induction false} SameShapeWidth(op: Op, a: Expr, b: Expr)
    requires SameShape(op, a, b)
    ensures Width(op, a) == Width(op, b)
  {
    if IsBin(op, a) {
      SameShapeWidth(op, a.l, b.l);
      SameShapeWidth(op, a.r, b.r);
    }
  }

  /** Number of operands outside negations. */
  function Leaves(e: Expr): (n: nat)
    ensures n > 0
  {
    if e.Bin? then Leaves(e.l) + Leaves(e.r) else 1
  }

  /** A unit constant is an operand somewhere, so that folding has something to remove. */
  predicate HasUnit(e: Expr) {
    e.Bin? && (e.l == Sym(Unit(e.op)) || e.r == Sym(Unit(e.op)) || HasUnit(e.l) || HasUnit(e.r))
  }

  lemma {:induction false} EliminateYnShrinks(e: Expr)
    ensures Leaves(EliminateYn(e)) <= Leaves(e)
    ensures HasUnit(e) ==> Leaves(EliminateYn(e)) < Leaves(e)
  {
    if e.Bin? {
      EliminateYnShrinks(e.l);
      EliminateYnShrinks(e.r);
    }
  }

  lemma {:induction false} EliminateYnKeepsForm(e: Expr)
    ensures WellFormed(e) ==> WellFormed(EliminateYn(e))
    ensures Normal(e) ==> Normal(EliminateYn(e))
  {
    hide Denotes;
    if e.Bin? {
      EliminateYnKeepsForm(e.l);
      EliminateYnKeepsForm(e.r);
    }
  }

  lemma {:induction false} SlotLeaves(e: Expr, p: Path, x: Expr)
    requires HasSlot(e, p)
    ensures Leaves(Put(e, p, x)) == Leaves(e) - Leaves(At(e, p)) + Leaves(x)
    ensures p != [] ==> Leaves(At(e, p)) < Leaves(e)
    decreases |p|
  {
    if p != [] {
      SlotLeaves(Child(e, p[0]), p[1..], x);
    }
  }

  lemma {:induction false} SlotHasUnit(e: Expr, p: Path)
    requires HasSlot(e, p) && HasUnit(At(e, p))
    ensures HasUnit(e)
    decreases |p|
  {
    if p != [] {
      SlotHasUnit(Child(e, p[0]), p[1..]);
    }
  }

  lemma {:induction false} UnitOperand(op: Op, e: Expr, p: Path)
    requires InRegion(op, e, p) && p != [] && At(e, p) == Sym(Unit(op))
    ensures HasUnit(e)
    decreases |p|
  {
    if p[1..] != [] {
      UnitOperand(op, Child(e, p[0]), p[1..]);
    }
  }

  lemma {:induction false} PutOperandShape(op: Op, e: Expr, p: Path, x: Expr)
    requires IsOperand(op, e, p) && !IsBin(op, x)
    ensures SameShape(op, e, Put(e, p, x)) && IsOperand(op, Put(e, p, x), p)
    decreases |p|
  {
    if p != [] {
      PutOperandShape(op, Child(e, p[0]), p[1..], x);
      SameShapeReflexive(op, e.l);
      SameShapeReflexive(op, e.r);
    }
  }

  /** Different operands are independent slots. */
  lemma {:induction false} OperandsIndependent(op: Op, e: Expr, p1: Path, p2: Path, x: Expr)
    requires IsOperand(op, e, p1) && IsOperand(op, e, p2) && p1 != p2
    requires !IsBin(op, x)
    ensures IsOperand(op, Put(e, p1, x), p2) && At(Put(e, p1, x), p2) == At(e, p2)
    ensures p1 != [] && p2 != []
    decreases |p1|
  {
    if p1 != [] && p2 != [] && p1[0] == p2[0] {
      assert p1 == [p1[0]] + p1[1..] && p2 == [p2[0]] + p2[1..];
      OperandsIndependent(op, Child(e, p1[0]), p1[1..], p2[1..], x);
    }
  }

  /** The unit of an operator changes no value. */
  lemma UnitNeutral(env: Env, op: Op, t: Tristate)
    requires Typed(env)
    ensures Combine(op, Eval(env, Sym(Unit(op))), t) == t
  {
  }

  lemma CombineMove(op: Op, c: Tristate, x: Tristate, y: Tristate)
    ensures Combine(op, Combine(op, c, x), y) == Combine(op, Combine(op, c, y), x)
    ensures Combine(op, y, Combine(op, c, x)) == Combine(op, Combine(op, y, c), x)
  {
  }

  /** The value of a region is one operand combined with the value the region has without it. */
  lemma {:induction false} OperandFactor(env: Env, op: Op, e: Expr, p: Path, x: Expr)
    requires Typed(env) && InRegion(op, e, p)
    ensures Eval(env, Put(e, p, x)) == Combine(op, Eval(env, Put(e, p, Sym(Unit(op)))), Eval(env, x))
    decreases |p|
  {
    hide CompareIn, Combine;
    UnitNeutral(env, op, Eval(env, x));
    if p != [] {
      OperandFactor(env, op, Child(e, p[0]), p[1..], x);
      var c := Eval(env, Put(Child(e, p[0]), p[1..], Sym(Unit(op))));
      CombineMove(op, c, Eval(env, x), Eval(env, e.l));
      CombineMove(op, c, Eval(env, x), Eval(env, e.r));
    }
  }

  /** Moving the joint value of two operands into the second slot and the unit into the first keeps the value. */
  lemma JoinOperandSlots(env: Env, op: Op, e: Expr, p1: Path, p2: Path, x: Expr)
    requires Typed(env) && IsOperand(op, e, p1) && IsOperand(op, e, p2) && p1 != p2
    requires Eval(env, x) == Combine(op, Eval(env, At(e, p1)), Eval(env, At(e, p2)))
    requires HasSlot(Put(e, p1, Sym(Unit(op))), p2)
    ensures Eval(env, Put(Put(e, p1, Sym(Unit(op))), p2, x)) == Eval(env, e)
  {
    hide CompareIn;
    var unit := Sym(Unit(op));
    var e' := Put(e, p1, unit);
    OperandsIndependent(op, e, p1, p2, unit);
    OperandFactor(env, op, e', p2, x);
    OperandFactor(env, op, e', p2, At(e', p2));
    PutThenAt(e', p2, unit);
    OperandFactor(env, op, e, p1, At(e, p1));
    PutThenAt(e, p1, unit);
    var c := Eval(env, Put(e', p2, unit));
    CombineAssociative(op, c, Eval(env, At(e, p2)), Eval(env, At(e, p1)));
  }

  lemma {:induction false} PutKeepsForm(e: Expr, p: Path, x: Expr)
    requires HasSlot(e, p)
    ensures WellFormed(e) ==> WellFormed(At(e, p))
    ensures WellFormed(e) && WellFormed(x) ==> WellFormed(Put(e, p, x))
    ensures Normal(e) ==> Normal(At(e, p))
    ensures Normal(e) && Normal(x) ==> Normal(Put(e, p, x))
    decreases |p|
  {
    if p != [] {
      PutKeepsForm(Child(e, p[0]), p[1..], x);
    }
  }
}
