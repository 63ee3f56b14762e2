/**
  Removal of duplicate and redundant operands (expr_eliminate_dups and expr_eliminate_dups1 in expr.c).
  The walk compares every operand of a region with every other one through two slots of the same tree
  of nodes and overwrites both; `root` is what that tree holds and `transCount` the global counter of joins.
 */
module Dedup {
  import opened Options
  import opened Exprs
  import opened Simplify
  import opened Operands
  import opened Join
  import opened NormalForm
  import opened Regions
  import opened ExprNodes
  import opened Slots

  /** What a join leaves in the second slot. */
  lemma JoinKeepsForm(op: Op, e1: Expr, e2: Expr)
    requires !IsBin(op, e1) && JoinOperands(op, e1, e2).Some?
    ensures var x := JoinOperands(op, e1, e2).value;
            && !IsBin(op, x)
            && Leaves(x) <= Leaves(e1)
            && (WellFormed(e1) && WellFormed(e2) ==> WellFormed(x))
            && (Normal(e1) && Normal(e2) ==> Normal(x))
  {
    hide Denotes, ExprEq;
  }

  /** What rewriting a region of `op` keeps: its arrangement, its form and its value under every assignment. */
  ghost predicate Keeps(op: Op, e: Expr, e': Expr) {
    && SameShape(op, e, e')
    && Leaves(e') <= Leaves(e)
    && (WellFormed(e) ==> WellFormed(e'))
    && (Normal(e) ==> Normal(e'))
    && (WellFormed(e) ==> forall env | Typed(env) :: Eval(env, e') == Eval(env, e))
  }

  lemma KeepsForm(op: Op, e: Expr, e': Expr)
    requires Keeps(op, e, e') && WellFormed(e)
    ensures WellFormed(e') && SameShape(op, e, e') && Leaves(e') <= Leaves(e)
  {
  }

  lemma KeepsTransitive(op: Op, a: Expr, b: Expr, c: Expr)
    requires Keeps(op, a, b) && Keeps(op, b, c)
    ensures Keeps(op, a, c)
  {
    hide CompareIn, Denotes, WellFormed, Normal, Leaves, Eval, Typed;
    SameShapeTransitive(op, a, b, c);
  }

  /** One join: both slots are overwritten, and a unit is left for folding. */
  lemma JoinStep(op: Op, e: Expr, p1: Path, p2: Path)
    requires WellFormed(e) && IsOperand(op, e, p1) && IsOperand(op, e, p2) && p1 != p2
    requires JoinOperands(op, At(e, p1), At(e, p2)).Some?
    ensures HasSlot(Put(e, p1, Sym(Unit(op))), p2)
    ensures var e' := Put(Put(e, p1, Sym(Unit(op))), p2, JoinOperands(op, At(e, p1), At(e, p2)).value);
            Keeps(op, e, e') && HasUnit(e')
  {
    hide JoinOperands, CompareIn, Denotes;
    var unit := Sym(Unit(op));
    var x := JoinOperands(op, At(e, p1), At(e, p2)).value;
    var e1 := Put(e, p1, unit);
    PutKeepsForm(e, p1, unit);
    PutKeepsForm(e, p2, unit);
    JoinKeepsForm(op, At(e, p1), At(e, p2));
    PutOperandShape(op, e, p1, unit);
    OperandsIndependent(op, e, p1, p2, unit);
    PutOperandShape(op, e1, p2, x);
    var e' := Put(e1, p2, x);
    SameShapeTransitive(op, e, e1, e');
    SlotLeaves(e, p1, unit);
    SlotLeaves(e1, p2, x);
    PutKeepsForm(e1, p2, x);
    OperandsIndependent(op, e1, p2, p1, x);
    PutThenAt(e, p1, unit);
    UnitOperand(op, e', p1);
    forall env | Typed(env) ensures Eval(env, e') == Eval(env, e) {
      JoinSound(env, op, At(e, p1), At(e, p2));
      JoinOperandSlots(env, op, e, p1, p2, x);
    }
  }

  /** Rewriting an operand that is itself a region of the other operator. */
  lemma NestedStep(op: Op, e: Expr, p: Path, x: Expr)
    requires IsOperand(op, e, p) && At(e, p).Bin? && Keeps(Dual(op), At(e, p), x)
    ensures Keeps(op, e, Put(e, p, x)) && IsOperand(op, Put(e, p, x), p) && x.Bin?
    ensures HasUnit(x) ==> HasUnit(Put(e, p, x))
  {
    hide CompareIn, Denotes;
    PutOperandShape(op, e, p, x);
    SlotLeaves(e, p, x);
    PutKeepsForm(e, p, x);
    PutThenAt(e, p, x);
    if HasUnit(x) {
      SlotHasUnit(Put(e, p, x), p);
    }
    if WellFormed(e) {
      forall env | Typed(env) ensures Eval(env, Put(e, p, x)) == Eval(env, e) {
        OperandFactor(env, op, e, p, x);
        OperandFactor(env, op, e, p, At(e, p));
      }
    }
  }

  /** A slot given by its full path, seen from the region that holds it. */
  lemma RegionSlot(op: Op, root: Expr, q: Path, p: Path)
    requires HasSlot(root, q) && q <= p && InRegion(op, At(root, q), p[|q|..])
    ensures HasSlot(root, p) && At(root, p) == At(At(root, q), p[|q|..])
    ensures forall x :: Put(root, p, x) == Put(root, q, Put(At(root, q), p[|q|..], x))
  {
    assert p == q + p[|q|..];
    SlotAppend(root, q, p[|q|..]);
  }

  lemma KeepsReflexive(op: Op, root: Expr, q: Path)
    requires HasSlot(root, q)
    ensures Put(root, q, At(root, q)) == root && Keeps(op, At(root, q), At(root, q))
  {
    PutThenAt(root, q, At(root, q));
    SameShapeReflexive(op, At(root, q));
  }

  /** After a rewriting that keeps the region, descending further below `p1` is still possible and is progress. */
  lemma StillInRegion(op: Op, region: Expr, region': Expr, q: Path, p1: Path, p2: Path, d: Dir)
    requires Keeps(op, region, region') && q <= p1 && q <= p2
    requires InRegion(op, region, p1[|q|..]) && InRegion(op, region, p2[|q|..])
    requires IsBin(op, At(region, p1[|q|..]))
    ensures InRegion(op, region', p2[|q|..]) && InRegion(op, region', (p1 + [d])[|q|..])
    ensures Leaves(region') <= Leaves(region)
    ensures Width(op, At(region', (p1 + [d])[|q|..])) < Width(op, At(region, p1[|q|..]))
    ensures Width(op, At(region', p2[|q|..])) == Width(op, At(region, p2[|q|..]))
  {
    hide Denotes, WellFormed, Normal, Eval, Typed;
    var s := p1[|q|..];
    RegionExtend(op, region, s, d);
    SlotAppend(region, s, [d]);
    assert (p1 + [d])[|q|..] == s + [d];
    SameShapeAt(op, region, region', p2[|q|..]);
    SameShapeAt(op, region, region', s + [d]);
    SameShapeWidth(op, At(region, p2[|q|..]), At(region', p2[|q|..]));
    SameShapeWidth(op, At(region, s + [d]), At(region', s + [d]));
  }

  /** Two different operands lie strictly below the top of their region. */
  lemma OperandBelowTop(op: Op, region: Expr, s1: Path, s2: Path)
    requires IsOperand(op, region, s1) && IsOperand(op, region, s2) && s1 != s2
    ensures s1 != [] && Leaves(At(region, s1)) < Leaves(region)
  {
    SlotLeaves(region, s1, region);
  }

  /** No two operands of any region, outside negations, can be joined. */
  ghost predicate Irredundant(e: Expr) {
    forall q: Path, t1: Path, t2: Path ::
      HasSlot(e, q) && At(e, q).Bin? ==> Irreducible(At(e, q), t1, t2)
  }

  /** These two operands of the region on top of `e` cannot be joined. */
  predicate Irreducible(e: Expr, t1: Path, t2: Path)
    requires e.Bin?
  {
    IsOperand(e.op, e, t1) && IsOperand(e.op, e, t2) && t1 != t2 ==>
      JoinOperands(e.op, At(e, t1), At(e, t2)).None?
  }

  /** No two operands of any region, outside negations, are the same expression or equal to expr_eq. */
  ghost predicate Apart(e: Expr) {
    forall q: Path, t1: Path, t2: Path ::
      HasSlot(e, q) && At(e, q).Bin? ==> OperandsDiffer(At(e, q), t1, t2)
  }

  predicate OperandsDiffer(e: Expr, t1: Path, t2: Path)
    requires e.Bin?
  {
    IsOperand(e.op, e, t1) && IsOperand(e.op, e, t2) && t1 != t2 ==>
      At(e, t1) != At(e, t2) && !ExprEq(At(e, t1), At(e, t2))
  }

  /** Equal operands can always be joined. */
  lemma IrredundantApart(e: Expr)
    requires Irredundant(e)
    ensures Apart(e)
  {
    hide ExprEq, JoinDifferent;
    forall q: Path, t1: Path, t2: Path | HasSlot(e, q) && At(e, q).Bin? ensures OperandsDiffer(At(e, q), t1, t2) {
      var r := At(e, q);
      assert Irreducible(r, t1, t2);
      if IsOperand(r.op, r, t1) && IsOperand(r.op, r, t2) && t1 != t2 {
        ExprEqReflexive(At(r, t1));
      }
    }
  }

  /** The operands below two slots have been compared: none can be joined, and the first ones are irredundant. */
  ghost predicate Settled(op: Op, e: Expr, p1: Path, p2: Path)
    requires InRegion(op, e, p1) && InRegion(op, e, p2)
  {
    forall t1: Path, t2: Path :: SettledPair(op, e, p1 + t1, p2 + t2)
  }

  ghost predicate SettledPair(op: Op, e: Expr, u1: Path, u2: Path) {
    IsOperand(op, e, u1) && IsOperand(op, e, u2) && u1 != u2 ==>
      JoinOperands(op, At(e, u1), At(e, u2)).None? && Irredundant(At(e, u1))
  }

  /** An operand at or below a slot: either the slot itself or an operand below one of its children. */
  lemma {:induction false} OperandBelow(op: Op, e: Expr, p: Path, t: Path)
    requires InRegion(op, e, p) && IsOperand(op, e, p + t)
    ensures t == [] <==> !IsBin(op, At(e, p))
    decreases |p|
  {
    if p == [] {
      assert p + t == t;
    } else {
      assert (p + t)[1..] == p[1..] + t;
      OperandBelow(op, Child(e, p[0]), p[1..], t);
    }
  }

  lemma SettledLeft(op: Op, e: Expr, p1: Path, p2: Path)
    requires InRegion(op, e, p1) && InRegion(op, e, p2)
    requires IsBin(op, At(e, p1))
    requires InRegion(op, e, p1 + [Left]) && Settled(op, e, p1 + [Left], p2)
    requires InRegion(op, e, p1 + [Right]) && Settled(op, e, p1 + [Right], p2)
    ensures Settled(op, e, p1, p2)
  {
    forall t1: Path, t2: Path ensures SettledPair(op, e, p1 + t1, p2 + t2) {
      if IsOperand(op, e, p1 + t1) {
        OperandBelow(op, e, p1, t1);
        assert p1 + t1 == (p1 + [t1[0]]) + t1[1..];
        assert t1[0] == Left || t1[0] == Right;
        assert SettledPair(op, e, (p1 + [t1[0]]) + t1[1..], p2 + t2);
      }
    }
  }

  lemma SettledRight(op: Op, e: Expr, p1: Path, p2: Path)
    requires InRegion(op, e, p1) && InRegion(op, e, p2)
    requires IsBin(op, At(e, p2))
    requires InRegion(op, e, p2 + [Left]) && Settled(op, e, p1, p2 + [Left])
    requires InRegion(op, e, p2 + [Right]) && Settled(op, e, p1, p2 + [Right])
    ensures Settled(op, e, p1, p2)
  {
    forall t1: Path, t2: Path ensures SettledPair(op, e, p1 + t1, p2 + t2) {
      if IsOperand(op, e, p2 + t2) {
        OperandBelow(op, e, p2, t2);
        assert p2 + t2 == (p2 + [t2[0]]) + t2[1..];
        assert t2[0] == Left || t2[0] == Right;
        assert SettledPair(op, e, p1 + t1, (p2 + [t2[0]]) + t2[1..]);
      }
    }
  }

  lemma SettledOperands(op: Op, e: Expr, p1: Path, p2: Path)
    requires IsOperand(op, e, p1) && IsOperand(op, e, p2)
    requires p1 != p2 ==> JoinOperands(op, At(e, p1), At(e, p2)).None? && Irredundant(At(e, p1))
    ensures Settled(op, e, p1, p2)
  {
    hide JoinOperands, Irredundant;
    forall t1: Path, t2: Path ensures SettledPair(op, e, p1 + t1, p2 + t2) {
      if IsOperand(op, e, p1 + t1) && IsOperand(op, e, p2 + t2) {
        OperandBelow(op, e, p1, t1);
        OperandBelow(op, e, p2, t2);
        assert p1 + t1 == p1 && p2 + t2 == p2;
      }
    }
  }

  /** A region has an operand on either side. */
  lemma {:induction false} LeftmostOperand(op: Op, e: Expr) returns (t: Path)
    ensures IsOperand(op, e, t)
  {
    if IsBin(op, e) {
      var t' := LeftmostOperand(op, e.l);
      t := [Left] + t';
    } else {
      t := [];
    }
  }

  /** A slot below a region is either in the region or below one of its operands. */
  lemma {:induction false} SplitSlot(op: Op, e: Expr, q: Path) returns (u: Path, s: Path)
    requires HasSlot(e, q)
    ensures q == u + s && InRegion(op, e, u) && HasSlot(At(e, u), s)
    ensures s == [] || !IsBin(op, At(e, u))
    decreases |q|
  {
    if q == [] || !IsBin(op, e) {
      u, s := [], q;
    } else {
      var u', s' := SplitSlot(op, Child(e, q[0]), q[1..]);
      u, s := [q[0]] + u', s';
      assert q == u + s;
    }
  }

  lemma SettledTop(op: Op, e: Expr)
    requires IsBin(op, e) && Settled(op, e, [], [])
    ensures Irredundant(e)
  {
    hide JoinOperands;
    forall q: Path, t1: Path, t2: Path | HasSlot(e, q) && At(e, q).Bin? ensures Irreducible(At(e, q), t1, t2) {
      var u, s := SplitSlot(op, e, q);
      SlotAppend(e, u, s);
      if IsBin(op, At(e, u)) {
        assert q == u;
        if IsOperand(op, At(e, q), t1) && IsOperand(op, At(e, q), t2) && t1 != t2 {
          RegionAppend(op, e, q, t1);
          RegionAppend(op, e, q, t2);
          assert SettledPair(op, e, [] + (q + t1), [] + (q + t2));
          assert [] + (q + t1) == q + t1 && [] + (q + t2) == q + t2;
          assert (q + t1)[|q|..] == t1 && (q + t2)[|q|..] == t2;
        }
      } else {
        var l := LeftmostOperand(op, e.l);
        var r := LeftmostOperand(op, e.r);
        var other := if u == [Left] + l then [Right] + r else [Left] + l;
        assert SettledPair(op, e, [] + u, [] + other);
        assert [] + u == u && [] + other == other;
        assert Irredundant(At(e, u));
        assert Irreducible(At(At(e, u), s), t1, t2);
      }
    }
  }

  lemma {:induction false} RegionAppend(op: Op, e: Expr, p: Path, t: Path)
    requires InRegion(op, e, p) && IsOperand(op, At(e, p), t)
    ensures IsOperand(op, e, p + t) && At(e, p + t) == At(At(e, p), t)
    decreases |p|
  {
    if p == [] {
      assert p + t == t;
    } else {
      assert (p + t)[1..] == p[1..] + t;
      RegionAppend(op, Child(e, p[0]), p[1..], t);
    }
  }

  /** Slots that rewriting the region of `op` at `q` leaves where they are: all but those below its operands. */
  predicate Stable(op: Op, e: Expr, q: Path, p: Path)
    requires HasSlot(e, q)
  {
    HasSlot(e, p) && (q <= p ==> InRegion(op, At(e, q), p[|q|..]))
  }

  ghost predicate KeepsSlots(op: Op, e: Expr, q: Path, t: Tree, t': Tree)
    requires HasSlot(e, q)
  {
    forall p :: Stable(op, e, q, p) ==> SamePlace(t, t', p)
  }

  lemma {:induction false} PutHasSlot(e: Expr, q: Path, x: Expr, p: Path)
    requires HasSlot(e, q) && HasSlot(e, p) && !(q <= p)
    ensures HasSlot(Put(e, q, x), p)
    decreases |q|
  {
    if p != [] && q[0] == p[0] {
      assert q[1..] <= p[1..] ==> q <= p;
      PutHasSlot(Child(e, q[0]), q[1..], x, p[1..]);
    }
  }

  /** A slot that is stable is so after the region has been rewritten. */
  lemma StableKept(op: Op, e: Expr, e': Expr, q: Path, p: Path)
    requires HasSlot(e, q) && HasSlot(e', q) && e' == Put(e, q, At(e', q)) && SameShape(op, At(e, q), At(e', q))
    requires Stable(op, e, q, p)
    ensures Stable(op, e', q, p)
  {
    hide WellFormed, Normal, Eval, Typed, Leaves, Put;
    if q <= p {
      SameShapeAt(op, At(e, q), At(e', q), p[|q|..]);
      assert p == q + p[|q|..];
      SlotAppend(e', q, p[|q|..]);
    } else {
      PutHasSlot(e, q, At(e', q), p);
    }
  }

  lemma KeepsSlotsTwice(op: Op, e: Expr, e': Expr, q: Path, t: Tree, t': Tree, t'': Tree)
    requires HasSlot(e, q) && HasSlot(e', q) && e' == Put(e, q, At(e', q)) && SameShape(op, At(e, q), At(e', q))
    requires KeepsSlots(op, e, q, t, t') && KeepsSlots(op, e', q, t', t'')
    ensures KeepsSlots(op, e, q, t, t'')
  {
    hide SameShape, Stable, Put, At;
    forall p | Stable(op, e, q, p) ensures SamePlace(t, t'', p) {
      StableKept(op, e, e', q, p);
    }
  }

  lemma KeepsSlotsItself(op: Op, e: Expr, q: Path, t: Tree)
    requires HasSlot(e, q) && Stores(t, e)
    ensures KeepsSlots(op, e, q, t, t)
  {
    forall p | Stable(op, e, q, p) ensures SamePlace(t, t, p) {
      PartAt(t, e, p);
    }
  }

  /** What is stable for a region is so for a region that one of its operands is. */
  lemma StableInside(op: Op, op': Op, e: Expr, q: Path, p: Path, u: Path)
    requires HasSlot(e, q) && HasSlot(e, p) && q <= p && IsOperand(op, At(e, q), p[|q|..])
    requires Stable(op, e, q, u)
    ensures Stable(op', e, p, u)
  {
    if p <= u {
      var s, v := p[|q|..], u[|q|..];
      assert q <= u && v == s + u[|p|..];
      OperandEnds(op, At(e, q), s, u[|p|..]);
    }
  }

  /** Nothing of a region is behind one of its operands. */
  lemma {:induction false} OperandEnds(op: Op, e: Expr, s: Path, r: Path)
    requires IsOperand(op, e, s) && InRegion(op, e, s + r)
    ensures r == []
    decreases |s|
  {
    if s == [] {
      assert s + r == r;
    } else {
      assert (s + r)[1..] == s[1..] + r;
      OperandEnds(op, Child(e, s[0]), s[1..], r);
    }
  }

  /** No stable slot is behind an operand. */
  lemma StableNotBehind(op: Op, e: Expr, q: Path, p: Path, u: Path)
    requires HasSlot(e, q) && HasSlot(e, p) && q <= p && IsOperand(op, At(e, q), p[|q|..])
    requires Stable(op, e, q, u)
    ensures !(p <= u && p != u)
  {
    if p <= u {
      var s, v := p[|q|..], u[|q|..];
      assert q <= u && v == s + u[|p|..];
      OperandEnds(op, At(e, q), s, u[|p|..]);
      assert u == p + u[|p|..];
    }
  }

  lemma RegionStable(op: Op, e: Expr, q: Path, p: Path)
    requires HasSlot(e, q) && q <= p && InRegion(op, At(e, q), p[|q|..])
    ensures Stable(op, e, q, p)
  {
    assert p == q + p[|q|..];
    SlotAppend(e, q, p[|q|..]);
  }

  /** Writing at an operand leaves the stable slots where they are. */
  lemma PutKeepsSlots(op: Op, e: Expr, q: Path, p: Path, t: Tree, x: Tree)
    requires HasSlot(e, q) && HasSlot(e, p) && q <= p && IsOperand(op, At(e, q), p[|q|..])
    requires Stores(t, e) && HasPart(t, p)
    ensures KeepsSlots(op, e, q, t, PutPart(t, p, x))
  {
    hide Stable, At, Put;
    forall u | Stable(op, e, q, u) ensures SamePlace(t, PutPart(t, p, x), u) {
      StableNotBehind(op, e, q, p, u);
      StableHas(op, e, q, u);
      PartAt(t, e, u);
      PutPlaces(t, p, x, u);
    }
  }

  lemma StableHas(op: Op, e: Expr, q: Path, p: Path)
    requires HasSlot(e, q) && Stable(op, e, q, p)
    ensures HasSlot(e, p)
  {
  }

  lemma SlotKept(t: Tree, t': Tree, s: Slot, p: Path)
    requires IsSlot(t, s, p) && SamePlace(t, t', p)
    ensures IsSlot(t', s, p)
  {
  }

  lemma KindAt(t: Tree, e: Expr)
    requires Stores(t, e)
    ensures (forall op :: t.node.kind == IsOp(op) <==> IsBin(op, e)) && (t.node.kind.IsOp? <==> e.Bin?)
  {
  }

  lemma ChildSlotOf(t: Tree, e: Expr, p: Path, d: Dir)
    requires Stores(t, e) && HasSlot(e, p) && At(e, p).Bin?
    ensures HasPart(t, p) && IsSlot(t, Side(Part(t, p).node, d), p + [d])
  {
    PartAt(t, e, p);
    ChildSlot(t, p, d);
  }

  /** What rewriting a region at `q` makes of the whole expression and of the counter. */
  ghost predicate Rewritten(op: Op, e: Expr, e': Expr, q: Path, count: nat, count': nat)
    requires HasSlot(e, q)
  {
    && HasSlot(e', q) && e' == Put(e, q, At(e', q)) && Keeps(op, At(e, q), At(e', q)) && WellFormed(e')
    && count <= count'
    && (count == count' ==> e' == e)
    && (count < count' ==> HasUnit(At(e', q)))
  }

  lemma RewrittenNot(op: Op, e: Expr, q: Path, count: nat)
    requires HasSlot(e, q) && WellFormed(e)
    ensures Rewritten(op, e, e, q, count, count)
  {
    hide Keeps;
    KeepsReflexive(op, e, q);
  }

  lemma RewrittenKeeps(op: Op, e: Expr, e': Expr, q: Path, count: nat, count': nat)
    requires HasSlot(e, q) && Rewritten(op, e, e', q, count, count')
    ensures HasSlot(e', q) && e' == Put(e, q, At(e', q)) && Keeps(op, At(e, q), At(e', q)) && WellFormed(e')
    ensures SameShape(op, At(e, q), At(e', q)) && count <= count' && (count == count' ==> e' == e)
    ensures count < count' ==> HasUnit(At(e', q))
    ensures Leaves(At(e', q)) <= Leaves(At(e, q))
  {
  }

  lemma RewrittenTwice(op: Op, e: Expr, e': Expr, e'': Expr, q: Path, a: nat, b: nat, c: nat)
    requires HasSlot(e, q) && Rewritten(op, e, e', q, a, b) && Rewritten(op, e', e'', q, b, c)
    ensures Rewritten(op, e, e'', q, a, c)
  {
    hide Keeps;
    KeepsTransitive(op, At(e, q), At(e', q), At(e'', q));
    PutThenAt(e, q, At(e', q));
  }

  /** Rewriting an operand is rewriting the region. */
  lemma RewrittenOutside(op: Op, op': Op, e: Expr, e': Expr, q: Path, p: Path, count: nat, count': nat)
    requires WellFormed(e) && HasSlot(e, q) && HasSlot(e, p) && q <= p && IsOperand(op, At(e, q), p[|q|..])
    requires IsBin(op', At(e, p)) && Rewritten(op', e, e', p, count, count')
    ensures Rewritten(op, e, e', q, count, count')
  {
    hide CompareIn, Denotes, WellFormed, Normal, Eval, Typed, Leaves, Put, HasUnit, Keeps;
    var region, s, x := At(e, q), p[|q|..], At(e', p);
    assert p == q + s;
    RegionSlot(op, e, q, p);
    assert op' == Dual(op);
    NestedStep(op, region, s, x);
    PutThenAt(e, q, Put(region, s, x));
    if count == count' {
      RewrittenNot(op, e, q, count);
    }
  }

  lemma KeepsOutside(op: Op, op': Op, e: Expr, q: Path, p: Path, t: Tree, t': Tree)
    requires HasSlot(e, q) && HasSlot(e, p) && q <= p && IsOperand(op, At(e, q), p[|q|..])
    requires KeepsSlots(op', e, p, t, t')
    ensures KeepsSlots(op, e, q, t, t')
  {
    hide Stable, At, SamePlace;
    forall u | Stable(op, e, q, u) ensures SamePlace(t, t', u) {
      StableInside(op, op', e, q, p, u);
    }
  }

  lemma OperandShape(op: Op, e: Expr, e': Expr)
    requires SameShape(op, e, e')
    ensures IsBin(op, e) <==> IsBin(op, e')
  {
  }

  lemma LeafIrredundant(e: Expr)
    requires !e.Bin?
    ensures Irredundant(e)
  {
    hide JoinOperands;
  }

  /** Different slots hold different nodes. */
  lemma {:induction false} DifferentNodes(t: Tree, e: Expr, p: Path, u: Path)
    requires Stores(t, e) && HasSlot(e, p) && HasSlot(e, u)
    ensures HasPart(t, p) && HasPart(t, u)
    ensures Part(t, p).node == Part(t, u).node <==> p == u
    decreases |p|
  {
    PartAt(t, e, p);
    PartAt(t, e, u);
    if p != [] && u != [] {
      PartAt(ChildTree(t, p[0]), Child(e, p[0]), p[1..]);
      PartAt(ChildTree(t, u[0]), Child(e, u[0]), u[1..]);
      if p[0] == u[0] {
        DifferentNodes(ChildTree(t, p[0]), Child(e, p[0]), p[1..], u[1..]);
        assert p == [p[0]] + p[1..] && u == [u[0]] + u[1..];
      }
    } else if p != [] {
      PartAt(ChildTree(t, p[0]), Child(e, p[0]), p[1..]);
    } else if u != [] {
      PartAt(ChildTree(t, u[0]), Child(e, u[0]), u[1..]);
    }
  }

  lemma Below(p: Path, q: Path)
    requires q <= p
    ensures (p + [Left])[|q|..] == p[|q|..] + [Left] && (p + [Right])[|q|..] == p[|q|..] + [Right]
  {
  }

  /** When the left child has been dealt with, the right one can be, and is smaller. */
  lemma NextChild(op: Op, e: Expr, e': Expr, q: Path, a: Path, b: Path, count: nat, count': nat)
    requires HasSlot(e, q) && Rewritten(op, e, e', q, count, count')
    requires q <= a && InRegion(op, At(e, q), a[|q|..]) && IsBin(op, At(At(e, q), a[|q|..]))
    requires q <= b && InRegion(op, At(e, q), b[|q|..])
    ensures HasSlot(e', q) && WellFormed(e') && Leaves(At(e', q)) <= Leaves(At(e, q)) && count <= count'
    ensures HasSlot(e', a) && IsBin(op, At(e', a)) && SameShape(op, At(e, q), At(e', q))
    ensures e' == Put(e, q, At(e', q)) && (count == count' ==> e' == e)
    ensures InRegion(op, At(e', q), b[|q|..]) && InRegion(op, At(e', q), (a + [Right])[|q|..])
    ensures Width(op, At(At(e', q), (a + [Right])[|q|..])) < Width(op, At(At(e, q), a[|q|..]))
    ensures Width(op, At(At(e', q), b[|q|..])) == Width(op, At(At(e, q), b[|q|..]))
  {
    hide Put, WellFormed, Normal, Eval, Typed, HasUnit, Keeps, Leaves;
    RewrittenKeeps(op, e, e', q, count, count');
    StillInRegion(op, At(e, q), At(e', q), q, a, b, Right);
    SameShapeAt(op, At(e, q), At(e', q), a[|q|..]);
    RegionSlot(op, e', q, a);
    OperandShape(op, At(At(e, q), a[|q|..]), At(At(e', q), a[|q|..]));
  }

  /** A slot of the region is still valid. */
  lemma RegionKept(op: Op, e: Expr, q: Path, p: Path, t: Tree, t': Tree, s: Slot)
    requires HasSlot(e, q) && q <= p && InRegion(op, At(e, q), p[|q|..])
    requires KeepsSlots(op, e, q, t, t') && IsSlot(t, s, p)
    ensures IsSlot(t', s, p)
  {
    hide Stable;
    RegionStable(op, e, q, p);
    SlotKept(t, t', s, p);
  }

  /** The first step of a join, as far as the expression goes. */
  lemma JoinMid(op: Op, root: Expr, p1: Path, p2: Path, q: Path)
    requires HasSlot(root, q) && p1 != p2 && HasSlot(root, p1)
    requires q <= p1 && IsOperand(op, At(root, q), p1[|q|..])
    requires q <= p2 && IsOperand(op, At(root, q), p2[|q|..])
    ensures var region, unit := At(root, q), Sym(Unit(op)); var mid := Put(root, p1, unit);
            && mid == Put(root, q, Put(region, p1[|q|..], unit))
            && HasSlot(mid, q) && At(mid, q) == Put(region, p1[|q|..], unit)
            && IsOperand(op, At(mid, q), p2[|q|..]) && SameShape(op, region, At(mid, q))
            && HasSlot(mid, p2)
  {
    hide Put, SameShape;
    var region, s1, s2, unit := At(root, q), p1[|q|..], p2[|q|..], Sym(Unit(op));
    RegionSlot(op, root, q, p1);
    OperandsIndependent(op, region, s1, s2, unit);
    PutOperandShape(op, region, s1, unit);
    PutThenAt(root, q, Put(region, s1, unit));
    RegionSlot(op, Put(root, p1, unit), q, p2);
  }

  /** Writing at an operand of a region that has just been written. */
  lemma SecondPut(op: Op, root: Expr, m: Expr, p: Path, q: Path, x: Expr)
    requires HasSlot(root, q) && q <= p && IsOperand(op, m, p[|q|..])
    ensures var mid := Put(root, q, m);
            && HasSlot(mid, p)
            && var e' := Put(mid, p, x);
               e' == Put(root, q, Put(m, p[|q|..], x)) && HasSlot(e', q) && At(e', q) == Put(m, p[|q|..], x)
  {
    hide Put;
    PutThenAt(root, q, m);
    RegionSlot(op, Put(root, q, m), q, p);
    PutThenAt(root, q, Put(m, p[|q|..], x));
  }

  /** The two steps of a join. */
  lemma JoinAt(op: Op, root: Expr, p1: Path, p2: Path, q: Path, x: Expr)
    requires WellFormed(root) && HasSlot(root, q) && p1 != p2 && HasSlot(root, p1) && HasSlot(root, p2)
    requires q <= p1 && IsOperand(op, At(root, q), p1[|q|..])
    requires q <= p2 && IsOperand(op, At(root, q), p2[|q|..])
    requires JoinOperands(op, At(root, p1), At(root, p2)) == Some(x)
    ensures var mid := Put(root, p1, Sym(Unit(op)));
            && HasSlot(mid, q) && HasSlot(mid, p2) && mid == Put(root, q, At(mid, q))
            && IsOperand(op, At(mid, q), p2[|q|..]) && SameShape(op, At(root, q), At(mid, q))
            && var e' := Put(mid, p2, x);
               && HasSlot(e', q) && e' == Put(root, q, At(e', q)) && Keeps(op, At(root, q), At(e', q)) && WellFormed(e')
               && HasUnit(At(e', q))
  {
    hide CompareIn, Denotes, WellFormed, Normal, Eval, Typed, JoinOperands, Leaves, Put, HasUnit, Keeps, SameShape,
        InRegion;
    var region, s1, s2 := At(root, q), p1[|q|..], p2[|q|..];
    var m := Put(region, s1, Sym(Unit(op)));
    JoinMid(op, root, p1, p2, q);
    RegionSlot(op, root, q, p1);
    RegionSlot(op, root, q, p2);
    PutKeepsForm(root, q, region);
    assert p1 == q + s1 && p2 == q + s2;
    JoinStep(op, region, s1, s2);
    SecondPut(op, root, m, p2, q, x);
    KeepsForm(op, region, Put(m, s2, x));
    PutKeepsForm(root, q, Put(m, s2, x));
  }

  /** The expression after a walk, and how many joins there were. */
  datatype Round = Round(e: Expr, joins: nat)

  predicate Made(r: Round, e': Expr, count: nat, count': nat) {
    e' == r.e && count' == count + r.joins
  }

  /** The same change with another start of the counter. */
  lemma RewrittenFrom(op: Op, e: Expr, e': Expr, q: Path, a: nat, b: nat, n: nat)
    requires HasSlot(e, q)
    ensures Rewritten(op, e, e', q, a, a + n) <==> Rewritten(op, e, e', q, b, b + n)
  {
    hide Keeps;
  }

  lemma RewrittenSum(op: Op, e: Expr, a: Round, b: Round, q: Path)
    requires HasSlot(e, q) && Rewritten(op, e, a.e, q, 0, a.joins) && HasSlot(a.e, q)
    requires Rewritten(op, a.e, b.e, q, 0, b.joins)
    ensures Rewritten(op, e, b.e, q, 0, a.joins + b.joins)
  {
    hide Rewritten;
    RewrittenFrom(op, a.e, b.e, q, 0, a.joins, b.joins);
    RewrittenTwice(op, e, a.e, b.e, q, 0, a.joins, a.joins + b.joins);
  }

  /**
    What expr_eliminate_dups1 makes of an expression. `q` is the slot of the region that holds `p1` and `p2`:
    nothing outside it changes, the region keeps its value under every assignment, and without joins nothing
    could be joined.
   */
  ghost function Dups1(op: Op, e: Expr, p1: Path, p2: Path, q: Path): (r: Round)
    requires WellFormed(e) && HasSlot(e, q)
    requires q <= p1 && InRegion(op, At(e, q), p1[|q|..])
    requires q <= p2 && InRegion(op, At(e, q), p2[|q|..])
    ensures Rewritten(op, e, r.e, q, 0, r.joins)
    ensures r.joins == 0 ==> Settled(op, At(e, q), p1[|q|..], p2[|q|..])
    decreases Leaves(At(e, q)), Width(op, At(At(e, q), p1[|q|..])) + Width(op, At(At(e, q), p2[|q|..])), 2
  {
    hide CompareIn, Denotes, WellFormed, Normal, Eval, Typed, JoinOperands, Leaves, Put, HasUnit, Keeps, Settled,
        Rewritten;
    if IsBin(op, At(At(e, q), p1[|q|..])) then DupsLeft(op, e, p1, p2, q)
    else if IsBin(op, At(At(e, q), p2[|q|..])) then DupsRight(op, e, p1, p2, q)
    else DupsOperands(op, e, p1, p2, q)
  }

  /** Both children of the first slot are compared with the second. */
  ghost function DupsLeft(op: Op, e: Expr, p1: Path, p2: Path, q: Path): (r: Round)
    requires WellFormed(e) && HasSlot(e, q)
    requires q <= p1 && InRegion(op, At(e, q), p1[|q|..])
    requires q <= p2 && InRegion(op, At(e, q), p2[|q|..])
    requires IsBin(op, At(At(e, q), p1[|q|..]))
    ensures Rewritten(op, e, r.e, q, 0, r.joins)
    ensures r.joins == 0 ==> Settled(op, At(e, q), p1[|q|..], p2[|q|..])
    decreases Leaves(At(e, q)), Width(op, At(At(e, q), p1[|q|..])) + Width(op, At(At(e, q), p2[|q|..])), 0
  {
    hide CompareIn, Denotes, WellFormed, Normal, Eval, Typed, JoinOperands, Leaves, Put, HasUnit, Keeps, Settled,
        Rewritten;
    RegionSlot(op, e, q, p1);
    KeepsReflexive(op, e, q);
    StillInRegion(op, At(e, q), At(e, q), q, p1, p2, Left);
    var a := Dups1(op, e, p1 + [Left], p2, q);
    NextChild(op, e, a.e, q, p1, p2, 0, a.joins);
    var b := Dups1(op, a.e, p1 + [Right], p2, q);
    RewrittenSum(op, e, a, b, q);
    LeftSettled(op, e, a, b, p1, p2, q);
    Round(b.e, a.joins + b.joins)
  }

  /** Both children of the second slot are compared with the first. */
  ghost function DupsRight(op: Op, e: Expr, p1: Path, p2: Path, q: Path): (r: Round)
    requires WellFormed(e) && HasSlot(e, q)
    requires q <= p1 && InRegion(op, At(e, q), p1[|q|..])
    requires q <= p2 && InRegion(op, At(e, q), p2[|q|..])
    requires !IsBin(op, At(At(e, q), p1[|q|..])) && IsBin(op, At(At(e, q), p2[|q|..]))
    ensures Rewritten(op, e, r.e, q, 0, r.joins)
    ensures r.joins == 0 ==> Settled(op, At(e, q), p1[|q|..], p2[|q|..])
    decreases Leaves(At(e, q)), Width(op, At(At(e, q), p1[|q|..])) + Width(op, At(At(e, q), p2[|q|..])), 0
  {
    hide CompareIn, Denotes, WellFormed, Normal, Eval, Typed, JoinOperands, Leaves, Put, HasUnit, Keeps, Settled,
        Rewritten;
    RegionSlot(op, e, q, p2);
    KeepsReflexive(op, e, q);
    StillInRegion(op, At(e, q), At(e, q), q, p2, p1, Left);
    var a := Dups1(op, e, p1, p2 + [Left], q);
    NextChild(op, e, a.e, q, p2, p1, 0, a.joins);
    var b := Dups1(op, a.e, p1, p2 + [Right], q);
    RewrittenSum(op, e, a, b, q);
    RightSettled(op, e, a, b, p1, p2, q);
    Round(b.e, a.joins + b.joins)
  }

  /** Two operands: nothing to do if they are the same, or else the inside of the first and a join. */
  ghost function DupsOperands(op: Op, e: Expr, p1: Path, p2: Path, q: Path): (r: Round)
    requires WellFormed(e) && HasSlot(e, q)
    requires q <= p1 && InRegion(op, At(e, q), p1[|q|..])
    requires q <= p2 && InRegion(op, At(e, q), p2[|q|..])
    requires !IsBin(op, At(At(e, q), p1[|q|..])) && !IsBin(op, At(At(e, q), p2[|q|..]))
    ensures Rewritten(op, e, r.e, q, 0, r.joins)
    ensures r.joins == 0 ==> Settled(op, At(e, q), p1[|q|..], p2[|q|..])
    decreases Leaves(At(e, q)), Width(op, At(At(e, q), p1[|q|..])) + Width(op, At(At(e, q), p2[|q|..])), 1
  {
    hide CompareIn, Denotes, WellFormed, Normal, Eval, Typed, JoinOperands, Leaves, Put, HasUnit, Keeps, Settled,
        Rewritten;
    RegionSlot(op, e, q, p1);
    RegionSlot(op, e, q, p2);
    SameSuffix(p1, p2, q);
    RewrittenNot(op, e, q, 0);
    if p1 == p2 then
      SettledOperands(op, At(e, q), p1[|q|..], p2[|q|..]);
      Round(e, 0)
    else
      OperandBelowTop(op, At(e, q), p1[|q|..], p2[|q|..]);
      var a := DupsInside(op, e, p1, q);
      StillOperands(op, e, a.e, p1, p2, q, a.joins);
      var b := DupsJoin(op, a.e, p1, p2, q);
      RewrittenSum(op, e, a, b, q);
      OperandsSettled(op, e, a, b, p1, p2, q);
      Round(b.e, a.joins + b.joins)
  }

  /** The inside of an operand that is itself a region, of the other operator. */
  ghost function DupsInside(op: Op, e: Expr, p: Path, q: Path): (r: Round)
    requires WellFormed(e) && HasSlot(e, q) && HasSlot(e, p) && q <= p && IsOperand(op, At(e, q), p[|q|..])
    requires At(e, p) == At(At(e, q), p[|q|..]) && Leaves(At(e, p)) < Leaves(At(e, q))
    ensures Rewritten(op, e, r.e, q, 0, r.joins)
    ensures r.joins == 0 && At(e, p).Bin? ==> Settled(At(e, p).op, At(e, p), [], [])
    decreases Leaves(At(e, q)), 0, 0
  {
    hide CompareIn, Denotes, WellFormed, Normal, Eval, Typed, JoinOperands, Leaves, Put, HasUnit, Keeps, Settled,
        Rewritten;
    RewrittenNot(op, e, q, 0);
    if At(e, p).Bin? then
      assert p[|p|..] == [];
      var r := Dups1(At(e, p).op, e, p, p, p);
      RewrittenOutside(op, At(e, p).op, e, r.e, q, p, 0, r.joins);
      r
    else Round(e, 0)
  }

  /** The join of two operands: the first slot gets the unit, the second what they are joined into. */
  ghost function DupsJoin(op: Op, e: Expr, p1: Path, p2: Path, q: Path): (r: Round)
    requires WellFormed(e) && HasSlot(e, q) && p1 != p2 && HasSlot(e, p1) && HasSlot(e, p2)
    requires q <= p1 && IsOperand(op, At(e, q), p1[|q|..])
    requires q <= p2 && IsOperand(op, At(e, q), p2[|q|..])
    ensures Rewritten(op, e, r.e, q, 0, r.joins)
    ensures r.joins == 0 <==> JoinOperands(op, At(e, p1), At(e, p2)).None?
  {
    hide CompareIn, Denotes, WellFormed, Normal, Eval, Typed, JoinOperands, Leaves, Put, HasUnit, Keeps, SameShape;
    RewrittenNot(op, e, q, 0);
    match JoinOperands(op, At(e, p1), At(e, p2))
    case None => Round(e, 0)
    case Some(x) =>
      JoinAt(op, e, p1, p2, q, x);
      Round(Put(Put(e, p1, Sym(Unit(op))), p2, x), 1)
  }

  lemma LeftSettled(op: Op, e: Expr, a: Round, b: Round, p1: Path, p2: Path, q: Path)
    requires HasSlot(e, q) && q <= p1 && q <= p2
    requires InRegion(op, At(e, q), p1[|q|..]) && InRegion(op, At(e, q), p2[|q|..]) && IsBin(op, At(At(e, q), p1[|q|..]))
    requires InRegion(op, At(e, q), (p1 + [Left])[|q|..]) && HasSlot(a.e, q) && InRegion(op, At(a.e, q), p2[|q|..])
    requires InRegion(op, At(a.e, q), (p1 + [Right])[|q|..]) && (a.joins == 0 ==> a.e == e)
    requires a.joins == 0 ==> Settled(op, At(e, q), (p1 + [Left])[|q|..], p2[|q|..])
    requires b.joins == 0 ==> Settled(op, At(a.e, q), (p1 + [Right])[|q|..], p2[|q|..])
    ensures a.joins + b.joins == 0 ==> Settled(op, At(e, q), p1[|q|..], p2[|q|..])
  {
    hide Settled, InRegion;
    if a.joins + b.joins == 0 {
      Below(p1, q);
      SettledLeft(op, At(e, q), p1[|q|..], p2[|q|..]);
    }
  }

  lemma RightSettled(op: Op, e: Expr, a: Round, b: Round, p1: Path, p2: Path, q: Path)
    requires HasSlot(e, q) && q <= p1 && q <= p2
    requires InRegion(op, At(e, q), p1[|q|..]) && InRegion(op, At(e, q), p2[|q|..]) && IsBin(op, At(At(e, q), p2[|q|..]))
    requires InRegion(op, At(e, q), (p2 + [Left])[|q|..]) && HasSlot(a.e, q) && InRegion(op, At(a.e, q), p1[|q|..])
    requires InRegion(op, At(a.e, q), (p2 + [Right])[|q|..]) && (a.joins == 0 ==> a.e == e)
    requires a.joins == 0 ==> Settled(op, At(e, q), p1[|q|..], (p2 + [Left])[|q|..])
    requires b.joins == 0 ==> Settled(op, At(a.e, q), p1[|q|..], (p2 + [Right])[|q|..])
    ensures a.joins + b.joins == 0 ==> Settled(op, At(e, q), p1[|q|..], p2[|q|..])
  {
    hide Settled, InRegion;
    if a.joins + b.joins == 0 {
      Below(p2, q);
      SettledRight(op, At(e, q), p1[|q|..], p2[|q|..]);
    }
  }

  lemma SameSuffix(p1: Path, p2: Path, q: Path)
    requires q <= p1 && q <= p2
    ensures p1 == q + p1[|q|..] && p2 == q + p2[|q|..] && (p1 == p2 <==> p1[|q|..] == p2[|q|..])
  {
  }

  /** Operands are still there when the inside of one has been rewritten. */
  lemma StillOperands(op: Op, e: Expr, e': Expr, p1: Path, p2: Path, q: Path, joins: nat)
    requires HasSlot(e, q) && Rewritten(op, e, e', q, 0, joins)
    requires q <= p1 && IsOperand(op, At(e, q), p1[|q|..])
    requires q <= p2 && IsOperand(op, At(e, q), p2[|q|..])
    ensures HasSlot(e', q) && WellFormed(e') && HasSlot(e', p1) && HasSlot(e', p2) && (joins == 0 ==> e' == e)
    ensures IsOperand(op, At(e', q), p1[|q|..]) && At(e', p1) == At(At(e', q), p1[|q|..])
    ensures IsOperand(op, At(e', q), p2[|q|..]) && At(e', p2) == At(At(e', q), p2[|q|..])
    ensures SameShape(op, At(e, q), At(e', q)) && e' == Put(e, q, At(e', q)) && Leaves(At(e', q)) <= Leaves(At(e, q))
  {
    hide Put, WellFormed, Normal, Eval, Typed, HasUnit, Keeps, Leaves, Rewritten;
    RewrittenKeeps(op, e, e', q, 0, joins);
    SameShapeAt(op, At(e, q), At(e', q), p1[|q|..]);
    SameShapeAt(op, At(e, q), At(e', q), p2[|q|..]);
    OperandShape(op, At(At(e, q), p1[|q|..]), At(At(e', q), p1[|q|..]));
    OperandShape(op, At(At(e, q), p2[|q|..]), At(At(e', q), p2[|q|..]));
    RegionSlot(op, e', q, p1);
    RegionSlot(op, e', q, p2);
  }

  lemma OperandsSettled(op: Op, e: Expr, a: Round, b: Round, p1: Path, p2: Path, q: Path)
    requires HasSlot(e, q) && HasSlot(e, p1) && HasSlot(e, p2) && HasSlot(a.e, p1) && HasSlot(a.e, p2)
    requires q <= p1 && IsOperand(op, At(e, q), p1[|q|..]) && At(e, p1) == At(At(e, q), p1[|q|..])
    requires q <= p2 && IsOperand(op, At(e, q), p2[|q|..]) && At(e, p2) == At(At(e, q), p2[|q|..])
    requires a.joins == 0 ==> a.e == e
    requires a.joins == 0 && At(e, p1).Bin? ==> Settled(At(e, p1).op, At(e, p1), [], [])
    requires b.joins == 0 ==> JoinOperands(op, At(a.e, p1), At(a.e, p2)).None?
    ensures a.joins + b.joins == 0 ==> Settled(op, At(e, q), p1[|q|..], p2[|q|..])
  {
    hide Settled, JoinOperands, IsOperand, Irredundant;
    if a.joins + b.joins == 0 {
      if At(e, p1).Bin? {
        SettledTop(At(e, p1).op, At(e, p1));
      } else {
        LeafIrredundant(At(e, p1));
      }
      SettledOperands(op, At(e, q), p1[|q|..], p2[|q|..]);
    }
  }

  /** One round of expr_eliminate_dups. */
  ghost function DupsRound(e: Expr): (r: Round)
    requires WellFormed(e)
    ensures WellFormed(r.e) && (Normal(e) ==> Normal(r.e)) && Leaves(r.e) <= Leaves(e)
    ensures forall env | Typed(env) :: Eval(env, r.e) == Eval(env, e)
    ensures if r.joins == 0 then r.e == e && Irredundant(e) else HasUnit(r.e)
  {
    hide CompareIn, Denotes, WellFormed, Normal, Eval, Typed, Leaves, JoinOperands, HasUnit, Settled, Irredundant;
    if e.Bin? then
      var r := Dups1(e.op, e, [], [], []);
      RoundKeeps(e, r);
      r
    else
      LeafIrredundant(e);
      Round(e, 0)
  }

  lemma RoundKeeps(e: Expr, r: Round)
    requires WellFormed(e) && e.Bin? && Rewritten(e.op, e, r.e, [], 0, r.joins)
    requires r.joins == 0 ==> Settled(e.op, e, [], [])
    ensures WellFormed(r.e) && (Normal(e) ==> Normal(r.e)) && Leaves(r.e) <= Leaves(e)
    ensures forall env | Typed(env) :: Eval(env, r.e) == Eval(env, e)
    ensures if r.joins == 0 then r.e == e && Irredundant(e) else HasUnit(r.e)
  {
    hide CompareIn, Denotes, WellFormed, Normal, Eval, Typed, Leaves, JoinOperands, HasUnit, Settled, Irredundant;
    if r.joins == 0 {
      SettledTop(e.op, e);
    }
  }

  /** What expr_eliminate_dups makes of an expression: rounds of joining and folding until nothing is joined. */
  ghost function Deduplicated(e: Expr): (d: Expr)
    requires WellFormed(e)
    ensures WellFormed(d) && (Normal(e) ==> Normal(d)) && Irredundant(d) && Apart(d)
    ensures forall env | Typed(env) :: Eval(env, d) == Eval(env, e)
    decreases Leaves(e)
  {
    hide CompareIn, Denotes, WellFormed, Normal, Eval, Typed, HasUnit, Irredundant, Apart;
    var r := DupsRound(e);
    if r.joins == 0 then
      IrredundantApart(e);
      e
    else
      EliminateYnShrinks(r.e);
      EliminateYnKeepsForm(r.e);
      FoldKeepsValue(r.e);
      Deduplicated(EliminateYn(r.e))
  }

  lemma FoldKeepsValue(e: Expr)
    ensures forall env | Typed(env) :: Eval(env, EliminateYn(e)) == Eval(env, e)
  {
    hide Eval, Typed, EliminateYn;
    forall env | Typed(env) ensures Eval(env, EliminateYn(e)) == Eval(env, e) {
      EliminateYnPreservesValue(env, e);
    }
  }

  /** What expr_join_or and expr_join_and look at in an operand: nothing deeper than below one negation. */
  method ReadSimple(n: Node, ghost t: Tree, ghost e: Expr) returns (a: Option<Expr>)
    requires Stores(t, e) && t.node == n
    ensures a.Some? ==> a.value == e
    ensures a.None? ==> !IsSimple(e) || LeftSubject(e).None?
  {
    match n.kind {
      case IsSymbol =>
        a := Some(Sym(n.left.s));
      case IsComp(rel) =>
        a := if rel.Equal? || rel.Unequal? then Some(Comp(rel, n.left.s, n.right.s)) else None;
      case IsNot =>
        var below := n.left.node;
        KindAt(t.l, e.e);
        a := None;
        match below.kind {
          case IsSymbol =>
            a := Some(Neg(Sym(below.left.s)));
          case IsComp(rel) =>
            if rel.Equal? || rel.Unequal? {
              a := Some(Neg(Comp(rel, below.left.s, below.right.s)));
            }
          case _ =>
        }
      case IsOp(_) =>
        a := None;
    }
  }

  /** expr_join_or and expr_join_and: new nodes for what the two operands are joined into, or null. */
  method JoinNodes(op: Op, n1: Node, n2: Node, ghost t1: Tree, ghost t2: Tree, ghost e1: Expr, ghost e2: Expr)
    returns (m: Node?, ghost x: Option<Expr>, ghost t: Tree)
    requires Stores(t1, e1) && Stores(t2, e2) && Nodes(t1) !! Nodes(t2) && t1.node == n1 && t2.node == n2
    ensures x == JoinOperands(op, e1, e2) && (m == null <==> x.None?)
    ensures m != null ==> Stores(t, x.value) && t.node == m && fresh(Nodes(t))
  {
    hide ExprEq, JoinDifferent, Stores, Nodes;
    m, t := null, t1;
    ghost var s1 := Footprint(t1);
    ghost var s2 := Footprint(t2);
    var eliminator := new Eliminator();
    var equal := eliminator.ExprEqInPlace(n1, n2, t1, t2, e1, e2);
    if equal {
      m, t := Copy(n1, t1, e1);
      x := Some(e1);
      return;
    }
    var a := ReadSimple(n1, t1, e1);
    var b := ReadSimple(n2, t2, e2);
    JoinOfSimple(op, e1, e2);
    if a.None? || b.None? {
      x := None;
      return;
    }
    var joined := JoinDifferent(op, a.value, b.value);
    x := joined;
    if joined.Some? {
      m, t := Build(joined.value);
    }
  }

  lemma JoinOfSimple(op: Op, e1: Expr, e2: Expr)
    ensures !ExprEq(e1, e2) ==> JoinOperands(op, e1, e2) == JoinDifferent(op, e1, e2)
    ensures !IsSimple(e1) || LeftSubject(e1).None? || !IsSimple(e2) || LeftSubject(e2).None? ==>
              JoinDifferent(op, e1, e2).None?
  {
    hide ExprEq;
  }

  /** Two operands do not share nodes. */
  lemma OperandsApart(op: Op, t: Tree, e: Expr, p1: Path, p2: Path, q: Path)
    requires Stores(t, e) && HasSlot(e, q) && p1 != p2 && HasSlot(e, p1) && HasSlot(e, p2)
    requires q <= p1 && IsOperand(op, At(e, q), p1[|q|..])
    requires q <= p2 && IsOperand(op, At(e, q), p2[|q|..])
    ensures HasPart(t, p1) && HasPart(t, p2) && Nodes(Part(t, p1)) !! Nodes(Part(t, p2))
    ensures Nodes(Part(t, p1)) <= Nodes(t) && Nodes(Part(t, p2)) <= Nodes(t)
    ensures Stores(Part(t, p1), At(e, p1)) && Stores(Part(t, p2), At(e, p2))
  {
    hide Stores, At;
    SameSuffix(p1, p2, q);
    PartAt(t, e, p1);
    PartAt(t, e, p2);
    RegionStable(op, e, q, p1);
    RegionStable(op, e, q, p2);
    StableNotBehind(op, e, q, p1, p2);
    StableNotBehind(op, e, q, p2, p1);
    PartsApart(t, e, p1, p2);
  }

  lemma {:induction false} PartsApart(t: Tree, e: Expr, p: Path, u: Path)
    requires Stores(t, e) && HasSlot(e, p) && HasSlot(e, u) && !(p <= u) && !(u <= p)
    ensures HasPart(t, p) && HasPart(t, u) && Nodes(Part(t, p)) !! Nodes(Part(t, u))
    decreases |p|
  {
    PartAt(t, e, p);
    PartAt(t, e, u);
    PartAt(ChildTree(t, p[0]), Child(e, p[0]), p[1..]);
    PartAt(ChildTree(t, u[0]), Child(e, u[0]), u[1..]);
    if p[0] == u[0] {
      assert p[1..] <= u[1..] ==> p <= u;
      assert u[1..] <= p[1..] ==> u <= p;
      PartsApart(ChildTree(t, p[0]), Child(e, p[0]), p[1..], u[1..]);
    }
  }

  class Optimiser {
    /** The expression being optimised. */
    var top: Node
    var transCount: nat
    ghost var root: Expr
    ghost var tree: Tree

    constructor (e: Expr)
      ensures Valid() && root == e && transCount == 0 && fresh(Nodes(tree))
    {
      var n;
      ghost var t;
      n, t := Build(e);
      top, root, tree, transCount := n, e, t, 0;
    }

    /** The nodes hold the expression. */
    ghost predicate Valid()
      reads this, Nodes(tree)
    {
      tree.node == top && Stores(tree, root)
    }

    /** The optimised expression as a value. */
    method Result() returns (e: Expr)
      requires Valid()
      ensures e == root
    {
      e := ReadBack(top, tree, root);
    }

    /** `*s`. */
    method Get(s: Slot, ghost p: Path) returns (n: Node)
      requires Valid() && HasSlot(root, p) && IsSlot(tree, s, p)
      ensures Stores(Part(tree, p), At(root, p)) && n == Part(tree, p).node
    {
      PartAt(tree, root, p);
      match s
      case Top => n := top;
      case Side(m, d) => n := if d.Left? then m.left.node else m.right.node;
    }

    /** `*s = n`. */
    method Set(s: Slot, n: Node, ghost p: Path, ghost x: Tree, ghost ex: Expr)
      requires Valid() && HasSlot(root, p) && IsSlot(tree, s, p)
      requires Stores(x, ex) && x.node == n && Nodes(x) !! Nodes(tree)
      modifies this`top, this`root, this`tree, Nodes(tree)
      ensures Valid() && root == Put(old(root), p, ex) && tree == PutPart(old(tree), p, x)
      ensures Nodes(tree) <= old(Nodes(tree)) + Nodes(x)
    {
      hide Put, PutPart, Part, At, Stores, Nodes;
      match s {
        case Top =>
          top := n;
          PutAtTop(root, ex, tree, x);
          assert p == [];
        case Side(m, d) =>
          SideOwner(tree, m, d, p);
          WriteSide(m, d, n, tree, root, p, x, ex);
      }
      root, tree := Put(root, p, ex), PutPart(tree, p, x);
    }

    lemma PutAtTop(e: Expr, ex: Expr, t: Tree, x: Tree)
      ensures Put(e, [], ex) == ex && PutPart(t, [], x) == x
    {
    }

    /**
      expr_eliminate_dups1(op, ep1, ep2), where the slots are those of the paths `p1` and `p2`. `q` is the slot
      of the region that holds both: nothing outside it changes, and the region keeps its value under every
      assignment. Slots that do not lie below an operand of the region stay where they are.
     */
    method EliminateDups1(op: Op, ep1: Slot, ep2: Slot, ghost p1: Path, ghost p2: Path, ghost q: Path)
      requires Valid() && WellFormed(root) && HasSlot(root, q)
      requires q <= p1 && InRegion(op, At(root, q), p1[|q|..]) && IsSlot(tree, ep1, p1)
      requires q <= p2 && InRegion(op, At(root, q), p2[|q|..]) && IsSlot(tree, ep2, p2)
      modifies this, Nodes(tree)
      ensures Valid() && fresh(Nodes(tree) - old(Nodes(tree))) && KeepsSlots(op, old(root), q, old(tree), tree)
      ensures Made(Dups1(op, old(root), p1, p2, q), root, old(transCount), transCount)
      ensures Rewritten(op, old(root), root, q, old(transCount), transCount)
      ensures transCount == old(transCount) ==> Settled(op, At(root, q), p1[|q|..], p2[|q|..])
      decreases Leaves(At(root, q)),
                Width(op, At(At(root, q), p1[|q|..])) + Width(op, At(At(root, q), p2[|q|..])), 2
    {
      hide CompareIn, Denotes, WellFormed, Normal, Eval, Typed, JoinOperands, Leaves, Put, HasUnit, Keeps, Stores,
          KeepsSlots, Part, IsSlot, Settled, Rewritten, IsOperand, Nodes;
      ghost var start := root;
      ghost var nodes := Footprint(tree);
      RegionSlot(op, root, q, p1);
      RegionSlot(op, root, q, p2);
      PartAt(tree, root, p1);
      PartAt(tree, root, p2);
      var e1 := Get(ep1, p1);
      var e2 := Get(ep2, p2);
      KindAt(Part(tree, p1), At(root, p1));
      KindAt(Part(tree, p2), At(root, p2));
      if e1.kind == IsOp(op) {
        EliminateLeft(op, ep1, ep2, p1, p2, q);
      } else if e2.kind == IsOp(op) {
        EliminateRight(op, ep1, ep2, p1, p2, q);
      } else {
        CompareOperands(op, ep1, ep2, p1, p2, q);
      }
      ghost var more := Footprint(tree);
      assert fresh(more - nodes);
      ghost var r := Dups1(op, start, p1, p2, q);
      RewrittenFrom(op, start, r.e, q, 0, old(transCount), r.joins);
      RewrittenKeeps(op, start, r.e, q, 0, r.joins);
    }

    /** Both children of the first slot are compared with the second. */
    method EliminateLeft(op: Op, ep1: Slot, ep2: Slot, ghost p1: Path, ghost p2: Path, ghost q: Path)
      requires Valid() && WellFormed(root) && HasSlot(root, q)
      requires q <= p1 && InRegion(op, At(root, q), p1[|q|..]) && IsSlot(tree, ep1, p1)
      requires q <= p2 && InRegion(op, At(root, q), p2[|q|..]) && IsSlot(tree, ep2, p2)
      requires IsBin(op, At(At(root, q), p1[|q|..]))
      modifies this, Nodes(tree)
      ensures Valid() && fresh(Nodes(tree) - old(Nodes(tree))) && KeepsSlots(op, old(root), q, old(tree), tree)
      ensures Made(DupsLeft(op, old(root), p1, p2, q), root, old(transCount), transCount)
      decreases Leaves(At(root, q)),
                Width(op, At(At(root, q), p1[|q|..])) + Width(op, At(At(root, q), p2[|q|..])), 0
    {
      hide CompareIn, Denotes, WellFormed, Normal, Eval, Typed, JoinOperands, Leaves, Put, HasUnit, Keeps, Stores,
          KeepsSlots, Part, IsSlot, Settled, Rewritten, IsOperand, Nodes;
      ghost var start, before := root, tree;
      ghost var nodes := Footprint(tree);
      RegionSlot(op, root, q, p1);
      KeepsReflexive(op, root, q);
      StillInRegion(op, At(root, q), At(root, q), q, p1, p2, Left);
      var n := Get(ep1, p1);
      ChildSlotOf(tree, root, p1, Left);
      EliminateDups1(op, Side(n, Left), ep2, p1 + [Left], p2, q);
      NextChild(op, start, root, q, p1, p2, 0, Dups1(op, start, p1 + [Left], p2, q).joins);
      ghost var between, now := root, tree;
      ghost var more := Footprint(tree);
      assert fresh(more - nodes);
      RegionKept(op, start, q, p1, before, now, ep1);
      RegionKept(op, start, q, p2, before, now, ep2);
      n := Get(ep1, p1);
      ChildSlotOf(tree, root, p1, Right);
      EliminateDups1(op, Side(n, Right), ep2, p1 + [Right], p2, q);
      ghost var last := Footprint(tree);
      assert fresh(last - nodes);
      KeepsSlotsTwice(op, start, between, q, before, now, tree);
    }

    /** Both children of the second slot are compared with the first. */
    method EliminateRight(op: Op, ep1: Slot, ep2: Slot, ghost p1: Path, ghost p2: Path, ghost q: Path)
      requires Valid() && WellFormed(root) && HasSlot(root, q)
      requires q <= p1 && InRegion(op, At(root, q), p1[|q|..]) && IsSlot(tree, ep1, p1)
      requires q <= p2 && InRegion(op, At(root, q), p2[|q|..]) && IsSlot(tree, ep2, p2)
      requires !IsBin(op, At(At(root, q), p1[|q|..])) && IsBin(op, At(At(root, q), p2[|q|..]))
      modifies this, Nodes(tree)
      ensures Valid() && fresh(Nodes(tree) - old(Nodes(tree))) && KeepsSlots(op, old(root), q, old(tree), tree)
      ensures Made(DupsRight(op, old(root), p1, p2, q), root, old(transCount), transCount)
      decreases Leaves(At(root, q)),
                Width(op, At(At(root, q), p1[|q|..])) + Width(op, At(At(root, q), p2[|q|..])), 0
    {
      hide CompareIn, Denotes, WellFormed, Normal, Eval, Typed, JoinOperands, Leaves, Put, HasUnit, Keeps, Stores,
          KeepsSlots, Part, IsSlot, Settled, Rewritten, IsOperand, Nodes;
      ghost var start, before := root, tree;
      ghost var nodes := Footprint(tree);
      RegionSlot(op, root, q, p2);
      KeepsReflexive(op, root, q);
      StillInRegion(op, At(root, q), At(root, q), q, p2, p1, Left);
      var n := Get(ep2, p2);
      ChildSlotOf(tree, root, p2, Left);
      EliminateDups1(op, ep1, Side(n, Left), p1, p2 + [Left], q);
      NextChild(op, start, root, q, p2, p1, 0, Dups1(op, start, p1, p2 + [Left], q).joins);
      ghost var between, now := root, tree;
      ghost var more := Footprint(tree);
      assert fresh(more - nodes);
      RegionKept(op, start, q, p1, before, now, ep1);
      RegionKept(op, start, q, p2, before, now, ep2);
      n := Get(ep2, p2);
      ChildSlotOf(tree, root, p2, Right);
      EliminateDups1(op, ep1, Side(n, Right), p1, p2 + [Right], q);
      ghost var last := Footprint(tree);
      assert fresh(last - nodes);
      KeepsSlotsTwice(op, start, between, q, before, now, tree);
    }

    /** Two operands: nothing to do if the slots are the same, or else the inside of the first and a join. */
    method CompareOperands(op: Op, ep1: Slot, ep2: Slot, ghost p1: Path, ghost p2: Path, ghost q: Path)
      requires Valid() && WellFormed(root) && HasSlot(root, q)
      requires q <= p1 && InRegion(op, At(root, q), p1[|q|..]) && IsSlot(tree, ep1, p1)
      requires q <= p2 && InRegion(op, At(root, q), p2[|q|..]) && IsSlot(tree, ep2, p2)
      requires !IsBin(op, At(At(root, q), p1[|q|..])) && !IsBin(op, At(At(root, q), p2[|q|..]))
      modifies this, Nodes(tree)
      ensures Valid() && fresh(Nodes(tree) - old(Nodes(tree))) && KeepsSlots(op, old(root), q, old(tree), tree)
      ensures Made(DupsOperands(op, old(root), p1, p2, q), root, old(transCount), transCount)
      decreases Leaves(At(root, q)),
                Width(op, At(At(root, q), p1[|q|..])) + Width(op, At(At(root, q), p2[|q|..])), 1
    {
      hide CompareIn, Denotes, WellFormed, Normal, Eval, Typed, JoinOperands, Leaves, Put, HasUnit, Keeps, Stores,
          KeepsSlots, Part, IsSlot, Settled, Rewritten, Nodes;
      ghost var start, before := root, tree;
      ghost var nodes := Footprint(tree);
      SameSuffix(p1, p2, q);
      RegionSlot(op, root, q, p1);
      RegionSlot(op, root, q, p2);
      PartAt(tree, root, p1);
      PartAt(tree, root, p2);
      DifferentNodes(tree, root, p1, p2);
      KeepsSlotsItself(op, root, q, tree);
      var e1 := Get(ep1, p1);
      var e2 := Get(ep2, p2);
      if e1 == e2 {
        assert nodes - nodes == {};
        return;
      }
      OperandBelowTop(op, At(root, q), p1[|q|..], p2[|q|..]);
      ghost var a := DupsInside(op, start, p1, q);
      InsideFirst(op, ep1, p1, q);
      StillOperands(op, start, root, p1, p2, q, a.joins);
      ghost var between, now := root, tree;
      ghost var more := Footprint(tree);
      assert fresh(more - nodes);
      RegionKept(op, start, q, p1, before, now, ep1);
      RegionKept(op, start, q, p2, before, now, ep2);
      JoinSlots(op, ep1, ep2, p1, p2, q);
      ghost var last := Footprint(tree);
      assert fresh(last - nodes);
      KeepsSlotsTwice(op, start, between, q, before, now, tree);
    }

    /** The inside of an operand that is itself a region, of the other operator. */
    method InsideFirst(op: Op, ep1: Slot, ghost p1: Path, ghost q: Path)
      requires Valid() && WellFormed(root) && HasSlot(root, q) && HasSlot(root, p1)
      requires q <= p1 && IsOperand(op, At(root, q), p1[|q|..]) && IsSlot(tree, ep1, p1)
      requires At(root, p1) == At(At(root, q), p1[|q|..]) && Leaves(At(root, p1)) < Leaves(At(root, q))
      modifies this, Nodes(tree)
      ensures Valid() && fresh(Nodes(tree) - old(Nodes(tree))) && KeepsSlots(op, old(root), q, old(tree), tree)
      ensures Made(DupsInside(op, old(root), p1, q), root, old(transCount), transCount)
      decreases Leaves(At(root, q)), 0, 0
    {
      hide CompareIn, Denotes, WellFormed, Normal, Eval, Typed, JoinOperands, Leaves, Put, HasUnit, Keeps, Stores,
          KeepsSlots, Part, IsSlot, Settled, Rewritten, Nodes;
      ghost var start, before := root, tree;
      ghost var nodes := Footprint(tree);
      PartAt(tree, root, p1);
      KindAt(Part(tree, p1), At(root, p1));
      KeepsSlotsItself(op, root, q, tree);
      var e1 := Get(ep1, p1);
      if e1.kind.IsOp? {
        var op' := e1.kind.op;
        assert p1[|p1|..] == [];
        EliminateDups1(op', ep1, ep1, p1, p1, p1);
        KeepsOutside(op, op', start, q, p1, before, tree);
        ghost var more := Footprint(tree);
        assert fresh(more - nodes);
      } else {
        assert nodes - nodes == {};
      }
    }

    /** The join of two operands, the last part of expr_eliminate_dups1. */
    method JoinSlots(op: Op, ep1: Slot, ep2: Slot, ghost p1: Path, ghost p2: Path, ghost q: Path)
      requires Valid() && WellFormed(root) && HasSlot(root, q) && p1 != p2 && HasSlot(root, p1) && HasSlot(root, p2)
      requires q <= p1 && IsOperand(op, At(root, q), p1[|q|..]) && IsSlot(tree, ep1, p1)
      requires q <= p2 && IsOperand(op, At(root, q), p2[|q|..]) && IsSlot(tree, ep2, p2)
      modifies this, Nodes(tree)
      ensures Valid() && fresh(Nodes(tree) - old(Nodes(tree))) && KeepsSlots(op, old(root), q, old(tree), tree)
      ensures Made(DupsJoin(op, old(root), p1, p2, q), root, old(transCount), transCount)
    {
      hide CompareIn, Denotes, WellFormed, Normal, Eval, Typed, JoinOperands, Leaves, Put, HasUnit, Keeps, Stores,
          KeepsSlots, PutPart, Part, IsSlot, Nodes, Rewritten;
      ghost var nodes := Footprint(tree);
      KeepsSlotsItself(op, root, q, tree);
      OperandsApart(op, tree, root, p1, p2, q);
      var n1 := Get(ep1, p1);
      var n2 := Get(ep2, p2);
      var m;
      ghost var x, t;
      m, x, t := JoinNodes(op, n1, n2, Part(tree, p1), Part(tree, p2), At(root, p1), At(root, p2));
      if m != null {
        WriteJoin(op, ep1, ep2, p1, p2, q, m, t, x.value);
        ghost var more := Footprint(tree);
        assert fresh(more - nodes);
      } else {
        assert nodes - nodes == {};
      }
    }

    /** expr_eliminate_dups: rounds of joining and folding until a round joins nothing. */
    method EliminateDups()
      requires Valid() && WellFormed(root)
      modifies this, Nodes(tree)
      ensures Valid() && root == Deduplicated(old(root)) && Apart(root)
      ensures fresh(Nodes(tree) - old(Nodes(tree)))
      ensures transCount == old(transCount)
    {
      hide CompareIn, Denotes, WellFormed, Normal, Eval, Typed, Stores, Nodes;
      var oldCount := transCount;
      ghost var nodes := Footprint(tree);
      while true
        invariant Valid() && WellFormed(root) && Deduplicated(root) == Deduplicated(old(root))
        invariant fresh(Nodes(tree) - nodes)
        decreases Leaves(root)
      {
        ghost var earlier := Footprint(tree);
        JoinRound();
        ghost var later := Footprint(tree);
        assert fresh(later - earlier) && fresh(later - nodes);
        if transCount == 0 {
          break;
        }
        EliminateYnShrinks(root);
        EliminateYnKeepsForm(root);
        ghost var folded := EliminateYnInPlace(top, tree, root);
        root, tree := EliminateYn(root), folded;
      }
      transCount := oldCount;
    }

    /** One round: the counter is zero afterwards exactly if nothing could be joined. */
    method JoinRound()
      requires Valid() && WellFormed(root)
      modifies this, Nodes(tree)
      ensures Valid() && fresh(Nodes(tree) - old(Nodes(tree)))
      ensures root == DupsRound(old(root)).e && transCount == DupsRound(old(root)).joins
    {
      hide CompareIn, Denotes, WellFormed, Normal, Eval, Typed, Stores, KeepsSlots, Leaves, JoinOperands, Nodes;
      ghost var known := Footprint(tree);
      transCount := 0;
      KindAt(tree, root);
      if top.kind.IsOp? {
        EliminateDups1(top.kind.op, Top, Top, [], [], []);
        ghost var more := Footprint(tree);
        assert fresh(more - known);
      } else {
        assert known - known == {};
      }
    }

    /** The two operands are freed and overwritten: the first by the unit, the second by what they are joined into. */
    method WriteJoin(op: Op, ep1: Slot, ep2: Slot, ghost p1: Path, ghost p2: Path, ghost q: Path, m: Node,
                     ghost t: Tree, ghost joined: Expr)
      requires Valid() && WellFormed(root) && HasSlot(root, q) && p1 != p2 && HasSlot(root, p1) && HasSlot(root, p2)
      requires q <= p1 && IsOperand(op, At(root, q), p1[|q|..]) && IsSlot(tree, ep1, p1)
      requires q <= p2 && IsOperand(op, At(root, q), p2[|q|..]) && IsSlot(tree, ep2, p2)
      requires JoinOperands(op, At(root, p1), At(root, p2)) == Some(joined)
      requires Stores(t, joined) && t.node == m && Nodes(t) !! Nodes(tree)
      modifies this, Nodes(tree)
      ensures Valid() && KeepsSlots(op, old(root), q, old(tree), tree)
      ensures forall x :: x in Nodes(tree) ==> x in old(Nodes(tree)) || x in Nodes(t) || fresh(x)
      ensures HasSlot(Put(old(root), p1, Sym(Unit(op))), p2)
      ensures root == Put(Put(old(root), p1, Sym(Unit(op))), p2, joined) && transCount == old(transCount) + 1
    {
      hide CompareIn, Denotes, WellFormed, Normal, Eval, Typed, JoinOperands, Leaves, Put, HasUnit, Keeps, Stores,
          SamePlace, HasPart, PutPart, Part, Stable;
      ghost var start, unit, before := root, Sym(Unit(op)), tree;
      ghost var nodes := Footprint(tree);
      ghost var joinedNodes := Footprint(t);
      JoinAt(op, start, p1, p2, q, joined);
      var n;
      ghost var u;
      n, u := Build(Sym(Unit(op)));
      PutKeepsSlots(op, root, q, p1, tree, u);
      RegionStable(op, root, q, p2);
      Set(ep1, n, p1, u, unit);
      SlotKept(before, tree, ep2, p2);
      ghost var between, now := root, tree;
      PutKeepsSlots(op, root, q, p2, tree, t);
      Set(ep2, m, p2, t, joined);
      KeepsSlotsTwice(op, start, between, q, before, now, tree);
      transCount := transCount + 1;
    }
  }
}
