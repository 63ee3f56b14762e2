/**
  What expr_eliminate_dups (expr.c) makes of particular expressions: nothing of those without duplicates,
  and one operand of the pairs that its comments list.
 */
module Duplicates {
  import opened Tristates
  import opened Options
  import opened Exprs
  import opened Simplify
  import opened Operands
  import opened Join
  import opened NormalForm
  import opened Regions
  import opened Slots
  import opened Dedup

  /** Two different operands of a region without redundant ones are not joined. */
  lemma NothingJoined(op: Op, e: Expr, p1: Path, p2: Path, q: Path)
    requires Irredundant(e) && HasSlot(e, q) && p1 != p2
    requires q <= p1 && IsOperand(op, At(e, q), p1[|q|..])
    requires q <= p2 && IsOperand(op, At(e, q), p2[|q|..])
    ensures HasSlot(e, p1) && HasSlot(e, p2) && JoinOperands(op, At(e, p1), At(e, p2)).None?
  {
    hide JoinOperands, Put, Irreducible, InRegion, At;
    RegionSlot(op, e, q, p1);
    RegionSlot(op, e, q, p2);
    SameSuffix(p1, p2, q);
    TwoOperands(op, At(e, q), p1[|q|..], p2[|q|..]);
    assert Irreducible(At(e, q), p1[|q|..], p2[|q|..]);
    NotJoined(op, At(e, q), p1[|q|..], p2[|q|..]);
  }

  lemma TwoOperands(op: Op, e: Expr, s1: Path, s2: Path)
    requires IsOperand(op, e, s1) && IsOperand(op, e, s2) && s1 != s2
    ensures IsBin(op, e)
  {
  }

  lemma NotJoined(op: Op, e: Expr, s1: Path, s2: Path)
    requires IsOperand(op, e, s1) && IsOperand(op, e, s2) && s1 != s2 && IsBin(op, e) && Irreducible(e, s1, s2)
    ensures JoinOperands(op, At(e, s1), At(e, s2)).None?
  {
    hide JoinOperands;
  }

  /** Where nothing can be joined, the walk changes nothing. */
  lemma {:induction false} WalkIdle(op: Op, e: Expr, p1: Path, p2: Path, q: Path)
    requires WellFormed(e) && HasSlot(e, q) && Irredundant(e)
    requires q <= p1 && InRegion(op, At(e, q), p1[|q|..])
    requires q <= p2 && InRegion(op, At(e, q), p2[|q|..])
    ensures Dups1(op, e, p1, p2, q) == Round(e, 0)
    decreases Leaves(At(e, q)), Width(op, At(At(e, q), p1[|q|..])) + Width(op, At(At(e, q), p2[|q|..])), 2
  {
    hide CompareIn, Denotes, WellFormed, Normal, Eval, Typed, JoinOperands, Leaves, Put, HasUnit, Keeps, Settled,
        Rewritten, Irredundant;
    RegionSlot(op, e, q, p1);
    RegionSlot(op, e, q, p2);
    KeepsReflexive(op, e, q);
    if IsBin(op, At(At(e, q), p1[|q|..])) {
      StillInRegion(op, At(e, q), At(e, q), q, p1, p2, Left);
      StillInRegion(op, At(e, q), At(e, q), q, p1, p2, Right);
      WalkIdle(op, e, p1 + [Left], p2, q);
      WalkIdle(op, e, p1 + [Right], p2, q);
    } else if IsBin(op, At(At(e, q), p2[|q|..])) {
      StillInRegion(op, At(e, q), At(e, q), q, p2, p1, Left);
      StillInRegion(op, At(e, q), At(e, q), q, p2, p1, Right);
      WalkIdle(op, e, p1, p2 + [Left], q);
      WalkIdle(op, e, p1, p2 + [Right], q);
    } else {
      OperandsIdle(op, e, p1, p2, q);
    }
  }

  lemma {:induction false} OperandsIdle(op: Op, e: Expr, p1: Path, p2: Path, q: Path)
    requires WellFormed(e) && HasSlot(e, q) && Irredundant(e)
    requires q <= p1 && InRegion(op, At(e, q), p1[|q|..])
    requires q <= p2 && InRegion(op, At(e, q), p2[|q|..])
    requires !IsBin(op, At(At(e, q), p1[|q|..])) && !IsBin(op, At(At(e, q), p2[|q|..]))
    ensures DupsOperands(op, e, p1, p2, q) == Round(e, 0)
    decreases Leaves(At(e, q)), Width(op, At(At(e, q), p1[|q|..])) + Width(op, At(At(e, q), p2[|q|..])), 1
  {
    hide CompareIn, Denotes, WellFormed, Normal, Eval, Typed, JoinOperands, Leaves, Put, HasUnit, Keeps, Settled,
        Rewritten, Irredundant;
    RegionSlot(op, e, q, p1);
    RegionSlot(op, e, q, p2);
    SameSuffix(p1, p2, q);
    if p1 != p2 {
      OperandBelowTop(op, At(e, q), p1[|q|..], p2[|q|..]);
      NothingJoined(op, e, p1, p2, q);
      if At(e, p1).Bin? {
        assert p1[|p1|..] == [];
        WalkIdle(At(e, p1).op, e, p1, p1, p1);
      }
    }
  }

  /** An expression without redundant operands stays as it is. */
  lemma DeduplicatedFixed(e: Expr)
    requires WellFormed(e) && Irredundant(e)
    ensures Deduplicated(e) == e
  {
    hide Irredundant, WellFormed;
    if e.Bin? {
      WalkIdle(e.op, e, [], [], []);
    }
  }

  const L: Path := [Left]
  const R: Path := [Right]

  /** A pair of operands, seen through its slots. */
  lemma PairSlots(op: Op, x: Expr, y: Expr)
    requires !x.Bin? && !y.Bin?
    ensures var e := Bin(op, x, y);
            && [] + [Left] == L && [] + [Right] == R && L[0..] == L && R[0..] == R
            && InRegion(op, e, L) && InRegion(op, e, R) && At(e, L) == x && At(e, R) == y
            && forall u, v :: Put(Put(e, L, u), R, v) == Bin(op, u, v)
    ensures forall u, v :: Put(Put(Bin(op, x, y), R, u), L, v) == Bin(op, v, u)
  {
  }

  /** The slots of a pair can be compared. */
  predicate PairPaths(p1: Path, p2: Path) {
    (p1 == L || p1 == R) && (p2 == L || p2 == R)
  }

  lemma PairWithin(op: Op, x: Expr, y: Expr, p1: Path, p2: Path)
    requires !x.Bin? && !y.Bin? && PairPaths(p1, p2)
    ensures var e := Bin(op, x, y);
            && HasSlot(e, []) && At(e, []) == e && HasSlot(e, p1) && HasSlot(e, p2)
            && p1[0..] == p1 && p2[0..] == p2 && IsOperand(op, e, p1) && IsOperand(op, e, p2)
            && !At(e, p1).Bin? && !At(e, p2).Bin?
  {
  }

  lemma PairSame(op: Op, x: Expr, y: Expr, p: Path)
    requires WellFormed(Bin(op, x, y)) && !x.Bin? && !y.Bin? && PairPaths(p, p)
    ensures HasSlot(Bin(op, x, y), []) && InRegion(op, At(Bin(op, x, y), []), p[0..])
    ensures Dups1(op, Bin(op, x, y), p, p, []) == Round(Bin(op, x, y), 0)
  {
    hide CompareIn, Denotes, WellFormed, Normal, Eval, Typed, JoinOperands, Keeps, Settled, Rewritten, Leaves, HasUnit,
        Put, DupsLeft, DupsRight, DupsInside, DupsJoin;
    PairWithin(op, x, y, p, p);
  }

  lemma PairApart(op: Op, x: Expr, y: Expr, p1: Path, p2: Path)
    requires WellFormed(Bin(op, x, y)) && !x.Bin? && !y.Bin? && PairPaths(p1, p2) && p1 != p2
    ensures var e := Bin(op, x, y);
            && HasSlot(e, []) && InRegion(op, At(e, []), p1[0..]) && InRegion(op, At(e, []), p2[0..])
            && HasSlot(e, p1) && HasSlot(e, p2) && IsOperand(op, At(e, []), p1[0..])
            && IsOperand(op, At(e, []), p2[0..])
            && Dups1(op, e, p1, p2, []) == DupsJoin(op, e, p1, p2, [])
  {
    hide CompareIn, Denotes, WellFormed, Normal, Eval, Typed, JoinOperands, Keeps, Settled, Rewritten, Leaves, HasUnit,
        Put, DupsLeft, DupsRight, DupsJoin;
    var e := Bin(op, x, y);
    PairWithin(op, x, y, p1, p2);
    OperandBelowTop(op, e, p1, p2);
    assert DupsInside(op, e, p1, []) == Round(e, 0);
  }

  /** The walk over a pair whose operands are joined. */
  lemma PairRound(op: Op, x: Expr, y: Expr, z: Expr)
    requires WellFormed(Bin(op, x, y)) && WellFormed(z) && !x.Bin? && !y.Bin? && !z.Bin?
    requires JoinOperands(op, x, y) == Some(z) && JoinOperands(op, z, Sym(Unit(op))).None?
    ensures DupsRound(Bin(op, x, y)) == Round(Bin(op, Sym(Unit(op)), z), 1)
  {
    hide CompareIn, Denotes, Normal, Eval, Typed, JoinOperands, Keeps, Settled, Rewritten, Leaves, HasUnit, Put,
        DupsOperands, DupsInside;
    var e, e' := Bin(op, x, y), Bin(op, Sym(Unit(op)), z);
    PairSlots(op, x, y);
    PairSlots(op, Sym(Unit(op)), z);
    PairWithin(op, x, y, L, R);
    PairWithin(op, Sym(Unit(op)), z, R, L);
    PairSame(op, x, y, L);
    PairApart(op, x, y, L, R);
    PairApart(op, Sym(Unit(op)), z, R, L);
    PairSame(op, Sym(Unit(op)), z, R);
    assert DupsJoin(op, e, L, R, []) == Round(e', 1);
    assert DupsJoin(op, e', R, L, []) == Round(e', 0);
    PairFirst(op, e, e');
  }

  lemma PairFirst(op: Op, e: Expr, e': Expr)
    requires WellFormed(e) && WellFormed(e') && IsBin(op, e) && IsBin(op, e')
    requires !e.l.Bin? && !e.r.Bin? && !e'.l.Bin? && !e'.r.Bin?
    requires HasSlot(e, []) && InRegion(op, At(e, []), L[0..]) && InRegion(op, At(e, []), R[0..])
    requires HasSlot(e', []) && InRegion(op, At(e', []), L[0..]) && InRegion(op, At(e', []), R[0..])
    requires Dups1(op, e, L, L, []) == Round(e, 0) && Dups1(op, e, L, R, []) == Round(e', 1)
    requires Dups1(op, e', R, L, []) == Round(e', 0) && Dups1(op, e', R, R, []) == Round(e', 0)
    ensures DupsRound(e) == Round(e', 1)
  {
    hide CompareIn, Denotes, Normal, Eval, Typed, JoinOperands, Keeps, Settled, Rewritten, Leaves, HasUnit, Put,
        DupsOperands, DupsInside, DupsJoin, WellFormed;
    PairSlots(op, e.l, e.r);
    PairSlots(op, e'.l, e'.r);
    assert At(e, []) == e && At(e', []) == e';
    assert Dups1(op, e, L, [], []) == Round(e', 1);
    assert Dups1(op, e', R, [], []) == Round(e', 0);
    var none: Path := [];
    assert none[0..] == none && InRegion(op, At(e, none), none[0..]) && IsBin(op, At(At(e, none), none[0..]));
    assert DupsLeft(op, e, [], [], []) == Round(e', 1);
    assert Dups1(op, e, [], [], []) == Round(e', 1);
  }

  /** Two operands that are joined into one which is not joined with the unit left behind. */
  lemma PairJoined(op: Op, x: Expr, y: Expr, z: Expr)
    requires WellFormed(Bin(op, x, y)) && WellFormed(z) && !x.Bin? && !y.Bin? && !z.Bin?
    requires JoinOperands(op, x, y) == Some(z) && JoinOperands(op, z, Sym(Unit(op))).None?
    ensures Deduplicated(Bin(op, x, y)) == z
  {
    hide CompareIn, Denotes, Normal, Eval, Typed, JoinOperands, Irredundant, Apart, Leaves, HasUnit, Dups1, WellFormed;
    PairRound(op, x, y, z);
    assert EliminateYn(Bin(op, Sym(Unit(op)), z)) == z;
  }

  /** The unit left behind is not joined with anything else. */
  lemma UnitNotJoined(op: Op, z: Expr)
    requires z != Sym(Unit(op))
    ensures JoinOperands(op, z, Sym(Unit(op))).None?
  {
    UnitUnequal(op, z);
  }

  lemma PairBecomes(op: Op, x: Expr, y: Expr, z: Expr)
    requires WellFormed(Bin(op, x, y)) && WellFormed(z) && !x.Bin? && !y.Bin? && !z.Bin? && z != Sym(Unit(op))
    requires JoinOperands(op, x, y) == Some(z)
    ensures Deduplicated(Bin(op, x, y)) == z
  {
    hide Deduplicated, JoinOperands, WellFormed;
    UnitNotJoined(op, z);
    PairJoined(op, x, y, z);
  }

  /** An operand and a copy of it: `a || a` is `a`, and so is `a && a`. */
  lemma CopyRemoved(op: Op, x: Expr)
    requires WellFormed(x) && !x.Bin? && x != Sym(Unit(op))
    ensures Deduplicated(Bin(op, x, x)) == x
  {
    hide Deduplicated, Denotes, ExprEq;
    ExprEqReflexive(x);
    PairBecomes(op, x, x, x);
  }

  function Is(a: Symbol, c: Symbol): Expr {
    Comp(Equal, a, c)
  }

  function IsNot(a: Symbol, c: Symbol): Expr {
    Comp(Unequal, a, c)
  }

  /** Disjunctions of two conditions on a symbol that are one condition. */
  predicate OrRule(a: Symbol, x: Expr, y: Expr, z: Expr) {
    || (a.ty.Tri? && x == Is(a, SYM_YES) && y == Is(a, SYM_MOD) && z == IsNot(a, SYM_NO))
    || (a.ty.Tri? && x == Is(a, SYM_YES) && y == Is(a, SYM_NO) && z == IsNot(a, SYM_MOD))
    || (a.ty.Tri? && x == Is(a, SYM_MOD) && y == Is(a, SYM_NO) && z == IsNot(a, SYM_YES))
    || (a.ty.Boolean? && x == Sym(a) && y == Neg(Sym(a)) && z == Sym(SYM_YES))
  }

  /** The same for conjunctions. */
  predicate AndRule(a: Symbol, x: Expr, y: Expr, z: Expr) {
    || ((a.ty.Boolean? || a.ty.Tri?) && x == Sym(a) && y == Is(a, SYM_YES) && z == Is(a, SYM_YES))
    || ((a.ty.Boolean? || a.ty.Tri?) && x == Sym(a) && y == IsNot(a, SYM_NO) && z == Sym(a))
    || ((a.ty.Boolean? || a.ty.Tri?) && x == Sym(a) && y == IsNot(a, SYM_MOD) && z == Is(a, SYM_YES))
    || (a.ty.Tri? && x == IsNot(a, SYM_YES) && y == IsNot(a, SYM_NO) && z == Is(a, SYM_MOD))
    || (a.ty.Tri? && x == IsNot(a, SYM_YES) && y == IsNot(a, SYM_MOD) && z == Is(a, SYM_NO))
    || (a.ty.Tri? && x == IsNot(a, SYM_MOD) && y == IsNot(a, SYM_NO) && z == Is(a, SYM_YES))
    || (a.ty.Tri? && x.Comp? && y.Comp? && x == Is(a, x.b) && y == IsNot(a, y.b) && x.b.isConst && y.b.isConst
        && z == if x.b == y.b then Sym(SYM_NO) else x)
  }

  lemma OrListed(a: Symbol, x: Expr, y: Expr, z: Expr)
    requires OrRule(a, x, y, z)
    ensures JoinDifferent(OpOr, x, y) == Some(z) && JoinDifferent(OpOr, y, x) == Some(z) && x != y
    ensures WellFormed(z) && IsLiteral(x) && IsLiteral(y) && !z.Bin?
  {
    hide Denotes, JoinAndSubject;
  }

  lemma AndListed(a: Symbol, x: Expr, y: Expr, z: Expr)
    requires AndRule(a, x, y, z) && WellFormed(x) && WellFormed(y)
    ensures JoinDifferent(OpAnd, x, y) == Some(z) && JoinDifferent(OpAnd, y, x) == Some(z) && x != y
    ensures WellFormed(z) && IsLiteral(x) && IsLiteral(y) && !z.Bin? && z != Sym(SYM_YES)
  {
    hide Denotes, JoinOrSubject;
  }

  /** Every pair that the comments of expr_join_or and expr_join_and list is joined, in either order. */
  lemma ListedPairs(op: Op, a: Symbol, x: Expr, y: Expr, z: Expr)
    requires if op.OpOr? then OrRule(a, x, y, z) else AndRule(a, x, y, z)
    requires WellFormed(x) && WellFormed(y)
    ensures Deduplicated(Bin(op, x, y)) == z && Deduplicated(Bin(op, y, x)) == z
  {
    hide Deduplicated, Denotes, ExprEq, JoinDifferent;
    if op.OpOr? {
      OrListed(a, x, y, z);
    } else {
      AndListed(a, x, y, z);
    }
    LiteralEq(x, y);
    LiteralEq(y, x);
    PairBecomes(op, x, y, z);
    PairBecomes(op, y, x, z);
  }

  /** The slot of an operand, by its number from the left. */
  function PathOf(op: Op, e: Expr, i: nat): Path
    requires i < |Flat(op, e)|
  {
    if !IsBin(op, e) then []
    else
      var n := |Flat(op, e.l)|;
      if i < n then [Left] + PathOf(op, e.l, i) else [Right] + PathOf(op, e.r, i - n)
  }

  lemma {:induction false} PathOfHolds(op: Op, e: Expr, i: nat)
    requires i < |Flat(op, e)|
    ensures IsOperand(op, e, PathOf(op, e, i)) && At(e, PathOf(op, e, i)) == Flat(op, e)[i]
  {
    if IsBin(op, e) {
      var n := |Flat(op, e.l)|;
      if i < n {
        PathOfHolds(op, e.l, i);
        assert ([Left] + PathOf(op, e.l, i))[1..] == PathOf(op, e.l, i);
      } else {
        PathOfHolds(op, e.r, i - n);
        assert ([Right] + PathOf(op, e.r, i - n))[1..] == PathOf(op, e.r, i - n);
      }
    }
  }

  lemma {:induction false} PathOfInjective(op: Op, e: Expr, i: nat, j: nat)
    requires i < |Flat(op, e)| && j < |Flat(op, e)| && i != j
    ensures PathOf(op, e, i) != PathOf(op, e, j)
  {
    var n := |Flat(op, e.l)|;
    if i < n && j < n {
      PathOfInjective(op, e.l, i, j);
      assert ([Left] + PathOf(op, e.l, i))[1..] == PathOf(op, e.l, i);
      assert ([Left] + PathOf(op, e.l, j))[1..] == PathOf(op, e.l, j);
    } else if i >= n && j >= n {
      PathOfInjective(op, e.r, i - n, j - n);
      assert ([Right] + PathOf(op, e.r, i - n))[1..] == PathOf(op, e.r, i - n);
      assert ([Right] + PathOf(op, e.r, j - n))[1..] == PathOf(op, e.r, j - n);
    } else {
      assert PathOf(op, e, i)[0] != PathOf(op, e, j)[0];
    }
  }

  /** The operands of what is left are pairwise different. */
  lemma ApartOperands(op: Op, e: Expr)
    requires Apart(e)
    ensures PairwiseUnequal(Flat(op, e))
  {
    hide ExprEq;
    if IsBin(op, e) {
      forall i, j | 0 <= i < |Flat(op, e)| && 0 <= j < |Flat(op, e)| && i != j
        ensures !ExprEq(Flat(op, e)[i], Flat(op, e)[j])
      {
        PathOfHolds(op, e, i);
        PathOfHolds(op, e, j);
        PathOfInjective(op, e, i, j);
        assert HasSlot(e, []) && At(e, []) == e;
        assert OperandsDiffer(At(e, []), PathOf(op, e, i), PathOf(op, e, j));
      }
    }
  }

  /** The two operands of a pair cannot be joined if neither order of them can. */
  lemma PairOf(op: Op, x: Expr, y: Expr, t1: Path, t2: Path)
    requires !IsBin(op, x) && !IsBin(op, y) && JoinOperands(op, x, y).None? && JoinOperands(op, y, x).None?
    ensures Irreducible(Bin(op, x, y), t1, t2)
  {
    hide JoinOperands;
    var e := Bin(op, x, y);
    if IsOperand(op, e, t1) && IsOperand(op, e, t2) && t1 != t2 {
      OneOfPair(op, x, y, t1);
      OneOfPair(op, x, y, t2);
    }
  }

  lemma OneOfPair(op: Op, x: Expr, y: Expr, t: Path)
    requires !IsBin(op, x) && !IsBin(op, y) && IsOperand(op, Bin(op, x, y), t)
    ensures (t == [Left] && At(Bin(op, x, y), t) == x) || (t == [Right] && At(Bin(op, x, y), t) == y)
  {
    var e := Bin(op, x, y);
    assert t != [] && InRegion(op, Child(e, t[0]), t[1..]);
    assert t[1..] == [] && t == [t[0]];
  }

  lemma NothingBelowPair(e: Expr, p: Path)
    requires e.Bin? && !e.l.Bin? && !e.r.Bin? && HasSlot(e, p)
    ensures At(e, p).Bin? ==> p == []
  {
    if p != [] {
      var c := Child(e, p[0]);
      assert HasSlot(c, p[1..]) && p[1..] == [] && At(c, []) == c;
      assert At(e, p) == At(c, p[1..]) == c;
    }
  }

  /** A pair that cannot be joined has no redundant operands. */
  lemma PairIrredundant(op: Op, x: Expr, y: Expr)
    requires !x.Bin? && !y.Bin? && JoinOperands(op, x, y).None? && JoinOperands(op, y, x).None?
    ensures Irredundant(Bin(op, x, y))
  {
    hide JoinOperands, Irreducible;
    var e := Bin(op, x, y);
    forall q: Path, t1: Path, t2: Path | HasSlot(e, q) && At(e, q).Bin? ensures Irreducible(At(e, q), t1, t2) {
      NothingBelowPair(e, q);
      PairOf(op, x, y, t1, t2);
    }
  }

  /** Two operands that are not regions themselves are joined if they can be, unless they are the same. */
  lemma OperandsMeet(op: Op, e: Expr, p1: Path, p2: Path)
    requires WellFormed(e) && IsOperand(op, e, p1) && IsOperand(op, e, p2) && !At(e, p1).Bin? && !At(e, p2).Bin?
    ensures HasSlot(e, []) && At(e, []) == e && p1[0..] == p1 && p2[0..] == p2
    ensures p1 == p2 ==> Dups1(op, e, p1, p2, []) == Round(e, 0)
    ensures p1 != p2 ==> Dups1(op, e, p1, p2, []) == DupsJoin(op, e, p1, p2, [])
  {
    hide CompareIn, Denotes, WellFormed, Normal, Eval, Typed, JoinOperands, Keeps, Settled, Rewritten, Leaves, HasUnit,
        Put, DupsLeft, DupsRight, DupsJoin;
    if p1 != p2 {
      OperandBelowTop(op, e, p1, p2);
      assert DupsInside(op, e, p1, []) == Round(e, 0);
    }
  }

  const LL: Path := [Left, Left]
  const LR: Path := [Left, Right]

  /** Three operands, two of them in a pair on the left. */
  function Triple(op: Op, x: Expr, y: Expr, z: Expr): Expr {
    Bin(op, Bin(op, x, y), z)
  }

  lemma TripleSlots(op: Op, x: Expr, y: Expr, z: Expr)
    requires !x.Bin? && !y.Bin? && !z.Bin?
    ensures var e := Triple(op, x, y, z);
            && IsOperand(op, e, LL) && IsOperand(op, e, LR) && IsOperand(op, e, R)
            && At(e, LL) == x && At(e, LR) == y && At(e, R) == z
            && InRegion(op, e, []) && InRegion(op, e, L) && At(e, L) == e.l && At(e, []) == e && HasSlot(e, [])
    ensures L + [Left] == LL && L + [Right] == LR && [] + [Left] == L && [] + [Right] == R
    ensures L[0..] == L && LL[0..] == LL && LR[0..] == LR && R[0..] == R
  {
    var e := Triple(op, x, y, z);
    assert LL[1..] == [Left] && LR[1..] == [Right] && [Left][1..] == [] && [Right][1..] == [];
    assert InRegion(op, e.l, [Left]) && InRegion(op, e.l, [Right]) && At(e.l, [Left]) == x && At(e.l, [Right]) == y;
  }

  /** One operand against the pair on the left, given its outcome against both of them. */
  lemma TripleLeft(op: Op, e: Expr, p: Path, a: Round, b: Round)
    requires WellFormed(e) && WellFormed(a.e) && IsTriple(op, e) && IsTriple(op, a.e) && (p == LL || p == LR || p == R)
    requires MeetIs(op, e, p, LL, a) && MeetIs(op, a.e, p, LR, b)
    ensures MeetIs(op, e, p, L, Round(b.e, a.joins + b.joins))
  {
    hide CompareIn, Denotes, WellFormed, Normal, Eval, Typed, JoinOperands, Keeps, Settled, Rewritten, Leaves, HasUnit,
        Put, DupsLeft, DupsOperands;
    TripleSlots(op, e.l.l, e.l.r, e.r);
    TripleSlots(op, a.e.l.l, a.e.l.r, a.e.r);
    assert DupsRight(op, e, p, L, []) == Round(b.e, a.joins + b.joins);
  }

  /** One operand against the whole. */
  lemma TripleRow(op: Op, e: Expr, p: Path, a: Round, b: Round, c: Round)
    requires WellFormed(e) && WellFormed(a.e) && WellFormed(b.e)
    requires IsTriple(op, e) && IsTriple(op, a.e) && IsTriple(op, b.e) && (p == LL || p == LR || p == R)
    requires MeetIs(op, e, p, LL, a) && MeetIs(op, a.e, p, LR, b) && MeetIs(op, b.e, p, R, c)
    ensures MeetIs(op, e, p, [], Round(c.e, a.joins + b.joins + c.joins))
  {
    hide CompareIn, Denotes, WellFormed, Normal, Eval, Typed, JoinOperands, Keeps, Settled, Rewritten, Leaves, HasUnit,
        Put, DupsLeft, DupsOperands;
    TripleLeft(op, e, p, a, b);
    TripleSlots(op, e.l.l, e.l.r, e.r);
    TripleSlots(op, b.e.l.l, b.e.l.r, b.e.r);
    var none: Path := [];
    assert none[0..] == none;
    assert DupsRight(op, e, p, [], []) == Round(c.e, a.joins + b.joins + c.joins);
  }

  predicate IsTriple(op: Op, e: Expr) {
    IsBin(op, e) && IsBin(op, e.l) && !e.l.l.Bin? && !e.l.r.Bin? && !e.r.Bin?
  }

  /** What the walk makes of two of the operands. */
  ghost predicate MeetIs(op: Op, e: Expr, p1: Path, p2: Path, r: Round) {
    && WellFormed(e) && HasSlot(e, []) && InRegion(op, At(e, []), p1[0..]) && InRegion(op, At(e, []), p2[0..])
    && Dups1(op, e, p1, p2, []) == r
  }

  /** Two of the three operands: nothing for the same slot, nothing if they cannot be joined. */
  lemma TripleMeet(op: Op, x: Expr, y: Expr, z: Expr, p1: Path, p2: Path)
    requires WellFormed(Triple(op, x, y, z)) && !x.Bin? && !y.Bin? && !z.Bin?
    requires (p1 == LL || p1 == LR || p1 == R) && (p2 == LL || p2 == LR || p2 == R)
    ensures var e := Triple(op, x, y, z);
            && HasSlot(e, p1) && HasSlot(e, p2)
            && (p1 == p2 || JoinOperands(op, At(e, p1), At(e, p2)).None? ==> MeetIs(op, e, p1, p2, Round(e, 0)))
  {
    hide CompareIn, Denotes, WellFormed, Normal, Eval, Typed, JoinOperands, Keeps, Settled, Rewritten, Leaves, HasUnit,
        Put, Dups1;
    TripleSlots(op, x, y, z);
    OperandsMeet(op, Triple(op, x, y, z), p1, p2);
  }

  /** The first and the last operand, where they are the same: the first becomes the unit. */
  lemma TripleEnds(op: Op, x: Expr, y: Expr)
    requires WellFormed(Triple(op, x, y, x)) && !x.Bin? && !y.Bin?
    ensures MeetIs(op, Triple(op, x, y, x), LL, R, Round(Triple(op, Sym(Unit(op)), y, x), 1))
  {
    hide CompareIn, Denotes, WellFormed, Normal, Eval, Typed, JoinDifferent, Keeps, Settled, Rewritten, Leaves, HasUnit,
        Dups1, ExprEq;
    var e := Triple(op, x, y, x);
    TripleSlots(op, x, y, x);
    ExprEqReflexive(x);
    OperandsMeet(op, e, LL, R);
    PutEnds(op, x, y, x, Sym(Unit(op)), x);
  }

  lemma PutEnds(op: Op, x: Expr, y: Expr, z: Expr, u: Expr, v: Expr)
    requires HasSlot(Triple(op, x, y, z), LL) && HasSlot(Put(Triple(op, x, y, z), LL, u), R)
    ensures Put(Put(Triple(op, x, y, z), LL, u), R, v) == Triple(op, u, y, v)
  {
    var e := Triple(op, x, y, z);
    assert LL[1..] == [Left] && [Left][1..] == [] && R[1..] == [];
    assert Put(e.l, [Left], u) == Bin(op, u, y);
    assert Put(e, LL, u) == Triple(op, u, y, z);
  }

  /** `a || b || a` becomes `b || a`: the first of two copies goes, and what is between them stays in place. */
  lemma OuterCopyRemoved(op: Op, x: Expr, y: Expr)
    requires WellFormed(x) && WellFormed(y) && !x.Bin? && !y.Bin? && !IsConst(x) && !IsConst(y)
    requires JoinOperands(op, x, y).None? && JoinOperands(op, y, x).None?
    ensures Deduplicated(Bin(op, Bin(op, x, y), x)) == Bin(op, y, x)
  {
    hide CompareIn, Denotes, Normal, Eval, Typed, JoinOperands, Irredundant, Apart, Leaves, HasUnit, Dups1, MeetIs;
    var unit := Sym(Unit(op));
    var e, e' := Triple(op, x, y, x), Triple(op, unit, y, x);
    assert WellFormed(e) && WellFormed(e') by {
      assert WellFormed(unit) && WellFormed(Bin(op, x, y)) && WellFormed(Bin(op, unit, y));
    }
    TripleRound(op, x, y);
    assert EliminateYn(Bin(op, unit, y)) == y;
    assert EliminateYn(e') == Bin(op, y, x);
    PairIrredundant(op, y, x);
    DeduplicatedFixed(Bin(op, y, x));
  }

  lemma TripleRound(op: Op, x: Expr, y: Expr)
    requires WellFormed(Triple(op, x, y, x)) && WellFormed(Triple(op, Sym(Unit(op)), y, x))
    requires !x.Bin? && !y.Bin? && !IsConst(x) && !IsConst(y)
    requires JoinOperands(op, x, y).None? && JoinOperands(op, y, x).None?
    ensures DupsRound(Triple(op, x, y, x)) == Round(Triple(op, Sym(Unit(op)), y, x), 1)
  {
    hide CompareIn, Denotes, WellFormed, Normal, Eval, Typed, JoinOperands, Leaves, HasUnit, Dups1, MeetIs, DupsRound;
    var unit := Sym(Unit(op));
    var e, e' := Triple(op, x, y, x), Triple(op, unit, y, x);
    UnitNotJoined(op, x);
    UnitNotJoined(op, y);
    TripleSlots(op, x, y, x);
    TripleSlots(op, unit, y, x);
    TripleMeet(op, x, y, x, LL, LL);
    TripleMeet(op, x, y, x, LL, LR);
    TripleEnds(op, x, y);
    TripleRow(op, e, LL, Round(e, 0), Round(e, 0), Round(e', 1));
    TripleMeet(op, unit, y, x, LR, LL);
    TripleMeet(op, unit, y, x, LR, LR);
    TripleMeet(op, unit, y, x, LR, R);
    TripleRow(op, e', LR, Round(e', 0), Round(e', 0), Round(e', 0));
    TripleMeet(op, unit, y, x, R, LL);
    TripleMeet(op, unit, y, x, R, LR);
    TripleMeet(op, unit, y, x, R, R);
    TripleRow(op, e', R, Round(e', 0), Round(e', 0), Round(e', 0));
    TripleWhole(op, e, e');
  }

  /** The rows put together. */
  lemma TripleWhole(op: Op, e: Expr, e': Expr)
    requires WellFormed(e) && WellFormed(e') && IsTriple(op, e) && IsTriple(op, e')
    requires MeetIs(op, e, LL, [], Round(e', 1)) && MeetIs(op, e', LR, [], Round(e', 0))
    requires MeetIs(op, e', R, [], Round(e', 0))
    ensures DupsRound(e) == Round(e', 1)
  {
    hide CompareIn, Denotes, WellFormed, Normal, Eval, Typed, JoinOperands, Keeps, Settled, Rewritten, Leaves, HasUnit,
        Put, DupsRight, DupsOperands;
    TripleSlots(op, e.l.l, e.l.r, e.r);
    TripleSlots(op, e'.l.l, e'.l.r, e'.r);
    var none: Path := [];
    assert none[0..] == none;
    assert DupsLeft(op, e, L, [], []) == Round(e', 1);
    assert Dups1(op, e, L, [], []) == Round(e', 1);
    assert DupsLeft(op, e, [], [], []) == Round(e', 1);
    assert Dups1(op, e, [], [], []) == Round(e', 1);
  }

  /** With symbols for operands. */
  lemma SymbolCopyRemoved(op: Op, a: Symbol, b: Symbol)
    requires a != b && !IsTriConst(a) && !IsTriConst(b) && !a.ty.Other? && !b.ty.Other?
    ensures var e := Bin(op, Bin(op, Sym(a), Sym(b)), Sym(a));
            WellFormed(e) && Deduplicated(e) == Bin(op, Sym(b), Sym(a))
    ensures WellFormed(Bin(op, Sym(a), Sym(a))) && Deduplicated(Bin(op, Sym(a), Sym(a))) == Sym(a)
  {
    hide Deduplicated;
    assert WellFormed(Sym(a)) && WellFormed(Sym(b));
    assert WellFormed(Bin(op, Sym(a), Sym(b)));
    OuterCopyRemoved(op, Sym(a), Sym(b));
    CopyRemoved(op, Sym(a));
  }
}
