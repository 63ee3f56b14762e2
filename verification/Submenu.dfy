/**
  Conditions attached to menu nodes: an absent condition means y. How the optimiser prepares them
  (menu_finalize and rewrite_m in menu.c) and the two tests that decide whether an item is listed
  below the symbol before it (expr_depends_symbol in expr.c and the superset test of menu_finalize).
 */
module Submenu {
  import opened Options
  import opened Tristates
  import opened Exprs
  import opened Simplify
  import opened Operands
  import opened Join
  import opened NormalForm
  import opened Regions
  import opened Dedup
  import opened Duplicates

  type Condition = Option<Expr>

  function EvalCondition(env: Env, c: Condition): Tristate {
    match c
    case None => YES
    case Some(e) => Eval(env, e)
  }

  /** Conditions the optimiser can work on, and those it has put in normal form. */
  predicate Usable(c: Condition) {
    c.Some? ==> WellFormed(c.value)
  }

  predicate Prepared(c: Condition) {
    c.Some? ==> WellFormed(c.value) && Normal(c.value)
  }

  /** expr_alloc_and. */
  function AllocAnd(c1: Condition, c2: Condition): (c: Condition)
    ensures forall env :: EvalCondition(env, c) == And(EvalCondition(env, c1), EvalCondition(env, c2))
  {
    if c1.None? then c2 else if c2.None? then c1 else Some(Bin(OpAnd, c1.value, c2.value))
  }

  /** rewrite_m: the constant m becomes `m && MODULES`. */
  function RewriteM(modules: Symbol, e: Expr): Expr {
    match e
    case Neg(x) => Neg(RewriteM(modules, x))
    case Bin(op, l, r) => Bin(op, RewriteM(modules, l), RewriteM(modules, r))
    case Sym(s) => if s == SYM_MOD then Bin(OpAnd, e, Sym(modules)) else e
    case Comp(_, _, _) => e
  }

  function RewriteMIn(modules: Symbol, c: Condition): Condition {
    if c.None? then None else Some(RewriteM(modules, c.value))
  }

  /** The expression with the constant m, where it stands alone, read as n. */
  function ModAsNo(e: Expr): Expr {
    match e
    case Neg(x) => Neg(ModAsNo(x))
    case Bin(op, l, r) => Bin(op, ModAsNo(l), ModAsNo(r))
    case Sym(s) => if s == SYM_MOD then Sym(SYM_NO) else e
    case Comp(_, _, _) => e
  }

  /** With modules enabled rewrite_m changes no value; without them m standing alone reads as n. */
  lemma {:induction false} RewriteMValue(env: Env, modules: Symbol, e: Expr)
    requires Typed(env) && !modules.ty.Other?
    ensures Eval(env, RewriteM(modules, e)) == Eval(env, if env.val(modules).tri == NO then ModAsNo(e) else e)
    ensures WellFormed(e) ==> WellFormed(RewriteM(modules, e))
  {
    hide CompareIn, Denotes;
    match e
    case Neg(x) => RewriteMValue(env, modules, x);
    case Bin(_, l, r) =>
      RewriteMValue(env, modules, l);
      RewriteMValue(env, modules, r);
    case _ =>
  }

  /** The constant m does not stand alone. */
  predicate NoBareMod(e: Expr) {
    match e
    case Neg(x) => NoBareMod(x)
    case Bin(_, l, r) => NoBareMod(l) && NoBareMod(r)
    case Sym(s) => s != SYM_MOD
    case Comp(_, _, _) => true
  }

  /** Nothing else is rewritten. */
  lemma {:induction false} RewriteMKeeps(modules: Symbol, e: Expr)
    requires NoBareMod(e)
    ensures RewriteM(modules, e) == e
  {
    match e
    case Neg(x) => RewriteMKeeps(modules, x);
    case Bin(_, l, r) =>
      RewriteMKeeps(modules, l);
      RewriteMKeeps(modules, r);
    case _ =>
  }

  /** What expr_eliminate_dups makes of a condition that may be absent. */
  ghost function DedupCondition(c: Condition): Condition
    requires Usable(c)
  {
    if c.None? then None else Some(Deduplicated(c.value))
  }

  /** expr_eliminate_dups on a condition that may be absent. */
  method EliminateDups(c: Condition) returns (r: Condition)
    requires Usable(c)
    ensures Usable(r) && (Prepared(c) ==> Prepared(r))
    ensures r == DedupCondition(c) && (r.Some? ==> Irredundant(r.value) && Apart(r.value))
    ensures forall env | Typed(env) :: EvalCondition(env, r) == EvalCondition(env, c)
  {
    hide Typed, Eval, WellFormed, Normal, Irredundant, Apart;
    if c.None? {
      return None;
    }
    var optimiser := new Optimiser(c.value);
    optimiser.EliminateDups();
    var e := optimiser.Result();
    r := Some(e);
  }

  /** The preparation of a condition below an inherited one: rewrite m, transform, conjoin, remove duplicates. */
  method Inherit(modules: Symbol, inherited: Condition, c: Condition) returns (r: Condition)
    requires Prepared(inherited) && Usable(c) && !modules.ty.Other?
    ensures Prepared(r) && (r.Some? ==> Apart(r.value))
    ensures c.Some? && inherited.Some? && Irredundant(Conjunction(modules, inherited.value, c.value)) ==>
              r == Some(Conjunction(modules, inherited.value, c.value))
    ensures forall env | Typed(env) ::
              EvalCondition(env, r) == And(EvalCondition(env, inherited), EvalCondition(env, RewriteMIn(modules, c)))
  {
    hide Apart, Irredundant, Typed, Eval, WellFormed, Normal;
    var own := RewriteMIn(modules, c);
    var dep := if own.None? then None else Some(Transform(own.value));
    InheritForm(modules, c);
    r := AllocAnd(inherited, dep);
    AllocAndForm(inherited, dep);
    if r.Some? && Irredundant(r.value) {
      DeduplicatedFixed(r.value);
    }
    r := EliminateDups(r);
  }

  /** The inherited condition first, then the own one as it is prepared. */
  function Conjunction(modules: Symbol, inherited: Expr, own: Expr): Expr {
    Bin(OpAnd, inherited, Transform(RewriteM(modules, own)))
  }

  lemma InheritForm(modules: Symbol, c: Condition)
    requires Usable(c) && !modules.ty.Other?
    ensures var own := RewriteMIn(modules, c);
            var dep := if own.None? then None else Some(Transform(own.value));
            Prepared(dep) && forall env | Typed(env) :: EvalCondition(env, dep) == EvalCondition(env, own)
  {
    hide CompareIn, Denotes;
    if c.Some? {
      assert Typed(Uniform(NO));
      RewriteMValue(Uniform(NO), modules, c.value);
      WellFormedComparable(RewriteM(modules, c.value));
      TransformWellFormed(RewriteM(modules, c.value));
      TransformNormal(RewriteM(modules, c.value));
      forall env | Typed(env) ensures Eval(env, Transform(RewriteM(modules, c.value)))
          == Eval(env, RewriteM(modules, c.value)) {
        TransformCorrect(env, RewriteM(modules, c.value));
      }
    }
  }

  lemma AllocAndForm(c1: Condition, c2: Condition)
    requires Prepared(c1) && Prepared(c2)
    ensures Prepared(AllocAnd(c1, c2))
  {
  }

  lemma {:induction false} TransBoolWellFormed(e: Expr)
    requires WellFormed(e)
    ensures WellFormed(TransBool(e))
  {
    hide Denotes;
    match e
    case Neg(x) => TransBoolWellFormed(x);
    case Bin(_, l, r) =>
      TransBoolWellFormed(l);
      TransBoolWellFormed(r);
    case _ =>
  }

  /** expr_depends_symbol. */
  predicate DependsOn(e: Expr, sym: Symbol) {
    match e
    case Bin(OpAnd, l, r) => DependsOn(l, sym) || DependsOn(r, sym)
    case Sym(s) => s == sym
    case Comp(Equal, a, b) => a == sym && (b == SYM_YES || b == SYM_MOD)
    case Comp(Unequal, a, b) => a == sym && b == SYM_NO
    case _ => false
  }

  /** A condition that needs the symbol: the symbol itself, or a test that it is y, that it is m or that it is not n. */
  predicate Needs(x: Expr, sym: Symbol) {
    x == Sym(sym) || x == Comp(Equal, sym, SYM_YES) || x == Comp(Equal, sym, SYM_MOD) || x == Comp(Unequal, sym, SYM_NO)
  }

  /** The test finds every such condition among the operands of a conjunction, and nothing else. */
  lemma {:induction false} DependsOnExact(e: Expr, sym: Symbol)
    ensures DependsOn(e, sym) <==> exists x :: x in Flat(OpAnd, e) && Needs(x, sym)
  {
    if IsBin(OpAnd, e) {
      DependsOnExact(e.l, sym);
      DependsOnExact(e.r, sym);
    } else {
      assert e in Flat(OpAnd, e);
    }
  }

  /** An absolute dependency: the condition is n wherever the symbol is n. */
  lemma {:induction false} DependsOnSound(env: Env, e: Expr, sym: Symbol)
    requires Typed(env) && (sym.ty.Boolean? || sym.ty.Tri?)
    requires DependsOn(e, sym) && Eval(env, e) != NO
    ensures env.val(sym).tri != NO
    ensures sym in Mentions(e)
  {
    hide CompareIn;
    match e
    case Bin(_, l, r) =>
      if DependsOn(l, sym) {
        DependsOnSound(env, l, sym);
      } else {
        DependsOnSound(env, r, sym);
      }
    case Comp(_, a, b) => CompareWithTriConst(env, a, b);
    case Sym(_) =>
    case _ =>
  }

  /** The comparison of a condition with n; that of an absent condition is `!n`. */
  function NotNo(c: Condition): Expr {
    match c
    case None => Neg(Sym(SYM_NO))
    case Some(e) => TransCompare(e, Unequal, SYM_NO)
  }

  lemma {:induction false} TransCompareWellFormed(e: Expr, rel: Rel)
    requires WellFormed(e) && (rel.Equal? || rel.Unequal?)
    ensures WellFormed(TransCompare(e, rel, SYM_NO))
  {
    hide Denotes;
    match e
    case Neg(x) => TransCompareWellFormed(x, NegatedRel(rel));
    case Bin(_, l, r) =>
      TransCompareWellFormed(l, Equal);
      TransCompareWellFormed(r, Equal);
    case _ =>
  }

  lemma CompareFormUsable(c: Condition)
    requires Usable(c)
    ensures WellFormed(Transform(NotNo(c))) && Normal(Transform(NotNo(c)))
    ensures forall env | Typed(env) :: Eval(env, Transform(NotNo(c))) == Eval(env, NotNo(c))
  {
    hide CompareIn, Denotes;
    assert Typed(Uniform(NO));
    if c.Some? {
      TransCompareWellFormed(c.value, Unequal);
    }
    WellFormedComparable(NotNo(c));
    TransformWellFormed(NotNo(c));
    TransformNormal(NotNo(c));
    forall env | Typed(env) ensures Eval(env, Transform(NotNo(c))) == Eval(env, NotNo(c)) {
      TransformCorrect(env, NotNo(c));
    }
  }

  /** A condition compared with n, transformed, without duplicates. */
  ghost function CompareFormOf(c: Condition): (r: Expr)
    requires Usable(c)
    ensures WellFormed(r) && Normal(r) && Apart(r)
    ensures forall env | Typed(env) :: Eval(env, r) == Eval(env, NotNo(c))
  {
    hide Apart, Irredundant, CompareIn, Denotes, WellFormed, Normal, Eval, Typed, NotNo, Usable;
    CompareFormUsable(c);
    Deduplicated(Transform(NotNo(c)))
  }

  /** `basedep` of menu_finalize and the `dep` it is held against. */
  method CompareForm(c: Condition) returns (r: Expr)
    requires Usable(c)
    ensures r == CompareFormOf(c)
  {
    hide CompareIn, Denotes, WellFormed, Normal, Eval, Typed, NotNo;
    CompareFormUsable(c);
    var dedup := EliminateDups(Some(Transform(NotNo(c))));
    r := dedup.value;
  }

  /** The superset test: common operands are removed, and nothing but y must be left of the base condition. */
  ghost predicate Superset(c: Condition, base: Condition)
    requires Usable(c) && Usable(base)
  {
    EliminateEq(CompareFormOf(c), CompareFormOf(base)).1 == Sym(SYM_YES)
  }

  /** The operands of a conjunction, y left out. */
  function Conjuncts(e: Expr): set<Expr> {
    set x | x in Flat(OpAnd, e) && x != Sym(SYM_YES)
  }

  /**
    The test takes what it is for: an item that needs, beside other things, all that the base condition needs.
    A base condition with n among its operands is never met.
   */
  lemma SupersetTaken(c: Condition, base: Condition)
    requires Usable(c) && Usable(base) && IsBin(OpAnd, CompareFormOf(c))
    requires Conjuncts(CompareFormOf(base)) <= Conjuncts(CompareFormOf(c))
    requires Sym(SYM_NO) !in Conjuncts(CompareFormOf(base))
    ensures Superset(c, base)
  {
    hide CompareFormOf, EliminateEq, PairwiseUnequal, Apart;
    var d, b := CompareFormOf(c), CompareFormOf(base);
    ApartOperands(OpAnd, d);
    ApartOperands(OpAnd, b);
    ConjunctsCover(d, b);
    CoveredEliminated(OpAnd, d, b);
  }

  lemma ConjunctsCover(d: Expr, b: Expr)
    requires Conjuncts(b) <= Conjuncts(d) && Sym(SYM_NO) !in Conjuncts(b) && PairwiseUnequal(Flat(OpAnd, b))
    ensures CoveredBy(OpAnd, Flat(OpAnd, b), Flat(OpAnd, d))
  {
    hide ExprEq;
    var ys := Flat(OpAnd, b);
    forall y | y in ys && y != Sym(SYM_YES) ensures y in Flat(OpAnd, d) && y != Sym(SYM_NO) {
      assert y in Conjuncts(b);
    }
    forall i, j | 0 <= i < j < |ys| ensures ys[i] != ys[j] {
      ExprEqReflexive(ys[i]);
      assert !ExprEq(ys[i], ys[j]);
    }
  }

  /** expr_eliminate_eq and expr_is_yes. */
  method IsSuperset(c: Condition, ghost base: Condition, basedep: Expr) returns (superset: bool)
    requires Usable(c) && Usable(base) && basedep == CompareFormOf(base)
    ensures superset <==> Superset(c, base)
  {
    hide CompareIn, Denotes, WellFormed, Normal, Eval, Typed, EliminateEq;
    var dep := CompareForm(c);
    superset := EliminateEq(dep, basedep).1 == Sym(SYM_YES);
  }

  /** What passes the test lies below the base condition under every assignment, both compared with n. */
  lemma SupersetBelow(env: Env, c: Condition, base: Condition)
    requires Typed(env) && Usable(c) && Usable(base) && Superset(c, base)
    ensures Eval(env, NotNo(c)) <= Eval(env, NotNo(base))
  {
    hide CompareIn, Denotes, WellFormed, Normal, Eval, EliminateEq, NotNo;
    SupersetSound(env, CompareFormOf(c), CompareFormOf(base));
  }

  /** If elimination reduces the second expression to y, the first is below it under every assignment. */
  lemma SupersetSound(env: Env, dep: Expr, basedep: Expr)
    requires Typed(env) && EliminateEq(dep, basedep).1 == Sym(SYM_YES)
    ensures Eval(env, dep) <= Eval(env, basedep)
  {
    hide EliminateEq, CompareIn;
    var op, c := EliminateEqFactorsOut(env, dep, basedep);
  }

  /** Without modules no symbol is m, so in normal form nothing negated is. */
  lemma {:induction false} TwoValuedNoNegatedMod(env: Env, e: Expr)
    requires Typed(env) && env.modules == NO && LogicalAtoms(e) && Normal(e)
    ensures NoNegatedMod(env, e)
  {
    hide CompareIn;
    match e
    case Bin(_, l, r) =>
      TwoValuedNoNegatedMod(env, l);
      TwoValuedNoNegatedMod(env, r);
    case _ =>
  }

  /**
    An item that passes the superset test below a parent prompt, with no negated symbol at m, is
    visible only if the parent's prompt is.
   */
  lemma SupersetHidesWithParent(env: Env, item: Expr, parent: Condition)
    requires Typed(env) && LogicalAtoms(item) && Normal(item) && NoNegatedMod(env, item)
    requires parent.Some? ==> LogicalAtoms(parent.value)
    requires Eval(env, NotNo(Some(item))) <= Eval(env, NotNo(parent))
    ensures Eval(env, item) != NO ==> EvalCondition(env, parent) != NO
  {
    TransCompareExact(env, item);
    TransCompareSound(env, item);
    if parent.Some? {
      TransCompareSound(env, parent.value);
    }
  }
}
