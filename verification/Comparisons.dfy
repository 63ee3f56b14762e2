/**
  What comparisons and connectives mean (expr_calc_value in expr.c): numbers are compared as numbers, tristates
  by `n < m < y`, texts in the order of their characters; conjunction is the greatest lower bound.
 */
module Comparisons {
  import opened CStrings
  import opened Tristates
  import opened Exprs

  /** The relation between two integers. */
  predicate Related(rel: Rel, m: int, n: int) {
    match rel
    case Equal => m == n
    case Unequal => m != n
    case Lth => m < n
    case Leq => m <= n
    case Gth => m > n
    case Geq => m >= n
  }

  /** Conjunction and disjunction are the bounds of two values, negation turns the order around. */
  lemma ConnectiveLaws(env: Env, l: Expr, r: Expr, t: Tristate)
    ensures t <= Eval(env, Bin(OpAnd, l, r)) <==> t <= Eval(env, l) && t <= Eval(env, r)
    ensures Eval(env, Bin(OpOr, l, r)) <= t <==> Eval(env, l) <= t && Eval(env, r) <= t
    ensures t <= Eval(env, Neg(l)) <==> Eval(env, l) <= 2 - t
  {
    hide CompareIn;
  }

  /** The text of a bool or tristate: its letter, but an m that is left without modules reads as n. */
  lemma LogicalText(modules: Tristate, s: Symbol, v: Value)
    requires s.ty.Boolean? || s.ty.Tri?
    ensures StringValue(modules, s, v) == "y" <==> v.tri == YES
    ensures StringValue(modules, s, v) == "m" <==> v.tri == MOD && modules != NO
    ensures StringValue(modules, s, v) == "n" <==> v.tri == NO || (v.tri == MOD && modules == NO)
  {
    assert "n"[0] == 'n' && "m"[0] == 'm' && "y"[0] == 'y';
  }

  /** The symbols standing alone and the comparisons of an expression, from left to right. */
  function Atoms(e: Expr): seq<Expr> {
    match e
    case Neg(x) => Atoms(x)
    case Bin(_, l, r) => Atoms(l) + Atoms(r)
    case _ => [e]
  }

  predicate IsAbout(x: Expr, s: Symbol) {
    x == Sym(s) || (x.Comp? && (x.a == s || x.b == s))
  }

  /** expr_contains_symbol finds the symbols that stand alone or are compared, and no others. */
  lemma {:induction false} MentionsExact(e: Expr, s: Symbol)
    ensures s in Mentions(e) <==> exists x :: x in Atoms(e) && IsAbout(x, s)
  {
    match e
    case Neg(y) =>
      MentionsExact(y, s);
      assert Atoms(e) == Atoms(y);
    case Bin(_, l, r) =>
      MentionsExact(l, s);
      MentionsExact(r, s);
      assert forall x :: x in Atoms(e) <==> x in Atoms(l) || x in Atoms(r);
    case _ => assert e in Atoms(e);
  }

  lemma OrderedHolds(rel: Rel, m: int, n: int)
    ensures Holds(rel, Ordered(Sign(m - n))) <==> Related(rel, m, n)
  {
  }

  /** The text of a number converts to it, in decimal and behind `0x` in base 16. */
  lemma DecimalConverts(n: int)
    ensures Convert(FormatInt(n), 10) == Conversion(n, true, [])
  {
    var d := if n < 0 then -n else n;
    var s := FormatInt(n);
    ScanDigitsOf(d, 10);
    DigitsStart(d, 10);
    assert n < 0 ==> s[0] == '-' && s[1..] == Digits(d, 10);
    assert SkipSpace(s) == s;
  }

  lemma HexConverts(n: nat)
    ensures Convert("0x" + Digits(n, 16), 16) == Conversion(n, true, [])
  {
    var s := "0x" + Digits(n, 16);
    ScanDigitsOf(n, 16);
    DigitsStart(n, 16);
    assert s[0] == '0' && s[1] == 'x' && s[2..] == Digits(n, 16) && s[2] == Digits(n, 16)[0];
    assert SkipSpace(s) == s;
  }

  /** A text that a symbol of type int or hex can hold, and the number it stands for. */
  predicate Holding(env: Env, s: Symbol, n: int) {
    || (s.ty.Int? && LLONG_MIN <= n <= LLONG_MAX && env.val(s).str == FormatInt(n))
    || (s.ty.Hex? && 0 <= n <= LLONG_MAX && env.val(s).str == "0x" + Digits(n, 16))
  }

  lemma HoldingParses(env: Env, s: Symbol, n: int)
    requires Holding(env, s, n)
    ensures ParseString(StringValue(env.modules, s, env.val(s)), s.ty)
            == if s.ty.Int? then Signed(n) else Unsigned(n)
  {
    hide Convert, FormatInt, Digits;
    if s.ty.Int? {
      DecimalConverts(n);
    } else {
      HexConverts(n);
    }
  }

  /** Two numbers are compared as numbers, not as texts; one int and one hex if neither is negative. */
  lemma NumbersCompare(env: Env, rel: Rel, a: Symbol, b: Symbol, m: int, n: int)
    requires Holding(env, a, m) && Holding(env, b, n) && (a.ty == b.ty || (m >= 0 && n >= 0))
    ensures Eval(env, Comp(rel, a, b)) == if Related(rel, m, n) then YES else NO
  {
    hide ParseString, Holds, Holding, Related;
    HoldingParses(env, a, m);
    HoldingParses(env, b, n);
    Numeric(env, a, m);
    Numeric(env, b, n);
    OrderedHolds(rel, m, n);
  }

  lemma Numeric(env: Env, s: Symbol, n: int)
    requires Holding(env, s, n)
    ensures (s.ty.Int? || s.ty.Hex?) && (s.ty.Hex? ==> n >= 0) && LLONG_MIN <= n <= LLONG_MAX
  {
  }

  /** Two bool or tristate symbols are compared by `n < m < y`. */
  lemma TristatesCompare(env: Env, rel: Rel, a: Symbol, b: Symbol)
    requires Typed(env) && (a.ty.Boolean? || a.ty.Tri?) && (b.ty.Boolean? || b.ty.Tri?)
    ensures Eval(env, Comp(rel, a, b)) == if Related(rel, env.val(a).tri, env.val(b).tri) then YES else NO
  {
    hide Holds, Related, StrCmp;
    assert "n"[0] == 'n' && "m"[0] == 'm' && "y"[0] == 'y';
    var x, y := env.val(a).tri, env.val(b).tri;
    assert ParseString(StringValue(env.modules, a, env.val(a)), a.ty) == Signed(x);
    assert ParseString(StringValue(env.modules, b, env.val(b)), b.ty) == Signed(y);
    OrderedHolds(rel, x, y);
  }

  /** One text comes before another: it is a proper prefix, or has the smaller character where they first differ. */
  ghost predicate Before(s: string, t: string) {
    (s <= t && s != t) || exists k: nat :: DiffersAt(s, t, k) && s[k] < t[k]
  }

  predicate DiffersAt(s: string, t: string, k: nat) {
    k < |s| && k < |t| && s[..k] == t[..k] && s[k] != t[k]
  }

  lemma {:induction false} StrCmpSigns(s: string, t: string)
    ensures -1 <= StrCmp(s, t) <= 1 && StrCmp(t, s) == -StrCmp(s, t)
  {
    if s != [] && t != [] {
      StrCmpSigns(s[1..], t[1..]);
    }
  }

  /** strcmp compares by that order. */
  lemma {:induction false} StrCmpExact(s: string, t: string)
    ensures StrCmp(s, t) < 0 <==> Before(s, t)
  {
    if s != [] && t != [] {
      assert s == [s[0]] + s[1..] && t == [t[0]] + t[1..];
      if s[0] == t[0] {
        StrCmpExact(s[1..], t[1..]);
        forall k: nat ensures DiffersAt(s[1..], t[1..], k) <==> DiffersAt(s, t, k + 1) {
          LaterDifference(s, t, k);
        }
        if Before(s, t) && !(s <= t) {
          var k: nat :| DiffersAt(s, t, k) && s[k] < t[k];
          assert k != 0;
          assert DiffersAt(s[1..], t[1..], k - 1);
        }
        if Before(s[1..], t[1..]) && !(s[1..] <= t[1..]) {
          var k: nat :| DiffersAt(s[1..], t[1..], k) && s[1..][k] < t[1..][k];
          assert DiffersAt(s, t, k + 1);
        }
      } else {
        assert DiffersAt(s, t, 0);
        forall k: nat | DiffersAt(s, t, k) ensures k == 0 {
          FirstDifference(s, t, k);
        }
      }
    }
  }

  lemma FirstDifference(s: string, t: string, k: nat)
    requires DiffersAt(s, t, k)
    ensures k > 0 ==> s[0] == t[0]
  {
    if k > 0 {
      assert s[..k][0] == t[..k][0];
    }
  }

  lemma LaterDifference(s: string, t: string, k: nat)
    requires s != [] && t != [] && s[0] == t[0]
    ensures DiffersAt(s[1..], t[1..], k) <==> DiffersAt(s, t, k + 1)
  {
    if k + 1 < |s| && k + 1 < |t| {
      assert s[..k + 1] == [s[0]] + s[1..][..k] && t[..k + 1] == [t[0]] + t[1..][..k];
      assert s[..k + 1][1..] == s[1..][..k] && t[..k + 1][1..] == t[1..][..k];
    }
  }

  /** Two strings are compared in that order, even if they look like numbers. */
  lemma TextsCompare(env: Env, rel: Rel, a: Symbol, b: Symbol)
    requires a.ty.String? && b.ty.String?
    ensures var s, t := env.val(a).str, env.val(b).str;
            Eval(env, Comp(rel, a, b))
            == if Related(rel, if Before(s, t) then -1 else if s == t then 0 else 1, 0) then YES else NO
  {
    hide StrCmp, Before;
    var s, t := env.val(a).str, env.val(b).str;
    StrCmpZero(s, t);
    StrCmpExact(s, t);
    StrCmpSigns(s, t);
    OrderedHolds(rel, StrCmp(s, t), 0);
  }

  /** A string is compared with a constant as a text, unless both are numerals; those are compared as numbers. */
  lemma StringAgainstConstant(env: Env, rel: Rel, a: Symbol, c: Symbol)
    requires a.ty.String? && c.ty.Unknown?
    ensures var s, t := env.val(a).str, env.val(c).str;
            var p, q := ParseNumber(s, 0, false), ParseNumber(t, 0, false);
            Eval(env, Comp(rel, a, c))
            == (if p.Signed? && q.Signed? then (if Related(rel, p.i, q.i) then YES else NO)
                else if Related(rel, if Before(s, t) then -1 else if s == t then 0 else 1, 0) then YES else NO)
  {
    hide StrCmp, Before, Convert;
    var s, t := env.val(a).str, env.val(c).str;
    var p, q := ParseNumber(s, 0, false), ParseNumber(t, 0, false);
    StrCmpZero(s, t);
    StrCmpExact(s, t);
    StrCmpSigns(s, t);
    OrderedHolds(rel, StrCmp(s, t), 0);
    if p.Signed? && q.Signed? {
      OrderedHolds(rel, p.i, q.i);
    }
  }
}
