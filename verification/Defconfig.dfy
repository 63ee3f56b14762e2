/**
  The minimal configuration of conf_write_defconfig (confdata.c): the symbols it writes, and the proof
  that evaluating with only those user values gives every symbol the value it had.
 */
module Defconfig {
  import opened CStrings
  import opened Options
  import opened Tristates
  import opened Exprs
  import opened Semantics
  import opened DotConfig
  import opened FileText

  /** sym_get_string_default: the value a symbol would have if the user had not set it. */
  function StringDefault(env: Env, s: Symbol, d: SymDef): string {
    if s.ty.Boolean? || s.ty.Tri? then
      var val := Or(DefaultTri(env, d), RevDep(env, s, d));
      var val1 := if val == MOD && (env.modules == NO || s.ty.Boolean?) then YES else val;
      TriName(if val1 < Implied(env, s, d) then Implied(env, s, d) else val1)
    else if s.ty.Int? || s.ty.Hex? || s.ty.String? then DefaultStr(env, d)
    else ""
  }

  /** sym_is_changable. */
  predicate Changeable(env: Env, s: Symbol, d: SymDef) {
    Visible(env, s, d) > RevDep(env, s, d)
  }

  /** conf_write_defconfig writes a symbol of value `v`: it is to be written,
      can be changed and differs from its default. */
  predicate SavesValue(env: Env, s: Symbol, d: SymDef, v: Value) {
    && HasType(s)
    && Written(env, s, d)
    && Changeable(env, s, d)
    && StringValue(env.modules, s, v) != StringDefault(env, s, d)
  }

  predicate Saves(env: Env, s: Symbol, d: SymDef) {
    SavesValue(env, s, d, env.val(s))
  }

  /** The user value left of a symbol of value `v` after saving it and reading it back. */
  function Restored(env: Env, s: Symbol, d: SymDef, v: Value): Option<Value> {
    if SavesValue(env, s, d, v) then Some(TextValue(s, StringValue(env.modules, s, v))) else None
  }

  /** The user values left after saving the symbols of the menu tree and reading them back. */
  ghost function SavedUsers(env: Env, defs: Defs, inMenu: set<Symbol>): Users {
    map s | s in defs && s in inMenu && Saves(env, s, defs[s]) :: TextValue(s, StringValue(env.modules, s, env.val(s)))
  }

  /** The same for conf_write, which writes every symbol; a text that is not valid for its type is not read. */
  ghost function WrittenUsers(env: Env, defs: Defs, inMenu: set<Symbol>): Users {
    map s | s in defs && s in inMenu && Written(env, s, defs[s]) && Writable(s, StringValue(env.modules, s, env.val(s)))
      :: TextValue(s, StringValue(env.modules, s, env.val(s)))
  }

  /**
    Bringing numbers into the range is done once and for all: in base 10 if the range is not empty. In base
    16 negative bounds are printed as two's complement, which is read as the largest number.
   */
  predicate Stable(base: nat, lo: int, hi: int) {
    if base == 16 then lo == LLONG_MIN || 0 <= lo <= hi || (lo < 0 && (hi == LLONG_MAX || hi == lo)) else lo <= hi
  }

  /** The range in force is stable. */
  predicate RangeOk(env: Env, s: Symbol, d: SymDef) {
    s.ty.Int? || s.ty.Hex? ==>
      match FirstRange(env, d.ranges)
      case None => true
      case Some(p) => Stable(BaseOf(s, 0), RangeVal(env, p.lo, BaseOf(s, 0)), RangeVal(env, p.hi, BaseOf(s, 0)))
  }

  /** What is read of a printed bound. */
  lemma FormatRoundTrip(n: int, base: nat)
    requires base == 10 || base == 16
    requires LLONG_MIN <= n <= LLONG_MAX
    ensures StrToLL(Format(n, base), base) == if base == 16 && n < 0 then LLONG_MAX else n
  {
    if base == 10 {
      DecimalRoundTrip(n);
    } else {
      HexRoundTrip(n);
    }
  }

  /** Bringing a number into a stable range is done once and for all. */
  lemma ClampIdempotent(str: string, base: nat, lo: int, hi: int)
    requires base == 10 || base == 16
    requires LLONG_MIN <= lo <= LLONG_MAX && LLONG_MIN <= hi <= LLONG_MAX && Stable(base, lo, hi)
    ensures Clamp(Clamp(str, base, lo, hi), base, lo, hi) == Clamp(str, base, lo, hi)
  {
    hide StrToLL, Format;
    BoundIsLongLong(str, base);
    FormatRoundTrip(lo, base);
    FormatRoundTrip(hi, base);
  }

  /** The smallest number can be written in either base. */
  lemma SmallestText(base: nat) returns (str: string)
    requires base == 10 || base == 16
    ensures StrToLL(str, base) == LLONG_MIN
  {
    if base == 10 {
      str := FormatInt(LLONG_MIN);
      DecimalRoundTrip(LLONG_MIN);
    } else {
      str := "-" + Digits(-LLONG_MIN, 16);
      SignedHex(LLONG_MIN);
    }
  }

  /** Different bounds are printed differently. */
  lemma FormatInjective(m: int, n: int, base: nat)
    requires base == 10 || base == 16
    requires LLONG_MIN <= m <= LLONG_MAX && LLONG_MIN <= n <= LLONG_MAX && m != n
    ensures Format(m, base) != Format(n, base)
  {
    hide StrToLL, Digits;
    if base == 10 {
      FormatRoundTrip(m, base);
      FormatRoundTrip(n, base);
    } else {
      var m', n' := m % (ULLONG_MAX + 1), n % (ULLONG_MAX + 1);
      assert m' != n';
      ScanDigitsOf(m', 16);
      ScanDigitsOf(n', 16);
      assert ("0x" + Digits(m', 16))[2..] == Digits(m', 16) && ("0x" + Digits(n', 16))[2..] == Digits(n', 16);
    }
  }

  /** This holds for exactly the stable ranges: in an unstable one a bound that was put in is replaced again. */
  lemma ClampIdempotentExact(base: nat, lo: int, hi: int)
    requires base == 10 || base == 16
    requires LLONG_MIN <= lo <= LLONG_MAX && LLONG_MIN <= hi <= LLONG_MAX
    ensures (forall str :: Clamp(Clamp(str, base, lo, hi), base, lo, hi) == Clamp(str, base, lo, hi))
            <==> Stable(base, lo, hi)
  {
    hide StrToLL, Format;
    if Stable(base, lo, hi) {
      forall str {
        ClampIdempotent(str, base, lo, hi);
      }
    } else {
      var str := SmallestText(base);
      FormatRoundTrip(lo, base);
      assert Clamp(str, base, lo, hi) == Format(lo, base);
      assert Clamp(Format(lo, base), base, lo, hi) == Format(hi, base);
      FormatInjective(lo, hi, base);
    }
  }

  lemma {:induction false} DigitsValid(n: nat, base: nat)
    requires base == 10 || base == 16
    ensures Digits(n, base) != [] && (Digits(n, base)[0] == '0' ==> n == 0)
    ensures n == 0 ==> Digits(n, base) == "0"
    ensures forall c :: c in Digits(n, base) ==> if base == 10 then IsDigit(c) else IsHexDigit(c)
  {
    if n >= base {
      Quotient(n, base);
      DigitsValid(n / base, base);
    }
  }

  /** The text of a bound is valid for the type of its symbol. */
  lemma FormatValid(n: int)
    ensures StringValid(Int, FormatInt(n)) && StringValid(Hex, "0x" + FormatHex(n))
  {
    var t := Digits(if n < 0 then -n else n, 10);
    DigitsValid(if n < 0 then -n else n, 10);
    assert t[0] in t && (t[0] == '0' ==> |t| == 1);
    assert n < 0 ==> FormatInt(n)[1..] == t;
    DigitsValid(n % (ULLONG_MAX + 1), 16);
    var h := "0x" + FormatHex(n);
    assert h[0] == '0' && h[1] == 'x' && h[2..] == FormatHex(n);
  }

  /**
    The user values that the reader can make: conf_set_sym_val checks numbers, and a line never holds a
    line break. sym_set_string_value checks numbers only; TextSavedExact says what becomes of its texts.
   */
  predicate ValidUser(s: Symbol, user: Option<Value>) {
    user.Some? ==>
      match s.ty
      case Int | Hex => StringValid(s.ty, user.value.str)
      case String => '\n' !in user.value.str
      case _ => true
  }

  lemma RangeBounds(env: Env, s: Symbol, d: SymDef, str: string)
    requires RangeOk(env, s, d)
    ensures var v := ValidateRange(env, s, d, str);
            && ValidateRange(env, s, d, v) == v
            && (v == str || ((s.ty.Int? || s.ty.Hex?) && StringValid(s.ty, v)))
  {
    hide StrToLL, Format, FirstRange, StringValid;
    if s.ty.Int? || s.ty.Hex? {
      var p := FirstRange(env, d.ranges);
      if p.Some? {
        var base := BaseOf(s, 0);
        var lo, hi := RangeVal(env, p.value.lo, base), RangeVal(env, p.value.hi, base);
        BoundIsLongLong(env.val(p.value.lo).str, BaseOf(p.value.lo, base));
        BoundIsLongLong(env.val(p.value.hi).str, BaseOf(p.value.hi, base));
        ClampIdempotent(str, base, lo, hi);
        FormatOf(s, lo);
        FormatOf(s, hi);
      }
    }
  }

  lemma BoundIsLongLong(str: string, base: nat)
    ensures LLONG_MIN <= StrToLL(str, base) <= LLONG_MAX
  {
  }

  lemma FormatOf(s: Symbol, n: int)
    requires s.ty.Int? || s.ty.Hex?
    ensures StringValid(s.ty, Format(n, BaseOf(s, 0)))
  {
    FormatValid(n);
  }

  /**
    Giving a bool or tristate symbol the value it has as its user value leaves it unchanged in exactly
    these cases. It is lost when a default exceeds what a visible prompt allows.
   */
  lemma OwnValueKept(env: Env, s: Symbol, d: SymDef, user: Option<Value>)
    requires s.ty.Boolean? || s.ty.Tri?
    ensures var v := CalcTri(env, s, d, user);
            CalcTri(env, s, d, Some(Value(v, ""))) == v
            <==> Visible(env, s, d) == NO || v <= Visible(env, s, d) || v == RevDep(env, s, d)
                 || Implied(env, s, d) == YES
  {
    hide PromptMax, Eval, DefaultTri;
  }

  /** What the user says about a symbol that is not visible does not matter. */
  lemma HiddenIgnoresUser(env: Env, s: Symbol, d: SymDef, user: Option<Value>, user': Option<Value>)
    requires Visible(env, s, d) == NO
    ensures Calc(env, s, d, user) == Calc(env, s, d, user')
  {
    hide Visible, RevDep, Implied, DefaultTri, DefaultStr, ValidateRange;
  }

  lemma TextOfTri(modules: Tristate, s: Symbol, v: Value)
    requires s.ty.Boolean? || s.ty.Tri?
    requires v.tri == MOD ==> s.ty.Tri? && modules != NO
    ensures TextValue(s, StringValue(modules, s, v)) == Value(v.tri, "") && Writable(s, StringValue(modules, s, v))
  {
    assert "n"[0] == 'n' && "m"[0] == 'm' && "y"[0] == 'y';
  }

  /** A bool or tristate keeps its value exactly if that is its default, or the symbol is written and can be changed. */
  lemma TriSavedExact(env: Env, s: Symbol, d: SymDef, user: Option<Value>)
    requires (s.ty.Boolean? || s.ty.Tri?) && env.val(s) == Calc(env, s, d, user)
    ensures Calc(env, s, d, Restored(env, s, d, env.val(s))) == env.val(s)
            <==> env.val(s) == Calc(env, s, d, None) || (!d.auto && Visible(env, s, d) > RevDep(env, s, d))
    ensures Writable(s, StringValue(env.modules, s, env.val(s)))
  {
    hide PromptMax, Eval, DefaultTri;
    TextOfTri(env.modules, s, env.val(s));
    var v := env.val(s).tri;
    TriNameInjective(v, CalcTri(env, s, d, None));
    assert StringDefault(env, s, d) == TriName(CalcTri(env, s, d, None));
    OwnValueKept(env, s, d, user);
  }

  /** With modules off the value always is the default if the symbol cannot be changed. */
  lemma TwoValuedSaved(env: Env, s: Symbol, d: SymDef, user: Option<Value>)
    requires (s.ty.Boolean? || s.ty.Tri?) && env.modules == NO
    requires env.val(s) == Calc(env, s, d, user)
    ensures env.val(s) == Calc(env, s, d, None) || Visible(env, s, d) > RevDep(env, s, d)
  {
    hide PromptMax, Eval, DefaultTri;
  }

  /** With modules on it may not: m under an equal select, where the default is y. */
  lemma ModuleNotSaved(env: Env, s: Symbol, d: SymDef)
    requires s.ty.Tri? && env.modules != NO && env.val(s) == Calc(env, s, d, Some(Value(MOD, "")))
    requires Visible(env, s, d) == MOD && RevDep(env, s, d) == MOD
    requires Implied(env, s, d) != YES && DefaultTri(env, d) == YES
    ensures env.val(s).tri == MOD && Calc(env, s, d, Restored(env, s, d, env.val(s))).tri == YES
  {
    hide PromptMax, Eval, DefaultTri, RevDep, Implied;
  }

  /** The same for numbers and texts, whose ranges must be stable. */
  lemma TextSaved(env: Env, s: Symbol, d: SymDef, user: Option<Value>)
    requires (s.ty.Int? || s.ty.Hex? || s.ty.String?) && RangeOk(env, s, d) && ValidUser(s, user)
    requires Visible(env, s, d) != NO && env.val(s) == Calc(env, s, d, user)
    ensures Calc(env, s, d, Restored(env, s, d, env.val(s))) == env.val(s)
            <==> env.val(s) == Calc(env, s, d, None) || (!d.auto && Visible(env, s, d) > RevDep(env, s, d))
    ensures Saves(env, s, d) ==> Writable(s, StringValue(env.modules, s, env.val(s)))
  {
    hide Visible, RevDep, Implied, ValidateRange, DefaultStr, RangeOk, StringValid;
    RangeBounds(env, s, d, CalcStr(env, s, d, user));
    RangeBounds(env, s, d, CalcStr(env, s, d, None));
  }

  /** The user value of a symbol after its line is written to a file and the file is read. */
  function ReadBack(prefix: string, syms: Table, s: Symbol, str: string): Option<Value> {
    UserOf(ReadText(prefix, syms, map[], SymbolLine(prefix, s, str)), s)
  }

  /** The user value left of a symbol of value `v` after a minimal configuration went through a file. */
  function RestoredFromFile(prefix: string, syms: Table, env: Env, s: Symbol, d: SymDef, v: Value): Option<Value> {
    if SavesValue(env, s, d, v) then ReadBack(prefix, syms, s, StringValue(env.modules, s, v)) else None
  }

  /**
    The condition is exact for a text that the user gives: it survives the file if the prompt is hidden, if
    it is the default, or if it has no line break, the prompt shows beyond what selects the symbol and the
    symbol is not AUTO, and in no other case.
   */
  lemma TextSavedExact(prefix: string, syms: Table, env: Env, s: Symbol, d: SymDef, str: string)
    requires GoodPrefix(prefix) && GoodName(prefix, syms, s) && s.ty.String?
    ensures var v := Calc(env, s, d, Some(Value(NO, str)));
            Calc(env, s, d, RestoredFromFile(prefix, syms, env, s, d, v)) == v
            <==> Visible(env, s, d) == NO || str == DefaultStr(env, d)
                 || (Visible(env, s, d) > RevDep(env, s, d) && !d.auto && '\n' !in str)
  {
    hide Visible, RevDep, Implied, DefaultStr, HasReason, ReadText, SymbolLine, GoodName, GoodPrefix;
    var v := Calc(env, s, d, Some(Value(NO, str)));
    if Visible(env, s, d) == NO {
      HiddenIgnoresUser(env, s, d, Some(Value(NO, str)), RestoredFromFile(prefix, syms, env, s, d, v));
    } else {
      StringLineExact(prefix, syms, s, str);
    }
  }

  /**
    What a symbol must be like to be saved faithfully: if its prompt shows, it has the value it would have
    without the user, or is listed in a menu, not AUTO and visible beyond what selects it; and the range in
    force is stable.
   */
  predicate Savable(env: Env, s: Symbol, d: SymDef, inMenu: set<Symbol>) {
    Visible(env, s, d) != NO ==>
      && RangeOk(env, s, d)
      && (env.val(s) == Calc(env, s, d, None) || (!d.auto && s in inMenu && Visible(env, s, d) > RevDep(env, s, d)))
  }

  /** Once all it depends on is restored, a symbol with a stable range gets its value back in exactly these cases. */
  lemma SavedValueExact(env: Env, s: Symbol, d: SymDef, user: Option<Value>, inMenu: set<Symbol>)
    requires env.val(s) == Calc(env, s, d, user) && ValidUser(s, user)
    requires Visible(env, s, d) != NO ==> RangeOk(env, s, d)
    ensures Calc(env, s, d, if s in inMenu then Restored(env, s, d, env.val(s)) else None) == env.val(s)
            <==> Savable(env, s, d, inMenu)
    ensures Saves(env, s, d) ==> Writable(s, StringValue(env.modules, s, env.val(s)))
  {
    hide Calc, RangeOk, ValidUser, Writable, TextValue, StringDefault, Visible, RevDep;
    var restored := if s in inMenu then Restored(env, s, d, env.val(s)) else None;
    if Visible(env, s, d) == NO {
      HiddenIgnoresUser(env, s, d, user, restored);
    } else if HasType(s) {
      if s.ty.Boolean? || s.ty.Tri? {
        TriSavedExact(env, s, d, user);
      } else {
        TextSaved(env, s, d, user);
      }
    } else {
      UntypedIgnoresUser(env, s, d, user, restored);
      UntypedIgnoresUser(env, s, d, user, None);
    }
  }

  lemma UntypedIgnoresUser(env: Env, s: Symbol, d: SymDef, user: Option<Value>, user': Option<Value>)
    requires !HasType(s)
    ensures Calc(env, s, d, user) == Calc(env, s, d, user')
  {
  }

  /**
    conf_write_defconfig loses nothing: evaluation from the saved user values alone gives every symbol the
    value it had, with modules off or on.
   */
  lemma {:induction false} SavedefconfigLossless(env: Env, env': Env, defs: Defs, users: Users, inMenu: set<Symbol>,
                                                 rank: Symbol -> nat, s: Symbol)
    requires env.modules == env'.modules && Acyclic(defs, rank)
    requires forall t :: t in defs ==> Savable(env, t, defs[t], inMenu) && ValidUser(t, UserOf(users, t))
    requires Solves(env, defs, users) && Solves(env', defs, SavedUsers(env, defs, inMenu))
    ensures env'.val(s) == env.val(s)
    decreases rank(s)
  {
    hide Calc, Deps, Savable, ValidUser, SavesValue, TextValue, StringValue;
    assert env.val(s) == SymValue(env, defs, users, s);
    if s in defs && !IsTriConst(s) {
      forall t | t in Deps(s, defs[s]) ensures env'.val(t) == env.val(t) {
        SavedefconfigLossless(env, env', defs, users, inMenu, rank, t);
      }
      var saved := SavedUsers(env, defs, inMenu);
      CalcAgree(env, env', s, defs[s], UserOf(saved, s));
      SavableRange(env, s, defs[s], inMenu);
      SavedValueExact(env, s, defs[s], UserOf(users, s), inMenu);
    }
  }

  lemma SavableRange(env: Env, s: Symbol, d: SymDef, inMenu: set<Symbol>)
    requires Savable(env, s, d, inMenu)
    ensures Visible(env, s, d) != NO ==> RangeOk(env, s, d)
  {
  }

  /** User values are valid and the ranges in force stable. */
  ghost predicate Sound(env: Env, defs: Defs, users: Users) {
    forall t :: t in defs ==>
      !IsTriConst(t) && ValidUser(t, UserOf(users, t)) && (Visible(env, t, defs[t]) != NO ==> RangeOk(env, t, defs[t]))
  }

  /** No value is lost exactly if every symbol is one that is saved faithfully. */
  lemma SavedefconfigExact(env: Env, env': Env, defs: Defs, users: Users, inMenu: set<Symbol>, rank: Symbol -> nat)
    requires env.modules == env'.modules && Acyclic(defs, rank) && Sound(env, defs, users)
    requires Solves(env, defs, users) && Solves(env', defs, SavedUsers(env, defs, inMenu))
    ensures (forall s :: env'.val(s) == env.val(s)) <==> forall t :: t in defs ==> Savable(env, t, defs[t], inMenu)
  {
    hide Calc, Deps, Savable, ValidUser, SavesValue, TextValue, StringValue, Visible, RangeOk, Acyclic;
    if forall t :: t in defs ==> Savable(env, t, defs[t], inMenu) {
      forall s ensures env'.val(s) == env.val(s) {
        SavedefconfigLossless(env, env', defs, users, inMenu, rank, s);
      }
    } else if forall s :: env'.val(s) == env.val(s) {
      var t :| t in defs && !Savable(env, t, defs[t], inMenu);
      assert env.val(t) == SymValue(env, defs, users, t);
      assert env'.val(t) == SymValue(env', defs, SavedUsers(env, defs, inMenu), t);
      CalcAgree(env, env', t, defs[t], UserOf(SavedUsers(env, defs, inMenu), t));
      SavedValueExact(env, t, defs[t], UserOf(users, t), inMenu);
      assert false;
    }
  }

  /**
    What conf_write and conf_read_simple keep: values that are written, unless a default exceeds what a
    visible prompt allows, and values that a symbol would have without the user.
   */
  predicate Keepable(env: Env, s: Symbol, d: SymDef, inMenu: set<Symbol>) {
    Visible(env, s, d) != NO ==>
      && RangeOk(env, s, d)
      && if d.auto || s !in inMenu then env.val(s) == Calc(env, s, d, None)
         else s.ty.Boolean? || s.ty.Tri? ==>
                env.val(s).tri <= Visible(env, s, d) || env.val(s).tri == RevDep(env, s, d) || Implied(env, s, d) == YES
  }

  /** The user value left of a symbol after writing it and reading it back, if it is not ignored. */
  function KeptUser(env: Env, s: Symbol, d: SymDef, inMenu: set<Symbol>): Option<Value> {
    var str := StringValue(env.modules, s, env.val(s));
    if s in inMenu && Written(env, s, d) && Writable(s, str) then Some(TextValue(s, str)) else None
  }

  lemma WrittenTri(env: Env, s: Symbol, d: SymDef, user: Option<Value>, inMenu: set<Symbol>)
    requires env.val(s) == Calc(env, s, d, user) && (s.ty.Boolean? || s.ty.Tri?) && Visible(env, s, d) != NO
    ensures Calc(env, s, d, KeptUser(env, s, d, inMenu)) == env.val(s) <==> Keepable(env, s, d, inMenu)
  {
    hide PromptMax, Eval, DefaultTri;
    TextOfTri(env.modules, s, env.val(s));
    OwnValueKept(env, s, d, user);
  }

  lemma WrittenText(env: Env, s: Symbol, d: SymDef, user: Option<Value>, inMenu: set<Symbol>)
    requires env.val(s) == Calc(env, s, d, user) && (s.ty.Int? || s.ty.Hex? || s.ty.String?) && Visible(env, s, d) != NO
    requires RangeOk(env, s, d) && ValidUser(s, user)
    ensures Calc(env, s, d, KeptUser(env, s, d, inMenu)) == env.val(s) <==> Keepable(env, s, d, inMenu)
  {
    hide Visible, RevDep, Implied, ValidateRange, DefaultStr, RangeOk, StringValid;
    RangeBounds(env, s, d, CalcStr(env, s, d, user));
  }

  /** Once all it depends on is restored, a symbol with a stable range gets its value back in exactly these cases. */
  lemma WrittenValueExact(env: Env, s: Symbol, d: SymDef, user: Option<Value>, inMenu: set<Symbol>)
    requires env.val(s) == Calc(env, s, d, user) && ValidUser(s, user)
    requires Visible(env, s, d) != NO ==> RangeOk(env, s, d)
    ensures Calc(env, s, d, KeptUser(env, s, d, inMenu)) == env.val(s) <==> Keepable(env, s, d, inMenu)
  {
    hide Calc, RangeOk, ValidUser, Writable, TextValue, StringDefault, Visible, StringValue, KeptUser;
    var read := KeptUser(env, s, d, inMenu);
    if Visible(env, s, d) == NO {
      HiddenIgnoresUser(env, s, d, user, read);
    } else if !HasType(s) {
      UntypedIgnoresUser(env, s, d, user, read);
      UntypedIgnoresUser(env, s, d, user, None);
    } else if s.ty.Boolean? || s.ty.Tri? {
      WrittenTri(env, s, d, user, inMenu);
    } else {
      WrittenText(env, s, d, user, inMenu);
    }
  }

  lemma KeptUserIs(env: Env, defs: Defs, inMenu: set<Symbol>, s: Symbol)
    requires s in defs
    ensures UserOf(WrittenUsers(env, defs, inMenu), s) == KeptUser(env, s, defs[s], inMenu)
  {
    hide Written, Writable, TextValue, StringValue;
  }

  /** Writing the whole configuration and reading it back keeps every value, also with modules on. */
  lemma {:induction false} ConfigLossless(env: Env, env': Env, defs: Defs, users: Users, inMenu: set<Symbol>,
                                          rank: Symbol -> nat, s: Symbol)
    requires env.modules == env'.modules && Acyclic(defs, rank) && Sound(env, defs, users)
    requires forall t :: t in defs ==> Keepable(env, t, defs[t], inMenu)
    requires Solves(env, defs, users) && Solves(env', defs, WrittenUsers(env, defs, inMenu))
    ensures env'.val(s) == env.val(s)
    decreases rank(s)
  {
    hide Calc, Deps, Keepable, ValidUser, Visible, RangeOk, KeptUser, WrittenUsers, Acyclic;
    assert env.val(s) == SymValue(env, defs, users, s);
    assert env'.val(s) == SymValue(env', defs, WrittenUsers(env, defs, inMenu), s);
    if s in defs && !IsTriConst(s) {
      forall t | t in Deps(s, defs[s]) ensures env'.val(t) == env.val(t) {
        RankLower(defs, rank, s, t);
        ConfigLossless(env, env', defs, users, inMenu, rank, t);
      }
      CalcAgree(env, env', s, defs[s], UserOf(WrittenUsers(env, defs, inMenu), s));
      KeptUserIs(env, defs, inMenu, s);
      WrittenValueExact(env, s, defs[s], UserOf(users, s), inMenu);
    }
  }

  lemma RankLower(defs: Defs, rank: Symbol -> nat, s: Symbol, t: Symbol)
    requires Acyclic(defs, rank) && s in defs && t in Deps(s, defs[s])
    ensures rank(t) < rank(s)
  {
  }

  /** No value is lost exactly if every symbol is one whose value is kept. */
  lemma ConfigExact(env: Env, env': Env, defs: Defs, users: Users, inMenu: set<Symbol>, rank: Symbol -> nat)
    requires env.modules == env'.modules && Acyclic(defs, rank) && Sound(env, defs, users)
    requires Solves(env, defs, users) && Solves(env', defs, WrittenUsers(env, defs, inMenu))
    ensures (forall s :: env'.val(s) == env.val(s)) <==> forall t :: t in defs ==> Keepable(env, t, defs[t], inMenu)
  {
    hide Calc, Deps, Keepable, ValidUser, Visible, RangeOk, Acyclic, WrittenUsers, KeptUser;
    if forall t :: t in defs ==> Keepable(env, t, defs[t], inMenu) {
      forall s ensures env'.val(s) == env.val(s) {
        ConfigLossless(env, env', defs, users, inMenu, rank, s);
      }
    } else if forall s :: env'.val(s) == env.val(s) {
      var t :| t in defs && !Keepable(env, t, defs[t], inMenu);
      assert env.val(t) == SymValue(env, defs, users, t);
      assert env'.val(t) == SymValue(env', defs, WrittenUsers(env, defs, inMenu), t);
      CalcAgree(env, env', t, defs[t], UserOf(WrittenUsers(env, defs, inMenu), t));
      KeptUserIs(env, defs, inMenu, t);
      WrittenValueExact(env, t, defs[t], UserOf(users, t), inMenu);
      assert false;
    }
  }

  /** The entry for a symbol with the value it has. */
  ghost function EntryOf(env: Env, s: Symbol): Entry {
    Entry(s, StringValue(env.modules, s, env.val(s)))
  }

  /** An entry for each of the given symbols, at its first menu. */
  ghost function EntriesFor(env: Env, saved: set<Symbol>, ss: seq<Symbol>, seen: set<Symbol>): seq<Entry> {
    if ss == [] then []
    else
      var rest := EntriesFor(env, saved, ss[1..], seen + {ss[0]});
      if ss[0] in saved && ss[0] !in seen then [EntryOf(env, ss[0])] + rest else rest
  }

  ghost function SavedSet(env: Env, defs: Defs): set<Symbol> {
    set s | s in defs && Saves(env, s, defs[s])
  }

  /** The entries of a minimal configuration: every saved symbol at its first menu. */
  ghost function SavedEntries(env: Env, defs: Defs, ss: seq<Symbol>): seq<Entry> {
    EntriesFor(env, SavedSet(env, defs), ss, {})
  }

  /** One more symbol at the end: it has an entry if it was not seen before. */
  lemma {:induction false} EntriesOneMore(env: Env, saved: set<Symbol>, ss: seq<Symbol>, seen: set<Symbol>, s: Symbol)
    ensures EntriesFor(env, saved, ss + [s], seen) == EntriesFor(env, saved, ss, seen)
            + if s in saved && s !in seen && s !in ss then [EntryOf(env, s)] else []
  {
    hide StringValue;
    if ss == [] {
      assert ss + [s] == [s] && [s][1..] == [];
    } else {
      assert (ss + [s])[1..] == ss[1..] + [s];
      EntriesOneMore(env, saved, ss[1..], seen + {ss[0]}, s);
      assert ss == [ss[0]] + ss[1..];
    }
  }

  lemma {:induction false} PrintConcat(prefix: string, a: seq<Entry>, b: seq<Entry>)
    ensures PrintAll(prefix, a + b) == PrintAll(prefix, a) + PrintAll(prefix, b)
  {
    hide SymbolLine;
    if a == [] {
      assert a + b == b;
    } else {
      assert (a + b)[1..] == a[1..] + b;
      PrintConcat(prefix, a[1..], b);
    }
  }

  /** There is an entry for exactly the given symbols that are listed. */
  lemma {:induction false} EntriesExact(env: Env, saved: set<Symbol>, ss: seq<Symbol>, seen: set<Symbol>)
    ensures forall e :: e in EntriesFor(env, saved, ss, seen)
                        <==> e == EntryOf(env, e.s) && e.s in saved && e.s in ss && e.s !in seen
  {
    hide StringValue;
    if ss != [] {
      assert ss == [ss[0]] + ss[1..];
      EntriesExact(env, saved, ss[1..], seen + {ss[0]});
    }
  }

  /** A minimal configuration has an entry for exactly the saved symbols. */
  lemma SavedEntriesExact(env: Env, defs: Defs, ss: seq<Symbol>)
    ensures forall e :: e in SavedEntries(env, defs, ss)
                        <==> e == EntryOf(env, e.s) && e.s in defs && e.s in ss && Saves(env, e.s, defs[e.s])
  {
    hide Saves, EntriesFor, EntryOf;
    EntriesExact(env, SavedSet(env, defs), ss, {});
  }

  /** Entries that hold the values of their symbols assign just these. */
  lemma {:induction false} AssignedValues(env: Env, entries: seq<Entry>)
    requires forall e :: e in entries ==> e == EntryOf(env, e.s)
    ensures forall s :: s in Assigned(entries) <==> EntryOf(env, s) in entries
    ensures forall s :: s in Assigned(entries) ==> Assigned(entries)[s] == TextValue(s, EntryOf(env, s).str)
  {
    hide StringValue, TextValue;
    if entries != [] {
      assert entries == [entries[0]] + entries[1..];
      AssignedValues(env, entries[1..]);
    }
  }

  lemma SavedEntriesAssign(env: Env, defs: Defs, ss: seq<Symbol>)
    ensures Assigned(SavedEntries(env, defs, ss)) == SavedUsers(env, defs, set s | s in ss)
  {
    hide Saves, StringValue, TextValue, SavedEntries, Assigned;
    SavedEntriesExact(env, defs, ss);
    AssignedValues(env, SavedEntries(env, defs, ss));
  }

  /**
    From file to file: reading the text that conf_write_defconfig wrote and evaluating gives every symbol
    the value it had, exactly if every symbol is one that is saved faithfully.
   */
  lemma DefconfigFileExact(env: Env, env': Env, defs: Defs, users: Users, rank: Symbol -> nat, ss: seq<Symbol>,
                           prefix: string, syms: Table)
    requires env.modules == env'.modules && Acyclic(defs, rank) && Sound(env, defs, users) && Solves(env, defs, users)
    requires GoodPrefix(prefix) && forall t :: t in defs ==> GoodName(prefix, syms, t)
    requires Solves(env', defs, ReadText(prefix, syms, map[], PrintAll(prefix, SavedEntries(env, defs, ss))))
    ensures (forall s :: env'.val(s) == env.val(s))
            <==> forall t :: t in defs ==> Savable(env, t, defs[t], set u | u in ss)
  {
    hide Savable, ValidUser, GoodName, Saves, StringValue, TextValue, Writable, Calc, Deps, Visible, RangeOk;
    var inMenu := set u | u in ss;
    var entries := SavedEntries(env, defs, ss);
    SavedEntriesExact(env, defs, ss);
    SavedEntriesAssign(env, defs, ss);
    forall e | e in entries ensures GoodName(prefix, syms, e.s) && Writable(e.s, e.str) {
      assert env.val(e.s) == SymValue(env, defs, users, e.s);
      SavedValueExact(env, e.s, defs[e.s], UserOf(users, e.s), inMenu);
    }
    TextRoundTrip(prefix, syms, map[], entries);
    assert map[] + Assigned(entries) == Assigned(entries);
    SavedefconfigExact(env, env', defs, users, inMenu, rank);
  }
}
