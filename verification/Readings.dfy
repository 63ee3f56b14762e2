/**
  What a line of a configuration file sets (conf_read_simple, conf_set_sym_val and sym_string_valid in
  confdata.c and symbol.c), by the text behind the equals sign; and how an unset symbol is written.
 */
module Readings {
  import opened CStrings
  import opened Options
  import opened Tristates
  import opened Exprs
  import opened Semantics
  import opened Escapes
  import opened DotConfig
  import opened LineTexts
  import Defconfig

  /** The line `NAME=v`. */
  function SetLine(prefix: string, s: Symbol, v: string): string {
    prefix + s.name + "=" + v + "\n"
  }

  /** The tristate that a text sets: by its first letter, m for tristates alone. */
  function LetterValue(ty: SymType, v: string): Option<Tristate> {
    if v == "" then None
    else if v[0] == 'y' then Some(YES)
    else if v[0] == 'm' && ty.Tri? then Some(MOD)
    else if v[0] == 'n' then Some(NO)
    else None
  }

  /** A bool or tristate is set to what the first letter says, and to nothing by any other text. */
  lemma LogicalLine(prefix: string, syms: Table, s: Symbol, v: string)
    requires GoodPrefix(prefix) && GoodName(prefix, syms, s) && '\n' !in v && (s.ty.Boolean? || s.ty.Tri?)
    ensures LineEffect(prefix, syms, SetLine(prefix, s, v))
            == match LetterValue(s.ty, v)
               case Some(t) => Some(Assignment(s, Value(t, "")))
               case None => None
  {
    hide LineEffect, GoodName, GoodPrefix, ValueText;
    ValueLineEffect(prefix, syms, s, v);
    ValueTextCut(v);
    assert CutReturn(v) != "" ==> CutReturn(v)[0] == v[0];
    assert v != "" && CutReturn(v) == "" ==> v[0] == '\r';
  }

  /** A carriage return before the line end is no part of the value. */
  lemma CarriageReturn(prefix: string, syms: Table, s: Symbol, v: string)
    requires GoodPrefix(prefix) && GoodName(prefix, syms, s) && '\n' !in v && (v == "" || v[|v| - 1] != '\r')
    ensures LineEffect(prefix, syms, SetLine(prefix, s, v + "\r")) == LineEffect(prefix, syms, SetLine(prefix, s, v))
  {
    hide LineEffect, GoodName, ValueText, ParseValue, SetBy;
    ValueLineEffect(prefix, syms, s, v);
    ValueLineEffect(prefix, syms, s, v + "\r");
    ReturnCut(v);
  }

  lemma ReturnCut(v: string)
    requires '\n' !in v && (v == "" || v[|v| - 1] != '\r')
    ensures '\n' !in v + "\r" && ValueText(v + "\r" + "\n") == v == ValueText(v + "\n")
  {
    hide ValueText;
    ValueTextCut(v);
    ValueTextCut(v + "\r");
    assert (v + "\r")[..|v|] == v && (v + "\r")[|v|] == '\r';
  }

  /** A line `# NAME is not set` sets a bool or tristate to n, and is a comment otherwise. */
  lemma UnsetLine(prefix: string, syms: Table, s: Symbol)
    requires GoodPrefix(prefix) && GoodName(prefix, syms, s)
    ensures LineEffect(prefix, syms, "# " + prefix + s.name + " is not set\n")
            == if s.ty.Boolean? || s.ty.Tri? then Some(Assignment(s, Value(NO, ""))) else None
  {
    hide Find, UnsetName, StartsWith;
    LocateName(prefix, s.name);
  }

  /** A number is set exactly by the numerals of its type. */
  lemma NumberLine(prefix: string, syms: Table, s: Symbol, v: string)
    requires GoodPrefix(prefix) && GoodName(prefix, syms, s) && '\n' !in v && (s.ty.Int? || s.ty.Hex?)
    ensures LineEffect(prefix, syms, SetLine(prefix, s, v))
            == if (if s.ty.Int? then Decimal(CutReturn(v)) else Hexadecimal(CutReturn(v)))
               then Some(Assignment(s, Value(NO, CutReturn(v)))) else None
  {
    hide LineEffect, GoodName, GoodPrefix, ValueText, StringValid, Decimal, Hexadecimal, CutReturn;
    ValueLineEffect(prefix, syms, s, v);
    ValueTextCut(v);
    DecimalExact(CutReturn(v));
    HexadecimalExact(CutReturn(v));
  }

  /** The decimal numerals: what printf makes of an integer, and `-0`. */
  ghost predicate Decimal(str: string) {
    str == "-0" || exists n: int :: str == FormatInt(n)
  }

  /** The hexadecimal ones: what strtoll reads to the end, if it starts with a digit. */
  predicate Hexadecimal(str: string) {
    && str != "" && DigitVal(str[0]) < 16
    && Convert(str, 16).converted && Convert(str, 16).rest == ""
  }

  /** Digits without leading zeros are those of a number. */
  lemma {:induction false} DigitsOf(t: string) returns (n: nat)
    requires t != "" && (forall c :: c in t ==> IsDigit(c)) && (t[0] == '0' ==> |t| == 1)
    ensures t == Digits(n, 10) && (t[0] != '0' ==> n > 0)
  {
    var k := |t| - 1;
    var d := DigitVal(t[k]);
    assert t[k] in t;
    if k == 0 {
      n := d;
      assert t == [Digit(d)];
    } else {
      var m := DigitsOf(t[..k]);
      n := 10 * m + d;
      assert n / 10 == m && n % 10 == d;
      assert t == t[..k] + [t[k]] && Digit(d) == t[k];
    }
  }

  /** sym_string_valid for an int. */
  lemma DecimalExact(str: string)
    ensures StringValid(Int, str) <==> Decimal(str)
  {
    if StringValid(Int, str) {
      var t := if str[0] == '-' then str[1..] else str;
      var n := DigitsOf(t);
      if str[0] == '-' {
        assert str == "-" + t;
        var m: int := n;
        assert n > 0 ==> str == FormatInt(-m);
        assert n == 0 ==> str == "-0";
      } else {
        assert str == FormatInt(n);
      }
    }
    if Decimal(str) {
      if str == "-0" {
        assert str[1..] == "0";
      } else {
        var n: int :| str == FormatInt(n);
        Defconfig.FormatValid(n);
      }
    }
  }

  lemma {:induction false} ScanAll(s: string, base: nat, acc: int)
    ensures ScanDigits(s, base, acc).1 == "" <==> forall c :: c in s ==> DigitVal(c) < base
    ensures |ScanDigits(s, base, acc).1| <= |s|
  {
    if s != "" {
      assert s == [s[0]] + s[1..];
      if DigitVal(s[0]) < base {
        ScanAll(s[1..], base, acc * base + DigitVal(s[0]));
      }
    }
  }

  lemma HexDigits(c: char)
    ensures IsHexDigit(c) <==> DigitVal(c) < 16
  {
  }

  /** sym_string_valid for a hex. */
  lemma HexadecimalExact(str: string)
    ensures StringValid(Hex, str) <==> Hexadecimal(str)
  {
    forall c ensures IsHexDigit(c) <==> DigitVal(c) < 16 {
      HexDigits(c);
    }
    if str != "" && DigitVal(str[0]) < 16 {
      assert SkipSpace(str) == str;
      ScanAll(str, 16, 0);
      if HexPrefixed(str) {
        ScanAll(str[2..], 16, 0);
        assert str[1] in str && DigitVal(str[1]) >= 16;
        assert |str| >= 3 ==> str[2] in str[2..];
      }
    }
  }

  /** Every character of a text, behind a backslash or not; quotes and backslashes always are. */
  ghost predicate Quotes(s: string, t: string) {
    if s == "" then t == ""
    else
      || (t != "" && !Special(s[0]) && t[0] == s[0] && Quotes(s[1..], t[1..]))
      || (|t| >= 2 && t[0] == '\\' && t[1] == s[0] && Quotes(s[1..], t[2..]))
  }

  /** Unescaping drops a backslash before any character, not only before those that escaping puts one before. */
  lemma {:induction false} UnescapeQuoted(s: string, t: string, rest: string)
    requires Quotes(s, t)
    ensures Unescape(t + "\"" + rest) == Some(s)
    decreases s
  {
    var u := t + "\"" + rest;
    if s == "" {
      assert u[0] == '"';
    } else {
      assert s == [s[0]] + s[1..];
      var k := if t != "" && !Special(s[0]) && t[0] == s[0] && Quotes(s[1..], t[1..]) then 1 else 2;
      assert u[k..] == t[k..] + "\"" + rest && u[0] == t[0] && (k == 2 ==> u[1] == t[1]);
      UnescapeQuoted(s[1..], t[k..], rest);
    }
  }

  /** How many characters of a text need a backslash. */
  function Quoted(s: string): nat {
    if s == "" then 0 else (if s[0] == '"' || s[0] == '\\' then 1 else 0) + Quoted(s[1..])
  }

  /** Escaping adds the two quotes and a backslash for every quote and backslash, nothing else. */
  lemma {:induction false} EscapeAdds(s: string)
    ensures |Escape(s)| == |s| + Quoted(s) + 2
  {
    if s != "" {
      EscapeAdds(s[1..]);
    }
  }

  /** A bool or tristate that is n is written as a comment, and only then. */
  lemma UnsetWritten(prefix: string, s: Symbol, str: string)
    requires (prefix + s.name != "" ==> (prefix + s.name)[0] != '#') && HasType(s)
    ensures (s.ty.Boolean? || s.ty.Tri?) && str == "n" ==>
              SymbolLine(prefix, s, str) == "# " + prefix + s.name + " is not set\n"
    ensures (s.ty.Boolean? || s.ty.Tri?) && (str == "y" || str == "m") ==>
              SymbolLine(prefix, s, str) == SetLine(prefix, s, str)
    ensures s.ty.Int? || s.ty.Hex? ==> SymbolLine(prefix, s, str) == SetLine(prefix, s, str)
    ensures s.ty.String? ==>
              exists t :: Quotes(str, t) && SymbolLine(prefix, s, str) == SetLine(prefix, s, "\"" + t + "\"")
  {
    hide Quotes;
    EscapedQuotes(str);
    assert Escape(str) == "\"" + EscapeBody(str) + "\"";
  }

  lemma {:induction false} EscapedQuotes(s: string)
    ensures Quotes(s, EscapeBody(s))
  {
    if s != "" {
      EscapedQuotes(s[1..]);
      var n := if Special(s[0]) then 2 else 1;
      assert EscapeBody(s)[n..] == EscapeBody(s[1..]);
    }
  }
}
