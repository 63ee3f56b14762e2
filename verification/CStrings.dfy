/** The C library string functions the comparison code relies on: strcmp and strtoll/strtoull. */
module CStrings {

  const LLONG_MAX: int := 0x7FFF_FFFF_FFFF_FFFF
  const LLONG_MIN: int := -0x8000_0000_0000_0000
  const ULLONG_MAX: int := 0xFFFF_FFFF_FFFF_FFFF

  /** The sign of strcmp. */
  function StrCmp(a: string, b: string): int {
    if a == [] && b == [] then 0
    else if a == [] then -1
    else if b == [] then 1
    else if a[0] < b[0] then -1
    else if a[0] > b[0] then 1
    else StrCmp(a[1..], b[1..])
  }

  lemma {:induction false} StrCmpZero(a: string, b: string)
    ensures StrCmp(a, b) == 0 <==> a == b
  {
    if a != [] && b != [] && a[0] == b[0] {
      StrCmpZero(a[1..], b[1..]);
      assert a == [a[0]] + a[1..];
      assert b == [b[0]] + b[1..];
    }
  }

  predicate IsSpace(c: char) {
    c == ' ' || '\t' <= c <= '\r'
  }

  function DigitVal(c: char): nat {
    if '0' <= c <= '9' then c as int - '0' as int
    else if 'a' <= c <= 'z' then 10 + (c as int - 'a' as int)
    else if 'A' <= c <= 'Z' then 10 + (c as int - 'A' as int)
    else 99
  }

  function SkipSpace(s: string): string {
    if s != [] && IsSpace(s[0]) then SkipSpace(s[1..]) else s
  }

  /** Reads digits of the given base: the accumulated number and the unread rest. */
  function ScanDigits(s: string, base: nat, acc: int): (int, string) {
    if s != [] && DigitVal(s[0]) < base then ScanDigits(s[1..], base, acc * base + DigitVal(s[0]))
    else (acc, s)
  }

  /** A conversion as strtoll makes it, before saturation: the exact number and the unread rest. */
  datatype Conversion = Conversion(number: int, converted: bool, rest: string)

  function Convert(s: string, base: nat): Conversion {
    var t := SkipSpace(s);
    var negative := t != [] && t[0] == '-';
    var u := if t != [] && (t[0] == '-' || t[0] == '+') then t[1..] else t;
    var prefixed := (base == 0 || base == 16) && |u| >= 3 && u[0] == '0' && (u[1] == 'x' || u[1] == 'X')
                    && DigitVal(u[2]) < 16;
    var w := if prefixed then u[2..] else u;
    var b := if prefixed then 16
             else if base == 0 then (if u != [] && u[0] == '0' then 8 else 10)
             else base;
    var (m, rest) := ScanDigits(w, b, 0);
    if |rest| == |w| then Conversion(0, false, s)
    else Conversion(if negative then -m else m, true, rest)
  }

  /** strtoll: the saturated number. */
  function StrToLL(s: string, base: nat): int {
    var n := Convert(s, base).number;
    if n > LLONG_MAX then LLONG_MAX else if n < LLONG_MIN then LLONG_MIN else n
  }

  function Digit(d: nat): char
    requires d < 16
  {
    if d < 10 then ('0' as int + d) as char else ('a' as int + (d - 10)) as char
  }

  /** The digits of a number in a base up to 16, without leading zeros. */
  function Digits(n: nat, base: nat): string
    requires 2 <= base <= 16
  {
    if n < base then [Digit(n)] else Digits(n / base, base) + [Digit(n % base)]
  }

  /** printf("%lld"). */
  function FormatInt(n: int): string {
    if n < 0 then "-" + Digits(-n, 10) else Digits(n, 10)
  }

  /** printf("%llx"): a negative number prints as its 64-bit two's complement. */
  function FormatHex(n: int): string {
    Digits(n % (ULLONG_MAX + 1), 16)
  }

  lemma DigitOfDigit(d: nat)
    requires d < 16
    ensures DigitVal(Digit(d)) == d && !IsSpace(Digit(d)) && Digit(d) != '-' && Digit(d) != '+'
    ensures Digit(d) != 'x' && Digit(d) != 'X'
  {
  }

  /** One more digit at the end of a number read completely. */
  lemma {:induction false} ScanOneMore(s: string, base: nat, acc: int, c: char)
    requires ScanDigits(s, base, acc).1 == [] && DigitVal(c) < base
    ensures ScanDigits(s + [c], base, acc) == (ScanDigits(s, base, acc).0 * base + DigitVal(c), [])
    decreases |s|
  {
    if s == [] {
      assert s + [c] == [c] && [c][1..] == [];
    } else {
      assert (s + [c])[1..] == s[1..] + [c];
      ScanOneMore(s[1..], base, acc * base + DigitVal(s[0]), c);
    }
  }

  /** The first of the digits of a number is a digit, not a blank or a sign. */
  lemma {:induction false} DigitsStart(n: nat, base: nat)
    requires 2 <= base <= 16
    ensures Digits(n, base) != []
    ensures var c := Digits(n, base)[0]; DigitVal(c) < base && !IsSpace(c) && c != '-' && c != '+'
  {
    hide DigitVal, IsSpace, Digit;
    if n < base {
      DigitOfDigit(n);
    } else {
      DigitsStart(n / base, base);
    }
  }

  lemma Quotient(n: nat, base: nat)
    requires 2 <= base <= n
    ensures n / base < n && (n / base) * base + n % base == n && n % base < base
  {
  }

  /** A number read digit by digit: its leading digits, then the last one. */
  lemma ScanLastDigit(n: nat, base: nat)
    requires 2 <= base <= 16 && base <= n
    requires ScanDigits(Digits(n / base, base), base, 0) == (n / base, [])
    ensures ScanDigits(Digits(n, base), base, 0) == (n, [])
  {
    hide DigitVal, IsSpace, Digit, Digits, ScanDigits;
    var high, low := Digits(n / base, base), Digit(n % base);
    Quotient(n, base);
    DigitOfDigit(n % base);
    ScanOneMore(high, base, 0, low);
    assert Digits(n, base) == high + [low] by {
      LastDigit(n, base);
    }
  }

  lemma LastDigit(n: nat, base: nat)
    requires 2 <= base <= 16 && base <= n
    ensures Digits(n, base) == Digits(n / base, base) + [Digit(n % base)]
  {
  }

  /** The digits of a number read back as that number. */
  lemma {:induction false} ScanDigitsOf(n: nat, base: nat)
    requires 2 <= base <= 16
    ensures ScanDigits(Digits(n, base), base, 0) == (n, [])
  {
    hide DigitVal, IsSpace, Digit;
    if n < base {
      DigitOfDigit(n);
      var s := [Digit(n)];
      assert s[1..] == [] && 0 * base == 0;
      assert ScanDigits([], base, n) == (n, []);
    } else {
      Quotient(n, base);
      ScanDigitsOf(n / base, base);
      ScanLastDigit(n, base);
    }
  }

  /** strtoll reads back what printf printed, for every 64-bit number in decimal. */
  lemma DecimalRoundTrip(n: int)
    requires LLONG_MIN <= n <= LLONG_MAX
    ensures StrToLL(FormatInt(n), 10) == n
  {
    if n < 0 {
      ScanDigitsOf(-n, 10);
      DigitsStart(-n, 10);
      var s := FormatInt(n);
      assert s[0] == '-' && s[1..] == Digits(-n, 10);
      assert SkipSpace(s) == s;
    } else {
      ScanDigitsOf(n, 10);
      DigitsStart(n, 10);
      assert SkipSpace(FormatInt(n)) == FormatInt(n);
    }
  }

  /** No leading zero. */
  lemma {:induction false} LeadingDigit(n: nat, base: nat)
    requires 2 <= base <= 16
    ensures Digits(n, base) != [] && (Digits(n, base)[0] == '0' ==> n == 0)
  {
    if n >= base {
      Quotient(n, base);
      LeadingDigit(n / base, base);
    }
  }

  /** Digits behind a `0x` are read as a number in base 16, cut to the range of 64-bit numbers. */
  lemma PrefixedHex(n: nat)
    ensures StrToLL("0x" + Digits(n, 16), 16) == if n > LLONG_MAX then LLONG_MAX else n
  {
    ScanDigitsOf(n, 16);
    DigitsStart(n, 16);
    var s := "0x" + Digits(n, 16);
    assert s[0] == '0' && s[1] == 'x' && s[2..] == Digits(n, 16);
    assert SkipSpace(s) == s;
  }

  /** In hexadecimal strtoll reads back what is not negative; two's complement digits read as the largest number. */
  lemma HexRoundTrip(n: int)
    requires LLONG_MIN <= n <= LLONG_MAX
    ensures StrToLL("0x" + FormatHex(n), 16) == if n >= 0 then n else LLONG_MAX
  {
    hide StrToLL, Digits;
    var m := n % (ULLONG_MAX + 1);
    assert m == if n >= 0 then n else n + ULLONG_MAX + 1;
    PrefixedHex(m);
  }

  /** Negative numbers can be written in hexadecimal, with a sign. */
  lemma SignedHex(n: int)
    requires LLONG_MIN <= n < 0
    ensures StrToLL("-" + Digits(-n, 16), 16) == n
  {
    ScanDigitsOf(-n, 16);
    DigitsStart(-n, 16);
    LeadingDigit(-n, 16);
    var s := "-" + Digits(-n, 16);
    assert s[0] == '-' && s[1..] == Digits(-n, 16);
    assert SkipSpace(s) == s;
  }
}
