/**
  Quoting of string values: sym_escape_string_value (symbol.c) writes a buffer whose size a first pass
  counts; conf_set_sym_val (confdata.c) takes the quotes and backslashes out again, in place.
 */
module Escapes {
  import opened Options

  const NUL: char := '\0'

  predicate Special(c: char) {
    c == '"' || c == '\\'
  }

  function EscapeBody(s: string): string {
    if s == [] then []
    else (if Special(s[0]) then ['\\', s[0]] else [s[0]]) + EscapeBody(s[1..])
  }

  function Escape(s: string): string {
    "\"" + EscapeBody(s) + "\""
  }

  function Prepend(a: string, rest: Option<string>): Option<string> {
    if rest.Some? then Some(a + rest.value) else None
  }

  /** What the text behind an opening quote stands for; None if the closing quote is missing. */
  function Unescape(t: string): Option<string> {
    if t == [] then None
    else if t[0] == '"' then Some([])
    else if t[0] == '\\' then
      if |t| == 1 then None else Prepend([t[1]], Unescape(t[2..]))
    else Prepend([t[0]], Unescape(t[1..]))
  }

  /** Unescaping takes back escaping, whatever follows the closing quote. */
  lemma {:induction false} UnescapeEscape(s: string, rest: string)
    ensures Unescape(EscapeBody(s) + "\"" + rest) == Some(s)
  {
    var t := EscapeBody(s) + "\"" + rest;
    if s == [] {
      assert t[0] == '"';
    } else {
      UnescapeEscape(s[1..], rest);
      var u := EscapeBody(s[1..]) + "\"" + rest;
      assert t == (if Special(s[0]) then ['\\', s[0]] else [s[0]]) + u;
      assert t[if Special(s[0]) then 2 else 1..] == u;
      assert s == [s[0]] + s[1..];
    }
  }

  lemma {:induction false} EscapeConcat(a: string, b: string)
    ensures EscapeBody(a + b) == EscapeBody(a) + EscapeBody(b)
  {
    if a == [] {
      assert a + b == b;
    } else {
      assert (a + b)[1..] == a[1..] + b;
      EscapeConcat(a[1..], b);
    }
  }

  lemma {:induction false} EscapePlain(a: string)
    requires forall c :: c in a ==> !Special(c)
    ensures EscapeBody(a) == a
  {
    if a != [] {
      EscapePlain(a[1..]);
      assert a == [a[0]] + a[1..];
    }
  }

  /** strcspn(s + i, "\"\\"), as an index. */
  function NextSpecial(s: string, i: nat): (j: nat)
    requires i <= |s|
    ensures i <= j <= |s| && (j < |s| ==> Special(s[j])) && forall k :: i <= k < j ==> !Special(s[k])
    decreases |s| - i
  {
    if i == |s| || Special(s[i]) then i else NextSpecial(s, i + 1)
  }

  /** One round of either pass: the plain characters up to the next special one, then that one escaped. */
  lemma EscapeRound(s: string, p: nat)
    requires p <= |s|
    ensures var j := NextSpecial(s, p);
            && EscapeBody(s[..j]) == EscapeBody(s[..p]) + s[p..j]
            && (j < |s| ==> EscapeBody(s[..j + 1]) == EscapeBody(s[..j]) + ['\\', s[j]])
  {
    var j := NextSpecial(s, p);
    assert s[..j] == s[..p] + s[p..j];
    EscapeConcat(s[..p], s[p..j]);
    EscapePlain(s[p..j]);
    if j < |s| {
      assert s[..j + 1] == s[..j] + [s[j]];
      EscapeConcat(s[..j], [s[j]]);
      assert [s[j]][1..] == [];
    }
  }

  /** strcat onto the string that ends at `n`, in a buffer that must have room for it. */
  method Append(res: array<char>, n: nat, t: string)
    requires n + |t| < res.Length
    modifies res
    ensures res[..n + |t|] == old(res[..n]) + t && res[n + |t|] == NUL
  {
    forall k | 0 <= k < |t| {
      res[n + k] := t[k];
    }
    res[n + |t|] := NUL;
  }

  /** The first pass: the size of the escaped string with its terminator. */
  method CountEscaped(s: string) returns (reslen: nat)
    ensures reslen == |Escape(s)| + 1
  {
    reslen := |s| + 2 + 1;
    var p := 0;
    while true
      invariant p <= |s| && reslen == |EscapeBody(s[..p])| + (|s| - p) + 3
      decreases |s| - p
    {
      EscapeRound(s, p);
      p := NextSpecial(s, p);
      if p == |s| {
        break;
      }
      reslen := reslen + 1;
      p := p + 1;
    }
    assert s[..p] == s;
  }

  /** The second pass has written the escape of the first `p` characters: `n` characters. */
  ghost predicate Written(res: array<char>, n: nat, s: string, p: nat)
    reads res
  {
    && p <= |s| && res.Length == |Escape(s)| + 1
    && n == 1 + |EscapeBody(s[..p])| < res.Length
    && res[..n] == "\"" + EscapeBody(s[..p])
  }

  lemma Prefix(s: string, p: nat)
    requires p <= |s|
    ensures |EscapeBody(s[..p])| <= |EscapeBody(s)|
  {
    EscapeConcat(s[..p], s[p..]);
    assert s == s[..p] + s[p..];
  }

  /** The characters up to the next special one. */
  method WritePlain(res: array<char>, n: nat, s: string, p: nat) returns (n': nat, p': nat)
    requires Written(res, n, s, p)
    modifies res
    ensures p' == NextSpecial(s, p) && Written(res, n', s, p')
  {
    EscapeRound(s, p);
    p' := NextSpecial(s, p);
    Prefix(s, p');
    Append(res, n, s[p..p']);
    n' := n + (p' - p);
  }

  /** A special character behind a backslash. */
  method WriteSpecial(res: array<char>, n: nat, s: string, p: nat) returns (n': nat, p': nat)
    requires Written(res, n, s, p) && p < |s| && Special(s[p])
    modifies res
    ensures p' == p + 1 && Written(res, n', s, p')
  {
    EscapeRound(s, p);
    Prefix(s, p + 1);
    Append(res, n, "\\");
    Append(res, n + 1, [s[p]]);
    n', p' := n + 2, p + 1;
  }

  /** sym_escape_string_value: the second pass fills the buffer exactly. */
  method EscapeValue(s: string) returns (res: array<char>)
    ensures fresh(res) && res[..] == Escape(s) + [NUL]
  {
    var reslen := CountEscaped(s);
    res := new char[reslen];
    Append(res, 0, "\"");
    var n, p := 1, 0;
    while true
      invariant Written(res, n, s, p)
      decreases |s| - p
    {
      n, p := WritePlain(res, n, s, p);
      if p == |s| {
        break;
      }
      n, p := WriteSpecial(res, n, s, p);
    }
    assert s[..p] == s;
    Append(res, n, "\"");
    assert res[..] == res[..n + 1] + [res[n + 1]];
  }

  /** The buffer holds a terminated string at `i`. */
  ghost predicate Terminated(b: seq<char>, i: nat) {
    exists k :: i <= k < |b| && b[k] == NUL
  }

  /** strlen(b + i), as the index of the terminator. */
  function StrEnd(b: seq<char>, i: nat): (j: nat)
    requires Terminated(b, i)
    ensures i <= j < |b| && b[j] == NUL && forall k :: i <= k < j ==> b[k] != NUL
    decreases |b| - i
  {
    if b[i] == NUL then i else StrEnd(b, i + 1)
  }

  /** The C string at `i`. */
  ghost function StrAt(b: seq<char>, i: nat): string
    requires Terminated(b, i)
  {
    b[i..StrEnd(b, i)]
  }

  /** strpbrk(b + i, "\"\\"): None for a null result. */
  function FindSpecial(b: seq<char>, i: nat): (j: Option<nat>)
    requires Terminated(b, i)
    ensures j.Some? ==> i <= j.value < StrEnd(b, i) && Special(b[j.value]) && forall k :: i <= k < j.value ==>
        !Special(b[k])
    ensures j.None? ==> forall k :: i <= k < StrEnd(b, i) ==> !Special(b[k])
    decreases |b| - i
  {
    if b[i] == NUL then None else if Special(b[i]) then Some(i) else FindSpecial(b, i + 1)
  }

  lemma {:induction false} UnescapePlain(a: string, t: string)
    requires forall c :: c in a ==> !Special(c)
    ensures Unescape(a + t) == Prepend(a, Unescape(t))
  {
    if a == [] {
      assert a + t == t;
      PrependNothing(Unescape(t));
    } else {
      assert (a + t)[1..] == a[1..] + t && (a + t)[0] == a[0];
      assert !Special(a[0]);
      UnescapePlain(a[1..], t);
      PrependConcat([a[0]], a[1..], Unescape(t));
      assert a == [a[0]] + a[1..];
    }
  }

  lemma PrependNothing(t: Option<string>)
    ensures Prepend([], t) == t
  {
    if t.Some? {
      assert [] + t.value == t.value;
    }
  }

  lemma PrependConcat(a: string, b: string, t: Option<string>)
    ensures Prepend(a, Prepend(b, t)) == Prepend(a + b, t)
  {
    if t.Some? {
      assert a + (b + t.value) == a + b + t.value;
    }
  }

  lemma StrAtIs(b: seq<char>, i: nat, j: nat)
    requires i <= j < |b| && b[j] == NUL && forall k :: i <= k < j ==> b[k] != NUL
    ensures Terminated(b, i) && StrAt(b, i) == b[i..j]
  {
    assert StrEnd(b, i) == j;
  }

  /** The string behind a backslash that was overwritten. */
  lemma AfterMove(b: seq<char>, b': seq<char>, at: nat, end: nat)
    requires at < end < |b| == |b'| && b[end] == NUL && b[at] == '\\'
    requires forall k :: at <= k < end ==> b[k] != NUL
    requires forall k :: at <= k < end ==> b'[k] == b[k + 1]
    requires forall k :: end <= k < |b| ==> b'[k] == b[k]
    ensures Terminated(b', at + 1)
    ensures Unescape(b[at..end]) == if at + 1 < end then Prepend([b[at + 1]], Unescape(StrAt(b', at + 1))) else None
    ensures at + 1 == end ==> StrAt(b', at + 1) == []
  {
    if at + 1 < end {
      StrAtIs(b', at + 1, end - 1);
      assert b'[at + 1..end - 1] == b[at + 2..end];
      assert b[at..end][2..] == b[at + 2..end];
    } else {
      StrAtIs(b', at + 1, end);
    }
  }

  /** Between `p` and `p2` is unescaped text; what follows is still to be unescaped. */
  ghost predicate Progress(b: seq<char>, p: nat, p2: nat, whole: Option<string>) {
    && p <= p2 && Terminated(b, p2)
    && whole == Prepend(b[p..p2], Unescape(StrAt(b, p2)))
    && (StrAt(b, p2) == [] || forall k :: p <= k < p2 ==> b[k] != NUL)
  }

  /** The text up to the next special character needs no change. */
  lemma SkipPlain(b: seq<char>, p: nat, p2: nat, whole: Option<string>)
    requires Progress(b, p, p2, whole)
    ensures FindSpecial(b, p2).None? ==> whole == None
    ensures FindSpecial(b, p2).Some? ==>
              var at := FindSpecial(b, p2).value;
              && whole == Prepend(b[p..at], Unescape(b[at..StrEnd(b, p2)]))
              && forall k :: p <= k < at ==> b[k] != NUL
  {
    var end := StrEnd(b, p2);
    var at := if FindSpecial(b, p2).Some? then FindSpecial(b, p2).value else end;
    assert b[p2..end] == b[p2..at] + b[at..end];
    UnescapePlain(b[p2..at], b[at..end]);
    PrependConcat(b[p..p2], b[p2..at], Unescape(b[at..end]));
    assert b[p..p2] + b[p2..at] == b[p..at];
  }

  /** memmove over the backslash at `at`. */
  method RemoveBackslash(buf: array<char>, ghost p: nat, at: nat, ghost whole: Option<string>)
    requires p <= at && Terminated(buf[..], at) && buf[at] == '\\'
    requires whole == Prepend(buf[p..at], Unescape(StrAt(buf[..], at)))
    requires forall k :: p <= k < at ==> buf[k] != NUL
    modifies buf
    ensures buf[..at] == old(buf[..at]) && Progress(buf[..], p, at + 1, whole)
  {
    hide Unescape;
    ghost var b := buf[..];
    var end := StrEnd(buf[..], at);
    forall k | at <= k < end {
      buf[k] := buf[k + 1];
    }
    AfterMove(b, buf[..], at, end);
    assert buf[..at] == b[..at] && b[p..at] == buf[..at][p..];
    if at + 1 < end {
      PrependConcat(b[p..at], [b[at + 1]], Unescape(StrAt(buf[..], at + 1)));
      assert buf[..][p..at + 1] == b[p..at] + [b[at + 1]];
    } else {
      assert Unescape([]) == None by {
        UnescapeNothing();
      }
    }
  }

  lemma UnescapeNothing()
    ensures Unescape([]) == None
  {
  }

  /**
    The loop of conf_set_sym_val over a quoted value behind its opening quote at `p`. A backslash is
    overwritten by moving the rest of the string, terminator included, one place down.
   */
  method UnescapeInPlace(buf: array<char>, p: nat) returns (ok: bool)
    requires Terminated(buf[..], p)
    modifies buf
    ensures buf[..p] == old(buf[..p])
    ensures ok <==> Unescape(old(StrAt(buf[..], p))).Some?
    ensures ok ==> Terminated(buf[..], p) && StrAt(buf[..], p) == Unescape(old(StrAt(buf[..], p))).value
  {
    hide StrAt;
    ghost var whole := Unescape(StrAt(buf[..], p));
    var p2 := p;
    PrependNothing(whole);
    assert buf[..][p..p2] == [];
    while true
      invariant buf[..p] == old(buf[..p]) && Progress(buf[..], p, p2, whole)
      decreases buf.Length - p2
    {
      ghost var b := buf[..];
      SkipPlain(b, p, p2, whole);
      var q := FindSpecial(buf[..], p2);
      if q.None? {
        return false;
      }
      StrAtIs(b, q.value, StrEnd(b, p2));
      if buf[q.value] == '"' {
        assert b[q.value..StrEnd(b, p2)][0] == '"';
        buf[q.value] := NUL;
        StrAtIs(buf[..], p, q.value);
        assert buf[..][p..q.value] == b[p..q.value] + [];
        return true;
      }
      RemoveBackslash(buf, p, q.value, whole);
      assert buf[..p] == buf[..q.value][..p];
      p2 := q.value + 1;
    }
  }
}
