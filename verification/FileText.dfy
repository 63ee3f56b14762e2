/**
  Whole files as sequences of assignments: what conf_read_simple (confdata.c) makes of a text, when a
  written line is read as what was written, and what a line break inside a value does.
 */
module FileText {
  import opened Options
  import opened Tristates
  import opened Exprs
  import opened Semantics
  import opened Escapes
  import opened DotConfig
  import opened LineTexts

  function OneOrNone(a: Option<Assignment>): seq<Assignment> {
    if a.Some? then [a.value] else []
  }

  /** The assignments that reading a text makes, in order. */
  function Effects(prefix: string, syms: Table, text: string): seq<Assignment>
    decreases |text|
  {
    if text == [] then []
    else
      var line := FirstLine(text);
      OneOrNone(LineEffect(prefix, syms, line)) + Effects(prefix, syms, text[|line|..])
  }

  function Apply(users: Users, es: seq<Assignment>): Users
    decreases |es|
  {
    if es == [] then users else Apply(users[es[0].s := es[0].v], es[1..])
  }

  lemma {:induction false} ApplyConcat(users: Users, a: seq<Assignment>, b: seq<Assignment>)
    ensures Apply(users, a + b) == Apply(Apply(users, a), b)
    decreases a
  {
    if a == [] {
      assert a + b == b;
    } else {
      assert (a + b)[1..] == a[1..] + b;
      ApplyConcat(users[a[0].s := a[0].v], a[1..], b);
    }
  }

  /** Reading makes the assignments of the text. */
  lemma {:induction false} ReadIsApply(prefix: string, syms: Table, users: Users, text: string)
    ensures ReadText(prefix, syms, users, text) == Apply(users, Effects(prefix, syms, text))
    decreases |text|
  {
    hide LineEffect, FirstLine;
    if text != [] {
      var line := FirstLine(text);
      FirstLineSome(text);
      var rest := Effects(prefix, syms, text[|line|..]);
      ReadIsApply(prefix, syms, ReadLine(prefix, syms, users, line), text[|line|..]);
      var e := LineEffect(prefix, syms, line);
      ApplyConcat(users, OneOrNone(e), rest);
      assert e.Some? ==> [e.value][1..] == [];
    }
  }

  lemma FirstLineSome(text: string)
    requires text != []
    ensures 0 < |FirstLine(text)| <= |text| && FirstLine(text) <= text
  {
  }

  /** A text of whole lines. */
  predicate WholeLines(text: string) {
    text == [] || text[|text| - 1] == '\n'
  }

  /** The first line of a text of whole lines does not depend on what follows. */
  lemma FirstLineAlone(a: string, b: string)
    requires a != [] && WholeLines(a)
    ensures FirstLine(a + b) == FirstLine(a) && WholeLines(a[|FirstLine(a)|..])
  {
    var e := IndexOf(a, '\n', 0);
    assert e < |a|;
    assert forall k :: 0 <= k < |a| ==> (a + b)[k] == a[k];
    IndexIs(a + b, '\n', 0, e);
    assert (a + b)[..e + 1] == a[..e + 1];
  }

  lemma EffectsNone(prefix: string, syms: Table)
    ensures Effects(prefix, syms, []) == []
  {
  }

  lemma EffectsFirst(prefix: string, syms: Table, text: string)
    requires text != []
    ensures var line := FirstLine(text);
            Effects(prefix, syms, text)
            == OneOrNone(LineEffect(prefix, syms, line)) + Effects(prefix, syms, text[|line|..])
  {
  }

  lemma {:induction false} EffectsConcat(prefix: string, syms: Table, a: string, b: string)
    requires WholeLines(a)
    ensures Effects(prefix, syms, a + b) == Effects(prefix, syms, a) + Effects(prefix, syms, b)
    decreases |a|
  {
    hide LineEffect, FirstLine, Effects, OneOrNone;
    EffectsNone(prefix, syms);
    if a == [] {
      assert a + b == b;
    } else {
      FirstLineAlone(a, b);
      FirstLineSome(a);
      var line := FirstLine(a);
      EffectsConcat(prefix, syms, a[|line|..], b);
      EffectsFirst(prefix, syms, a);
      EffectsFirst(prefix, syms, a + b);
      assert (a + b)[|line|..] == a[|line|..] + b;
    }
  }

  /** A single line. */
  lemma LineAlone(prefix: string, syms: Table, line: string)
    requires line != [] && IndexOf(line, '\n', 0) == |line| - 1
    ensures Effects(prefix, syms, line) == OneOrNone(LineEffect(prefix, syms, line)) && WholeLines(line)
  {
    hide LineEffect;
    FirstLineIs(line, []);
    assert line + [] == line && line[|line|..] == [];
  }

  /** A text leaves all user values alone exactly if it makes no assignment. */
  lemma SilentExact(prefix: string, syms: Table, text: string)
    ensures (forall users :: ReadText(prefix, syms, users, text) == users) <==> Effects(prefix, syms, text) == []
  {
    hide Effects, ReadText;
    var es, none: Users := Effects(prefix, syms, text), map[];
    if es == [] {
      forall users: Users ensures ReadText(prefix, syms, users, text) == users {
        ReadIsApply(prefix, syms, users, text);
      }
    } else {
      ReadIsApply(prefix, syms, none, text);
      ApplyAssigns(none, es, es[0].s);
      assert !(ReadText(prefix, syms, none, text) == none);
    }
  }

  /** A symbol has a value after assignments if it had one or is assigned one. */
  lemma {:induction false} ApplyAssigns(users: Users, es: seq<Assignment>, s: Symbol)
    ensures s in Apply(users, es) <==> s in users || exists i :: 0 <= i < |es| && es[i].s == s
    ensures !(exists i :: 0 <= i < |es| && es[i].s == s) ==> UserOf(Apply(users, es), s) == UserOf(users, s)
    decreases es
  {
    if es != [] {
      ApplyAssigns(users[es[0].s := es[0].v], es[1..], s);
      assert es == [es[0]] + es[1..];
    }
  }

  lemma ReadConcat(prefix: string, syms: Table, users: Users, a: string, b: string)
    requires WholeLines(a)
    ensures ReadText(prefix, syms, users, a + b) == ReadText(prefix, syms, ReadText(prefix, syms, users, a), b)
  {
    hide Effects, ReadText;
    var users' := ReadText(prefix, syms, users, a);
    ReadIsApply(prefix, syms, users, a);
    ReadIsApply(prefix, syms, users', b);
    ReadIsApply(prefix, syms, users, a + b);
    EffectsConcat(prefix, syms, a, b);
    ApplyConcat(users, Effects(prefix, syms, a), Effects(prefix, syms, b));
  }

  /** A text without a line break, and without a carriage return at the end of a number. */
  predicate Plain(s: Symbol, str: string) {
    '\n' !in str && (s.ty.Int? || s.ty.Hex? ==> str == [] || str[|str| - 1] != '\r')
  }

  /** A bool or tristate has one of three texts. */
  predicate TriText(s: Symbol, str: string) {
    s.ty.Boolean? || s.ty.Tri? ==> str == "y" || str == "m" || str == "n"
  }

  /** A plain text that is valid for its symbol is assigned; one that is not is ignored. */
  lemma PlainLine(prefix: string, syms: Table, s: Symbol, str: string)
    requires GoodPrefix(prefix) && GoodName(prefix, syms, s) && Plain(s, str) && TriText(s, str)
    ensures Effects(prefix, syms, SymbolLine(prefix, s, str))
            == if Writable(s, str) then [Assignment(s, TextValue(s, str))] else []
  {
    hide LineEffect, Find, StringValid;
    var line := SymbolLine(prefix, s, str);
    if Writable(s, str) {
      LineRoundTrip(prefix, syms, s, str);
      LineAlone(prefix, syms, line);
    } else if !s.ty.Other? && !s.ty.Unknown? {
      assert line == prefix + s.name + "=" + str + "\n";
      SetLineEffect(prefix, syms, s, str);
      IndexIs(line, '\n', 0, |line| - 1);
      LineAlone(prefix, syms, line);
    }
  }

  lemma {:induction false} OpenEscape(x: string)
    ensures Unescape(EscapeBody(x)) == None
  {
    if x != [] {
      OpenEscape(x[1..]);
      var rest := EscapeBody(x[1..]);
      assert EscapeBody(x) == (if Special(x[0]) then ['\\', x[0]] else [x[0]]) + rest;
      assert EscapeBody(x)[if Special(x[0]) then 2 else 1..] == rest;
    }
  }

  /** In escaped text every quote is behind a backslash. */
  lemma {:induction false} QuoteEscaped(x: string, k: nat)
    requires k < |EscapeBody(x)| && EscapeBody(x)[k] == '"'
    ensures k > 0 && EscapeBody(x)[k - 1] == '\\'
  {
    var n := if Special(x[0]) then 2 else 1;
    if k >= n {
      QuoteEscaped(x[1..], k - n);
    }
  }

  lemma LastEscaped(x: string)
    requires x != []
    ensures var v := "\"" + EscapeBody(x);
            v[|v| - 1] == '\r' ==> v[..|v| - 1] == "\"" + EscapeBody(x[..|x| - 1])
    ensures EscapeBody(x) != []
  {
    var init, last := x[..|x| - 1], x[|x| - 1];
    EscapeConcat(init, [last]);
    assert x == init + [last] && [last][1..] == [];
    assert EscapeBody([last]) == if Special(last) then ['\\', last] else [last];
  }

  /** An escaped text without the closing quote is no value of a string. */
  lemma OpenValue(s: Symbol, x: string)
    requires s.ty.String? && '\n' !in x
    ensures '\n' !in EscapeBody(x)
    ensures ParseValue(s, ValueText("\"" + EscapeBody(x) + "\n")) == None
  {
    hide Unescape, EscapeBody, ValueText;
    var v := "\"" + EscapeBody(x);
    EscapeNewline(x);
    ValueTextCut(v);
    OpenEscape(x);
    assert v[1..] == EscapeBody(x);
    if x != [] {
      var init := x[..|x| - 1];
      OpenEscape(init);
      LastEscaped(x);
      assert ("\"" + EscapeBody(init))[1..] == EscapeBody(init);
    } else {
      EscapeNothing();
    }
  }

  lemma EscapeNothing()
    ensures EscapeBody("") == ""
  {
  }

  /** The line with the start of a string value that goes on on the next line: nothing is assigned. */
  lemma OpenLine(prefix: string, syms: Table, s: Symbol, x: string)
    requires GoodPrefix(prefix) && GoodName(prefix, syms, s) && s.ty.String? && '\n' !in x
    ensures var line := prefix + s.name + "=" + ("\"" + EscapeBody(x)) + "\n";
            && LineEffect(prefix, syms, line) == None
            && line != [] && IndexOf(line, '\n', 0) == |line| - 1
  {
    hide Find, ValueText, LineEffect, ParseValue, EscapeBody;
    OpenValue(s, x);
    var v := "\"" + EscapeBody(x);
    var line := prefix + s.name + "=" + v + "\n";
    ValueLineEffect(prefix, syms, s, v);
    IndexIs(line, '\n', 0, |line| - 1);
  }

  /** What follows the first line of a string value with a line break. */
  function Tail(x: string): string {
    EscapeBody(x) + "\"\n"
  }

  /** In the lines of such a tail an opening quote is never a value of a string. */
  lemma TailValue(x: string, last: bool, p: nat)
    requires '\n' !in x
    requires var line := EscapeBody(x) + if last then "\"\n" else "\n"; p < |line| && line[p] == '='
    ensures var line := EscapeBody(x) + if last then "\"\n" else "\n";
            var v := ValueText(line[p + 1..]);
            v == [] || v[0] != '"' || Unescape(v[1..]) == None
  {
    hide Unescape, EscapeBody, ValueText;
    var body := EscapeBody(x);
    var line := body + if last then "\"\n" else "\n";
    var rest := line[p + 1..];
    ValueStart(rest);
    if rest != [] && rest[0] == '"' {
      assert line[p + 1] == '"';
      if p + 1 < |body| {
        QuoteEscaped(x, p + 1);
        assert false;
      }
      assert rest == "\"" + "\n";
      ValueTextCut("\"");
      UnescapeNothing();
      assert "\""[1..] == "";
    }
  }

  /** A line of such a tail never assigns to a string. */
  lemma TailLine(prefix: string, syms: Table, x: string, last: bool)
    requires '\n' !in x
    ensures var line := EscapeBody(x) + if last then "\"\n" else "\n";
            && (LineEffect(prefix, syms, line).Some? ==> !LineEffect(prefix, syms, line).value.s.ty.String?)
            && IndexOf(line, '\n', 0) == |line| - 1
  {
    hide Find, Unescape, UnsetName, EscapeBody, StartsWith, ValueText;
    var line := EscapeBody(x) + if last then "\"\n" else "\n";
    EscapeNewline(x);
    IndexIs(line, '\n', 0, |line| - 1);
    if StartsWith(line, prefix, 0) {
      PrefixFits(line, prefix);
      var p := IndexOf(line, '=', |prefix|);
      if p < |line| {
        TailValue(x, last, p);
      }
    }
  }

  lemma PrefixFits(line: string, prefix: string)
    requires StartsWith(line, prefix, 0)
    ensures |prefix| <= |line|
  {
  }

  lemma ValueStart(rest: string)
    ensures ValueText(rest) != [] ==> rest != [] && ValueText(rest)[0] == rest[0]
  {
  }

  predicate Touches(es: seq<Assignment>, s: Symbol) {
    exists i :: 0 <= i < |es| && es[i].s == s
  }

  lemma EscapeBreak(a: string, b: string)
    ensures EscapeBody(a + "\n" + b) == EscapeBody(a) + "\n" + EscapeBody(b)
  {
    hide EscapeBody;
    EscapePlain("\n");
    EscapeConcat(a, "\n");
    EscapeConcat(a + "\n", b);
  }

  /** A text with a line break, taken apart at the first one. */
  lemma FirstBreak(x: string)
    requires '\n' in x
    ensures var i := IndexOf(x, '\n', 0);
            i < |x| && '\n' !in x[..i] && x == x[..i] + "\n" + x[i + 1..]
  {
    var i := IndexOf(x, '\n', 0);
    CutAt(x, i);
  }

  lemma CutAt(x: string, i: nat)
    requires i < |x|
    ensures x == x[..i] + [x[i]] + x[i + 1..]
  {
  }

  /** The first line of a tail that has several. */
  lemma SplitTail(x: string)
    requires '\n' in x
    ensures var i := IndexOf(x, '\n', 0);
            i < |x| && '\n' !in x[..i] && Tail(x) == (EscapeBody(x[..i]) + "\n") + Tail(x[i + 1..])
  {
    hide EscapeBody, IndexOf;
    FirstBreak(x);
    var i := IndexOf(x, '\n', 0);
    EscapeBreak(x[..i], x[i + 1..]);
  }

  lemma {:induction false} TailSparesStrings(prefix: string, syms: Table, x: string, s: Symbol)
    requires s.ty.String?
    ensures !Touches(Effects(prefix, syms, Tail(x)), s)
    decreases |x|
  {
    hide LineEffect, EscapeBody, Effects;
    if '\n' in x {
      var i := IndexOf(x, '\n', 0);
      SplitTail(x);
      var line := EscapeBody(x[..i]) + "\n";
      TailLine(prefix, syms, x[..i], false);
      LineAlone(prefix, syms, line);
      EffectsConcat(prefix, syms, line, Tail(x[i + 1..]));
      TailSparesStrings(prefix, syms, x[i + 1..], s);
    } else {
      TailLine(prefix, syms, x, true);
      LineAlone(prefix, syms, Tail(x));
    }
  }

  /** A string value with a line break: nothing comes of its first line, and its other lines are read for themselves. */
  lemma BrokenLine(prefix: string, syms: Table, s: Symbol, str: string)
    requires GoodPrefix(prefix) && GoodName(prefix, syms, s) && s.ty.String? && '\n' in str
    ensures Effects(prefix, syms, SymbolLine(prefix, s, str))
            == Effects(prefix, syms, Tail(str[IndexOf(str, '\n', 0) + 1..]))
  {
    hide LineEffect, EscapeBody, Effects, Tail, SymbolLine, GoodName, GoodPrefix, IndexOf;
    var i := IndexOf(str, '\n', 0);
    SplitTail(str);
    var line := prefix + s.name + "=" + ("\"" + EscapeBody(str[..i])) + "\n";
    OpenLine(prefix, syms, s, str[..i]);
    LineAlone(prefix, syms, line);
    EffectsConcat(prefix, syms, line, Tail(str[i + 1..]));
    SplitLine(prefix, s, str, EscapeBody(str[..i]), Tail(str[i + 1..]));
  }

  lemma SplitLine(prefix: string, s: Symbol, str: string, first: string, rest: string)
    requires s.ty.String? && Tail(str) == (first + "\n") + rest
    ensures SymbolLine(prefix, s, str) == (prefix + s.name + "=" + ("\"" + first) + "\n") + rest
  {
    hide EscapeBody;
    assert SymbolLine(prefix, s, str) == prefix + s.name + "=" + "\"" + Tail(str);
  }

  /** A string value survives being printed and read exactly if it has no line break. */
  lemma StringLineExact(prefix: string, syms: Table, s: Symbol, str: string)
    requires GoodPrefix(prefix) && GoodName(prefix, syms, s) && s.ty.String?
    ensures var users := ReadText(prefix, syms, map[], SymbolLine(prefix, s, str));
            && (s in users <==> '\n' !in str)
            && ('\n' !in str ==> users == map[s := Value(NO, str)])
  {
    hide LineEffect, Effects, ReadText, SymbolLine, GoodName;
    var line := SymbolLine(prefix, s, str);
    ReadIsApply(prefix, syms, map[], line);
    if '\n' in str {
      BrokenLine(prefix, syms, s, str);
      TailSparesStrings(prefix, syms, str[IndexOf(str, '\n', 0) + 1..], s);
      ApplyAssigns(map[], Effects(prefix, syms, line), s);
    } else {
      PlainLine(prefix, syms, s, str);
      var a := Assignment(s, Value(NO, str));
      assert [a][1..] == [];
    }
  }

  /** A text of whole lines makes no assignment exactly if none of its lines looks like one. */
  lemma {:induction false} QuietExact(prefix: string, syms: Table, text: string)
    requires GoodPrefix(prefix) && WholeLines(text)
    ensures Effects(prefix, syms, text) == [] <==> forall l :: l in Lines(text) ==> !Does(prefix, syms, l)
    decreases |text|
  {
    hide Effects, Does, LineEffect, GoodPrefix, IndexOf, FirstLine, WholeLines;
    var i := IndexOf(text, '\n', 0);
    if text == [] {
      assert Lines(text) == [[]];
      NothingDone(prefix, syms);
      EffectsNone(prefix, syms);
    } else {
      FirstOf(text);
      var line, rest := text[..i], text[i + 1..];
      LineExact(prefix, syms, line);
      EffectsFirst(prefix, syms, text);
      QuietExact(prefix, syms, rest);
      assert Lines(text) == [line] + Lines(rest);
      assert forall l :: l in Lines(text) <==> l == line || l in Lines(rest);
    }
  }

  lemma FirstOf(text: string)
    requires text != [] && WholeLines(text)
    ensures var i := IndexOf(text, '\n', 0);
            && i < |text| && '\n' !in text[..i] && WholeLines(text[i + 1..])
            && FirstLine(text) == text[..i] + "\n" && |FirstLine(text)| == i + 1
  {
    var i := IndexOf(text, '\n', 0);
    assert text[..i + 1] == text[..i] + "\n";
  }

  lemma NothingDone(prefix: string, syms: Table)
    requires GoodPrefix(prefix)
    ensures !Does(prefix, syms, "")
  {
    assert forall name, v :: |SetText(prefix, name, v)| > 0;
  }

  /** Behind the first line break of a string, as it is written, no line looks like one that assigns. */
  ghost predicate QuietBreak(prefix: string, syms: Table, str: string) {
    '\n' in str ==>
      forall l :: l in Lines(Tail(str[IndexOf(str, '\n', 0) + 1..])) ==> !Does(prefix, syms, l)
  }

  /**
    Reading what was printed of a string does nothing but assign the value, if it is valid, exactly if there
    is no line break or none of the lines behind it looks like an assignment.
   */
  lemma WrittenLineExact(prefix: string, syms: Table, s: Symbol, str: string)
    requires GoodPrefix(prefix) && GoodName(prefix, syms, s) && s.ty.String?
    ensures (forall users :: ReadText(prefix, syms, users, SymbolLine(prefix, s, str))
                             == if Writable(s, str) then users[s := TextValue(s, str)] else users)
            <==> QuietBreak(prefix, syms, str)
  {
    hide LineEffect, Effects, ReadText, SymbolLine, GoodName;
    var line := SymbolLine(prefix, s, str);
    if '\n' in str {
      BrokenLine(prefix, syms, s, str);
      SilentExact(prefix, syms, line);
      QuietExact(prefix, syms, Tail(str[IndexOf(str, '\n', 0) + 1..]));
    } else {
      forall users: Users ensures ReadText(prefix, syms, users, line) == users[s := TextValue(s, str)] {
        ReadPlain(prefix, syms, users, s, str);
      }
    }
  }

  lemma ReadPlain(prefix: string, syms: Table, users: Users, s: Symbol, str: string)
    requires GoodPrefix(prefix) && GoodName(prefix, syms, s) && Plain(s, str) && TriText(s, str)
    ensures ReadText(prefix, syms, users, SymbolLine(prefix, s, str))
            == if Writable(s, str) then users[s := TextValue(s, str)] else users
  {
    hide LineEffect, Effects, ReadText, SymbolLine, GoodName, Writable, TextValue;
    PlainLine(prefix, syms, s, str);
    ReadIsApply(prefix, syms, users, SymbolLine(prefix, s, str));
    var a := Assignment(s, TextValue(s, str));
    assert [a][1..] == [];
  }

  /** The reader takes from the line of a symbol what was written, or nothing where that is not valid. */
  ghost predicate Faithful(prefix: string, syms: Table, s: Symbol, str: string) {
    if s.ty.String? then QuietBreak(prefix, syms, str) else Plain(s, str)
  }

  /** What a faithful line assigns. */
  lemma WrittenEffects(prefix: string, syms: Table, s: Symbol, str: string)
    requires GoodPrefix(prefix) && GoodName(prefix, syms, s) && Faithful(prefix, syms, s, str) && TriText(s, str)
    ensures Effects(prefix, syms, SymbolLine(prefix, s, str))
            == if Writable(s, str) then [Assignment(s, TextValue(s, str))] else []
  {
    hide Effects, SymbolLine, GoodName, TextValue;
    if s.ty.String? && '\n' in str {
      BrokenLine(prefix, syms, s, str);
      QuietExact(prefix, syms, Tail(str[IndexOf(str, '\n', 0) + 1..]));
    } else {
      PlainLine(prefix, syms, s, str);
    }
  }

  lemma ReadWritten(prefix: string, syms: Table, users: Users, s: Symbol, str: string)
    requires GoodPrefix(prefix) && GoodName(prefix, syms, s) && Faithful(prefix, syms, s, str) && TriText(s, str)
    ensures ReadText(prefix, syms, users, SymbolLine(prefix, s, str))
            == if Writable(s, str) then users[s := TextValue(s, str)] else users
  {
    hide Effects, ReadText, SymbolLine, GoodName, Writable, TextValue, Faithful;
    WrittenEffects(prefix, syms, s, str);
    ReadIsApply(prefix, syms, users, SymbolLine(prefix, s, str));
    var a := Assignment(s, TextValue(s, str));
    assert [a][1..] == [];
  }

  lemma SymbolLineWhole(prefix: string, s: Symbol, str: string)
    ensures WholeLines(SymbolLine(prefix, s, str))
  {
  }

  /** Nothing in the name is escaped. */
  predicate PlainName(prefix: string, s: Symbol) {
    forall c :: c in prefix + s.name ==> !Special(c)
  }

  /** The tail that holds one assignment to a bool. */
  lemma TailAssigns(prefix: string, syms: Table, b: Symbol)
    requires GoodPrefix(prefix) && GoodName(prefix, syms, b) && b.ty.Boolean? && PlainName(prefix, b)
    ensures Effects(prefix, syms, Tail(prefix + b.name + "=y\n")) == [Assignment(b, Value(YES, ""))]
  {
    hide LineEffect, Effects, EscapeBody, GoodName, Find, Tail;
    var line, x := prefix + b.name + "=" + "y", prefix + b.name + "=y\n";
    assert x == line + "\n";
    assert forall c :: c in line ==> !Special(c);
    EscapePlain(line);
    NoBreak(prefix, syms, b);
    IndexIs(x, '\n', 0, |line|);
    SplitTail(x);
    assert x[..|line|] == line && x[|line| + 1..] == [];
    SetLineEffect(prefix, syms, b, "y");
    LineAlone(prefix, syms, line + "\n");
    EffectsConcat(prefix, syms, line + "\n", Tail([]));
    EmptyTail(prefix, syms);
  }

  lemma NoBreak(prefix: string, syms: Table, b: Symbol)
    requires GoodPrefix(prefix) && GoodName(prefix, syms, b)
    ensures '\n' !in prefix + b.name + "=" + "y"
  {
  }

  /** A line break can be used to set another symbol. */
  lemma NewlineInjects(prefix: string, syms: Table, users: Users, s: Symbol, b: Symbol)
    requires GoodPrefix(prefix) && GoodName(prefix, syms, s) && GoodName(prefix, syms, b)
    requires s.ty.String? && b.ty.Boolean? && PlainName(prefix, b)
    ensures ReadText(prefix, syms, users, SymbolLine(prefix, s, "\n" + prefix + b.name + "=y\n"))
            == users[b := Value(YES, "")]
  {
    hide LineEffect, Effects, ReadText, SymbolLine, EscapeBody, Tail, GoodName;
    var x := prefix + b.name + "=y\n";
    var str := "\n" + prefix + b.name + "=y\n";
    assert IndexOf(str, '\n', 0) == 0 && str[1..] == x;
    BrokenLine(prefix, syms, s, str);
    TailAssigns(prefix, syms, b);
    var a := Assignment(b, Value(YES, ""));
    assert [a][1..] == [];
    ReadIsApply(prefix, syms, users, SymbolLine(prefix, s, str));
  }

  lemma EmptyTail(prefix: string, syms: Table)
    ensures Effects(prefix, syms, Tail([])) == []
  {
    hide Effects;
    var line := "\"\n";
    assert Tail([]) == line;
    assert line[0] == '"' && line[1] == '\n';
    assert line[0..1] != "#" by { assert line[0..1][0] == '"'; }
    IndexIs(line, '\n', 0, 1);
    LineAlone(prefix, syms, line);
  }
}
