/**
  The text of configuration files: what kconfig_print_symbol writes for a symbol and what
  conf_read_simple makes of it line by line (confdata.c), for symbols that are not choice values.
  `prefix` is the value of CONFIG_, which the environment may change.
 */
module DotConfig {
  import opened Options
  import opened Tristates
  import opened Exprs
  import opened Semantics
  import opened Escapes

  predicate IsDigit(c: char) {
    '0' <= c <= '9'
  }

  predicate IsHexDigit(c: char) {
    IsDigit(c) || 'a' <= c <= 'f' || 'A' <= c <= 'F'
  }

  predicate HexPrefixed(str: string) {
    |str| >= 2 && str[0] == '0' && (str[1] == 'x' || str[1] == 'X')
  }

  /** sym_string_valid. */
  predicate StringValid(ty: SymType, str: string) {
    match ty
    case String => true
    case Int =>
      var t := if str != [] && str[0] == '-' then str[1..] else str;
      t != [] && (t[0] == '0' ==> |t| == 1) && forall c :: c in t ==> IsDigit(c)
    case Hex =>
      var t := if HexPrefixed(str) then str[2..] else str;
      t != [] && forall c :: c in t ==> IsHexDigit(c)
    case Boolean | Tri => str != [] && str[0] in "yYmMnN"
    case Unknown | Other => false
  }

  /** conf_set_sym_val: the user value assigned, if any. */
  function ParseValue(s: Symbol, p: string): Option<Value> {
    match s.ty
    case Tri | Boolean =>
      if p != [] && p[0] == 'm' && s.ty.Tri? then Some(Value(MOD, ""))
      else if p != [] && p[0] == 'y' then Some(Value(YES, ""))
      else if p != [] && p[0] == 'n' then Some(Value(NO, ""))
      else None
    case String =>
      if p == [] || p[0] != '"' then None
      else
        var v := Unescape(p[1..]);
        if v.Some? then Some(Value(NO, v.value)) else None
    case Int | Hex => if StringValid(s.ty, p) then Some(Value(NO, p)) else None
    case Unknown | Other => None
  }

  type Table = map<string, Symbol>

  /** sym_find. */
  function Find(syms: Table, name: string): Option<Symbol> {
    if name == "y" then Some(SYM_YES)
    else if name == "m" then Some(SYM_MOD)
    else if name == "n" then Some(SYM_NO)
    else if name in syms then Some(syms[name]) else None
  }

  /** strchr(s + i, c) as an index, |s| if there is none. */
  function IndexOf(s: string, c: char, i: nat): (j: nat)
    requires i <= |s|
    ensures i <= j <= |s| && (j < |s| ==> s[j] == c) && forall k :: i <= k < j ==> s[k] != c
    decreases |s| - i
  {
    if i == |s| || s[i] == c then i else IndexOf(s, c, i + 1)
  }

  function StartsWith(s: string, t: string, i: nat): (b: bool)
    ensures b ==> i + |t| <= |s|
  {
    i + |t| <= |s| && s[i..i + |t|] == t
  }

  /** A line `# NAME is not set`: the name. */
  function UnsetName(prefix: string, line: string): Option<string> {
    if !StartsWith(line, prefix, 2) then None
    else
      var p := IndexOf(line, ' ', 2 + |prefix|);
      if p < |line| && StartsWith(line, "is not set", p + 1) then Some(line[2 + |prefix|..p]) else None
  }

  /** The text behind the equals sign, without line end. */
  function ValueText(rest: string): string {
    var e := IndexOf(rest, '\n', 0);
    if e < |rest| && e > 0 && rest[e - 1] == '\r' then rest[..e - 1] else rest[..e]
  }

  /** A user value that a line of a file gives to a symbol. */
  datatype Assignment = Assignment(s: Symbol, v: Value)

  /** What a line assigns in conf_read_simple, if anything. */
  function LineEffect(prefix: string, syms: Table, line: string): Option<Assignment> {
    if StartsWith(line, "#", 0) then
      match UnsetName(prefix, line)
      case None => None
      case Some(name) =>
        match Find(syms, name)
        case Some(s) => if s.ty.Boolean? || s.ty.Tri? then Some(Assignment(s, Value(NO, ""))) else None
        case None => None
    else if StartsWith(line, prefix, 0) then
      var p := IndexOf(line, '=', |prefix|);
      if p == |line| then None
      else
        match Find(syms, line[|prefix|..p])
        case None => None
        case Some(s) =>
          match ParseValue(s, ValueText(line[p + 1..]))
          case None => None
          case Some(v) => Some(Assignment(s, v))
    else None
  }

  /** One round of the loop in conf_read_simple. */
  function ReadLine(prefix: string, syms: Table, users: Users, line: string): Users {
    match LineEffect(prefix, syms, line)
    case None => users
    case Some(a) => users[a.s := a.v]
  }

  /** compat_getline: the first line of a text, with its line end. */
  function FirstLine(text: string): (line: string)
    ensures text != [] ==> line != []
    ensures line <= text
  {
    var e := IndexOf(text, '\n', 0);
    if e < |text| then text[..e + 1] else text
  }

  /** conf_read_simple: the user values after reading the rest of a file. */
  function ReadText(prefix: string, syms: Table, users: Users, text: string): Users
    decreases |text|
  {
    if text == [] then users
    else
      var line := FirstLine(text);
      ReadText(prefix, syms, ReadLine(prefix, syms, users, line), text[|line|..])
  }

  /** conf_write_symbol with kconfig_print_symbol: the line for a symbol with the given string value. */
  function SymbolLine(prefix: string, s: Symbol, str: string): string {
    if s.ty.Other? || s.ty.Unknown? then ""
    else if (s.ty.Boolean? || s.ty.Tri?) && str != [] && str[0] == 'n' then
      "# " + prefix + s.name + " is not set\n"
    else prefix + s.name + "=" + (if s.ty.String? then Escape(str) else str) + "\n"
  }

  datatype Entry = Entry(s: Symbol, str: string)

  function PrintAll(prefix: string, entries: seq<Entry>): string {
    if entries == [] then "" else SymbolLine(prefix, entries[0].s, entries[0].str) + PrintAll(prefix, entries[1..])
  }

  /** The user value that a string value stands for. */
  function TextValue(s: Symbol, str: string): Value {
    if s.ty.Boolean? || s.ty.Tri? then
      Value(if str == "y" then YES else if str == "m" then MOD else NO, "")
    else Value(NO, str)
  }

  function Assigned(entries: seq<Entry>): Users {
    if entries == [] then map[]
    else map[entries[0].s := TextValue(entries[0].s, entries[0].str)] + Assigned(entries[1..])
  }

  predicate GoodPrefix(prefix: string) {
    '\n' !in prefix && (prefix != [] ==> prefix[0] != '#')
  }

  /** The symbol can be told from its name in a file. */
  predicate GoodName(prefix: string, syms: Table, s: Symbol) {
    && s.name != "" && s.name[0] != '#' && ' ' !in s.name && '=' !in s.name && '\n' !in s.name
    && Find(syms, s.name) == Some(s)
  }

  /** A text that the symbol can have as its value. */
  predicate Writable(s: Symbol, str: string) {
    match s.ty
    case Boolean => str == "y" || str == "n"
    case Tri => str == "y" || str == "m" || str == "n"
    case String => '\n' !in str
    case Int | Hex => StringValid(s.ty, str)
    case Unknown | Other => false
  }

  lemma {:induction false} EscapeNewline(s: string)
    requires '\n' !in s
    ensures '\n' !in EscapeBody(s)
  {
    if s != [] {
      EscapeNewline(s[1..]);
    }
  }

  lemma {:induction false} IndexIs(s: string, c: char, i: nat, j: nat)
    requires i <= j < |s| && s[j] == c && forall k :: i <= k < j ==> s[k] != c
    ensures IndexOf(s, c, i) == j
    decreases j - i
  {
    if i < j {
      IndexIs(s, c, i + 1, j);
    }
  }

  lemma NumeralCharacter(ty: SymType, str: string, c: char)
    requires (ty.Int? || ty.Hex?) && StringValid(ty, str) && c in str
    ensures c != '\n' && c != '\r'
  {
    var cut := if ty.Int? then (if str[0] == '-' then 1 else 0) else if HexPrefixed(str) then 2 else 0;
    var k :| 0 <= k < |str| && str[k] == c;
    if k >= cut {
      assert str[cut..][k - cut] == c;
      assert str[0..] == str;
      assert if ty.Int? then IsDigit(c) else IsHexDigit(c);
    }
  }

  /** The value that is written is the value that is read. */
  lemma ParsePrinted(s: Symbol, str: string)
    requires Writable(s, str) && !((s.ty.Boolean? || s.ty.Tri?) && str == "n")
    ensures var v := if s.ty.String? then Escape(str) else str;
            && ParseValue(s, v) == Some(TextValue(s, str))
            && '\n' !in v && (v != [] ==> v[|v| - 1] != '\r')
  {
    if s.ty.String? {
      UnescapeEscape(str, "");
      EscapeNewline(str);
      assert Escape(str)[1..] == EscapeBody(str) + "\"" + "";
    } else if s.ty.Int? || s.ty.Hex? {
      forall c | c in str ensures c != '\n' && c != '\r' {
        NumeralCharacter(s.ty, str, c);
      }
      if str != [] {
        assert str[|str| - 1] in str;
      }
    }
  }

  /** The parts that the reader finds in a line that sets a value. */
  lemma ValueAt(prefix: string, name: string, v: string)
    requires '=' !in name
    ensures var line, p := prefix + name + "=" + v + "\n", |prefix| + |name|;
            && StartsWith(line, prefix, 0)
            && IndexOf(line, '=', |prefix|) == p < |line|
            && line[|prefix|..p] == name && line[p + 1..] == v + "\n"
  {
    var line, p := prefix + name + "=" + v + "\n", |prefix| + |name|;
    var tail := "=" + (v + "\n");
    assert line == prefix + name + tail;
    Parts(prefix, name, tail);
    assert line[p] == line[p..][0] == '=' && line[p + 1..] == line[p..][1..] == tail[1..];
    IndexIs(line, '=', |prefix|, p);
  }

  lemma LocateValue(prefix: string, name: string, v: string)
    requires GoodPrefix(prefix) && name != "" && name[0] != '#' && '=' !in name
    ensures var line, p := prefix + name + "=" + v + "\n", |prefix| + |name|;
            && StartsWith(line, prefix, 0) && !StartsWith(line, "#", 0)
            && IndexOf(line, '=', |prefix|) == p < |line|
            && line[|prefix|..p] == name && line[p + 1..] == v + "\n"
  {
    var line := prefix + name + "=" + v + "\n";
    ValueAt(prefix, name, v);
    assert line[0] == if prefix == "" then name[0] else prefix[0];
    assert line[0..1] != "#" by { assert line[0..1][0] == line[0] != '#'; }
  }

  lemma Parts(a: string, b: string, c: string)
    ensures var s, n := a + b + c, |a| + |b|;
            s[..|a|] == a && s[|a|..n] == b && s[n..] == c && forall k :: |a| <= k < n ==> s[k] == b[k - |a|]
  {
  }

  lemma ValueTextIs(v: string)
    requires '\n' !in v && (v != [] ==> v[|v| - 1] != '\r')
    ensures ValueText(v + "\n") == v
  {
    IndexIs(v + "\n", '\n', 0, |v|);
    assert (v + "\n")[..|v|] == v;
    assert v != [] ==> (v + "\n")[|v| - 1] == v[|v| - 1];
  }

  function SetBy(s: Symbol, v: Option<Value>): Option<Assignment> {
    if v.Some? then Some(Assignment(s, v.value)) else None
  }

  /** A line that sets a value assigns what is parsed from it. */
  lemma ValueLineEffect(prefix: string, syms: Table, s: Symbol, v: string)
    requires GoodPrefix(prefix) && GoodName(prefix, syms, s) && '\n' !in v
    ensures LineEffect(prefix, syms, prefix + s.name + "=" + v + "\n") == SetBy(s, ParseValue(s, ValueText(v + "\n")))
  {
    hide ParseValue, Find, ValueText, StartsWith, IndexOf;
    LocateValue(prefix, s.name, v);
  }

  lemma SetLineEffect(prefix: string, syms: Table, s: Symbol, v: string)
    requires GoodPrefix(prefix) && GoodName(prefix, syms, s)
    requires '\n' !in v && (v != [] ==> v[|v| - 1] != '\r')
    ensures LineEffect(prefix, syms, prefix + s.name + "=" + v + "\n") == SetBy(s, ParseValue(s, v))
  {
    hide ParseValue, Find, ValueText, LineEffect;
    ValueLineEffect(prefix, syms, s, v);
    ValueTextIs(v);
  }

  function UnsetText(prefix: string, name: string): string {
    prefix + name + " is not set"
  }

  lemma UnsetNameAt(prefix: string, text: string, name: string)
    requires ' ' !in name
    requires var start := 2 + |prefix|; var p := start + |name|;
             && p + 11 <= |text| && text[2..start] == prefix && text[start..p] == name && text[p] == ' '
             && text[p + 1..p + 11] == "is not set"
    ensures UnsetName(prefix, text) == Some(name)
  {
    var start := 2 + |prefix|;
    var p := start + |name|;
    assert forall k :: start <= k < p ==> text[k] == name[k - start];
    IndexIs(text, ' ', start, p);
  }

  /** The name that the reader finds behind the first two characters of a line, if the text that unsets it is there. */
  lemma NameFound(prefix: string, lead: string, line: string, name: string)
    requires |lead| == 2 && UnsetText(prefix, name) <= line && ' ' !in name
    ensures UnsetName(prefix, lead + line + "\n") == Some(name)
  {
    hide UnsetName, UnsetText;
    var u, a, b := UnsetText(prefix, name), |prefix|, |prefix| + |name|;
    var text := lead + line + "\n";
    UnsetParts(prefix, name);
    Shifted(lead, u, line, 0, a);
    Shifted(lead, u, line, a, b);
    Shifted(lead, u, line, b, b + 1);
    Shifted(lead, u, line, b + 1, b + 11);
    assert text[2 + b..2 + b + 1][0] == ' ';
    UnsetNameAt(prefix, text, name);
  }

  lemma UnsetParts(prefix: string, name: string)
    ensures var u, a, b := UnsetText(prefix, name), |prefix|, |prefix| + |name|;
            && |u| == b + 11 && u[0..a] == prefix && u[a..b] == name && u[b..b + 1] == " "
            && u[b + 1..b + 11] == "is not set"
  {
    var u, a, b := UnsetText(prefix, name), |prefix|, |prefix| + |name|;
    var tail := " is not set";
    Parts(prefix, name, tail);
    assert u[b..] == tail && tail[0..1] == " " && tail[1..11] == "is not set";
    assert u[b..b + 1] == u[b..][0..1] && u[b + 1..b + 11] == u[b..][1..11];
  }

  lemma Shifted(lead: string, u: string, line: string, i: nat, j: nat)
    requires u <= line && i <= j <= |u|
    ensures (lead + line + "\n")[|lead| + i..|lead| + j] == u[i..j]
  {
    var text := lead + line + "\n";
    assert forall k :: i <= k < j ==> text[|lead| + k] == line[k] == u[k];
  }

  lemma LocateName(prefix: string, name: string)
    requires name != "" && ' ' !in name
    ensures var line := "# " + prefix + name + " is not set\n";
            StartsWith(line, "#", 0) && UnsetName(prefix, line) == Some(name)
  {
    hide UnsetName;
    var line := "# " + prefix + name + " is not set\n";
    NameFound(prefix, "# ", UnsetText(prefix, name), name);
    assert " is not set\n" == " is not set" + "\n";
    assert line == "# " + UnsetText(prefix, name) + "\n";
    assert line[0..1] == "#";
  }

  lemma UnsetLineEffect(prefix: string, syms: Table, s: Symbol)
    requires GoodPrefix(prefix) && GoodName(prefix, syms, s) && (s.ty.Boolean? || s.ty.Tri?)
    ensures LineEffect(prefix, syms, "# " + prefix + s.name + " is not set\n") == Some(Assignment(s, Value(NO, "")))
  {
    hide Find, UnsetName, StartsWith;
    LocateName(prefix, s.name);
  }

  /** Reading the line written for a symbol assigns it the value written. */
  lemma LineRoundTrip(prefix: string, syms: Table, s: Symbol, str: string)
    requires GoodPrefix(prefix) && GoodName(prefix, syms, s) && Writable(s, str)
    ensures LineEffect(prefix, syms, SymbolLine(prefix, s, str)) == Some(Assignment(s, TextValue(s, str)))
    ensures var line := SymbolLine(prefix, s, str); line != [] && IndexOf(line, '\n', 0) == |line| - 1
  {
    hide LineEffect, Escape, ParseValue, Find;
    var line := SymbolLine(prefix, s, str);
    if (s.ty.Boolean? || s.ty.Tri?) && str == "n" {
      UnsetLineEffect(prefix, syms, s);
    } else {
      ParsePrinted(s, str);
      assert s.ty.Boolean? || s.ty.Tri? ==> str[0] != 'n';
      SetLineEffect(prefix, syms, s, if s.ty.String? then Escape(str) else str);
    }
    IndexIs(line, '\n', 0, |line| - 1);
  }

  /** The reader takes the line of a symbol and goes on with the rest. */
  lemma ReadPrinted(prefix: string, syms: Table, users: Users, s: Symbol, str: string, rest: string)
    requires GoodPrefix(prefix) && GoodName(prefix, syms, s) && Writable(s, str)
    ensures ReadText(prefix, syms, users, SymbolLine(prefix, s, str) + rest)
            == ReadText(prefix, syms, users[s := TextValue(s, str)], rest)
  {
    hide LineEffect, SymbolLine, GoodName, Writable, TextValue, FirstLine, IndexOf, GoodPrefix;
    LineRoundTrip(prefix, syms, s, str);
    var line := SymbolLine(prefix, s, str);
    var text := line + rest;
    FirstLineIs(line, rest);
    assert text[|line|..] == rest;
  }

  /**
    Reading what was written recovers every value, whatever the symbols and their number: later lines
    win, as they do in the map of the values written.
   */
  lemma {:induction false} TextRoundTrip(prefix: string, syms: Table, users: Users, entries: seq<Entry>)
    requires GoodPrefix(prefix)
    requires forall e :: e in entries ==> GoodName(prefix, syms, e.s) && Writable(e.s, e.str)
    ensures ReadText(prefix, syms, users, PrintAll(prefix, entries)) == users + Assigned(entries)
    decreases entries
  {
    hide ReadLine, SymbolLine, GoodName, Writable, TextValue, ReadText, GoodPrefix;
    if entries == [] {
      ReadNothing(prefix, syms, users);
      assert users + map[] == users;
    } else {
      var e, rest := entries[0], entries[1..];
      assert e in entries;
      ReadPrinted(prefix, syms, users, e.s, e.str, PrintAll(prefix, rest));
      var users' := users[e.s := TextValue(e.s, e.str)];
      TextRoundTrip(prefix, syms, users', rest);
      assert users' + Assigned(rest) == users + Assigned(entries);
    }
  }

  lemma ReadNothing(prefix: string, syms: Table, users: Users)
    ensures ReadText(prefix, syms, users, "") == users
  {
  }

  lemma FirstLineIs(line: string, rest: string)
    requires line != [] && IndexOf(line, '\n', 0) == |line| - 1
    ensures FirstLine(line + rest) == line
  {
    var text := line + rest;
    assert forall k :: 0 <= k < |line| ==> text[k] == line[k];
    IndexIs(text, '\n', 0, |line| - 1);
    assert text[..|line|] == line;
  }
}
