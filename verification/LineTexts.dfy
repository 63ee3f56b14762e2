/** What conf_read_simple (confdata.c) makes of a line, told by its text. */
module LineTexts {
  import opened Options
  import opened DotConfig

  /** The lines of a text, without their line ends. */
  function Lines(value: string): seq<string> {
    var l := IndexOf(value, '\n', 0);
    [value[..l]] + if l == |value| then [] else Lines(value[l + 1..])
  }

  /** The text, two characters behind a number sign, starts like the line that unsets a bool or tristate symbol. */
  ghost predicate Unsets(prefix: string, syms: Table, line: string) {
    exists name ::
      UnsetText(prefix, name) <= line && ' ' !in name
      && Find(syms, name).Some? && (Find(syms, name).value.ty.Boolean? || Find(syms, name).value.ty.Tri?)
  }

  function SetText(prefix: string, name: string, v: string): string {
    prefix + name + "=" + v
  }

  /** A carriage return at the end is cut off. */
  function CutReturn(v: string): string {
    if v != [] && v[|v| - 1] == '\r' then v[..|v| - 1] else v
  }

  /** The line gives a symbol a value that it accepts. */
  ghost predicate Sets(prefix: string, syms: Table, line: string) {
    exists name, v ::
      line == SetText(prefix, name, v) && '=' !in name
      && Find(syms, name).Some? && ParseValue(Find(syms, name).value, CutReturn(v)).Some?
  }

  ghost predicate Does(prefix: string, syms: Table, line: string) {
    if line != [] && line[0] == '#' then |line| >= 2 && Unsets(prefix, syms, line[2..]) else Sets(prefix, syms, line)
  }

  /** Where the reader finds a name there is the text that unsets it. */
  lemma FoundName(prefix: string, text: string, name: string)
    requires UnsetName(prefix, text) == Some(name)
    ensures var n := |UnsetText(prefix, name)|;
            2 + n <= |text| && text[2..2 + n] == UnsetText(prefix, name) && ' ' !in name
  {
    hide IndexOf;
    var a := 2 + |prefix|;
    var p := IndexOf(text, ' ', a);
    Slices(text, 2, a, p);
    Slices(text, p, p + 1, p + 11);
    Slices(text, 2, p, p + 11);
    assert text[p..p + 1] == " ";
    assert " " + "is not set" == " is not set";
    assert prefix + name + (" " + "is not set") == UnsetText(prefix, name);
  }

  lemma Slices(s: string, i: nat, j: nat, k: nat)
    requires i <= j <= k <= |s|
    ensures s[i..k] == s[i..j] + s[j..k]
  {
  }

  lemma NamedBy(prefix: string, lead: string, line: string, name: string)
    requires |lead| == 2 && UnsetName(prefix, lead + line + "\n") == Some(name)
    ensures UnsetText(prefix, name) <= line && ' ' !in name
  {
    hide UnsetName;
    var text := lead + line + "\n";
    var u := UnsetText(prefix, name);
    FoundName(prefix, text, name);
    assert u[|u| - 1] == 't' && text[1 + |u|] == text[2..2 + |u|][|u| - 1] && text[|text| - 1] == '\n';
    assert text[2..2 + |u|] == line[..|u|];
  }

  /** The lines that the reader takes for `# NAME is not set`, whatever the first two characters are. */
  lemma UnsetNameExact(prefix: string, lead: string, line: string, name: string)
    requires |lead| == 2
    ensures UnsetName(prefix, lead + line + "\n") == Some(name) <==> UnsetText(prefix, name) <= line && ' ' !in name
  {
    hide UnsetName, UnsetText;
    if UnsetName(prefix, lead + line + "\n") == Some(name) {
      NamedBy(prefix, lead, line, name);
    } else if UnsetText(prefix, name) <= line && ' ' !in name {
      NameFound(prefix, lead, line, name);
    }
  }

  lemma UnsetExact(prefix: string, syms: Table, line: string)
    requires line != [] && line[0] == '#'
    ensures LineEffect(prefix, syms, line + "\n").Some? <==> Does(prefix, syms, line)
  {
    hide UnsetName, Find, UnsetText;
    var text := line + "\n";
    assert text[0..1] == "#";
    if |line| >= 2 {
      var lead, rest := line[..2], line[2..];
      assert text == lead + rest + "\n";
      forall name ensures UnsetName(prefix, text) == Some(name) <==> UnsetText(prefix, name) <= rest && ' ' !in name {
        UnsetNameExact(prefix, lead, rest, name);
      }
      if UnsetName(prefix, text).Some? {
        var name := UnsetName(prefix, text).value;
        assert UnsetText(prefix, name) <= rest;
      }
    } else {
      assert text == "#\n";
      ShortLine(prefix);
    }
  }

  lemma ShortLine(prefix: string)
    ensures UnsetName(prefix, "#\n") == None
  {
  }

  lemma ValueTextCut(v: string)
    requires '\n' !in v
    ensures ValueText(v + "\n") == CutReturn(v)
  {
    IndexIs(v + "\n", '\n', 0, |v|);
    assert (v + "\n")[..|v|] == v;
    assert v != [] ==> (v + "\n")[|v| - 1] == v[|v| - 1] && (v + "\n")[..|v| - 1] == v[..|v| - 1];
  }

  lemma PrefixWithin(prefix: string, line: string)
    requires '\n' !in prefix && StartsWith(line + "\n", prefix, 0)
    ensures prefix <= line
  {
    var text := line + "\n";
    assert text[0..|prefix|] == prefix && text[0..|text|] == text;
    assert '\n' in text by {
      assert text[|line|] == '\n';
    }
    assert text[0..|prefix|] == line[..|prefix|];
  }

  lemma CutTwice(line: string, i: nat, p: nat)
    requires i <= p < |line| && line[p] == '='
    ensures line == SetText(line[..i], line[i..p], line[p + 1..])
  {
    assert line == line[..i] + line[i..p] + line[p..p + 1] + line[p + 1..] && line[p..p + 1] == "=";
  }

  lemma BeforeEnd(line: string, i: nat, p: nat)
    requires i <= p < |line|
    ensures (line + "\n")[i..p] == line[i..p] && (line + "\n")[p + 1..] == line[p + 1..] + "\n"
  {
  }

  lemma NoEquals(text: string, i: nat)
    requires i <= |text|
    ensures '=' !in text[i..IndexOf(text, '=', i)]
  {
  }

  /** The parts of a line that the reader takes for an assignment. */
  lemma FoundValue(prefix: string, line: string) returns (name: string, v: string)
    requires GoodPrefix(prefix) && '\n' !in line && StartsWith(line + "\n", prefix, 0)
    requires IndexOf(line + "\n", '=', |prefix|) < |line + "\n"|
    ensures line == SetText(prefix, name, v) && '=' !in name && '\n' !in v
    ensures var text := line + "\n"; var p := IndexOf(text, '=', |prefix|);
            text[|prefix|..p] == name && text[p + 1..] == v + "\n"
  {
    hide IndexOf, StartsWith, SetText;
    var text := line + "\n";
    PrefixWithin(prefix, line);
    var p := IndexOf(text, '=', |prefix|);
    name, v := text[|prefix|..p], line[p + 1..];
    NoEquals(text, |prefix|);
    CutTwice(line, |prefix|, p);
    BeforeEnd(line, |prefix|, p);
    assert line[..|prefix|] == prefix;
  }

  lemma SetExact(prefix: string, syms: Table, line: string)
    requires GoodPrefix(prefix) && '\n' !in line && (line != [] ==> line[0] != '#')
    ensures LineEffect(prefix, syms, line + "\n").Some? <==> Does(prefix, syms, line)
  {
    hide Find, ParseValue, ValueText, IndexOf, CutReturn, StartsWith, GoodPrefix;
    NoNumberSign(line);
    if LineEffect(prefix, syms, line + "\n").Some? {
      var name, v := FoundValue(prefix, line);
      ValueTextCut(v);
    }
    if Sets(prefix, syms, line) {
      var name, v :| line == SetText(prefix, name, v) && '=' !in name
        && Find(syms, name).Some? && ParseValue(Find(syms, name).value, CutReturn(v)).Some?;
      ValueAt(prefix, name, v);
      ValueTextCut(v);
    }
  }

  lemma NoNumberSign(line: string)
    requires line != [] ==> line[0] != '#'
    ensures !StartsWith(line + "\n", "#", 0)
  {
    var text := line + "\n";
    assert text[0..1][0] == text[0] != '#';
  }

  /** A line does something exactly if it looks like one that does. */
  lemma LineExact(prefix: string, syms: Table, line: string)
    requires GoodPrefix(prefix) && '\n' !in line
    ensures LineEffect(prefix, syms, line + "\n").Some? <==> Does(prefix, syms, line)
  {
    hide LineEffect, Does, GoodPrefix;
    if line != [] && line[0] == '#' {
      UnsetExact(prefix, syms, line);
    } else {
      SetExact(prefix, syms, line);
    }
  }
}
