/**
  The comments in a written configuration (conf_write_heading, kconfig_print_comment and the menu titles
  of conf_write in confdata.c), and when the reader takes one of them for a line that unsets a symbol.
 */
module Headings {
  import opened DotConfig
  import opened LineTexts
  import opened FileText

  function CommentLine(line: string): string {
    "#" + (if line != "" then " " + line else "") + "\n"
  }

  /** One comment line for every line of a text. */
  function CommentText(value: string): string {
    var l := IndexOf(value, '\n', 0);
    CommentLine(value[..l]) + if l == |value| then "" else CommentText(value[l + 1..])
  }

  /** kconfig_print_comment. */
  method PrintComment(value: string) returns (out: string)
    ensures out == CommentText(value)
  {
    hide CommentText, IndexOf;
    out := "";
    var p := 0;
    var done := false;
    assert value[0..] == value;
    while !done
      invariant !done ==> p <= |value| && out + CommentText(value[p..]) == CommentText(value)
      invariant done ==> out == CommentText(value)
      decreases if done then 0 else 1 + |value| - p
    {
      CommentStep(value, p);
      var l := IndexOf(value, '\n', p);
      ghost var before := out;
      out := out + "#";
      if l > p {
        out := out + " " + value[p..l];
      }
      out := out + "\n";
      assert out == before + CommentLine(value[p..l]);
      done := l == |value|;
      p := l + 1;
    }
  }

  lemma CommentStep(value: string, p: nat)
    requires p <= |value|
    ensures var l := IndexOf(value, '\n', p);
            CommentText(value[p..]) == CommentLine(value[p..l]) + if l == |value| then "" else CommentText(value[l + 1..])
  {
    hide IndexOf, CommentText, CommentLine;
    IndexOfTail(value, '\n', p);
    var l := IndexOf(value, '\n', p);
    var rest := value[p..];
    CommentFirst(rest);
    assert rest[..l - p] == value[p..l];
    if l < |value| {
      assert rest[l - p + 1..] == value[l + 1..];
    }
  }

  lemma CommentFirst(value: string)
    ensures var l := IndexOf(value, '\n', 0);
            CommentText(value) == CommentLine(value[..l]) + if l == |value| then "" else CommentText(value[l + 1..])
  {
  }

  lemma {:induction false} IndexOfTail(s: string, c: char, i: nat)
    requires i <= |s|
    ensures IndexOf(s[i..], c, 0) == IndexOf(s, c, i) - i
  {
    var j := IndexOf(s, c, i);
    if j < |s| {
      assert forall k :: 0 <= k < j - i ==> s[i..][k] == s[i + k];
      IndexIs(s[i..], c, 0, j - i);
    }
  }

  /** The buffer of conf_write_heading: 255 characters of text. */
  function HeadingBuffer(title: string): string {
    var buf := "\n" + "Automatically generated file; DO NOT EDIT." + "\n" + title + "\n";
    if |buf| <= 255 then buf else buf[..255]
  }

  /** conf_write_heading. */
  function FileHeading(title: string): string {
    CommentText(HeadingBuffer(title))
  }

  method WriteHeading(title: string) returns (out: string)
    ensures out == FileHeading(title)
  {
    var buf := HeadingBuffer(title);
    out := PrintComment(buf);
  }

  /** What conf_write puts out for a menu without a symbol. */
  function MenuHeading(title: string): string {
    "\n#\n# " + title + "\n#\n"
  }

  /** The lines of a menu's heading: its title between two number signs, behind an empty line. */
  lemma MenuHeadingLines(title: string)
    requires '\n' !in title
    ensures Lines(MenuHeading(title)) == ["", "#", "# " + title, "#", ""]
  {
    hide IndexOf, Lines;
    var line := "# " + title;
    HeadingParts(title);
    FourLines("", "#", line, "#");
  }

  lemma HeadingParts(title: string)
    ensures MenuHeading(title) == "" + "\n" + ("#" + "\n" + (("# " + title) + "\n" + ("#" + "\n" + "")))
  {
    assert "\n#\n# " == "\n" + "#" + "\n" + "# " && "\n#\n" == "\n" + "#" + "\n";
  }

  lemma FourLines(a: string, b: string, c: string, d: string)
    requires '\n' !in a && '\n' !in b && '\n' !in c && '\n' !in d
    ensures Lines(a + "\n" + (b + "\n" + (c + "\n" + (d + "\n" + "")))) == [a, b, c, d, ""]
  {
    hide IndexOf, Lines;
    var r3 := d + "\n" + "";
    var r2 := c + "\n" + r3;
    var r1 := b + "\n" + r2;
    LinesFirst(a, r1);
    LinesFirst(b, r2);
    LinesFirst(c, r3);
    LinesFirst(d, "");
    LinesLast("");
  }

  lemma LinesFirst(line: string, rest: string)
    requires '\n' !in line
    ensures Lines(line + "\n" + rest) == [line] + Lines(rest)
  {
    var text := line + "\n" + rest;
    IndexIs(text, '\n', 0, |line|);
    assert text[..|line|] == line && text[|line| + 1..] == rest;
  }

  lemma LinesLast(line: string)
    requires '\n' !in line
    ensures Lines(line) == [line]
  {
    assert line[..|line|] == line;
  }

  /** The comment at the top of a file with a title of one line that is not too long. */
  lemma FileHeadingLines(title: string)
    requires '\n' !in title && title != "" && |title| <= 209
    ensures FileHeading(title)
            == "#\n" + ("# " + "Automatically generated file; DO NOT EDIT." + "\n") + ("# " + title + "\n") + "#\n"
  {
    hide IndexOf, CommentText;
    var notice := "Automatically generated file; DO NOT EDIT.";
    var rest := title + "\n" + "";
    HeadingBufferParts(title);
    CommentLines("", notice + "\n" + rest);
    CommentLines(notice, rest);
    CommentLines(title, "");
    NoComment();
  }

  /** A longer title is cut off with the rest of the buffer. */
  lemma HeadingCut(title: string)
    ensures |HeadingBuffer(title)| <= 255
    ensures HeadingBuffer(title) <= "\n" + "Automatically generated file; DO NOT EDIT." + "\n" + title + "\n"
  {
  }

  lemma HeadingBufferParts(title: string)
    requires |title| <= 209
    ensures HeadingBuffer(title)
            == "" + "\n" + ("Automatically generated file; DO NOT EDIT." + "\n" + (title + "\n" + ""))
  {
    var notice := "Automatically generated file; DO NOT EDIT.";
    assert "\n" + notice + "\n" + title + "\n" == "" + "\n" + (notice + "\n" + (title + "\n" + ""));
  }

  lemma NoComment()
    ensures CommentText("") == "#\n"
  {
  }

  lemma CommentLines(line: string, rest: string)
    requires '\n' !in line
    ensures CommentText(line + "\n" + rest) == (if line == "" then "#\n" else "# " + line + "\n") + CommentText(rest)
  {
    hide IndexOf, CommentText;
    var text := line + "\n" + rest;
    IndexIs(text, '\n', 0, |line|);
    CommentFirst(text);
    assert text[..|line|] == line && text[|line| + 1..] == rest;
    assert line != "" ==> "#" + (" " + line) + "\n" == "# " + line + "\n";
  }

  /** A comment line is silent exactly if it does not start like a line that unsets a symbol. */
  lemma CommentLineExact(prefix: string, syms: Table, line: string)
    requires GoodPrefix(prefix) && '\n' !in line
    ensures WholeLines("# " + line + "\n")
    ensures Effects(prefix, syms, "# " + line + "\n") == [] <==> !Unsets(prefix, syms, line)
  {
    hide Unsets, LineEffect, Effects;
    var text := "# " + line + "\n";
    IndexIs(text, '\n', 0, |text| - 1);
    LineAlone(prefix, syms, text);
    LineExact(prefix, syms, "# " + line);
    assert ("# " + line)[0] == '#' && ("# " + line)[2..] == line;
  }

  /** A number sign alone and an empty line do nothing. */
  lemma BareLines(prefix: string, syms: Table)
    requires GoodPrefix(prefix)
    ensures Effects(prefix, syms, "#\n") == [] && Effects(prefix, syms, "\n") == []
  {
    hide Effects;
    LineAlone(prefix, syms, "#\n");
    LineAlone(prefix, syms, "\n");
    assert "#\n"[0..1] == "#" && "\n"[0..1] == "\n";
    ShortLine(prefix);
    if prefix != "" && StartsWith("\n", prefix, 0) {
      assert false;
    }
  }

  /** The title of a menu is silent exactly if it does not start like a line that unsets a symbol. */
  lemma MenuHeadingExact(prefix: string, syms: Table, title: string)
    requires GoodPrefix(prefix) && '\n' !in title
    ensures WholeLines(MenuHeading(title))
    ensures Effects(prefix, syms, MenuHeading(title)) == [] <==> !Unsets(prefix, syms, title)
  {
    hide Effects, Unsets, GoodPrefix;
    BareLines(prefix, syms);
    CommentLineExact(prefix, syms, title);
    var line := "# " + title + "\n";
    EffectsConcat(prefix, syms, "\n", "#\n");
    EffectsConcat(prefix, syms, "\n" + "#\n", line);
    EffectsConcat(prefix, syms, "\n" + "#\n" + line, "#\n");
    assert MenuHeading(title) == "\n" + "#\n" + line + "#\n";
  }

  lemma CommentLineSilent(prefix: string, syms: Table, line: string)
    requires GoodPrefix(prefix) && '\n' !in line
    ensures WholeLines(CommentLine(line))
    ensures Effects(prefix, syms, CommentLine(line)) == [] <==> !Unsets(prefix, syms, line)
  {
    hide Effects, Unsets, GoodPrefix;
    if line != "" {
      CommentLineExact(prefix, syms, line);
      assert CommentLine(line) == "# " + line + "\n";
    } else {
      BareLines(prefix, syms);
      EmptyUnsetsNothing(prefix, syms);
      assert CommentLine(line) == "#\n";
    }
  }

  /** A comment is silent exactly if none of its lines starts like a line that unsets a symbol. */
  lemma {:induction false} CommentExact(prefix: string, syms: Table, value: string)
    requires GoodPrefix(prefix)
    ensures WholeLines(CommentText(value))
    ensures Effects(prefix, syms, CommentText(value)) == []
            <==> forall l :: l in Lines(value) ==> !Unsets(prefix, syms, l)
    decreases |value|
  {
    hide Effects, Unsets, GoodPrefix, IndexOf, CommentLine;
    var l := IndexOf(value, '\n', 0);
    CommentLineSilent(prefix, syms, value[..l]);
    assert Lines(value)[0] == value[..l];
    if l < |value| {
      var rest := value[l + 1..];
      CommentExact(prefix, syms, rest);
      EffectsConcat(prefix, syms, CommentLine(value[..l]), CommentText(rest));
      assert Lines(value) == [value[..l]] + Lines(rest);
      assert WholeLines(CommentText(rest));
    } else {
      assert Lines(value) == [value[..l]] && CommentText(value) == CommentLine(value[..l]);
    }
  }

  lemma EmptyUnsetsNothing(prefix: string, syms: Table)
    ensures !Unsets(prefix, syms, "")
  {
  }
}
