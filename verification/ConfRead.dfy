/**
  Reading and printing with buffers: conf_read_simple, conf_set_sym_val and conf_write_symbol
  (confdata.c) as the program runs them, proved to do what DotConfig says.
 */
module ConfRead {
  import opened Options
  import opened Tristates
  import opened Exprs
  import opened Semantics
  import opened Escapes
  import opened DotConfig
  import opened FileText
  import opened GroupedSemantics
  import opened Grouped
  import opened Evaluator

  /** conf_write_symbol with kconfig_print_symbol. */
  method WriteSymbol(prefix: string, s: Symbol, str: string) returns (line: string)
    ensures line == SymbolLine(prefix, s, str)
  {
    hide Escape, EscapeBody;
    match s.ty {
      case Other | Unknown =>
        return "";
      case String =>
        var res := EscapeValue(str);
        var value := res[..res.Length - 1];
        assert value == Escape(str);
        line := prefix + s.name + "=" + value + "\n";
      case Boolean | Tri =>
        if str != [] && str[0] == 'n' {
          return "# " + prefix + s.name + " is not set\n";
        }
        line := prefix + s.name + "=" + str + "\n";
      case Int | Hex =>
        line := prefix + s.name + "=" + str + "\n";
    }
  }

  /** conf_set_sym_val on the text behind the equals sign: the value assigned, if any. */
  method SetSymVal(s: Symbol, p: string) returns (v: Option<Value>)
    requires NUL !in p
    ensures v == ParseValue(s, p)
  {
    hide Unescape;
    if s.ty.Boolean? || s.ty.Tri? {
      if s.ty.Tri? && p != [] && p[0] == 'm' {
        return Some(Value(MOD, ""));
      }
      if p != [] && p[0] == 'y' {
        return Some(Value(YES, ""));
      }
      if p != [] && p[0] == 'n' {
        return Some(Value(NO, ""));
      }
      return None;
    } else if s.ty.String? {
      if p == [] || p[0] != '"' {
        return None;
      }
      var buf := new char[|p| + 1](i => if 0 <= i < |p| then p[i] else NUL);
      StrAtIs(buf[..], 1, |p|);
      assert forall k :: 0 <= k < |p| ==> buf[..][k] == p[k];
      assert buf[..][1..|p|] == p[1..];
      var ok := UnescapeInPlace(buf, 1);
      if !ok {
        return None;
      }
      return Some(Value(NO, buf[1..StrEnd(buf[..], 1)]));
    } else if s.ty.Int? || s.ty.Hex? {
      return if StringValid(s.ty, p) then Some(Value(NO, p)) else None;
    }
    return None;
  }

  /** The part of the loop behind `setsym`: a member read as y becomes the selection of its choice. */
  method PickMember(cfg: Config, s: Symbol)
    requires s in cfg.users
    modifies cfg`picks
    ensures cfg.picks == PickAfter(cfg.gs, old(cfg.picks), Some(Assignment(s, cfg.users[s])))
  {
    if s in cfg.gs.choice && cfg.users[s].tri == YES {
      cfg.picks := cfg.picks[cfg.gs.choice[s] := s];
    }
  }

  /** One round of the loop in conf_read_simple. */
  method ReadOneLine(cfg: Config, prefix: string, syms: Table, line: string)
    requires NUL !in line
    modifies cfg`users, cfg`picks
    ensures cfg.users == ReadLine(prefix, syms, old(cfg.users), line)
    ensures cfg.picks == PickAfter(cfg.gs, old(cfg.picks), LineEffect(prefix, syms, line))
  {
    hide ParseValue, ValueText, UnsetName, Find;
    if StartsWith(line, "#", 0) {
      var name := UnsetName(prefix, line);
      if name.Some? {
        var s := Find(syms, name.value);
        if s.Some? && (s.value.ty.Boolean? || s.value.ty.Tri?) {
          cfg.users := cfg.users[s.value := Value(NO, "")];
          PickMember(cfg, s.value);
        }
      }
    } else if StartsWith(line, prefix, 0) {
      var p := IndexOf(line, '=', |prefix|);
      if p == |line| {
        return;
      }
      var s := Find(syms, line[|prefix|..p]);
      if s.Some? {
        ValueTextWithin(line[p + 1..]);
        var v := SetSymVal(s.value, ValueText(line[p + 1..]));
        if v.Some? {
          cfg.users := cfg.users[s.value := v.value];
          PickMember(cfg, s.value);
        }
      }
    }
  }

  lemma ValueTextWithin(rest: string)
    ensures ValueText(rest) <= rest
  {
  }

  /** conf_read_simple: forget user values and selections, and read them from the lines of a file. */
  method ReadSimple(cfg: Config, prefix: string, syms: Table, text: string)
    requires NUL !in text
    modifies cfg
    ensures cfg.users == ReadText(prefix, syms, map[], text) && cfg.valid == {}
    ensures cfg.picks == PicksOf(cfg.gs, Effects(prefix, syms, text))
  {
    hide ReadLine, ReadText, FirstLine, LineEffect, Effects, PicksOf, PickAfter, OneOrNone;
    cfg.ClearAllValid();
    cfg.users, cfg.picks := map[], map[];
    ghost var made: seq<Assignment> := [];
    NoPicks(cfg.gs);
    var i := 0;
    assert text[i..] == text && made + Effects(prefix, syms, text) == Effects(prefix, syms, text);
    while i < |text|
      invariant 0 <= i <= |text| && cfg.valid == {}
      invariant ReadText(prefix, syms, cfg.users, text[i..]) == ReadText(prefix, syms, map[], text)
      invariant made + Effects(prefix, syms, text[i..]) == Effects(prefix, syms, text)
      invariant cfg.picks == PicksOf(cfg.gs, made)
    {
      ReadRest(prefix, syms, cfg.users, text[i..]);
      EffectsFirst(prefix, syms, text[i..]);
      var line := FirstLine(text[i..]);
      assert line == text[i..i + |line|] && text[i..][|line|..] == text[i + |line|..];
      ReadOneLine(cfg, prefix, syms, line);
      OnePick(cfg.gs, made, LineEffect(prefix, syms, line));
      made := made + OneOrNone(LineEffect(prefix, syms, line));
      i := i + |line|;
    }
    assert text[i..] == [];
    ReadRest(prefix, syms, cfg.users, []);
    EffectsNone(prefix, syms);
    assert made + [] == made;
  }

  lemma ReadRest(prefix: string, syms: Table, users: Users, text: string)
    ensures text == [] ==> ReadText(prefix, syms, users, text) == users
    ensures text != [] ==>
              && |FirstLine(text)| > 0 && FirstLine(text) <= text
              && ReadText(prefix, syms, users, text)
                 == ReadText(prefix, syms, ReadLine(prefix, syms, users, FirstLine(text)), text[|FirstLine(text)|..])
  {
    hide ReadLine;
  }
}
