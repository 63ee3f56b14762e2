/**
  A choice group: a bool choice that is not optional, whose members are bools without defaults of their
  own (sym_calc_choice, sym_choice_default and the choice cases of sym_calc_value and
  sym_set_tristate_value in symbol.c). The rest of the configuration enters as a World: what the
  conditions evaluate to, which may change arbitrarily from one evaluation to the next.
 */
module Choices {
  import opened Options
  import opened Tristates
  import opened Exprs

  /** The prompt condition of the choice, the dependencies of each member, the conditions of the defaults. */
  datatype World = World(prompt: Tristate, dep: Symbol -> Tristate, conds: nat -> Tristate)

  datatype Group = Group(members: seq<Symbol>, defaults: seq<Symbol>)

  /** The members are distinct, and defaults of the choice are members. */
  ghost predicate Proper(g: Group) {
    && (forall i, j :: 0 <= i < j < |g.members| ==> g.members[i] != g.members[j])
    && forall d :: d in g.defaults ==> d in g.members
  }

  predicate Visible(w: World, m: Symbol) {
    w.prompt != NO && w.dep(m) != NO
  }

  /** The first visible member from `i` on. */
  function FirstVisible(w: World, ms: seq<Symbol>): (m: Option<Symbol>)
    ensures m.Some? ==> m.value in ms && Visible(w, m.value)
    ensures m.None? ==> forall x :: x in ms ==> !Visible(w, x)
  {
    if ms == [] then None else if Visible(w, ms[0]) then Some(ms[0]) else FirstVisible(w, ms[1..])
  }

  /** The first default from number `i` on whose condition holds and whose target is visible. */
  function FirstDefault(w: World, ds: seq<Symbol>, i: nat): (m: Option<Symbol>)
    ensures m.Some? ==> m.value in ds && Visible(w, m.value)
    decreases |ds| - i
  {
    if i >= |ds| then None
    else if w.conds(i) != NO && Visible(w, ds[i]) then Some(ds[i])
    else FirstDefault(w, ds, i + 1)
  }

  /** sym_choice_default. */
  function DefaultOf(w: World, g: Group): Option<Symbol> {
    var d := FirstDefault(w, g.defaults, 0);
    if d.Some? then d else FirstVisible(w, g.members)
  }

  /** The member that the choice settles on: the user's, if it is visible, or else the default. */
  function Selected(w: World, g: Group, user: Option<Symbol>): Option<Symbol> {
    if w.prompt == NO then None
    else if user.Some? && Visible(w, user.value) then user
    else DefaultOf(w, g)
  }

  /** A selection is a visible member, and there is one whenever the choice and a member are visible. */
  lemma SelectedExact(w: World, g: Group, user: Option<Symbol>)
    requires Proper(g) && (user.Some? ==> user.value in g.members)
    ensures Selected(w, g, user).Some? ==>
        Selected(w, g, user).value in g.members && Visible(w, Selected(w, g, user).value)
    ensures Selected(w, g, user).Some? <==> exists m :: m in g.members && Visible(w, m)
  {
  }

  /** The first default that holds and whose target shows is number `i`. */
  ghost predicate HoldsFirst(w: World, g: Group, i: nat) {
    && i < |g.defaults| && w.conds(i) != NO && Visible(w, g.defaults[i])
    && forall j: nat :: j < i ==> w.conds(j) == NO || !Visible(w, g.defaults[j])
  }

  /** The first member that shows is number `i`. */
  ghost predicate ShowsFirst(w: World, g: Group, i: nat) {
    i < |g.members| && Visible(w, g.members[i]) && forall j: nat :: j < i ==> !Visible(w, g.members[j])
  }

  /** The order in which the sources decide: the user's member if it shows, then the defaults, then the members. */
  lemma SelectedInOrder(w: World, g: Group, user: Option<Symbol>)
    ensures user.Some? && Visible(w, user.value) ==> Selected(w, g, user) == user
    ensures forall i: nat :: HoldsFirst(w, g, i) ==> DefaultOf(w, g) == Some(g.defaults[i])
    ensures forall i: nat :: (forall k: nat :: !HoldsFirst(w, g, k)) && ShowsFirst(w, g, i) ==>
              DefaultOf(w, g) == Some(g.members[i])
    ensures w.prompt != NO && !(user.Some? && Visible(w, user.value)) ==> Selected(w, g, user) == DefaultOf(w, g)
  {
    hide FirstDefault, FirstVisible;
    forall i: nat | HoldsFirst(w, g, i) ensures FirstDefault(w, g.defaults, 0) == Some(g.defaults[i]) {
      DefaultReached(w, g, 0, i);
    }
    if forall k: nat :: !HoldsFirst(w, g, k) {
      NoDefaultReached(w, g, 0);
    }
    forall i: nat | ShowsFirst(w, g, i) ensures FirstVisible(w, g.members) == Some(g.members[i]) {
      MemberReached(w, g.members, i);
    }
  }

  lemma {:induction false} DefaultReached(w: World, g: Group, from: nat, i: nat)
    requires HoldsFirst(w, g, i) && from <= i
    ensures FirstDefault(w, g.defaults, from) == Some(g.defaults[i])
    decreases i - from
  {
    if from < i {
      DefaultReached(w, g, from + 1, i);
    }
  }

  lemma {:induction false} NoDefaultReached(w: World, g: Group, from: nat)
    requires from <= |g.defaults| && forall k: nat :: !HoldsFirst(w, g, k)
    requires forall j: nat :: j < from ==> w.conds(j) == NO || !Visible(w, g.defaults[j])
    ensures FirstDefault(w, g.defaults, from) == None
    decreases |g.defaults| - from
  {
    if from < |g.defaults| {
      assert !HoldsFirst(w, g, from);
      NoDefaultReached(w, g, from + 1);
    }
  }

  lemma {:induction false} MemberReached(w: World, ms: seq<Symbol>, i: nat)
    requires i < |ms| && Visible(w, ms[i]) && forall j: nat :: j < i ==> !Visible(w, ms[j])
    ensures FirstVisible(w, ms) == Some(ms[i])
  {
    if i > 0 {
      assert !Visible(w, ms[0]);
      assert forall j: nat :: j < i - 1 ==> ms[1..][j] == ms[j + 1];
      MemberReached(w, ms[1..], i - 1);
    }
  }

  /** What conf_write_defconfig keeps of a choice: its selection, unless that is the default. */
  function Saved(w: World, g: Group, user: Option<Symbol>): Option<Symbol> {
    var s := Selected(w, g, user);
    if s == DefaultOf(w, g) then None else s
  }

  /** Skipping the default of a choice loses nothing. */
  lemma ChoiceLossless(w: World, g: Group, user: Option<Symbol>)
    ensures Selected(w, g, Saved(w, g, user)) == Selected(w, g, user)
    ensures Selected(w, g, Selected(w, g, user)) == Selected(w, g, user)
  {
    if Selected(w, g, user).Some? && !Visible(w, Selected(w, g, user).value) {
      assert false;
    }
  }

  /** Two worlds that give a group the same conditions. */
  ghost predicate SameFor(w: World, w': World, g: Group) {
    && w.prompt == w'.prompt
    && (forall m :: m in g.members ==> w.dep(m) == w'.dep(m))
    && forall i :: 0 <= i < |g.defaults| ==> w.conds(i) == w'.conds(i)
  }

  lemma {:induction false} FirstVisibleSame(w: World, w': World, ms: seq<Symbol>)
    requires w.prompt == w'.prompt && forall m :: m in ms ==> w.dep(m) == w'.dep(m)
    ensures FirstVisible(w, ms) == FirstVisible(w', ms)
  {
    if ms != [] {
      FirstVisibleSame(w, w', ms[1..]);
    }
  }

  lemma {:induction false} FirstDefaultSame(w: World, w': World, g: Group, i: nat)
    requires SameFor(w, w', g) && Proper(g)
    ensures FirstDefault(w, g.defaults, i) == FirstDefault(w', g.defaults, i)
    decreases |g.defaults| - i
  {
    if i < |g.defaults| {
      assert g.defaults[i] in g.defaults;
      FirstDefaultSame(w, w', g, i + 1);
    }
  }

  /** What a group settles on depends on its own conditions alone. */
  lemma SelectedSame(w: World, w': World, g: Group, user: Option<Symbol>)
    requires SameFor(w, w', g) && Proper(g) && (user.Some? ==> user.value in g.members)
    ensures Selected(w, g, user) == Selected(w', g, user) && DefaultOf(w, g) == DefaultOf(w', g)
  {
    FirstVisibleSame(w, w', g.members);
    FirstDefaultSame(w, w', g, 0);
  }

  datatype Event = SetMember(m: Symbol, val: Tristate) | Elsewhere(w: World)

  /** The members set to y successfully in a run, in order: those visible at the time. */
  function Successes(w: World, events: seq<Event>): (ms: seq<Symbol>)
    decreases |events|
  {
    if events == [] then []
    else
      var before := Successes(w, events[..|events| - 1]);
      match events[|events| - 1]
      case Elsewhere(_) => before
      case SetMember(m, val) =>
        if val == YES && Visible(WorldAfter(w, events[..|events| - 1]), m) then before + [m] else before
  }

  /** What the conditions evaluate to after a run. */
  function WorldAfter(w: World, events: seq<Event>): World
    decreases |events|
  {
    if events == [] then w
    else
      match events[|events| - 1]
      case Elsewhere(w') => w'
      case SetMember(_, _) => WorldAfter(w, events[..|events| - 1])
  }

  function Latest(ms: seq<Symbol>): Option<Symbol> {
    if ms == [] then None else Some(ms[|ms| - 1])
  }

  /** The latest of the members that is visible. */
  function LatestVisible(w: World, ms: seq<Symbol>): (m: Option<Symbol>)
    ensures m.Some? ==> m.value in ms && Visible(w, m.value)
    ensures m.None? ==> forall x :: x in ms ==> !Visible(w, x)
    decreases |ms|
  {
    if ms == [] then None
    else if Visible(w, ms[|ms| - 1]) then Some(ms[|ms| - 1])
    else LatestVisible(w, ms[..|ms| - 1])
  }

  /**
    The latest success that is still visible is selected exactly if it is the latest success at all, or
    happens to be the default: earlier successes are not remembered.
   */
  lemma LatestVisibleExact(w: World, g: Group, ms: seq<Symbol>)
    requires LatestVisible(w, ms).Some?
    ensures Selected(w, g, Latest(ms)) == LatestVisible(w, ms)
            <==> Visible(w, ms[|ms| - 1]) || DefaultOf(w, g) == LatestVisible(w, ms)
  {
  }

  class Choice {
    const g: Group
    var world: World
    /** def[S_DEF_USER].val of the choice. */
    var user: Option<Symbol>
    /** SYMBOL_VALID of the members and of the choice. */
    var valid: set<Symbol>
    var choiceValid: bool
    var visible: map<Symbol, Tristate>
    var curr: map<Symbol, Tristate>
    /** curr.tri and curr.val of the choice. */
    var tri: Tristate
    var chosen: Option<Symbol>

    constructor (g: Group, w: World)
      requires Proper(g)
      ensures this.g == g && world == w && user == None && valid == {} && !choiceValid
      ensures Ok({}, false)
    {
      this.g, world, user := g, w, None;
      valid, choiceValid, visible, curr, tri, chosen := {}, false, map[], map[], NO, None;
    }

    function VisibleAt(m: Symbol): Tristate
      reads this`visible
    {
      if m in visible then visible[m] else NO
    }

    function TriOf(m: Symbol): Tristate
      reads this`curr
    {
      if m in curr then curr[m] else NO
    }

    ghost predicate Shown(m: Symbol)
      reads this`visible, this`world
    {
      VisibleAt(m) == if Visible(world, m) then YES else NO
    }

    /**
      The cache is right, except for members under evaluation (`pending`) and, while the choice itself is
      under evaluation (`busy`), for its selection.
     */
    ghost predicate Ok(pending: set<Symbol>, busy: bool)
      reads this
    {
      && Proper(g) && (user.Some? ==> user.value in g.members)
      && (busy ==> choiceValid && tri == YES && world.prompt != NO)
      && (choiceValid && !busy ==> chosen == Selected(world, g, user) && tri == if chosen.Some? then YES else NO)
      && forall m :: m in valid && m !in pending ==>
           choiceValid && !busy && Shown(m) && TriOf(m) == if chosen == Some(m) then YES else NO
    }

    /** sym_calc_visibility of a member: its dependencies include the choice. */
    method CalcVisibility(m: Symbol, ghost pending: set<Symbol>, ghost busy: bool)
      requires Ok(pending, busy) && m in g.members
      modifies this`choiceValid, this`visible, this`tri, this`chosen
      ensures Ok(pending, busy) && choiceValid && Shown(m)
      ensures old(choiceValid) ==> tri == old(tri) && forall x :: x in g.members && x != m ==>
          VisibleAt(x) == old(VisibleAt(x))
      decreases if choiceValid then 0 else 2, 1
    {
      CalcChoiceValue(pending, busy);
      var t := And(world.dep(m), tri);
      if t == MOD {
        t := YES;
      }
      visible := visible[m := t];
      SelectedExact(world, g, user);
    }

    /** sym_calc_value of the choice: not being optional, it is y when its prompt is visible and has a visible member. */
    method CalcChoiceValue(ghost pending: set<Symbol>, ghost busy: bool)
      requires Ok(pending, busy)
      modifies this`choiceValid, this`visible, this`tri, this`chosen
      ensures Ok(pending, busy) && choiceValid
      ensures old(choiceValid) ==> tri == old(tri) && visible == old(visible)
      decreases if choiceValid then 0 else 2, 0
    {
      if choiceValid {
        return;
      }
      choiceValid := true;
      var revDep := if And(world.prompt, MOD) == MOD then YES else NO;
      tri, chosen := revDep, None;
      if tri == YES {
        chosen := CalcChoice(pending);
        if chosen.None? {
          tri := NO;
        }
      }
    }

    /** sym_calc_choice. */
    method CalcChoice(ghost pending: set<Symbol>) returns (m: Option<Symbol>)
      requires Ok(pending, true)
      modifies this`choiceValid, this`visible, this`tri, this`chosen
      ensures Ok(pending, true) && m == Selected(world, g, user)
      decreases 1, 0
    {
      var i := 0;
      while i < |g.members|
        invariant 0 <= i <= |g.members| && Ok(pending, true)
        invariant forall j :: 0 <= j < i ==> Shown(g.members[j])
      {
        CalcVisibility(g.members[i], pending, true);
        i := i + 1;
      }
      if user.Some? && VisibleAt(user.value) != NO {
        return user;
      }
      m := ChoiceDefault();
    }

    /** sym_choice_default: by the calculated visibility of the members. */
    method ChoiceDefault() returns (m: Option<Symbol>)
      requires Proper(g) && forall x :: x in g.members ==> Shown(x)
      ensures m == DefaultOf(world, g)
    {
      var i := 0;
      while i < |g.defaults|
        invariant 0 <= i <= |g.defaults| && FirstDefault(world, g.defaults, 0) == FirstDefault(world, g.defaults, i)
      {
        assert g.defaults[i] in g.members;
        if world.conds(i) != NO && VisibleAt(g.defaults[i]) != NO {
          return Some(g.defaults[i]);
        }
        i := i + 1;
      }
      i := 0;
      while i < |g.members|
        invariant 0 <= i <= |g.members| && FirstDefault(world, g.defaults, 0) == None
        invariant FirstVisible(world, g.members) == FirstVisible(world, g.members[i..])
      {
        assert g.members[i..][1..] == g.members[i + 1..] && g.members[i..][0] == g.members[i];
        assert Shown(g.members[i]);
        if VisibleAt(g.members[i]) != NO {
          return Some(g.members[i]);
        }
        i := i + 1;
      }
      m := None;
    }

    /** sym_calc_value of a member. */
    method CalcMember(m: Symbol)
      requires Ok({}, false) && m in g.members
      modifies this`valid, this`choiceValid, this`visible, this`tri, this`chosen, this`curr
      ensures Ok({}, false) && old(valid) <= valid && m in valid
    {
      if m in valid {
        return;
      }
      valid := valid + {m};
      CalcVisibility(m, {m}, false);
      var newval := NO;
      if VisibleAt(m) == YES {
        newval := if chosen == Some(m) then YES else NO;
      }
      curr := curr[m := newval];
      SelectedExact(world, g, user);
    }

    /** Evaluation of all members, in any order. */
    method CalcAll(order: seq<Symbol>)
      requires Ok({}, false) && forall m :: m in order <==> m in g.members
      modifies this`valid, this`choiceValid, this`visible, this`tri, this`chosen, this`curr
      ensures Ok({}, false) && forall m :: m in g.members ==> m in valid
    {
      var i := 0;
      while i < |order|
        invariant 0 <= i <= |order| && Ok({}, false)
        invariant forall j :: 0 <= j < i ==> order[j] in valid
      {
        CalcMember(order[i]);
        i := i + 1;
      }
    }

    /** sym_clear_all_valid. */
    method ClearAllValid()
      modifies this`valid, this`choiceValid
      ensures valid == {} && !choiceValid
    {
      valid, choiceValid := {}, false;
    }

    /** sym_set_tristate_value of a member, after it has been evaluated. */
    method SetMember(m: Symbol, val: Tristate) returns (ok: bool)
      requires Ok({}, false) && m in g.members && m in valid
      modifies this`user, this`valid, this`choiceValid
      ensures Ok({}, false)
      ensures ok <==> TriOf(m) == val || (Visible(world, m) && val == YES)
      ensures user == if ok && val == YES then Some(m) else old(user)
    {
      var oldval := TriOf(m);
      if oldval != val && !(VisibleAt(m) == YES && val == YES) {
        return false;
      }
      if val == YES {
        SelectedExact(world, g, user);
        user := Some(m);
      }
      if oldval != val {
        ClearAllValid();
      }
      ok := true;
    }

    /** Something else in the configuration changed, which clears the cache. */
    method ChangeElsewhere(w: World)
      requires Ok({}, false)
      modifies this`world, this`valid, this`choiceValid
      ensures Ok({}, false) && world == w
    {
      world := w;
      ClearAllValid();
    }

    /** What holds after evaluating every member: nothing but the selection is y. */
    ghost predicate Exclusive()
      reads this
    {
      && (tri == YES <==> exists m :: m in g.members && Visible(world, m))
      && (tri == YES ==>
          chosen.Some? && chosen.value in g.members && Visible(world, chosen.value) && TriOf(chosen.value) == YES)
      && forall m :: m in g.members && TriOf(m) == YES ==> tri == YES && chosen == Some(m)
    }

    lemma EvaluatedIsExclusive()
      requires Ok({}, false) && choiceValid && forall m :: m in g.members ==> m in valid
      ensures Exclusive() && chosen == Selected(world, g, user)
    {
      SelectedExact(world, g, user);
    }

    /**
      A whole run: members are set and the rest of the configuration changes, in any order and with every
      member evaluated after each step.
     */
    method Run(events: seq<Event>)
      requires Ok({}, false) && user == None && g.members != []
      requires forall e :: e in events && e.SetMember? ==> e.m in g.members
      modifies this
      ensures Exclusive()
      ensures world == WorldAfter(old(world), events)
      ensures chosen == Selected(world, g, Latest(Successes(old(world), events)))
      ensures var last := LatestVisible(world, Successes(old(world), events));
              last.Some? ==>
                (chosen == last
                 <==> last == Latest(Successes(old(world), events)) || DefaultOf(world, g) == last)
    {
      CalcAll(g.members);
      var i := 0;
      while i < |events|
        invariant 0 <= i <= |events| && Ok({}, false) && forall m :: m in g.members ==> m in valid
        invariant world == WorldAfter(old(world), events[..i])
        invariant user == Latest(Successes(old(world), events[..i]))
      {
        var e := events[i];
        assert e in events && events[..i + 1][..i] == events[..i];
        if e.SetMember? {
          SelectedExact(world, g, user);
          var ok := SetMember(e.m, e.val);
        } else {
          ChangeElsewhere(e.w);
        }
        CalcAll(g.members);
        i := i + 1;
      }
      assert events[..i] == events;
      assert g.members[0] in g.members && g.members[0] in valid;
      EvaluatedIsExclusive();
    }

    /** The lines that conf_write_defconfig writes for the members: `m` for a line that sets it to y. */
    method SaveMembers() returns (lines: seq<Symbol>)
      requires Ok({}, false) && choiceValid && g.members != [] && forall m :: m in g.members ==> m in valid
      ensures lines == if Saved(world, g, user).Some? then [Saved(world, g, user).value] else []
    {
      EvaluatedIsExclusive();
      lines := [];
      var i := 0;
      while i < |g.members|
        invariant 0 <= i <= |g.members|
        invariant lines == if Saved(world, g, user).Some? && Saved(world, g, user).value in g.members[..i]
                           then [Saved(world, g, user).value] else []
      {
        var m := g.members[i];
        assert forall x :: x in g.members[..i + 1] <==> x in g.members[..i] || x == m;
        assert m !in g.members[..i];
        if TriOf(m) == YES {
          var ds := ChoiceDefault();
          if ds != Some(m) {
            lines := lines + [m];
          }
        }
        i := i + 1;
      }
      assert g.members[..i] == g.members;
      SelectedExact(world, g, user);
    }

    /** conf_read_simple: a member read as y becomes the user's selection. */
    method LoadMembers(lines: seq<Symbol>)
      requires Ok({}, false) && forall m :: m in lines ==> m in g.members
      modifies this`user, this`valid, this`choiceValid
      ensures Ok({}, false) && user == if lines == [] then None else Some(lines[|lines| - 1])
    {
      ClearAllValid();
      user := None;
      var i := 0;
      while i < |lines|
        invariant 0 <= i <= |lines| && Ok({}, false) && valid == {} && !choiceValid
        invariant user == if i == 0 then None else Some(lines[i - 1])
      {
        user := Some(lines[i]);
        i := i + 1;
      }
    }

    /** Saving a choice, loading it and evaluating again selects the same member. */
    method SaveAndLoad()
      requires Ok({}, false) && choiceValid && g.members != [] && forall m :: m in g.members ==> m in valid
      modifies this
      ensures Exclusive() && chosen == old(chosen) && world == old(world)
    {
      ghost var before := user;
      EvaluatedIsExclusive();
      var lines := SaveMembers();
      ChoiceLossless(world, g, before);
      SelectedExact(world, g, before);
      LoadMembers(lines);
      CalcAll(g.members);
      assert g.members[0] in g.members && g.members[0] in valid;
      EvaluatedIsExclusive();
    }
  }

  /** A run in which the last selection is hidden and the one before it, still visible, does not come back. */
  lemma EarlierSelectionForgotten(a: Symbol, b: Symbol, c: Symbol)
    requires a != b && b != c && a != c
    ensures var g := Group([c, a, b], []);
            var start, hidden := World(YES, _ => YES, _ => NO), World(YES, m => if m == b then NO else YES, _ => NO);
            var events := [SetMember(a, YES), SetMember(b, YES), Elsewhere(hidden)];
            var last := Latest(Successes(start, events));
            && Proper(g) && Successes(start, events) == [a, b] && WorldAfter(start, events) == hidden
            && LatestVisible(hidden, [a, b]) == Some(a) && Selected(hidden, g, last) == Some(c)
  {
    var start, hidden := World(YES, _ => YES, _ => NO), World(YES, m => if m == b then NO else YES, _ => NO);
    var events := [SetMember(a, YES), SetMember(b, YES), Elsewhere(hidden)];
    assert events[..2] == [SetMember(a, YES), SetMember(b, YES)];
    assert events[..2][..1] == [SetMember(a, YES)] && events[..2][..1][..0] == [];
    assert WorldAfter(start, events[..2][..1][..0]) == start;
    assert Successes(start, events[..2][..1]) == [a] && WorldAfter(start, events[..2][..1]) == start;
    assert Successes(start, events[..2]) == [a, b];
    assert [a, b][..1] == [a];
  }
}
