/**
  What decides the value of a symbol (sym_calc_value in symbol.c), source by source: what selects it, what
  implies it, its defaults, the user and its range; and what makes conf_write write it.
 */
module Values {
  import opened CStrings
  import opened Options
  import opened Tristates
  import opened Exprs
  import opened Submenu
  import opened Semantics

  /** The promotion of m where the type is bool, or tristate without modules. */
  function Promoted(env: Env, s: Symbol, t: Tristate): Tristate {
    if t == MOD && (s.ty.Boolean? || env.modules == NO) then YES else t
  }

  /** A dependency that is n when absent, as for select and imply. */
  function Given(env: Env, c: Condition): Tristate {
    if c.Some? then Eval(env, c.value) else NO
  }

  /** The largest of the conditions, n if there are none. */
  ghost predicate Largest(env: Env, cs: seq<Condition>, t: Tristate) {
    && (forall c :: c in cs ==> EvalCondition(env, c) <= t)
    && (t == NO || exists c :: c in cs && EvalCondition(env, c) == t)
  }

  lemma {:induction false} PromptsLargest(env: Env, cs: seq<Condition>)
    ensures Largest(env, cs, PromptMax(env, cs))
  {
    hide EvalCondition;
    if cs != [] {
      var before, last := cs[..|cs| - 1], cs[|cs| - 1];
      assert cs == before + [last] && last in cs;
      PromptsLargest(env, before);
    }
  }

  lemma LargestUnique(env: Env, cs: seq<Condition>, t: Tristate, u: Tristate)
    requires Largest(env, cs, t) && Largest(env, cs, u)
    ensures t == u
  {
    hide EvalCondition;
  }

  /** The default in force: the first one whose condition is not n. */
  ghost predicate InForce(env: Env, ds: seq<Default>, i: nat) {
    && i < |ds| && EvalCondition(env, ds[i].cond) != NO
    && forall j :: 0 <= j < i ==> EvalCondition(env, ds[j].cond) == NO
  }

  ghost predicate NoneInForce(env: Env, ds: seq<Default>) {
    forall p :: p in ds ==> EvalCondition(env, p.cond) == NO
  }

  lemma {:induction false} FirstInForce(env: Env, ds: seq<Default>, i: nat)
    requires InForce(env, ds, i)
    ensures FirstDefault(env, ds) == Some(ds[i])
  {
    hide EvalCondition;
    if i > 0 {
      FirstInForce(env, ds[1..], i - 1);
    }
  }

  lemma {:induction false} NothingInForce(env: Env, ds: seq<Default>)
    requires NoneInForce(env, ds)
    ensures FirstDefault(env, ds) == None
  {
    hide EvalCondition;
    if ds != [] {
      assert ds[0] in ds;
      NothingInForce(env, ds[1..]);
    }
  }

  predicate Logical(s: Symbol) {
    s.ty.Boolean? || s.ty.Tri?
  }

  /** A symbol is at least what selects it, whatever else holds, and is then written unless it is AUTO. */
  lemma SelectRaises(env: Env, s: Symbol, d: SymDef, user: Option<Value>)
    requires Logical(s)
    ensures Given(env, d.revDep) <= Calc(env, s, d, user).tri
    ensures Given(env, d.revDep) != NO && !d.auto ==> Written(env, s, d)
  {
    hide PromptMax, Eval, DefaultTri;
  }

  /** Without prompt, default and imply that is its value, promoted for a bool. */
  lemma SelectAlone(env: Env, s: Symbol, d: SymDef, user: Option<Value>)
    requires Logical(s) && d.prompts == [] && d.defaults == [] && d.implied.None?
    ensures Calc(env, s, d, user).tri == Promoted(env, s, Given(env, d.revDep))
    ensures Written(env, s, d) <==> !d.auto && Given(env, d.revDep) != NO
  {
    hide Eval;
  }

  /** The user has a value and may use it. */
  ghost predicate UserRules(env: Env, d: SymDef, user: Option<Value>) {
    user.Some? && exists c :: c in d.prompts && EvalCondition(env, c) != NO
  }

  lemma UserRulesExact(env: Env, s: Symbol, d: SymDef, user: Option<Value>)
    ensures UserRules(env, d, user) <==> user.Some? && Visible(env, s, d) != NO
  {
    hide EvalCondition, PromptMax;
    PromptsLargest(env, d.prompts);
  }

  /** What implies a symbol raises it where the user does not rule and its direct dependencies are not n. */
  lemma ImplyRaises(env: Env, s: Symbol, d: SymDef, user: Option<Value>)
    requires Logical(s) && !UserRules(env, d, user) && EvalCondition(env, d.dirDep) != NO
    ensures Given(env, d.implied) <= Calc(env, s, d, user).tri
    ensures Given(env, d.implied) != NO && !d.auto ==> Written(env, s, d)
  {
    hide PromptMax, Eval, DefaultTri;
    UserRulesExact(env, s, d, user);
  }

  /** With direct dependencies at n it counts for nothing. */
  lemma ImplyIgnored(env: Env, s: Symbol, d: SymDef, user: Option<Value>)
    requires EvalCondition(env, d.dirDep) == NO
    ensures Calc(env, s, d, user) == Calc(env, s, d.(implied := None), user)
    ensures Written(env, s, d) <==> Written(env, s, d.(implied := None))
  {
    hide PromptMax, Eval, FirstDefault, FirstRange, Clamp;
  }

  /** Where the user does not rule, and nothing selects or implies: the default in force, limited by its condition. */
  lemma DefaultAlone(env: Env, s: Symbol, d: SymDef, user: Option<Value>, i: nat)
    requires Logical(s) && !UserRules(env, d, user) && d.revDep.None? && d.implied.None? && InForce(env, d.defaults, i)
    ensures var p := d.defaults[i];
            Calc(env, s, d, user).tri == Promoted(env, s, And(Eval(env, p.value), EvalCondition(env, p.cond)))
  {
    hide PromptMax, Eval, FirstDefault, EvalCondition;
    FirstInForce(env, d.defaults, i);
    UserRulesExact(env, s, d, user);
  }

  /** With no default in force nothing is left but n. */
  lemma NothingGiven(env: Env, s: Symbol, d: SymDef, user: Option<Value>)
    requires Logical(s) && !UserRules(env, d, user) && d.revDep.None? && d.implied.None? && NoneInForce(env, d.defaults)
    ensures Calc(env, s, d, user).tri == NO
  {
    hide PromptMax, Eval, FirstDefault, EvalCondition;
    NothingInForce(env, d.defaults);
    UserRulesExact(env, s, d, user);
  }

  /** Where the user rules: his value, limited by the largest of the prompt conditions; defaults count for nothing. */
  lemma UserAlone(env: Env, s: Symbol, d: SymDef, user: Option<Value>, t: Tristate)
    requires Logical(s) && UserRules(env, d, user) && d.revDep.None? && d.implied.None? && Largest(env, d.prompts, t)
    ensures Calc(env, s, d, user).tri == Promoted(env, s, And(user.value.tri, Promoted(env, s, t)))
  {
    hide PromptMax, Eval, FirstDefault, EvalCondition;
    PromptsLargest(env, d.prompts);
    LargestUnique(env, d.prompts, t, PromptMax(env, d.prompts));
    UserRulesExact(env, s, d, user);
  }

  /** What else gives a symbol a value adds to what is selected, and nothing more is given. */
  lemma NothingMore(env: Env, s: Symbol, d: SymDef, user: Option<Value>)
    requires Logical(s)
    ensures var own := Calc(env, s, d.(revDep := None, implied := None), user).tri;
            var implied := if UserRules(env, d, user) || EvalCondition(env, d.dirDep) == NO then NO
                           else Given(env, d.implied);
            Calc(env, s, d, user).tri <= Or(Or(own, implied), Given(env, d.revDep))
            || (Calc(env, s, d, user).tri == YES && Or(Or(own, implied), Given(env, d.revDep)) == MOD)
  {
    hide PromptMax, Eval, FirstDefault;
    UserRulesExact(env, s, d, user);
  }

  /** The text of a symbol that is a string or a number, before its range: the user's or that of its default. */
  lemma TextGiven(env: Env, s: Symbol, d: SymDef, user: Option<Value>)
    requires s.ty.String? || ((s.ty.Int? || s.ty.Hex?) && d.ranges == [])
    ensures UserRules(env, d, user) ==> Calc(env, s, d, user) == Value(NO, user.value.str)
    ensures !UserRules(env, d, user) && NoneInForce(env, d.defaults) ==> Calc(env, s, d, user) == Value(NO, "")
    ensures forall i: nat :: !UserRules(env, d, user) && InForce(env, d.defaults, i) && d.defaults[i].value.Sym? ==>
              Calc(env, s, d, user) == Value(NO, env.val(d.defaults[i].value.s).str)
  {
    hide PromptMax, Eval, FirstDefault, EvalCondition;
    UserRulesExact(env, s, d, user);
    if NoneInForce(env, d.defaults) {
      NothingInForce(env, d.defaults);
    }
    forall i: nat | InForce(env, d.defaults, i) ensures FirstDefault(env, d.defaults) == Some(d.defaults[i]) {
      FirstInForce(env, d.defaults, i);
    }
  }

  /** The range in force: the first one whose condition is not n. */
  ghost predicate RangeInForce(env: Env, rs: seq<Range>, i: nat) {
    && i < |rs| && EvalCondition(env, rs[i].cond) != NO
    && forall j :: 0 <= j < i ==> EvalCondition(env, rs[j].cond) == NO
  }

  lemma {:induction false} FirstRangeInForce(env: Env, rs: seq<Range>, i: nat)
    requires RangeInForce(env, rs, i)
    ensures FirstRange(env, rs) == Some(rs[i])
  {
    hide EvalCondition;
    if i > 0 {
      FirstRangeInForce(env, rs[1..], i - 1);
    }
  }

  /** A bound read as a number: in the base of its own type, and in that of the symbol if it has none. */
  function BoundOf(env: Env, s: Symbol, b: Symbol): int {
    StrToLL(env.val(b).str, if b.ty.Int? then 10 else if b.ty.Hex? then 16 else if s.ty.Int? then 10 else 16)
  }

  /** A number within the range in force stays; one outside becomes the bound that it violates, the lower one first. */
  lemma RangeHolds(env: Env, s: Symbol, d: SymDef, user: Option<Value>, i: nat)
    requires (s.ty.Int? || s.ty.Hex?) && RangeInForce(env, d.ranges, i)
    ensures var own := Calc(env, s, d.(ranges := []), user).str;
            var n := StrToLL(own, if s.ty.Int? then 10 else 16);
            var lo, hi := BoundOf(env, s, d.ranges[i].lo), BoundOf(env, s, d.ranges[i].hi);
            var v := Calc(env, s, d, user).str;
            && (lo <= n <= hi ==> v == own)
            && (n < lo ==> v == if s.ty.Int? then FormatInt(lo) else "0x" + FormatHex(lo))
            && (lo <= n && hi < n ==> v == if s.ty.Int? then FormatInt(hi) else "0x" + FormatHex(hi))
  {
    hide PromptMax, Eval, FirstDefault, FirstRange, EvalCondition, StrToLL, FormatInt, FormatHex;
    FirstRangeInForce(env, d.ranges, i);
    NoRange(env);
  }

  lemma NoRange(env: Env)
    ensures FirstRange(env, []) == None
  {
  }

  /** In decimal the value is then a number in the range, if that is not empty. */
  lemma WithinRange(env: Env, s: Symbol, d: SymDef, user: Option<Value>, i: nat)
    requires s.ty.Int? && RangeInForce(env, d.ranges, i)
    requires BoundOf(env, s, d.ranges[i].lo) <= BoundOf(env, s, d.ranges[i].hi)
    ensures BoundOf(env, s, d.ranges[i].lo) <= StrToLL(Calc(env, s, d, user).str, 10) <= BoundOf(env, s, d.ranges[i].hi)
  {
    hide Calc, StrToLL, FormatInt, FormatHex;
    RangeHolds(env, s, d, user, i);
    InSixtyFour(env.val(d.ranges[i].lo).str, if d.ranges[i].lo.ty.Hex? then 16 else 10);
    InSixtyFour(env.val(d.ranges[i].hi).str, if d.ranges[i].hi.ty.Hex? then 16 else 10);
    DecimalRoundTrip(BoundOf(env, s, d.ranges[i].lo));
    DecimalRoundTrip(BoundOf(env, s, d.ranges[i].hi));
  }

  lemma InSixtyFour(str: string, base: nat)
    ensures LLONG_MIN <= StrToLL(str, base) <= LLONG_MAX
  {
  }

  /** conf_write writes what shows, and what has a value of its own though hidden; never a symbol that is AUTO. */
  lemma WrittenExact(env: Env, s: Symbol, d: SymDef)
    requires Logical(s)
    ensures Written(env, s, d)
            <==> !d.auto && ((exists c :: c in d.prompts && EvalCondition(env, c) != NO)
                             || Given(env, d.revDep) != NO
                             || (EvalCondition(env, d.dirDep) != NO && Given(env, d.implied) != NO)
                             || exists i: nat :: InForce(env, d.defaults, i) && Eval(env, d.defaults[i].value) != NO)
  {
    hide PromptMax, Eval, FirstDefault, EvalCondition;
    UserRulesExact(env, s, d, Some(Value(NO, "")));
    DefaultFound(env, d.defaults);
    ConditionValue(env, d.dirDep);
    forall i: nat | InForce(env, d.defaults, i) ensures FirstDefault(env, d.defaults) == Some(d.defaults[i]) {
      FirstInForce(env, d.defaults, i);
    }
  }

  lemma ConditionValue(env: Env, c: Condition)
    ensures EvalCondition(env, c) == if c.None? then YES else Eval(env, c.value)
  {
  }

  lemma {:induction false} DefaultFound(env: Env, ds: seq<Default>)
    ensures var p := FirstDefault(env, ds);
            if p.None? then NoneInForce(env, ds) else exists i: nat :: InForce(env, ds, i) && ds[i] == p.value
  {
    hide EvalCondition;
    if ds != [] {
      DefaultFound(env, ds[1..]);
      if EvalCondition(env, ds[0].cond) != NO {
        assert InForce(env, ds, 0);
      } else {
        assert ds == [ds[0]] + ds[1..];
        if FirstDefault(env, ds[1..]).Some? {
          var i: nat :| InForce(env, ds[1..], i) && ds[1..][i] == FirstDefault(env, ds[1..]).value;
          assert forall j :: 0 < j <= i ==> ds[j] == ds[1..][j - 1];
          assert InForce(env, ds, i + 1) && ds[i + 1] == ds[1..][i];
        }
      }
    }
  }

  /** The same for strings and numbers, which have a value of their own if a symbol is their default. */
  lemma TextWrittenExact(env: Env, s: Symbol, d: SymDef)
    requires s.ty.String? || s.ty.Int? || s.ty.Hex?
    ensures Written(env, s, d)
            <==> !d.auto && ((exists c :: c in d.prompts && EvalCondition(env, c) != NO)
                             || exists i: nat :: InForce(env, d.defaults, i) && d.defaults[i].value.Sym?)
  {
    hide PromptMax, Eval, FirstDefault, EvalCondition;
    UserRulesExact(env, s, d, Some(Value(NO, "")));
    DefaultFound(env, d.defaults);
    forall i: nat | InForce(env, d.defaults, i) ensures FirstDefault(env, d.defaults) == Some(d.defaults[i]) {
      FirstInForce(env, d.defaults, i);
    }
  }
}
