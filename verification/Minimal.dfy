/**
  What a minimal configuration leaves out (conf_write_defconfig in confdata.c): values that evaluation would
  give without the user, symbols that the user cannot change, and the member a choice has by default.
 */
module Minimal {
  import opened Options
  import opened Tristates
  import opened Exprs
  import opened Submenu
  import opened Semantics
  import opened GroupedSemantics
  import opened Values
  import opened DotConfig
  import opened Defconfig
  import opened Grouped
  import Choices

  /** A prompt reaches higher than what selects the symbol. */
  ghost predicate PromptExceeds(env: Env, s: Symbol, d: SymDef) {
    exists c :: c in d.prompts && Promoted(env, s, EvalCondition(env, c)) > Promoted(env, s, Given(env, d.revDep))
  }

  lemma ChangeableExact(env: Env, s: Symbol, d: SymDef)
    requires Logical(s)
    ensures Changeable(env, s, d) <==> PromptExceeds(env, s, d)
  {
    hide EvalCondition, PromptMax, Eval;
    PromptsLargest(env, d.prompts);
    var t := PromptMax(env, d.prompts);
    if Changeable(env, s, d) {
      assert t != NO;
      var c :| c in d.prompts && EvalCondition(env, c) == t;
    }
  }

  /** A bool or tristate is written exactly if the user can change it and it would be another value without him. */
  lemma LogicalSaved(env: Env, s: Symbol, d: SymDef, user: Option<Value>)
    requires Logical(s) && env.val(s) == Calc(env, s, d, user)
    ensures Saves(env, s, d)
            <==> !d.auto && PromptExceeds(env, s, d) && env.val(s).tri != Calc(env, s, d, None).tri
  {
    hide PromptMax, Eval, DefaultTri, PromptExceeds;
    ChangeableExact(env, s, d);
    TriNameInjective(env.val(s).tri, Calc(env, s, d, None).tri);
  }

  /** A string or number exactly if it shows and its text is another than that of its default, out of range or not. */
  lemma TextSavedMinimal(env: Env, s: Symbol, d: SymDef)
    requires s.ty.String? || s.ty.Int? || s.ty.Hex?
    ensures Saves(env, s, d)
            <==> !d.auto && (exists c :: c in d.prompts && EvalCondition(env, c) != NO)
                 && Given(env, d.revDep) != YES
                 && env.val(s).str != Calc(env, s, d.(ranges := []), None).str
  {
    hide EvalCondition, PromptMax, Eval, FirstDefault;
    PromptsLargest(env, d.prompts);
    ShownAndChangeable(env, s, d);
  }

  lemma ShownAndChangeable(env: Env, s: Symbol, d: SymDef)
    requires s.ty.String? || s.ty.Int? || s.ty.Hex?
    ensures Visible(env, s, d) == if PromptMax(env, d.prompts) == NO then NO else YES
    ensures RevDep(env, s, d) == Given(env, d.revDep) && FirstRange(env, []) == None
  {
    hide EvalCondition, PromptMax, Eval;
    var t := PromptMax(env, d.prompts);
    assert t == NO || t == MOD || t == YES;
  }

  /**
    A member of a choice that shows and is not AUTO is written if its choice settled on it other than by default,
    or if it is n where a default of its own would be y.
   */
  lemma MemberSavedMinimal(env: Env, defs: Defs, gs: Groups, users: Users, picks: Picks, m: Symbol)
    requires WellGrouped(defs, gs) && GoodPicks(gs, picks) && GroupedSolves(env, defs, gs, users, picks)
    requires m in gs.choice
    ensures MemberSaves(env, defs, gs, m)
            <==> !defs[m].auto && MemberShown(env, defs, gs, m)
                 && if Settles(env, defs, gs, picks, gs.choice[m]) == Some(m)
                    then OwnDefault(env, defs[m]) == NO && SettlesByDefault(env, defs, gs, gs.choice[m]) != Some(m)
                    else OwnDefault(env, defs[m]) == YES
  {
    hide Settles, SettlesByDefault, MemberShown, DefaultTri, Choices.Proper;
    assert env.val(m) == GroupedValue(env, defs, gs, users, picks, m);
    TriNameInjective(env.val(m).tri, OwnDefault(env, defs[m]));
  }
}
