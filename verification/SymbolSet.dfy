/** Setting and toggling bool and tristate symbols, and evaluating all of a
    configuration that has been checked for cycles. */
module SymbolSet {
  import opened Tristates
  import opened Exprs
  import opened Options
  import opened Comparing
  import opened SymbolTable
  import opened SymbolEval
  import opened SymbolCheck

  /** Check first, then ask for any symbols in any order. */
  method CheckAndEvaluate(k: Kconfig, user: UserValues, symbols: seq<Symbol>, asked: seq<Symbol>)
    returns (reports: nat, outcomes: seq<Outcome>)
    requires forall s | s in k.decls :: s in symbols
    requires Closed(k) && DirDepsCovered(k) && forall s | s in asked :: Declared(k, s)
    ensures reports == 0 <==> Acyclic(k)
    ensures |outcomes| == |asked|
    ensures forall rank: Symbol -> nat, i | Ranked(k, rank) && 0 <= i < |asked| ::
              outcomes[i] == Meaning(k, user, rank, asked[i])
  {
    hide Closed, DirDepsCovered, Ranked, Meaning;
    var errors;
    reports, errors := CheckAll(k, symbols);
    ghost var rank: Symbol -> nat;
    if Acyclic(k) {
      rank :| Ranked(k, rank);
    } else {
      rank := s => 0;
    }
    var e := new Evaluator(k, user);
    outcomes := [];
    for i := 0 to |asked|
      invariant fresh(e) && e.k == k && e.user == user && e.Intact()
      invariant Ranked(k, rank) ==> e.Done(rank, {})
      invariant |outcomes| == i
      invariant Ranked(k, rank) ==> forall j | 0 <= j < i :: outcomes[j] == Meaning(k, user, rank, asked[j])
    {
      e.Ask(asked[i], rank);
      outcomes := outcomes + [Lookup(e.state, asked[i])];
    }
    forall r: Symbol -> nat, i | Ranked(k, r) && 0 <= i < |asked|
      ensures outcomes[i] == Meaning(k, user, r, asked[i])
    {
      assert Acyclic(k);
      MeaningUnique(k, user, r, rank, asked[i]);
    }
  }

  // User values

  ghost predicate SameBelow(u1: UserValues, u2: UserValues, rank: Symbol -> nat, n: nat) {
    forall t | rank(t) < n :: (t in u1 <==> t in u2) && (t in u1 ==> u1[t] == u2[t])
  }

  /** A symbol does not depend on the user values of symbols above it. */
  lemma {:induction false} MeaningBelow(k: Kconfig, u1: UserValues, u2: UserValues, rank: Symbol -> nat, n: nat, s: Symbol)
    requires Ranked(k, rank) && DirDepsCovered(k) && SameBelow(u1, u2, rank, n) && rank(s) < n
    ensures Meaning(k, u1, rank, s) == Meaning(k, u2, rank, s)
    decreases rank(s)
  {
    hide Visible, DirDep, RevDep, TristateDefault, DefaultSymbol, HasDefault, RawValue;
    var e1, e2 := MeaningEnv(k, u1, rank), MeaningEnv(k, u2, rank);
    forall t | t in Edges(k, s) ensures e1.tri(t) == e2.tri(t) && e1.str(t) == e2.str(t) {
      MeaningBelow(k, u1, u2, rank, n, t);
    }
    MeaningEquation(k, u1, rank, s);
    MeaningEquation(k, u2, rank, s);
    OutcomeAgree(k, u1, e1, e2, s);
  }

  /** sym_tristate_within_range. */
  predicate Accepts(k: Kconfig, s: Symbol, o: Outcome, val: Tristate) {
    && o.visible != NO
    && s.HasTristate()
    && !(EffectiveType(k, s) == Boolean && val == MOD)
    && o.visible > o.revDep
    && o.revDep <= val <= o.visible
  }

  function WithTristate(user: UserValues, s: Symbol, val: Tristate): UserValues {
    user[s := UserValue(val, if s in user then user[s].val else "")]
  }

  /** Setting a symbol changes nothing it is made of. */
  lemma SettingKeepsParts(k: Kconfig, user: UserValues, rank: Symbol -> nat, s: Symbol, v: UserValue)
    requires Ranked(k, rank) && DirDepsCovered(k) && s in k.decls
    ensures var e, e' := MeaningEnv(k, user, rank), MeaningEnv(k, user[s := v], rank);
            Agree(e, e', Edges(k, s))
  {
    hide Meaning;
    var user' := user[s := v];
    forall t | t in Edges(k, s) ensures Meaning(k, user, rank, t) == Meaning(k, user', rank, t) {
      MeaningBelow(k, user, user', rank, rank(s), t);
    }
  }

  /** What a symbol evaluates to once `val` is its user value. */
  lemma SetMeaning(k: Kconfig, user: UserValues, rank: Symbol -> nat, s: Symbol, val: Tristate)
    requires Ranked(k, rank) && DirDepsCovered(k) && s in k.decls && s.Config? && s.HasTristate()
    ensures var o, o' := Meaning(k, user, rank, s), Meaning(k, WithTristate(user, s, val), rank, s);
            && o'.visible == o.visible && o'.revDep == o.revDep
            && (o.visible != NO ==> o'.tri == Promote(k, s, Max(Min(val, o.visible), o.revDep)))
            && (o.visible == NO ==> o'.tri == o.tri)
  {
    hide Visible, DirDep, RevDep, TristateDefault, DefaultSymbol, HasDefault, Meaning, Edges;
    var user' := WithTristate(user, s, val);
    var e, e' := MeaningEnv(k, user, rank), MeaningEnv(k, user', rank);
    SettingKeepsParts(k, user, rank, s, user'[s]);
    PartsAgree(k, e, e', s);
    MeaningEquation(k, user, rank, s);
    MeaningEquation(k, user', rank, s);
  }

  /** A symbol that is not more visible than it is selected accepts nothing, and of any
      other the accepted values are exactly those it takes on when they are set. */
  lemma AcceptedExactly(k: Kconfig, user: UserValues, rank: Symbol -> nat, s: Symbol, val: Tristate)
    requires Ranked(k, rank) && DirDepsCovered(k) && s in k.decls && s.Config? && s.HasTristate()
    ensures var o := Meaning(k, user, rank, s);
            Accepts(k, s, o, val) <==> o.visible > o.revDep && Meaning(k, WithTristate(user, s, val), rank, s).tri == val
  {
    hide Meaning;
    SetMeaning(k, user, rank, s, val);
    VisibilityOfBool(k, user, rank, s);
  }

  /** Neither visibility nor selects of a bool symbol are ever m. */
  lemma VisibilityOfBool(k: Kconfig, user: UserValues, rank: Symbol -> nat, s: Symbol)
    requires Ranked(k, rank) && DirDepsCovered(k) && s.Config? && s.HasTristate()
    ensures var o := Meaning(k, user, rank, s);
            EffectiveType(k, s) == Boolean ==> o.visible != MOD && o.revDep != MOD && o.tri != MOD
    ensures Meaning(k, user, rank, s).tri >= Meaning(k, user, rank, s).revDep
  {
    hide PromptVisibility, EvalOption, Eval, TristateDefault, DefaultSymbol, HasDefault, Meaning;
    MeaningEquation(k, user, rank, s);
  }

  /** sym_set_tristate_value also accepts the value a symbol has, whatever the
      range says. That value then survives the next evaluation if and only if the
      symbol is invisible or the value exceeds neither visibility nor selects. */
  lemma SettingTheSameValue(k: Kconfig, user: UserValues, rank: Symbol -> nat, s: Symbol)
    requires Ranked(k, rank) && DirDepsCovered(k) && s in k.decls && s.Config? && s.HasTristate()
    ensures var o := Meaning(k, user, rank, s);
            Meaning(k, WithTristate(user, s, o.tri), rank, s).tri == o.tri
            <==> o.visible == NO || o.tri <= Max(o.visible, o.revDep)
  {
    hide Meaning;
    SetMeaning(k, user, rank, s, Meaning(k, user, rank, s).tri);
    VisibilityOfBool(k, user, rank, s);
  }

  /** An input where it does not: y by default, and visible with a tristate at m. */
  lemma SameValueChanges(s: Symbol, t: Symbol)
    requires s.Type() == Tri && t.Type() == Tri && s != t
    ensures var k, user := ModuleExample(s, t, None), map[t := UserValue(MOD, "")];
            var rank := (x: Symbol) => if x == s then 2 else if x == t then 1 else 0;
            && Ranked(k, rank) && DirDepsCovered(k)
            && Meaning(k, user, rank, s).tri == YES
            && Meaning(k, WithTristate(user, s, YES), rank, s).tri == MOD
  {
    hide Meaning, Edges;
    var k, user := ModuleExample(s, t, None), map[t := UserValue(MOD, "")];
    var rank := (x: Symbol) => if x == s then 2 else if x == t then 1 else 0;
    ModuleExampleEdges(s, t, None);
    ModuleExampleMeaning(s, t, None, user, rank);
    ModuleExampleMeaning(s, t, None, WithTristate(user, s, YES), rank);
  }

  /** sym_set_tristate_value on an evaluated symbol. */
  method SetTristateValue(e: Evaluator, s: Symbol, val: Tristate, ghost rank: Symbol -> nat) returns (ok: bool)
    requires e.Intact() && s in e.valid && s.Config? && s in e.k.decls
    requires Ranked(e.k, rank) ==> e.Done(rank, {})
    modifies e
    ensures e.Intact() && (Ranked(e.k, rank) ==> e.Done(rank, {}) || old(Lookup(e.state, s)).tri == val)
    ensures var o := old(Lookup(e.state, s));
            && ok == (o.tri == val || Accepts(e.k, s, o, val))
            && e.user == (if ok then WithTristate(old(e.user), s, val) else old(e.user))
            && e.state == old(e.state)
            && e.valid == if ok && o.tri != val then {Yes, Mod, No} else old(e.valid)
  {
    hide Meaning, Ranked;
    var o := Lookup(e.state, s);
    ok := o.tri == val || Accepts(e.k, s, o, val);
    if ok {
      var user := WithTristate(e.user, s, val);
      if o.tri != val {
        e.SetUser(s, user[s]);
      } else {
        e.user := user;
      }
    }
  }

  // Toggling

  function Next(t: Tristate): Tristate {
    if t == NO then MOD else if t == MOD then YES else NO
  }

  /** The first value after `t`, cyclically, that is accepted or `t` itself. */
  function Toggled(k: Kconfig, s: Symbol, o: Outcome, t: Tristate): Tristate {
    if Accepts(k, s, o, Next(t)) then Next(t)
    else if Accepts(k, s, o, Next(Next(t))) then Next(Next(t))
    else t
  }

  /** Toggling goes up to the next accepted value, and from the last one back to the
      first; with no other accepted it goes nowhere. */
  lemma ToggledUpwards(k: Kconfig, s: Symbol, o: Outcome, t: Tristate)
    ensures var next := Toggled(k, s, o, t);
            if exists v: Tristate :: v > t && Accepts(k, s, o, v) then
              next > t && Accepts(k, s, o, next) && forall v: Tristate | t < v < next :: !Accepts(k, s, o, v)
            else if exists v: Tristate :: v < t && Accepts(k, s, o, v) then
              Accepts(k, s, o, next) && forall v: Tristate | Accepts(k, s, o, v) :: next <= v
            else next == t
  {
    hide Accepts;
    assert Accepts(k, s, o, NO) || Accepts(k, s, o, MOD) || Accepts(k, s, o, YES) || !exists v: Tristate :: Accepts(k, s, o, v);
  }

  /** sym_toggle_tristate_value. */
  method ToggleTristateValue(e: Evaluator, s: Symbol, ghost rank: Symbol -> nat) returns (val: Tristate)
    requires e.Intact() && s in e.valid && s.Config? && s in e.k.decls
    requires Ranked(e.k, rank) ==> e.Done(rank, {})
    modifies e
    ensures e.Intact()
    ensures var o := old(Lookup(e.state, s));
            && val == Toggled(e.k, s, o, o.tri)
            && e.user == WithTristate(old(e.user), s, val)
            && (Ranked(e.k, rank) && val != o.tri ==> e.Done(rank, {}))
  {
    hide Meaning, Ranked;
    var oldval := Lookup(e.state, s).tri;
    val := oldval;
    ghost var steps := 0;
    var again := true;
    while again
      invariant again
      invariant e.Intact() && s in e.valid && e.state == old(e.state) && e.user == old(e.user)
      invariant Ranked(e.k, rank) ==> e.Done(rank, {})
      invariant 0 <= steps <= 2
      invariant val == if steps == 0 then oldval else if steps == 1 then Next(oldval) else Next(Next(oldval))
      invariant var o := old(Lookup(e.state, s));
                && (steps > 0 ==> !Accepts(e.k, s, o, Next(oldval)))
                && (steps > 1 ==> !Accepts(e.k, s, o, Next(Next(oldval))))
      decreases 3 - steps
    {
      val := Next(val);
      var ok := SetTristateValue(e, s, val, rank);
      if ok {
        return;
      }
      steps := steps + 1;
      again := oldval != val;
    }
  }

  /** Toggling an accepted value again and again visits the accepted values, all
      of them and no other; which they are does not change meanwhile. */
  lemma TogglingCycles(k: Kconfig, s: Symbol, o: Outcome, t: Tristate)
    requires Accepts(k, s, o, t)
    ensures var t1 := Toggled(k, s, o, t);
            var t2 := Toggled(k, s, o, t1);
            var t3 := Toggled(k, s, o, t2);
            forall v: Tristate :: v == t1 || v == t2 || v == t3 <==> Accepts(k, s, o, v)
  {
    hide EffectiveType;
  }

  lemma AcceptedStays(k: Kconfig, user: UserValues, rank: Symbol -> nat, s: Symbol, val: Tristate, v: Tristate)
    requires Ranked(k, rank) && DirDepsCovered(k) && s in k.decls && s.Config? && s.HasTristate()
    ensures Accepts(k, s, Meaning(k, user, rank, s), v)
            <==> Accepts(k, s, Meaning(k, WithTristate(user, s, val), rank, s), v)
  {
    hide Meaning;
    SetMeaning(k, user, rank, s, val);
  }

  ghost predicate Changeable(k: Kconfig, user: UserValues, rank: Symbol -> nat, s: Symbol) {
    var o := Meaning(k, user, rank, s);
    s in k.decls && s.Config? && s.HasTristate() && o.visible > o.revDep
  }

  /** A changeable symbol has a next value, which it takes on and stays changeable with. */
  lemma ToggledMeaning(k: Kconfig, user: UserValues, rank: Symbol -> nat, s: Symbol)
    requires Ranked(k, rank) && DirDepsCovered(k) && Changeable(k, user, rank, s)
    ensures var o := Meaning(k, user, rank, s);
            var t := Toggled(k, s, o, o.tri);
            var user' := WithTristate(user, s, t);
            && t != o.tri && Accepts(k, s, o, t)
            && Changeable(k, user', rank, s) && Meaning(k, user', rank, s).tri == t
            && forall v: Tristate :: Accepts(k, s, Meaning(k, user', rank, s), v) <==> Accepts(k, s, o, v)
  {
    hide Meaning, Ranked, DirDepsCovered;
    var o := Meaning(k, user, rank, s);
    VisibilityOfBool(k, user, rank, s);
    var t := Toggled(k, s, o, o.tri);
    assert t != o.tri && Accepts(k, s, o, t);
    SetMeaning(k, user, rank, s, t);
    AcceptedExactly(k, user, rank, s, t);
  }

  /** One toggle and one evaluation. */
  method ToggleAndAsk(e: Evaluator, s: Symbol, ghost rank: Symbol -> nat) returns (t: Tristate)
    requires e.Intact() && s in e.valid && Closed(e.k) && DirDepsCovered(e.k) && Ranked(e.k, rank) && e.Done(rank, {})
    requires Changeable(e.k, e.user, rank, s)
    modifies e
    ensures e.Intact() && s in e.valid && e.Done(rank, {}) && Changeable(e.k, e.user, rank, s)
    ensures var o := Meaning(e.k, old(e.user), rank, s);
            && t == Toggled(e.k, s, o, o.tri) && Meaning(e.k, e.user, rank, s).tri == t
            && forall v: Tristate :: Accepts(e.k, s, Meaning(e.k, e.user, rank, s), v) <==> Accepts(e.k, s, o, v)
  {
    hide Meaning, Closed, DirDepsCovered, Ranked, Toggled, Accepts;
    ToggledMeaning(e.k, e.user, rank, s);
    var val := ToggleTristateValue(e, s, rank);
    e.Ask(s, rank);
    t := Lookup(e.state, s).tri;
  }

  /** Toggled and evaluated three times, a changeable symbol has shown exactly the
      values that could be set to begin with. */
  method ToggleAround(e: Evaluator, s: Symbol, ghost rank: Symbol -> nat) returns (shown: set<Tristate>)
    requires e.Intact() && s in e.valid && Closed(e.k) && DirDepsCovered(e.k) && Ranked(e.k, rank) && e.Done(rank, {})
    requires Changeable(e.k, e.user, rank, s)
    modifies e
    ensures forall v: Tristate :: v in shown <==> Accepts(e.k, s, Meaning(e.k, old(e.user), rank, s), v)
  {
    hide Meaning, Closed, DirDepsCovered, Ranked, Toggled, Accepts;
    ghost var o := Meaning(e.k, e.user, rank, s);
    ToggledMeaning(e.k, e.user, rank, s);
    var t1 := ToggleAndAsk(e, s, rank);
    ghost var o1 := Meaning(e.k, e.user, rank, s);
    var t2 := ToggleAndAsk(e, s, rank);
    ghost var o2 := Meaning(e.k, e.user, rank, s);
    var t3 := ToggleAndAsk(e, s, rank);
    shown := {t1, t2, t3};
    ThreeToggles(e.k, s, o, o1, o2);
  }

  /** Evaluation in between does not disturb the cycle. */
  lemma ThreeToggles(k: Kconfig, s: Symbol, o: Outcome, o1: Outcome, o2: Outcome)
    requires Accepts(k, s, o, o1.tri)
    requires o1.tri == Toggled(k, s, o, o.tri) && o2.tri == Toggled(k, s, o1, o1.tri)
    requires forall v: Tristate :: Accepts(k, s, o1, v) <==> Accepts(k, s, o, v)
    requires forall v: Tristate :: Accepts(k, s, o2, v) <==> Accepts(k, s, o, v)
    ensures forall v: Tristate :: v in {o1.tri, o2.tri, Toggled(k, s, o2, o2.tri)} <==> Accepts(k, s, o, v)
  {
    hide EffectiveType;
    var t1, t2, t3 := o1.tri, o2.tri, Toggled(k, s, o2, o2.tri);
    forall v: Tristate ensures v in {t1, t2, t3} <==> Accepts(k, s, o, v) {
      assert Accepts(k, s, o1, v) <==> Accepts(k, s, o, v);
    }
  }
}
