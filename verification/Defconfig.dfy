/** conf_write_defconfig: the user values that are worth keeping. */
module Defconfig {
  import opened Tristates
  import opened Exprs
  import opened Options
  import opened Comparing
  import opened SymbolTable
  import opened SymbolEval
  import opened SymbolSet

  /** sym_get_string_default: the value without the user's say. */
  function StringDefault(k: Kconfig, s: Symbol, env: Env): string {
    if s.HasTristate() then
      var val := Max(TristateDefault(k, s, env), RevDep(k, s, env));
      TristateName(if val == MOD && (k.modules == NO || s.Type() == Boolean) then YES else val)
    else
      var d := DefaultSymbol(k, s, env);
      if d.Some? then RawValue(d.value, env) else ""
  }

  /** Whether conf_write_defconfig writes a line for the symbol. */
  predicate Written(k: Kconfig, s: Symbol, o: Outcome, env: Env) {
    && o.write
    && o.visible > o.revDep
    && StringValue(k, s, o) != StringDefault(k, s, env)
  }

  /** Reading the line back. */
  function ReadBack(s: Symbol, o: Outcome): UserValue {
    UserValue(o.tri, o.val)
  }

  predicate Typed(s: Symbol) {
    s.Config? && s.kind != Unknown
  }

  /** The user values of the minimal configuration. */
  ghost function Minimal(k: Kconfig, user: UserValues, rank: Symbol -> nat): UserValues {
    map s | s in k.decls && Typed(s) && Written(k, s, Meaning(k, user, rank, s), MeaningEnv(k, user, rank))
      :: ReadBack(s, Meaning(k, user, rank, s))
  }

  /** The user has set the symbol, its value is not the default, but it cannot be
      changed (or comes from the environment) and so is not written. */
  ghost predicate Pinned(k: Kconfig, user: UserValues, rank: Symbol -> nat, s: Symbol) {
    var o := Meaning(k, user, rank, s);
    && s in k.decls && Typed(s) && s in user && o.visible != NO
    && (o.visible <= o.revDep || k.decls[s].auto)
    && StringValue(k, s, o) != StringDefault(k, s, MeaningEnv(k, user, rank))
  }

  /** One symbol, everything it depends on being reproduced. */
  lemma SymbolRoundTrip(k: Kconfig, user: UserValues, env: Env, s: Symbol, user': UserValues)
    requires WellFormed(env) && s in k.decls && Typed(s)
    requires var o := OutcomeIn(k, user, env, s);
             && (s in user' <==> Written(k, s, o, env))
             && (s in user' ==> user'[s] == ReadBack(s, o))
    ensures var o := OutcomeIn(k, user, env, s);
            (OutcomeIn(k, user', env, s) == o
             <==> !(s in user && o.visible != NO && (o.visible <= o.revDep || k.decls[s].auto)
                    && StringValue(k, s, o) != StringDefault(k, s, env)))
  {
    hide PromptVisibility, Eval, EvalOption, DefaultProperty, TristateDefault, DefaultSymbol, HasDefault, RawValue, DirDep;
    NamesAreInjective(OutcomeIn(k, user, env, s).tri, Promote(k, s, Max(TristateDefault(k, s, env), RevDep(k, s, env))));
  }

  lemma {:induction false} MinimalMeaning(k: Kconfig, user: UserValues, rank: Symbol -> nat, s: Symbol)
    requires Ranked(k, rank) && DirDepsCovered(k) && Closed(k) && Declared(k, s)
    requires forall t | t in k.decls :: !Pinned(k, user, rank, t)
    ensures Meaning(k, Minimal(k, user, rank), rank, s) == Meaning(k, user, rank, s)
    decreases rank(s)
  {
    hide Visible, DirDep, RevDep, TristateDefault, DefaultSymbol, HasDefault, Meaning, Edges, Written, Ranked;
    var user' := Minimal(k, user, rank);
    if Typed(s) {
      var e, e' := MeaningEnv(k, user, rank), MeaningEnv(k, user', rank);
      BelowSelf(k, rank, s);
      forall t | t in Edges(k, s) ensures Meaning(k, user', rank, t) == Meaning(k, user, rank, t) {
        MinimalMeaning(k, user, rank, t);
      }
      MeaningEquation(k, user, rank, s);
      MeaningEquation(k, user', rank, s);
      OutcomeAgree(k, user', e, e', s);
      MeaningEnvWellFormed(k, user, rank);
      SymbolRoundTrip(k, user, e, s, user');
    } else {
      MeaningUntyped(k, user, rank, s);
      MeaningUntyped(k, user', rank, s);
    }
  }

  /** Re-evaluating the minimal configuration reproduces every symbol, with value,
      visibility and all, if and only if no user value is pinned. */
  lemma MinimalRoundTrip(k: Kconfig, user: UserValues, rank: Symbol -> nat)
    requires Ranked(k, rank) && DirDepsCovered(k) && Closed(k)
    ensures (forall s | Declared(k, s) :: Meaning(k, Minimal(k, user, rank), rank, s) == Meaning(k, user, rank, s))
            <==> (forall s | s in k.decls :: !Pinned(k, user, rank, s))
  {
    hide Meaning, Ranked, Closed, DirDepsCovered, Pinned;
    var user' := Minimal(k, user, rank);
    if forall s | s in k.decls :: !Pinned(k, user, rank, s) {
      forall s | Declared(k, s) ensures Meaning(k, user', rank, s) == Meaning(k, user, rank, s) {
        MinimalMeaning(k, user, rank, s);
      }
    } else {
      var s :| s in k.decls && Pinned(k, user, rank, s);
      if forall t | Declared(k, t) :: Meaning(k, user', rank, t) == Meaning(k, user, rank, t) {
        PinnedIsLost(k, user, rank, s);
      }
    }
  }

  lemma PinnedIsLost(k: Kconfig, user: UserValues, rank: Symbol -> nat, s: Symbol)
    requires Ranked(k, rank) && DirDepsCovered(k) && Closed(k) && Pinned(k, user, rank, s)
    ensures exists t | Declared(k, t) :: Meaning(k, Minimal(k, user, rank), rank, t) != Meaning(k, user, rank, t)
  {
    hide Visible, DirDep, RevDep, TristateDefault, DefaultSymbol, HasDefault, Meaning, Edges, Written;
    var user' := Minimal(k, user, rank);
    if forall t | Declared(k, t) :: Meaning(k, user', rank, t) == Meaning(k, user, rank, t) {
      var e, e' := MeaningEnv(k, user, rank), MeaningEnv(k, user', rank);
      MeaningEquation(k, user, rank, s);
      MeaningEquation(k, user', rank, s);
      assert Agree(e, e', Edges(k, s));
      OutcomeAgree(k, user', e, e', s);
      MeaningEnvWellFormed(k, user, rank);
      SymbolRoundTrip(k, user, e, s, user');
      assert false;
    }
  }

  // Nothing is written that could be left out.

  /** sym_get_string_default is the string value of the symbol once the user has no
      say, whatever the user says of symbols above it. */
  lemma DefaultIsWithoutUser(k: Kconfig, u1: UserValues, u2: UserValues, rank: Symbol -> nat, s: Symbol)
    requires Ranked(k, rank) && DirDepsCovered(k) && s in k.decls && Typed(s) && s !in u2
    requires forall t | t in Edges(k, s) :: Meaning(k, u1, rank, t) == Meaning(k, u2, rank, t)
    ensures StringValue(k, s, Meaning(k, u2, rank, s)) == StringDefault(k, s, MeaningEnv(k, u1, rank))
  {
    hide Visible, DirDep, RevDep, TristateDefault, DefaultSymbol, HasDefault, Meaning, Edges, RawValue;
    var e1, e2 := MeaningEnv(k, u1, rank), MeaningEnv(k, u2, rank);
    assert Agree(e1, e2, Edges(k, s) + FIXED);
    PartsAgree(k, e1, e2, s);
    MeaningEquation(k, u2, rank, s);
    DefaultText(k, u2, e1, e2, s);
  }

  lemma DefaultText(k: Kconfig, user: UserValues, e1: Env, e2: Env, s: Symbol)
    requires s in k.decls && Typed(s) && s !in user
    requires RevDep(k, s, e1) == RevDep(k, s, e2) && TristateDefault(k, s, e1) == TristateDefault(k, s, e2)
    requires var d := DefaultSymbol(k, s, e1);
             d == DefaultSymbol(k, s, e2) && (d.Some? ==> e1.str(d.value) == e2.str(d.value))
    ensures StringValue(k, s, OutcomeIn(k, user, e2, s)) == StringDefault(k, s, e1)
  {
    hide Visible, DirDep, RevDep, TristateDefault, DefaultSymbol, HasDefault;
  }

  lemma WithoutOwnValue(k: Kconfig, user: UserValues, rank: Symbol -> nat, s: Symbol)
    requires Ranked(k, rank) && DirDepsCovered(k) && s in k.decls
    ensures forall t | t in Edges(k, s) :: Meaning(k, user, rank, t) == Meaning(k, user - {s}, rank, t)
  {
    hide Meaning, Edges;
    forall t | t in Edges(k, s) ensures Meaning(k, user, rank, t) == Meaning(k, user - {s}, rank, t) {
      MeaningBelow(k, user, user - {s}, rank, rank(s), t);
    }
  }

  /** The minimal configuration has exactly the symbols that go into the .config, can be
      changed, and would be worth something else without their user value. */
  lemma MinimalExactly(k: Kconfig, user: UserValues, rank: Symbol -> nat, s: Symbol)
    requires Ranked(k, rank) && DirDepsCovered(k) && s in k.decls && Typed(s)
    ensures var o, o' := Meaning(k, user, rank, s), Meaning(k, user - {s}, rank, s);
            s in Minimal(k, user, rank)
            <==> o.write && o.visible > o.revDep && StringValue(k, s, o) != StringValue(k, s, o')
  {
    hide Meaning, Edges, StringDefault, Ranked, DirDepsCovered;
    WithoutOwnValue(k, user, rank, s);
    DefaultIsWithoutUser(k, user, user - {s}, rank, s);
  }

  /** No line of it can be left out: with nothing pinned, so that it reproduces every
      symbol, it does not reproduce a symbol whose line is missing. */
  lemma NoLineToSpare(k: Kconfig, user: UserValues, rank: Symbol -> nat, s: Symbol)
    requires Ranked(k, rank) && DirDepsCovered(k) && Closed(k)
    requires forall t | t in k.decls :: !Pinned(k, user, rank, t)
    requires s in Minimal(k, user, rank)
    ensures StringValue(k, s, Meaning(k, Minimal(k, user, rank) - {s}, rank, s)) != StringValue(k, s, Meaning(k, user, rank, s))
  {
    hide Meaning, Edges, StringDefault, Pinned;
    var m := Minimal(k, user, rank);
    WithoutOwnValue(k, m, rank, s);
    forall t | t in Edges(k, s) ensures Meaning(k, user, rank, t) == Meaning(k, m - {s}, rank, t) {
      MinimalMeaning(k, user, rank, t);
    }
    DefaultIsWithoutUser(k, user, m - {s}, rank, s);
  }

  /** Only a select of value m, a select of a symbol that is no bool or tristate,
      or the environment can pin a user value. */
  lemma PinnedOnlyIf(k: Kconfig, user: UserValues, rank: Symbol -> nat, s: Symbol)
    requires Ranked(k, rank) && DirDepsCovered(k) && Pinned(k, user, rank, s)
    ensures var o := Meaning(k, user, rank, s);
            k.decls[s].auto || (if s.HasTristate() then o.visible == o.revDep == MOD else o.revDep != NO)
  {
    hide PromptVisibility, Eval, EvalOption, DefaultProperty, TristateDefault, DefaultSymbol, HasDefault, RawValue, DirDep, Meaning;
    MeaningEquation(k, user, rank, s);
  }

  /** The outcomes of both symbols of the example, as long as the user has set `t` to m. */
  lemma {:induction false} ModuleExampleWritten(s: Symbol, t: Symbol, user: UserValues, rank: Symbol -> nat)
    requires s.Type() == Tri && t.Type() == Tri && s != t
    requires t in user && user[t].tri == MOD && (s in user ==> user[s].tri != NO)
    requires Ranked(ModuleExample(s, t, Some(Ref(t))), rank)
    ensures var k := ModuleExample(s, t, Some(Ref(t)));
            var env := MeaningEnv(k, user, rank);
            StringDefault(k, s, env) == "y" && Written(k, t, Meaning(k, user, rank, t), env)
  {
    hide Meaning, Ranked;
    var k, env := ModuleExample(s, t, Some(Ref(t))), MeaningEnv(ModuleExample(s, t, Some(Ref(t))), user, rank);
    MeaningEnvWellFormed(k, user, rank);
    ModuleExampleMeaning(s, t, Some(Ref(t)), user, rank);
    ModuleExampleDefaults(s, t, Some(Ref(t)), env);
  }

  /** And a select of value m can: with the selecting symbol and the selected one
      both set to m, the selected one is m, and y when read back. */
  lemma PinnedByModule(s: Symbol, t: Symbol)
    requires s.Type() == Tri && t.Type() == Tri && s != t
    ensures var k, user := ModuleExample(s, t, Some(Ref(t))), map[t := UserValue(MOD, ""), s := UserValue(MOD, "")];
            var rank := (x: Symbol) => if x == s then 2 else if x == t then 1 else 0;
            && Ranked(k, rank) && DirDepsCovered(k)
            && Pinned(k, user, rank, s)
            && Meaning(k, user, rank, s).tri == MOD
            && Meaning(k, Minimal(k, user, rank), rank, s).tri == YES
  {
    hide OutcomeIn, Meaning, Edges, StringDefault, Written;
    var k, user := ModuleExample(s, t, Some(Ref(t))), map[t := UserValue(MOD, ""), s := UserValue(MOD, "")];
    var rank := (x: Symbol) => if x == s then 2 else if x == t then 1 else 0;
    ModuleExampleEdges(s, t, Some(Ref(t)));
    ModuleExampleMeaning(s, t, Some(Ref(t)), user, rank);
    ModuleExampleWritten(s, t, user, rank);
    var user' := Minimal(k, user, rank);
    assert t in user' && user'[t].tri == MOD;
    assert s !in user' by { PinnedUnwritten(k, user, rank, s); }
    ModuleExampleMeaning(s, t, Some(Ref(t)), user', rank);
  }

  lemma PinnedUnwritten(k: Kconfig, user: UserValues, rank: Symbol -> nat, s: Symbol)
    requires var o := Meaning(k, user, rank, s); o.visible <= o.revDep
    ensures s !in Minimal(k, user, rank)
  {
    hide Meaning, StringDefault;
  }

  /** sym_get_string_default. */
  method GetStringDefault(e: Evaluator, s: Symbol, ghost rank: Symbol -> nat) returns (str: string)
    requires s in e.k.decls && Typed(s) && e.Intact()
    requires Ranked(e.k, rank) && e.Ready(rank, rank(s), {}, Edges(e.k, s))
    modifies e
    ensures e.Extends(old(e.user), old(e.valid), old(e.state)) && e.Done(rank, {})
    ensures str == StringDefault(e.k, s, MeaningEnv(e.k, e.user, rank))
  {
    hide Meaning, MeaningEnv, EvalOption, Eval, DefaultProperty;
    var revDep := e.CalcRevDep(s, rank, rank(s), {});
    var p, visible := e.GetDefaultProperty(s, rank, rank(s), {});
    var val := NO;
    str := "";
    if p.Some? {
      if s.HasTristate() {
        var v := e.CalcOption(p.value.expr, rank, rank(s), {});
        val := Min(v, visible);
      } else if PropertySymbol(p.value).Some? {
        var ds := PropertySymbol(p.value).value;
        e.CalcValue(ds, rank, rank(s), {});
        str := Lookup(e.state, ds).val;
        RawValueOf(e.k, e.user, rank, ds);
      }
    }
    val := Max(val, revDep);
    if val == MOD && e.k.modules == NO {
      val := YES;
    }
    if s.Type() == Boolean && val == MOD {
      val := YES;
    }
    if s.HasTristate() {
      str := TristateName(val);
    }
  }

  /** What conf_write_defconfig makes of one entry: whether it is considered, and
      whether a line is written. */
  method WorthKeeping(e: Evaluator, s: Symbol, ghost rank: Symbol -> nat) returns (considered: bool, keep: bool)
    requires e.Intact() && e.Done(rank, {}) && Closed(e.k) && DirDepsCovered(e.k) && Ranked(e.k, rank)
    requires s in e.k.decls && Typed(s) && s in e.valid
    modifies e
    ensures e.user == old(e.user) && e.Intact() && e.Done(rank, {})
    ensures keep == (s in Minimal(e.k, e.user, rank)) && (keep ==> considered)
  {
    hide Meaning, MeaningEnv, Closed, DirDepsCovered, Ranked, Edges, StringDefault;
    var o := Lookup(e.state, s);
    considered, keep := o.write, false;
    if o.write && o.visible > o.revDep {
      DeclaredEdges(e.k, rank, s);
      var str := GetStringDefault(e, s, rank);
      keep := StringValue(e.k, s, o) != str;
    }
  }

  /** `a` comes before `b` for the first time. */
  ghost predicate Precedes(entries: seq<Symbol>, a: Symbol, b: Symbol) {
    exists p | 0 <= p < |entries| :: entries[p] == a && b !in entries[..p + 1]
  }

  lemma StillPrecedes(entries: seq<Symbol>, i: nat, a: Symbol, b: Symbol)
    requires i < |entries| && Precedes(entries[..i], a, b)
    ensures Precedes(entries[..i + 1], a, b)
  {
    var p :| 0 <= p < i && entries[..i][p] == a && b !in entries[..i][..p + 1];
    assert entries[..i][..p + 1] == entries[..i + 1][..p + 1] && entries[..i + 1][p] == a;
  }

  lemma PrecedesLast(entries: seq<Symbol>, i: nat, a: Symbol)
    requires i < |entries| && a in entries[..i] && entries[i] !in entries[..i]
    ensures Precedes(entries[..i + 1], a, entries[i])
  {
    var p :| 0 <= p < i && entries[..i][p] == a;
    assert entries[..i + 1][p] == a && entries[..i + 1][..p + 1] == entries[..i][..p + 1];
  }

  /** conf_write_defconfig over the symbols of the menu entries: each symbol worth
      keeping is written, once, in the order in which they come first. A symbol whose line has been
      considered loses SYMBOL_WRITE, which `considered` stands for. */
  method WriteDefconfig(e: Evaluator, entries: seq<Symbol>, ghost rank: Symbol -> nat) returns (lines: seq<Symbol>)
    requires e.Intact() && e.Done(rank, {}) && Closed(e.k) && DirDepsCovered(e.k) && Ranked(e.k, rank)
    requires forall s | s in entries :: s in e.k.decls && Typed(s)
    modifies e
    ensures e.user == old(e.user)
    ensures forall s :: s in lines <==> s in entries && s in Minimal(e.k, e.user, rank)
    ensures forall i, j | 0 <= i < j < |lines| :: lines[i] != lines[j] && Precedes(entries, lines[i], lines[j])
  {
    hide Meaning, MeaningEnv, Closed, DirDepsCovered, Ranked, Minimal, Precedes;
    lines := [];
    ghost var kept := Minimal(e.k, e.user, rank).Keys;
    var considered: set<Symbol> := {};
    for i := 0 to |entries|
      invariant e.user == old(e.user) && e.Intact() && e.Done(rank, {})
      invariant forall s | s in entries[..i] :: s in considered || s !in kept
      invariant forall s | s in considered :: s in entries[..i]
      invariant forall s :: s in lines <==> s in considered && s in kept
      invariant forall j, l | 0 <= j < l < |lines| :: lines[j] != lines[l] && Precedes(entries[..i], lines[j], lines[l])
    {
      var s := entries[i];
      forall j, l | 0 <= j < l < |lines| ensures Precedes(entries[..i + 1], lines[j], lines[l]) {
        StillPrecedes(entries, i, lines[j], lines[l]);
      }
      e.Ask(s, rank);
      if s !in considered {
        var write, keep := WorthKeeping(e, s, rank);
        if write {
          considered := considered + {s};
        }
        if keep {
          forall j | 0 <= j < |lines| ensures Precedes(entries[..i + 1], lines[j], s) {
            assert lines[j] in lines;
            PrecedesLast(entries, i, lines[j]);
          }
          lines := lines + [s];
        }
      }
    }
    assert entries[..|entries|] == entries;
  }

  lemma DeclaredEdges(k: Kconfig, rank: Symbol -> nat, s: Symbol)
    requires Closed(k) && Ranked(k, rank) && s in k.decls
    ensures AllDeclared(k, Edges(k, s)) && forall t | t in Edges(k, s) :: rank(t) < rank(s)
  {
  }
}
