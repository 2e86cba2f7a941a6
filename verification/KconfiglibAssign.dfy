/** Which values can be assigned to a bool or tristate symbol in kconfiglib. */
module KconfiglibAssign {
  import opened Tristates
  import opened Options
  import opened Exprs
  import opened KconfiglibExpr
  import opened KconfiglibSymbols
  import opened KconfiglibMeaning
  import opened KconfiglibDepend
  import opened KconfiglibFresh
  import opened KconfiglibOrder
  import opened KconfiglibCache
  import opened KconfiglibStale
  import Comparing

  function Selected(k: Config, s: string, w: View): Tristate {
    var rev := Ev(Some(ItemOf(k, s).revDep), w);
    if rev == MOD && ItemOf(k, s).kind == Boolean then YES else rev
  }

  /** Symbol.get_assignable_values. */
  function AssignableValues(k: Config, s: string, w: View): seq<string> {
    var low, high := Selected(k, s, w), Visible(k, s, w);
    if Logical(ItemOf(k, s).kind) && low < high then ["n", "m", "y"][low..high + 1] else []
  }

  method GetAssignableValues(c: Configuration, s: string, ghost rank: string -> nat) returns (r: seq<string>)
    requires c.Valid(rank) && s in c.k.syms && !IsSpecial(c.k, s)
    modifies c`value, c`vis, c`choiceVis, c`selection
    ensures c.Valid(rank) && r == AssignableValues(c.k, s, c.W(rank))
  {
    hide Coherent, Ranked, UsersFit, Fresh, Full, Visible, Ev, Allowed, Sensitive, CanBeM, Names;
    var i := c.k.syms[s];
    if !Logical(i.kind) { return []; }
    RankedRevDep(c.k, rank, s);
    var low := c.EvalExpr(Some(i.revDep), rank, rank(s));
    if i.kind == Boolean && low == MOD { low := YES; }
    var high := c.VisibilityOf(s, rank);
    var all := ["n", "m", "y"];
    r := if low <= high then all[low..high + 1] else [];
    if |r| <= 1 { r := []; }
  }

  lemma RankedRevDep(k: Config, rank: string -> nat, s: string)
    requires Ranked(k, rank) && s in k.syms && !IsSpecial(k, s)
    ensures var e := k.syms[s].revDep; Allowed(k, rank, rank(s), OptionNames(Some(e)), OptionCanBeM(k, Some(e)))
  {
    hide PromptNames, DefaultNames, RangeNames, Names, CanBeM, ChoiceNames;
    RankedDefaults(k, rank, s);
  }

  lemma AtLeastEncloses(k: Config, rank: string -> nat, n: nat)
    requires Coherent(k) && Ranked(k, rank)
    ensures Encloses(k, set t | t in k.syms && rank(t) >= n)
  {
    hide Reads, Sensitive, Coherent;
    var x := set t | t in k.syms && rank(t) >= n;
    forall a, b | a in k.syms && a in Group(k, b) && b in x ensures a in x {
      Siblings(k, a, b);
    }
  }

  /** Setting a symbol changes nothing that its own value is made of. */
  lemma PartsStay(k: Config, u: Users, rank: string -> nat, s: string, v: string)
    requires Coherent(k) && UsersFit(k, u) && Ranked(k, rank)
    requires s in k.syms && !IsSpecial(k, s)
    ensures UsersFit(k, Assigned(k, u, s, v))
    ensures SameGroup(k, Full(k, u, rank), Full(k, Assigned(k, u, s, v), rank), s)
    ensures Same(k, Full(k, u, rank), Full(k, Assigned(k, u, s, v), rank), Reads(k, s), Sensitive(k, s))
  {
    hide Group, Reads, Sensitive, Coherent, UsersFit, Ranked, Full, Meaning, Encloses, DifferWithin, Assigned, Same;
    var a := Assigned(k, u, s, v);
    var x := set t | t in k.syms && rank(t) >= rank(s);
    AtLeastEncloses(k, rank, rank(s));
    AssignedFits(k, u, s, v);
    EnclosesSaturated(k, x);
    ChangesWithin(k, u, s, v, x);
    if Sensitive(k, s) {
      if MODULES in k.syms { ModulesBelow(k, rank, s); }
      ModulesKept(k, u, a, rank, x);
    }
    forall g, t | g in Group(k, s) && t in Reads(k, g) ensures Meaning(k, u, rank, t).val == Meaning(k, a, rank, t).val {
      Lower(k, rank, s, g, t);
      LowerStays(k, u, a, rank, x, s, t);
    }
    FullSame(k, u, rank, a, rank, s);
    GroupHasSelf(k, s);
  }

  /** What is below the symbol keeps its meaning, even if modules change above. */
  lemma {:induction false} LowerStays(k: Config, u: Users, a: Users, rank: string -> nat, x: set<string>, s: string, t: string)
    requires Coherent(k) && UsersFit(k, u) && UsersFit(k, a) && Ranked(k, rank)
    requires Encloses(k, x) && DifferWithin(k, u, a, x) && x == set t | t in k.syms && rank(t) >= rank(s)
    requires s in k.syms && t in k.syms && rank(t) < rank(s)
    ensures Meaning(k, u, rank, t) == Meaning(k, a, rank, t)
  {
    hide Reads, Sensitive, Coherent, UsersFit, Ranked, Full, Meaning, Encloses, DifferWithin, SameGroup;
    if MODULES !in x {
      ModulesKept(k, u, a, rank, x);
    }
    Unaffected(k, u, a, rank, x, t);
  }

  lemma SelectedSame(k: Config, u: Users, s: string, w1: View, w2: View)
    requires s in k.syms && Same(k, w1, w2, Reads(k, s), Sensitive(k, s))
    ensures Ev(Some(k.syms[s].revDep), w1) == Ev(Some(k.syms[s].revDep), w2)
    ensures AssignableValues(k, s, w1) == AssignableValues(k, s, w2)
  {
    hide PromptNames, DefaultNames, RangeNames, ChoiceDefaultNames, Names, CanBeM, Visible;
    EvSame(k, Some(k.syms[s].revDep), w1, w2);
    VisibleSame(k, u, s, w1, w2);
  }

  /** The value of a symbol whose user value is `v`. */
  lemma TakesOn(k: Config, a: Users, s: string, v: string, w: View)
    requires s in k.syms && !IsSpecial(k, s) && k.syms[s].choice.None? && Logical(k.syms[s].kind)
    requires s in a.val && a.val[s] == v && Accepts(k, s, v) && AssignableValues(k, s, w) != []
    ensures OutcomeIn(k, a, w, s).val == v <==> v in AssignableValues(k, s, w) && (v == "m" ==> w.modules)
  {
    hide PromptMax, Value, LogicalDefault;
    PromptMaxModules(k.syms[s].prompts, w);
    var all := ["n", "m", "y"];
    var low, high := Selected(k, s, w), Visible(k, s, w);
    assert forall t: Tristate :: all[t] == TristateName(t) && (TristateName(t) in all[low..high + 1] <==> low <= t <= high) by {
      forall t: Tristate ensures TristateName(t) in all[low..high + 1] <==> low <= t <= high {
        if low <= t <= high { assert all[low..high + 1][t - low] == all[t]; }
      }
    }
    assert TristateName(TextValue(v)) == v;
  }

  /** A modifiable symbol takes on exactly the values listed, except that m is
      listed for bool symbols and without modules too, and never taken on there. */
  lemma AssignableExactly(k: Config, u: Users, rank: string -> nat, s: string, v: string)
    requires Coherent(k) && UsersFit(k, u) && Ranked(k, rank)
    requires s in k.syms && !IsSpecial(k, s) && k.syms[s].choice.None? && k.syms[s].defined && Logical(k.syms[s].kind)
    requires v in {"n", "m", "y"} && AssignableValues(k, s, Full(k, u, rank)) != []
    ensures var w := Full(k, u, rank);
            Meaning(k, Assigned(k, u, s, v), rank, s).val == v
            <==> v in AssignableValues(k, s, w) && (v == "m" ==> k.syms[s].kind == Tri && w.modules)
  {
    hide Coherent, UsersFit, Ranked, Full, Meaning, Reads, AssignableValues, OutcomeIn;
    var a := Assigned(k, u, s, v);
    var w, w' := Full(k, u, rank), Full(k, a, rank);
    PartsStay(k, u, rank, s, v);
    MeaningEquation(k, a, rank, s);
    SelectedSame(k, u, s, w, w');
    if Accepts(k, s, v) {
      TakesOn(k, a, s, v, w');
    } else {
      MeaningTyped(k, a, rank, s);
    }
  }

  /** B, with a prompt, and no symbol MODULES. */
  function OnlyB(kind: SymbolType, number: (string, nat) -> Option<int>, shown: (bool, int) -> string): Config {
    Config.Config(map["B" := Prompted(kind, None)], map[], number, shown)
  }

  lemma OnlyBAssignable(k: Config, kind: SymbolType, w: View)
    requires Logical(kind) && k == OnlyB(kind, k.number, k.shown)
    ensures AssignableValues(k, "B", w) == ["n", "m", "y"]
  {
    assert forall p: Prompts | |p| == 1 :: p[1..] == [];
    assert Visible(k, "B", w) == YES && Selected(k, "B", w) == NO;
  }

  /** For a bool, and for a tristate without modules, m is offered but not taken on. */
  lemma AssignableNotTaken(k: Config, kind: SymbolType, u: Users)
    requires Logical(kind) && k == OnlyB(kind, k.number, k.shown) && u == Users(map[], map[], map[])
    ensures var rank := (s: string) => 0;
            && Coherent(k) && Ranked(k, rank) && UsersFit(k, u)
            && "m" in AssignableValues(k, "B", Full(k, u, rank))
            && Meaning(k, Assigned(k, u, "B", "m"), rank, "B").val != "m"
  {
    hide Full, Meaning, Direct, Sensitive, AssignableValues;
    var rank := (s: string) => 0;
    PromptedDirect(k, "B", kind, None);
    OnlyBAssignable(k, kind, Full(k, u, rank));
    AssignableExactly(k, u, rank, "B", "m");
    FullModules(k, u, rank);
  }

  lemma NoEffect(k: Config, a1: Users, a2: Users, s: string, w: View)
    requires s in k.syms && !IsSpecial(k, s) && k.syms[s].choice.None? && Logical(k.syms[s].kind)
    requires s in a1.val && Accepts(k, s, a1.val[s]) && s in a2.val && Accepts(k, s, a2.val[s])
    requires AssignableValues(k, s, w) == []
    ensures OutcomeIn(k, a1, w, s) == OutcomeIn(k, a2, w, s)
  {
    hide PromptMax, Value, LogicalDefault;
    PromptMaxModules(k.syms[s].prompts, w);
    assert Selected(k, s, w) >= Visible(k, s, w);
  }

  /** On a symbol that is modifiable y and n have not. */
  lemma SomeEffect(k: Config, yes: Users, no: Users, s: string, w: View)
    requires s in k.syms && !IsSpecial(k, s) && k.syms[s].choice.None? && Logical(k.syms[s].kind)
    requires s in yes.val && yes.val[s] == "y" && s in no.val && no.val[s] == "n"
    requires AssignableValues(k, s, w) != []
    ensures OutcomeIn(k, yes, w, s).val != OutcomeIn(k, no, w, s).val
  {
    hide PromptMax, Value, LogicalDefault;
    PromptMaxModules(k.syms[s].prompts, w);
    assert Selected(k, s, w) < Visible(k, s, w);
    forall x: Tristate, y: Tristate ensures TristateName(x) == TristateName(y) <==> x == y {
      Comparing.NamesAreInjective(x, y);
    }
  }

  /** A symbol is not modifiable if and only if any two accepted values have the same
      effect on it. */
  lemma NotModifiable(k: Config, u: Users, rank: string -> nat, s: string)
    requires Coherent(k) && UsersFit(k, u) && Ranked(k, rank)
    requires s in k.syms && !IsSpecial(k, s) && k.syms[s].choice.None? && k.syms[s].defined && Logical(k.syms[s].kind)
    ensures AssignableValues(k, s, Full(k, u, rank)) == []
            <==> forall v1, v2 | Accepts(k, s, v1) && Accepts(k, s, v2) ::
                   Meaning(k, Assigned(k, u, s, v1), rank, s) == Meaning(k, Assigned(k, u, s, v2), rank, s)
  {
    hide Coherent, UsersFit, Ranked, Full, Meaning, Reads, AssignableValues, OutcomeIn, SameGroup;
    var w := Full(k, u, rank);
    forall v ensures Meaning(k, Assigned(k, u, s, v), rank, s) == OutcomeIn(k, Assigned(k, u, s, v), w, s) {
      var a := Assigned(k, u, s, v);
      PartsStay(k, u, rank, s, v);
      MeaningEquation(k, a, rank, s);
      OutcomeSame(k, a, s, w, Full(k, a, rank));
    }
    if AssignableValues(k, s, w) == [] {
      forall v1, v2 | Accepts(k, s, v1) && Accepts(k, s, v2)
        ensures OutcomeIn(k, Assigned(k, u, s, v1), w, s) == OutcomeIn(k, Assigned(k, u, s, v2), w, s)
      {
        NoEffect(k, Assigned(k, u, s, v1), Assigned(k, u, s, v2), s, w);
      }
    } else {
      SomeEffect(k, Assigned(k, u, s, "y"), Assigned(k, u, s, "n"), s, w);
      assert Accepts(k, s, "y") && Accepts(k, s, "n");
    }
  }

  lemma {:induction false} LogicalDefaultModules(defaults: Defaults, w: View)
    ensures LogicalDefault(defaults, w) == Some(MOD) ==> w.modules
  {
    if defaults != [] {
      LogicalDefaultModules(defaults[1..], w);
    }
  }

  /** The default of a symbol, where it is in force, exceeds the selects. */
  predicate DefaultInForce(k: Config, u: Users, s: string, w: View) {
    var d := LogicalDefault(ItemOf(k, s).defaults, w);
    Visible(k, s, w) != NO && s !in u.val && d.Some? && d.value > Selected(k, s, w)
  }

  lemma KeepsOutcome(k: Config, u: Users, s: string, v: string, w: View)
    requires UsersFit(k, u)
    requires s in k.syms && !IsSpecial(k, s) && k.syms[s].choice.None? && k.syms[s].defined && Logical(k.syms[s].kind)
    requires Accepts(k, s, v) && AssignableValues(k, s, w) == []
    ensures OutcomeIn(k, Assigned(k, u, s, v), w, s).val == OutcomeIn(k, u, w, s).val <==> !DefaultInForce(k, u, s, w)
  {
    hide PromptMax, Value, LogicalDefault;
    var a := Assigned(k, u, s, v);
    PromptMaxModules(k.syms[s].prompts, w);
    LogicalDefaultModules(k.syms[s].defaults, w);
    assert Selected(k, s, w) >= Visible(k, s, w);
    if s in u.val {
      NoEffect(k, a, u, s, w);
    }
    forall x: Tristate, y: Tristate ensures TristateName(x) == TristateName(y) <==> x == y {
      Comparing.NamesAreInjective(x, y);
    }
  }

  /** Setting a symbol that is not modifiable is without effect if and only if no
      default that exceeds the selects is in force. */
  lemma SettingKeeps(k: Config, u: Users, rank: string -> nat, s: string, v: string)
    requires Coherent(k) && UsersFit(k, u) && Ranked(k, rank)
    requires s in k.syms && !IsSpecial(k, s) && k.syms[s].choice.None? && k.syms[s].defined && Logical(k.syms[s].kind)
    requires Accepts(k, s, v) && AssignableValues(k, s, Full(k, u, rank)) == []
    ensures Meaning(k, Assigned(k, u, s, v), rank, s).val == Meaning(k, u, rank, s).val
            <==> !DefaultInForce(k, u, s, Full(k, u, rank))
  {
    hide Coherent, UsersFit, Ranked, Full, Meaning, Reads, AssignableValues, OutcomeIn, DefaultInForce, SameGroup;
    var a := Assigned(k, u, s, v);
    PartsStay(k, u, rank, s, v);
    MeaningEquation(k, u, rank, s);
    MeaningEquation(k, a, rank, s);
    OutcomeSame(k, a, s, Full(k, u, rank), Full(k, a, rank));
    KeepsOutcome(k, u, s, v, Full(k, u, rank));
  }

  // ----- an unmodifiable symbol that setting changes -----

  /** F has the prompt "if T", default y, and is selected by T. */
  function SelectedByT(number: (string, nat) -> Option<int>, shown: (bool, int) -> string): Config {
    Config.Config(
      map[MODULES := Prompted(Boolean, None), "T" := Prompted(Tri, None),
          "F" := Item(Tri, [Some(Leaf(Name("T")))], [(Leaf(Text("y")), None)], Leaf(Name("T")), [], None, None, true)],
      map[], number, shown)
  }

  function SelectedRank(s: string): nat {
    if s == MODULES then 0 else if s == "T" then 1 else 2
  }

  lemma SelectedByTDirect(k: Config)
    requires k == SelectedByT(k.number, k.shown)
    ensures Coherent(k) && Ranked(k, SelectedRank)
  {
    PromptedDirect(k, MODULES, Boolean, None);
    PromptedDirect(k, "T", Tri, None);
    assert Direct(k, "F") == {"T"} by {
      var i := k.syms["F"];
      assert i.prompts[1..] == [] && i.defaults[1..] == [] && i.ranges == [];
      assert PromptNames(i.prompts) == OptionNames(i.prompts[0]) + PromptNames(i.prompts[1..]);
      assert Names(i.revDep) == {"T"};
      assert DefaultNames(i.defaults) == Names(i.defaults[0].0) + OptionNames(i.defaults[0].1) + DefaultNames(i.defaults[1..]);
    }
    hide Reads, Sensitive;
  }

  lemma SelectedByTOutcomes(k: Config, u: Users, w: View)
    requires k == SelectedByT(k.number, k.shown)
    requires MODULES in u.val && u.val[MODULES] == "y" && "T" in u.val && u.val["T"] == "m"
    requires "F" in u.val ==> u.val["F"] == "m"
    ensures OutcomeIn(k, u, w, MODULES).val == "y"
    ensures w.modules ==> OutcomeIn(k, u, w, "T").val == "m"
    ensures w.modules && w.v.tri("T") == MOD ==>
              && AssignableValues(k, "F", w) == []
              && OutcomeIn(k, u, w, "F").val == if "F" in u.val then "m" else "y"
  {
    assert forall p: Prompts | |p| == 1 :: p[1..] == [];
    assert Visible(k, MODULES, w) == YES && Visible(k, "T", w) == YES;
    var i := k.syms["F"];
    assert Ev(i.prompts[0], w) == Promoted(w.v.tri("T"), w) && PromptMax(i.prompts[1..], w) == NO;
    assert LogicalDefault(i.defaults, w) == Some(YES);
  }

  lemma SelectedByTMeaning(k: Config, u: Users)
    requires k == SelectedByT(k.number, k.shown) && UsersFit(k, u)
    requires MODULES in u.val && u.val[MODULES] == "y" && "T" in u.val && u.val["T"] == "m"
    requires "F" in u.val ==> u.val["F"] == "m"
    ensures AssignableValues(k, "F", Full(k, u, SelectedRank)) == []
    ensures Meaning(k, u, SelectedRank, "F").val == if "F" in u.val then "m" else "y"
  {
    hide OutcomeIn, Full, Meaning, Reads, Sensitive, Group, AssignableValues;
    SelectedByTDirect(k);
    var w := Full(k, u, SelectedRank);
    SelectedByTOutcomes(k, u, w);
    MeaningEquation(k, u, SelectedRank, MODULES);
    MeaningEquation(k, u, SelectedRank, "T");
    MeaningEquation(k, u, SelectedRank, "F");
    FullModules(k, u, SelectedRank);
    FullAt(k, u, SelectedRank, "T");
  }

  /** With T set to m, F cannot be modified and is y by default; set to m, it is m. */
  lemma UnmodifiableYetModified(k: Config, u: Users)
    requires k == SelectedByT(k.number, k.shown) && u == Users(map[MODULES := "y", "T" := "m"], map[], map[])
    ensures Coherent(k) && Ranked(k, SelectedRank) && UsersFit(k, u)
    ensures AssignableValues(k, "F", Full(k, u, SelectedRank)) == []
    ensures Meaning(k, u, SelectedRank, "F").val == "y"
    ensures Meaning(k, Assigned(k, u, "F", "m"), SelectedRank, "F").val == "m"
  {
    hide Full, Meaning, Reads, Sensitive, AssignableValues;
    SelectedByTDirect(k);
    SelectedByTMeaning(k, u);
    AssignedFits(k, u, "F", "m");
    SelectedByTMeaning(k, Assigned(k, u, "F", "m"));
  }

  // ----- choice symbols -----

  /** A visible choice symbol set to m is m exactly with modules and in a choice that
      is not bool; set to n, it is n unless it is selected; set to y, it is y exactly
      if it is fully visible, or the choice falls back on it in mode y. */
  lemma ChoiceTakesOn(k: Config, u: Users, s: string, c: nat, v: string, w: View)
    requires Coherent(k) && UsersFit(k, u) && s in k.syms && k.syms[s].choice == Some(c) && k.syms[s].defined
    requires Accepts(k, s, v) && Visible(k, s, w) != NO
    ensures OutcomeIn(k, Assigned(k, u, s, v), w, s).val == v
            <==> if v == "m" then w.modules && k.choices[c].kind != Boolean
                 else if v == "n" then Selection(k, u, c, w) != Some(s)
                 else || Visible(k, s, w) == YES
                      || (ChoiceVisible(k, c, w) == YES && !k.choices[c].optional && SelectionFromDefaults(k, c, w) == Some(s))
  {
    hide PromptMax, Value, SelectionFromDefaults;
    PromptMaxModules(k.syms[s].prompts, w);
    PromptMaxModules(k.choices[c].prompts, w);
    forall x: Tristate, y: Tristate ensures TristateName(x) == TristateName(y) <==> x == y {
      Comparing.NamesAreInjective(x, y);
    }
  }

  /** Of a whole configuration. */
  lemma ChoiceAssignable(k: Config, u: Users, rank: string -> nat, s: string, c: nat, v: string)
    requires Coherent(k) && UsersFit(k, u) && Ranked(k, rank)
    requires s in k.syms && k.syms[s].choice == Some(c) && k.syms[s].defined
    requires Accepts(k, s, v) && Visible(k, s, Full(k, u, rank)) != NO
    ensures var w := Full(k, u, rank);
            Meaning(k, Assigned(k, u, s, v), rank, s).val == v
            <==> if v == "m" then w.modules && k.choices[c].kind != Boolean
                 else if v == "n" then Selection(k, u, c, w) != Some(s)
                 else || Visible(k, s, w) == YES
                      || (ChoiceVisible(k, c, w) == YES && !k.choices[c].optional && SelectionFromDefaults(k, c, w) == Some(s))
  {
    hide Ranked, UsersFit, Full, Meaning, OutcomeIn, SameGroup, Visible, ChoiceVisible, Selection, SelectionFromDefaults;
    var a := Assigned(k, u, s, v);
    PartsStay(k, u, rank, s, v);
    MeaningEquation(k, a, rank, s);
    OutcomeSame(k, a, s, Full(k, u, rank), Full(k, a, rank));
    ChoiceTakesOn(k, u, s, c, v, Full(k, u, rank));
  }
}
