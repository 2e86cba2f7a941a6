/** Where the caches go stale, and a choice goes without a selection. */
module KconfiglibStale {
  import opened Tristates
  import opened Options
  import opened Exprs
  import opened KconfiglibExpr
  import opened KconfiglibSymbols
  import opened KconfiglibMeaning
  import opened KconfiglibDepend
  import opened KconfiglibFresh

  // ----- where the caches go wrong -----

  /** A symbol with one prompt and nothing else. */
  function Prompted(kind: SymbolType, condition: Option<Sound>): Item {
    Item(kind, [condition], [], Leaf(Text("n")), [], None, None, true)
  }

  lemma PromptedDirect(k: Config, s: string, kind: SymbolType, condition: Option<Sound>)
    requires s in k.syms && k.syms[s] == Prompted(kind, condition)
    ensures Direct(k, s) == OptionNames(condition)
    ensures kind != Tri && !OptionCanBeM(k, condition) ==> !Sensitive(k, s)
  {
    var p := k.syms[s].prompts;
    assert p[1..] == [] && PromptNames(p) == OptionNames(p[0]) + PromptNames(p[1..]);
    assert Names(Leaf(Text("n"))) == {} && !CanBeM(k, Leaf(Text("n")));
    assert forall e | e in p :: e == condition;
    assert k.syms[s].defaults == [] && k.syms[s].ranges == [];
  }

  /** A bool symbol X with a prompt is what the user sets it to. */
  lemma SwitchValue(k: Config, u: Users, rank: string -> nat)
    requires Coherent(k) && Ranked(k, rank) && UsersFit(k, u)
    requires "X" in k.syms && k.syms["X"] == Prompted(Boolean, None) && "X" in u.val
    ensures Full(k, u, rank).v.tri("X") == if u.val["X"] == "y" then YES else NO
  {
    hide OutcomeIn, Full, Meaning, Reads, Sensitive, Coherent, Ranked;
    var w := Full(k, u, rank);
    MeaningEquation(k, u, rank, "X");
    FullAt(k, u, rank, "X");
    assert Accepts(k, "X", u.val["X"]);
    SwitchOutcome(k, u, w);
  }

  lemma SwitchOutcome(k: Config, u: Users, w: View)
    requires "X" in k.syms && k.syms["X"] == Prompted(Boolean, None)
    requires "X" in u.val && u.val["X"] in {"n", "y"}
    ensures OutcomeIn(k, u, w, "X").val == u.val["X"]
  {
    assert forall p: Prompts | |p| == 1 :: p[1..] == [];
    assert Visible(k, "X", w) == YES;
  }

  /** F is a tristate of its own, MODULES depends on X. */
  function ModulesOnX(number: (string, nat) -> Option<int>, shown: (bool, int) -> string): Config {
    Config.Config(
      map["X" := Prompted(Boolean, None), MODULES := Prompted(Boolean, Some(Leaf(Name("X")))), "F" := Prompted(Tri, None)],
      map[], number, shown)
  }

  function ModulesRank(s: string): nat {
    if s == "X" then 0 else if s == MODULES then 1 else 2
  }

  lemma ModulesOnXDirect(k: Config)
    requires k == ModulesOnX(k.number, k.shown)
    ensures Direct(k, "X") == {} && Direct(k, MODULES) == {"X"} && Direct(k, "F") == {}
    ensures Coherent(k) && Ranked(k, ModulesRank)
  {
    hide Direct, Sensitive;
    PromptedDirect(k, "X", Boolean, None);
    PromptedDirect(k, MODULES, Boolean, Some(Leaf(Name("X"))));
    PromptedDirect(k, "F", Tri, None);
  }

  lemma ModulesOnXOutcomes(k: Config, u: Users, w: View)
    requires k == ModulesOnX(k.number, k.shown)
    requires "F" in u.val && u.val["F"] == "m" && "X" in u.val && u.val["X"] in {"n", "y"} && w.v.tri("X") != MOD
    requires MODULES in u.val ==> u.val[MODULES] in {"n", "y"}
    ensures OutcomeIn(k, u, w, "X").val == u.val["X"]
    ensures OutcomeIn(k, u, w, MODULES).val ==
            if w.v.tri("X") == YES && MODULES in u.val && u.val[MODULES] == "y" then "y" else "n"
    ensures OutcomeIn(k, u, w, "F") == Outcome(if w.modules then "m" else "y", true)
  {
    assert forall p: Prompts | |p| == 1 :: p[1..] == [];
    assert Visible(k, "X", w) == YES && Visible(k, "F", w) == YES;
    var p := k.syms[MODULES].prompts;
    assert Ev(p[0], w) == w.v.tri("X") && PromptMax(p[1..], w) == NO;
    assert PlainSymbol(k, u, MODULES, w).0 ==
           if w.v.tri("X") == YES && MODULES in u.val && u.val[MODULES] == "y" then YES else NO;
  }

  /** What X, MODULES and F are when F is set to m. */
  lemma ModulesOnXMeaning(k: Config, u: Users)
    requires k == ModulesOnX(k.number, k.shown) && UsersFit(k, u)
    requires "F" in u.val && u.val["F"] == "m" && "X" in u.val
    ensures var w := Full(k, u, ModulesRank);
            && w.modules == (u.val["X"] == "y" && MODULES in u.val && u.val[MODULES] == "y")
            && Meaning(k, u, ModulesRank, "F") == Outcome(if w.modules then "m" else "y", true)
  {
    hide OutcomeIn, Full, Meaning, Direct, Sensitive, Group;
    ModulesOnXDirect(k);
    var w := Full(k, u, ModulesRank);
    assert Accepts(k, "X", u.val["X"]);
    assert MODULES in u.val ==> Accepts(k, MODULES, u.val[MODULES]);
    FullTyped(k, u, ModulesRank);
    assert !MayBeM(k, "X");
    ModulesOnXOutcomes(k, u, w);
    MeaningEquation(k, u, ModulesRank, "X");
    MeaningEquation(k, u, ModulesRank, MODULES);
    MeaningEquation(k, u, ModulesRank, "F");
    FullAt(k, u, ModulesRank, "X");
    FullModules(k, u, ModulesRank);
  }

  /** With F worth m and nothing else remembered, the caches are right. */
  lemma ModulesOnXFresh(k: Config, u: Users, c: Caches)
    requires k == ModulesOnX(k.number, k.shown)
    requires c == Caches(map["F" := Outcome("m", true)], map[], map[], map[])
    requires Meaning(k, u, ModulesRank, "F") == Outcome("m", true)
    ensures Fresh(k, u, ModulesRank, c)
  {
    hide Full, Meaning;
  }

  lemma LeastDependents(k: Config, s: string, r: set<string>, x: set<string>)
    requires IsDependent(k, s, r) && Saturated(k, x) && s in x
    ensures r <= x
  {
    hide Saturated;
  }

  lemma ModulesOnXReach(k: Config, s: string, r: set<string>)
    requires k == ModulesOnX(k.number, k.shown) && (s == "X" || s == MODULES) && IsDependent(k, s, r)
    ensures "F" !in r
  {
    ModulesOnXDirect(k);
    hide Direct, Sensitive, Coherent, Ranked, IsDependent;
    assert Saturated(k, {"X", MODULES});
    LeastDependents(k, s, r, {"X", MODULES});
  }

  lemma ModulesOnXStale(k: Config, u: Users, c: Caches, s: string, r: set<string>)
    requires k == ModulesOnX(k.number, k.shown) && "F" in c.value && c.value["F"] == Outcome("m", true)
    requires Meaning(k, u, ModulesRank, "F") == Outcome("y", true)
    requires (s == "X" || s == MODULES) && IsDependent(k, s, r)
    ensures !Fresh(k, u, ModulesRank, Without(k, r + {s}, c))
  {
    hide Full, Meaning, IsDependent, Visible, ChoiceVisible, Selection;
    ModulesOnXReach(k, s, r);
    assert "F" in Without(k, r + {s}, c).value;
  }

  /** Setting X to n disables modules and so makes F y instead of m, but F is no
      dependent of X and its cached value is kept; the same goes for unsetting MODULES. */
  lemma ModulesGoStale(k: Config, u: Users, c: Caches)
    requires k == ModulesOnX(k.number, k.shown)
    requires u == Users(map["X" := "y", MODULES := "y", "F" := "m"], map[], map[])
    requires c == Caches(map["F" := Outcome("m", true)], map[], map[], map[])
    ensures Coherent(k) && Ranked(k, ModulesRank) && UsersFit(k, u) && Fresh(k, u, ModulesRank, c)
    ensures forall r | IsDependent(k, "X", r) ::
              !Fresh(k, Assigned(k, u, "X", "n"), ModulesRank, Without(k, r + {"X"}, c))
    ensures forall r | IsDependent(k, MODULES, r) ::
              !Fresh(k, Cleared(k, u, MODULES), ModulesRank, Without(k, r + {MODULES}, c))
  {
    hide Full, Meaning, Direct, Sensitive, Fresh, Without, IsDependent;
    ModulesOnXDirect(k);
    var a, b := Assigned(k, u, "X", "n"), Cleared(k, u, MODULES);
    AssignedFits(k, u, "X", "n");
    ClearedFits(k, u, MODULES);
    ModulesOnXMeaning(k, u);
    ModulesOnXMeaning(k, a);
    ModulesOnXMeaning(k, b);
    ModulesOnXFresh(k, u, c);
    forall r | IsDependent(k, "X", r) ensures !Fresh(k, a, ModulesRank, Without(k, r + {"X"}, c)) {
      ModulesOnXStale(k, a, c, "X", r);
    }
    forall r | IsDependent(k, MODULES, r) ensures !Fresh(k, b, ModulesRank, Without(k, r + {MODULES}, c)) {
      ModulesOnXStale(k, b, c, MODULES, r);
    }
  }

  /** A choice can be made to forget what it remembers if and only if it has symbols. */
  lemma ForgetsExactly(k: Config, i: nat)
    requires Coherent(k) && i in k.choices
    ensures (exists x :: x <= k.syms.Keys && Touches(k, x, i)) <==> k.choices[i].actual != []
  {
    assert forall s | ItemOf(k, s).choice == Some(i) :: s in k.choices[i].actual;
    if k.choices[i].actual != [] {
      var s := k.choices[i].actual[0];
      assert s in k.syms && k.syms[s].choice == Some(i);
      assert {s} <= k.syms.Keys && Touches(k, {s}, i);
    }
  }

  /** A choice that is visible with X and has no symbols. */
  function EmptyOnX(number: (string, nat) -> Option<int>, shown: (bool, int) -> string): Config {
    Config.Config(map["X" := Prompted(Boolean, None)],
      map[0 := ChoiceItem(Boolean, [Some(Leaf(Name("X")))], [], false, [])], number, shown)
  }

  lemma EmptyOnXDirect(k: Config)
    requires k == EmptyOnX(k.number, k.shown)
    ensures Coherent(k) && Ranked(k, s => 0)
  {
    PromptedDirect(k, "X", Boolean, None);
    hide Direct, Sensitive;
  }

  lemma EmptyOnXVisible(k: Config, u: Users)
    requires k == EmptyOnX(k.number, k.shown) && UsersFit(k, u) && "X" in u.val
    ensures ChoiceVisible(k, 0, Full(k, u, s => 0)) == if u.val["X"] == "y" then YES else NO
  {
    hide Full, Reads, Sensitive, Coherent, Ranked;
    EmptyOnXDirect(k);
    SwitchValue(k, u, s => 0);
    var p := k.choices[0].prompts;
    assert forall w: View | w.v.tri("X") != MOD :: Ev(p[0], w) == w.v.tri("X") && PromptMax(p[1..], w) == NO;
  }

  /** Visible with X set to y and remembered as such, the choice is invisible once X
      is set to n, but no invalidation of whatever symbols makes it forget. */
  lemma EmptyChoiceStale(k: Config, u: Users, c: Caches)
    requires k == EmptyOnX(k.number, k.shown) && u == Users(map["X" := "y"], map[], map[])
    requires c == Caches(map[], map[], map[0 := YES], map[])
    ensures var rank := (s: string) => 0;
            && Coherent(k) && Ranked(k, rank) && UsersFit(k, u) && Fresh(k, u, rank, c)
            && c.choiceVis[0] == ChoiceVisible(k, 0, Full(k, u, rank))
    ensures var w := Full(k, Assigned(k, u, "X", "n"), (s: string) => 0);
            forall x | x <= k.syms.Keys ::
              0 in Without(k, x, c).choiceVis && Without(k, x, c).choiceVis[0] != ChoiceVisible(k, 0, w)
  {
    hide Full, Ranked, Coherent, ChoiceVisible, Meaning;
    EmptyOnXDirect(k);
    AssignedFits(k, u, "X", "n");
    EmptyOnXVisible(k, u);
    EmptyOnXVisible(k, Assigned(k, u, "X", "n"));
  }

  /** A choice of the one symbol A that defaults to D, a symbol outside it that has
      the prompt condition given. */
  function ForeignDefault(condition: Option<Sound>, number: (string, nat) -> Option<int>, shown: (bool, int) -> string): Config {
    Config.Config(
      map["X" := Prompted(Boolean, None), "A" := Prompted(Boolean, None).(choice := Some(0)), "D" := Prompted(Boolean, condition)],
      map[0 := ChoiceItem(Boolean, [None], [("D", None)], false, ["A"])], number, shown)
  }

  lemma ForeignDefaultViews(k: Config, u: Users, condition: Option<Sound>, w: View)
    requires k == ForeignDefault(condition, k.number, k.shown) && u.sel == map[] && u.mode == map[]
    ensures Mode(k, u, 0, w) == YES && Visible(k, "A", w) == YES
    ensures Selection(k, u, 0, w) == Some(if Ev(condition, w) == NO then "A" else "D")
  {
    var p := k.syms["D"].prompts;
    assert p[1..] == [] && PromptMax(p, w) == Max(Ev(condition, w), PromptMax(p[1..], w));
    assert forall p: Prompts | |p| == 1 :: p[1..] == [];
    assert ChoiceVisible(k, 0, w) == YES;
    assert DefaultChoice(k.choices[0].defaults, "A", w) == "D";
  }

  /** The choice is in mode y and A is visible, but D is selected and A stays n. */
  lemma ForeignDefaultSelected(k: Config, u: Users, w: View)
    requires k == ForeignDefault(None, k.number, k.shown) && u == Users(map[], map[], map[])
    ensures Mode(k, u, 0, w) == YES && Visible(k, "A", w) != NO
    ensures Selection(k, u, 0, w) == Some("D") && OutcomeIn(k, u, w, "A").val == "n"
  {
    hide Selection, Visible, Mode;
    ForeignDefaultViews(k, u, None, w);
  }

  function ForeignRank(s: string): nat {
    if s == "X" then 0 else if s == "D" then 1 else 2
  }

  lemma ForeignDefaultUntracked(k: Config)
    requires k == ForeignDefault(Some(Leaf(Name("X"))), k.number, k.shown)
    ensures Coherent(k) && Saturated(k, {"X", "D"}) && !Tracked(k)
  {
    ForeignDefaultDirect(k);
    hide Direct, Reads;
    assert "A" in k.syms && "X" in {"X", "D"} && "A" !in {"X", "D"};
    assert Saturated(k, {"X", "D"});
    assert !Encloses(k, {"X", "D"});
  }

  lemma ForeignDefaultRanked(k: Config)
    requires k == ForeignDefault(Some(Leaf(Name("X"))), k.number, k.shown)
    ensures Ranked(k, ForeignRank)
  {
    ForeignDefaultDirect(k);
    assert Reads(k, "X") == Direct(k, "X") && Reads(k, "D") == Direct(k, "D");
    hide Direct, Reads, Sensitive;
    assert k.syms.Keys == {"X", "A", "D"};
  }

  lemma ForeignDefaultSelection(k: Config, u: Users)
    requires k == ForeignDefault(Some(Leaf(Name("X"))), k.number, k.shown) && UsersFit(k, u)
    requires "X" in u.val && u.sel == map[] && u.mode == map[]
    ensures Selection(k, u, 0, Full(k, u, ForeignRank)) == Some(if u.val["X"] == "y" then "D" else "A")
  {
    hide Full, Selection, Coherent, Ranked, Saturated, Tracked, Mode, Visible;
    var condition: Option<Sound> := Some(Leaf(Name("X")));
    var w := Full(k, u, ForeignRank);
    ForeignDefaultUntracked(k);
    ForeignDefaultRanked(k);
    SwitchValue(k, u, ForeignRank);
    ForeignDefaultViews(k, u, condition, w);
    assert Ev(condition, w) == w.v.tri("X");
  }

  /** With D visible as X is, D is selected with X set to y, and A once X is set to
      n. But A is no dependent of X and the choice remembers D. */
  lemma ForeignDefaultStale(k: Config, u: Users, c: Caches)
    requires k == ForeignDefault(Some(Leaf(Name("X"))), k.number, k.shown)
    requires u == Users(map["X" := "y"], map[], map[]) && c == Caches(map[], map[], map[], map[0 := Some("D")])
    ensures Coherent(k) && Ranked(k, ForeignRank) && UsersFit(k, u) && Fresh(k, u, ForeignRank, c)
    ensures forall r | IsDependent(k, "X", r) ::
              !Fresh(k, Assigned(k, u, "X", "n"), ForeignRank, Without(k, r + {"X"}, c))
  {
    hide Full, Selection, Coherent, Ranked, Saturated, Tracked, Meaning, IsDependent;
    var a := Assigned(k, u, "X", "n");
    ForeignDefaultUntracked(k);
    ForeignDefaultRanked(k);
    AssignedFits(k, u, "X", "n");
    ForeignDefaultSelection(k, u);
    ForeignDefaultSelection(k, a);
    forall r | IsDependent(k, "X", r) ensures !Fresh(k, a, ForeignRank, Without(k, r + {"X"}, c)) {
      LeastDependents(k, "X", r, {"X", "D"});
      assert !Touches(k, r + {"X"}, 0);
      assert Without(k, r + {"X"}, c).selection[0] == Some("D");
    }
  }

  lemma ForeignDefaultDirect(k: Config)
    requires k == ForeignDefault(Some(Leaf(Name("X"))), k.number, k.shown)
    ensures Direct(k, "X") == {} && Direct(k, "D") == {"X"} && Direct(k, "A") == {} && Reads(k, "A") == {"X"}
  {
    PromptedDirect(k, "X", Boolean, None);
    PromptedDirect(k, "D", Boolean, Some(Leaf(Name("X"))));
    var i, j := k.syms["A"], k.choices[0];
    assert i.prompts[1..] == [] && PromptNames(i.prompts) == OptionNames(i.prompts[0]) + PromptNames(i.prompts[1..]);
    assert j.prompts[1..] == [] && PromptNames(j.prompts) == OptionNames(j.prompts[0]) + PromptNames(j.prompts[1..]);
    assert j.defaults[1..] == []
           && ChoiceDefaultNames(j.defaults) == OptionNames(j.defaults[0].1) + ChoiceDefaultNames(j.defaults[1..]);
    assert Names(i.revDep) == {} && Names(Leaf(Name("X"))) == {"X"};
    var p := k.syms["D"].prompts;
    assert PromptNames(p) == OptionNames(p[0]) + PromptNames(p[1..]);
    assert p[1..] == [] && VisibleNames(k, "D") == {"X"};
    assert DefaultVisibleNames(k, j.defaults) == VisibleNames(k, j.defaults[0].0) + DefaultVisibleNames(k, j.defaults[1..]);
  }

  lemma {:induction false} DefaultVisibleNamesFrom(k: Config, defaults: ChoiceDefaults, t: string) returns (d: (string, Option<Sound>))
    requires t in DefaultVisibleNames(k, defaults)
    ensures d in defaults && t in VisibleNames(k, d.0)
  {
    if t in VisibleNames(k, defaults[0].0) {
      d := defaults[0];
    } else {
      d := DefaultVisibleNamesFrom(k, defaults[1..], t);
    }
  }

  /** The dependents are complete if and only if whatever decides how visible the
      default of a choice is reaches the symbols of the choice. */
  lemma TrackedExactly(k: Config)
    requires Coherent(k)
    ensures Tracked(k)
            <==> (forall s, d, t, x | s in k.syms && k.syms[s].choice.Some? && d in ChoiceOf(k, k.syms[s].choice.value).defaults
                                      && t in VisibleNames(k, d.0) && t in x && Saturated(k, x) :: s in x)
  {
    hide Direct, VisibleNames, Group, Coherent;
    if Tracked(k) {
      forall s, d, t, x | s in k.syms && k.syms[s].choice.Some? && d in ChoiceOf(k, k.syms[s].choice.value).defaults
                          && t in VisibleNames(k, d.0) && t in x && Saturated(k, x)
        ensures s in x
      {
        DefaultVisibleNamesOf(k, ChoiceOf(k, k.syms[s].choice.value).defaults, d);
        assert Encloses(k, x);
      }
    } else {
      var x :| Saturated(k, x) && !Encloses(k, x);
      var s, t :| s in k.syms && t in Reads(k, s) && t in x && s !in x;
      assert t !in Direct(k, s);
      var d := DefaultVisibleNamesFrom(k, ChoiceOf(k, k.syms[s].choice.value).defaults, t);
    }
  }

  /** It is so where choices default to symbols of their own. */
  lemma OwnDefaultsTracked(k: Config)
    requires Coherent(k) && forall c, d | c in k.choices && d in k.choices[c].defaults :: d.0 in k.choices[c].actual
    ensures Tracked(k)
  {
    forall s, d, t, x | s in k.syms && k.syms[s].choice.Some? && d in ChoiceOf(k, k.syms[s].choice.value).defaults
                        && t in VisibleNames(k, d.0) && t in x && Saturated(k, x)
      ensures s in x
    {
      assert k.syms[d.0].choice == k.syms[s].choice;
      VisibleInDirect(k, d.0);
      assert d.0 in x && s in Group(k, d.0);
    }
    TrackedExactly(k);
  }

  lemma VisibleInDirect(k: Config, s: string)
    ensures VisibleNames(k, s) <= Direct(k, s)
  {
    hide PromptNames, DefaultNames, RangeNames, ChoiceDefaultNames, Names;
  }
}
