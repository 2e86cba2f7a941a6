/** The cache-free meaning depends on nothing but what _build_dep records, and a
    choice selects at most one symbol. */
module KconfiglibMeaning {
  import opened Tristates
  import opened Options
  import opened KconfiglibSymbols

  lemma {:induction false} PromptSame(k: Config, prompts: Prompts, w1: View, w2: View, on: set<string>, sensitive: bool)
    requires Same(k, w1, w2, on, sensitive) && PromptNames(prompts) <= on
    requires forall e | e in prompts :: OptionCanBeM(k, e) ==> sensitive
    ensures PromptMax(prompts, w1) == PromptMax(prompts, w2)
  {
    if prompts != [] {
      EvSame(k, prompts[0], w1, w2);
      PromptSame(k, prompts[1..], w1, w2, on, sensitive);
    }
  }

  lemma {:induction false} LogicalDefaultSame(k: Config, defaults: Defaults, w1: View, w2: View, on: set<string>, sensitive: bool)
    requires Same(k, w1, w2, on, sensitive) && DefaultNames(defaults) <= on
    requires forall d | d in defaults :: CanBeM(k, d.0) || OptionCanBeM(k, d.1) ==> sensitive
    ensures LogicalDefault(defaults, w1) == LogicalDefault(defaults, w2)
    ensures w1.modules != w2.modules ==> LogicalDefault(defaults, w1) != Some(MOD)
  {
    if defaults != [] {
      EvSame(k, Some(defaults[0].0), w1, w2);
      EvSame(k, defaults[0].1, w1, w2);
      if w1.modules != w2.modules {
        ValueNotM(k, defaults[0].0, w1);
        if defaults[0].1.Some? { ValueNotM(k, defaults[0].1.value, w1); }
      }
      LogicalDefaultSame(k, defaults[1..], w1, w2, on, sensitive);
    }
  }

  lemma {:induction false} StringDefaultSame(k: Config, defaults: Defaults, w1: View, w2: View, on: set<string>, sensitive: bool)
    requires Same(k, w1, w2, on, sensitive) && DefaultNames(defaults) <= on
    requires forall d | d in defaults :: CanBeM(k, d.0) || OptionCanBeM(k, d.1) ==> sensitive
    ensures StringDefault(defaults, w1) == StringDefault(defaults, w2)
  {
    if defaults != [] {
      EvSame(k, defaults[0].1, w1, w2);
      StringDefaultSame(k, defaults[1..], w1, w2, on, sensitive);
    }
  }

  lemma {:induction false} NumberDefaultSame(k: Config, defaults: Defaults, base: nat, r: Range, w1: View, w2: View, so: Outcome, on: set<string>, sensitive: bool)
    requires Same(k, w1, w2, on, sensitive) && DefaultNames(defaults) <= on
    requires forall d | d in defaults :: CanBeM(k, d.0) || OptionCanBeM(k, d.1) ==> sensitive
    ensures NumberDefault(k, defaults, base, r, w1, so) == NumberDefault(k, defaults, base, r, w2, so)
    decreases defaults
  {
    if defaults != [] {
      EvSame(k, defaults[0].1, w1, w2);
      NumberDefaultSame(k, defaults[1..], base, r, w1, w2, so, on, sensitive);
      NumberDefaultSame(k, defaults[1..], base, r, w1, w2, Outcome(StringOf(defaults[0].0, w1), true), on, sensitive);
    }
  }

  lemma {:induction false} RangeSame(k: Config, ranges: Ranges, base: nat, w1: View, w2: View, on: set<string>, sensitive: bool)
    requires Same(k, w1, w2, on, sensitive) && RangeNames(ranges) <= on
    requires forall r | r in ranges :: OptionCanBeM(k, r.2) ==> sensitive
    ensures ActiveRange(k, ranges, base, w1) == ActiveRange(k, ranges, base, w2)
  {
    if ranges != [] {
      EvSame(k, ranges[0].2, w1, w2);
      RangeSame(k, ranges[1..], base, w1, w2, on, sensitive);
    }
  }

  lemma {:induction false} DefaultChoiceSame(k: Config, defaults: ChoiceDefaults, otherwise: string, w1: View, w2: View, on: set<string>)
    requires Same(k, w1, w2, on, true) && ChoiceDefaultNames(defaults) <= on
    ensures var s := DefaultChoice(defaults, otherwise, w1);
            && s == DefaultChoice(defaults, otherwise, w2)
            && (s == otherwise || exists d | d in defaults :: d.0 == s)
  {
    if defaults != [] {
      EvSame(k, defaults[0].1, w1, w2);
      DefaultChoiceSame(k, defaults[1..], otherwise, w1, w2, on);
    }
  }

  /** What a symbol's visibility, and its choice's visibility and mode, depend on. */
  lemma VisibleSame(k: Config, u: Users, s: string, w1: View, w2: View)
    requires s in k.syms && Same(k, w1, w2, Reads(k, s), Sensitive(k, s))
    ensures Visible(k, s, w1) == Visible(k, s, w2)
    ensures var c := k.syms[s].choice;
            c.Some? ==> ChoiceVisible(k, c.value, w1) == ChoiceVisible(k, c.value, w2)
                        && Mode(k, u, c.value, w1) == Mode(k, u, c.value, w2)
  {
    hide PromptNames, DefaultNames, RangeNames, ChoiceDefaultNames, Names, CanBeM, PromptMax;
    var i := k.syms[s];
    PromptSame(k, i.prompts, w1, w2, Reads(k, s), Sensitive(k, s));
    if i.choice.Some? {
      PromptSame(k, ChoiceOf(k, i.choice.value).prompts, w1, w2, Reads(k, s), true);
    }
  }

  lemma VisibleSameNames(k: Config, d: string, w1: View, w2: View, on: set<string>)
    requires VisibleNames(k, d) <= on && Same(k, w1, w2, on, true)
    ensures Visible(k, d, w1) == Visible(k, d, w2)
  {
    hide PromptNames, CanBeM, PromptMax;
    var i := ItemOf(k, d);
    PromptSame(k, i.prompts, w1, w2, on, true);
    if i.choice.Some? {
      PromptSame(k, ChoiceOf(k, i.choice.value).prompts, w1, w2, on, true);
    }
  }

  lemma {:induction false} DefaultVisibleNamesOf(k: Config, defaults: ChoiceDefaults, d: (string, Option<Sound>))
    requires d in defaults
    ensures VisibleNames(k, d.0) <= DefaultVisibleNames(k, defaults)
  {
    if d != defaults[0] {
      DefaultVisibleNamesOf(k, defaults[1..], d);
    }
  }

  lemma {:induction false} FirstVisibleSame(k: Config, of: seq<string>, w1: View, w2: View)
    requires forall s | s in of :: Visible(k, s, w1) == Visible(k, s, w2)
    ensures FirstVisible(k, of, w1) == FirstVisible(k, of, w2)
  {
    if of != [] {
      assert of[0] in of;
      FirstVisibleSame(k, of[1..], w1, w2);
    }
  }

  ghost predicate SameGroup(k: Config, w1: View, w2: View, s: string) {
    forall g | g in Group(k, s) :: Same(k, w1, w2, Reads(k, g), Sensitive(k, g))
  }

  lemma SelectionSame(k: Config, u: Users, s: string, w1: View, w2: View)
    requires Coherent(k) && UsersFit(k, u) && s in k.syms && k.syms[s].choice.Some? && SameGroup(k, w1, w2, s)
    ensures Selection(k, u, k.syms[s].choice.value, w1) == Selection(k, u, k.syms[s].choice.value, w2)
  {
    hide PromptMax, CanBeM, Names, PromptNames, DefaultNames, RangeNames, Visible, ChoiceVisible, Mode, VisibleNames;
    var c := k.syms[s].choice.value;
    var i := k.choices[c];
    forall g | g in i.actual ensures Visible(k, g, w1) == Visible(k, g, w2) {
      assert g in Group(k, s);
      VisibleSame(k, u, g, w1, w2);
    }
    assert s in Group(k, s);
    VisibleSame(k, u, s, w1, w2);
    DefaultChoiceSame(k, i.defaults, i.actual[0], w1, w2, Reads(k, s));
    var d := DefaultChoice(i.defaults, i.actual[0], w1);
    if d !in i.actual {
      var e :| e in i.defaults && e.0 == d;
      DefaultVisibleNamesOf(k, i.defaults, e);
      VisibleSameNames(k, d, w1, w2, Reads(k, s));
    }
    FirstVisibleSame(k, i.actual, w1, w2);
  }

  lemma NumberSame(k: Config, u: Users, s: string, base: nat, w1: View, w2: View)
    requires s in k.syms && Same(k, w1, w2, Reads(k, s), Sensitive(k, s))
    ensures NumberSymbol(k, u, s, base, w1) == NumberSymbol(k, u, s, base, w2)
  {
    hide PromptNames, DefaultNames, RangeNames, ChoiceDefaultNames, Names, CanBeM, Visible, ActiveRange, NumberDefault;
    var i := k.syms[s];
    VisibleSame(k, u, s, w1, w2);
    RangeSame(k, i.ranges, base, w1, w2, Reads(k, s), Sensitive(k, s));
    NumberDefaultSame(k, i.defaults, base, ActiveRange(k, i.ranges, base, w1), w1, w2,
      Outcome("", Visible(k, s, w1) != NO), Reads(k, s), Sensitive(k, s));
  }

  lemma PlainSame(k: Config, u: Users, s: string, w1: View, w2: View)
    requires UsersFit(k, u) && s in k.syms && Same(k, w1, w2, Reads(k, s), Sensitive(k, s))
    requires Logical(k.syms[s].kind) && k.syms[s].choice.None?
    ensures PlainSymbol(k, u, s, w1) == PlainSymbol(k, u, s, w2)
  {
    hide PromptNames, DefaultNames, RangeNames, ChoiceDefaultNames, Names, CanBeM, PromptMax, LogicalDefault;
    var i := k.syms[s];
    VisibleSame(k, u, s, w1, w2);
    LogicalDefaultSame(k, i.defaults, w1, w2, Reads(k, s), Sensitive(k, s));
    EvSame(k, Some(i.revDep), w1, w2);
    if w1.modules != w2.modules {
      ValueNotM(k, i.revDep, w1);
    }
  }

  lemma StringSame(k: Config, u: Users, s: string, w1: View, w2: View)
    requires s in k.syms && Same(k, w1, w2, Reads(k, s), Sensitive(k, s))
    ensures StringSymbol(k, u, s, w1) == StringSymbol(k, u, s, w2)
  {
    hide PromptNames, DefaultNames, RangeNames, ChoiceDefaultNames, Names, CanBeM, Visible, StringDefault;
    VisibleSame(k, u, s, w1, w2);
    StringDefaultSame(k, k.syms[s].defaults, w1, w2, Reads(k, s), Sensitive(k, s));
  }

  lemma ChoiceSymbolSame(k: Config, u: Users, s: string, w1: View, w2: View)
    requires Coherent(k) && UsersFit(k, u) && s in k.syms && k.syms[s].choice.Some? && SameGroup(k, w1, w2, s)
    ensures ChoiceSymbol(k, u, s, k.syms[s].choice.value, w1) == ChoiceSymbol(k, u, s, k.syms[s].choice.value, w2)
  {
    hide Reads, Sensitive, Same, Visible, Mode, Selection;
    assert s in Group(k, s);
    VisibleSame(k, u, s, w1, w2);
    SelectionSame(k, u, s, w1, w2);
  }

  /** The outcome of a symbol depends on the symbols that its choice's symbols are
      recorded to depend on, and on MODULES only if it is sensitive. */
  lemma OutcomeSame(k: Config, u: Users, s: string, w1: View, w2: View)
    requires Coherent(k) && UsersFit(k, u) && SameGroup(k, w1, w2, s)
    ensures OutcomeIn(k, u, w1, s) == OutcomeIn(k, u, w2, s)
  {
    hide Reads, Sensitive, Same, ChoiceSymbol, PlainSymbol, NumberSymbol, StringSymbol, UsersFit;
    if s in k.syms && k.syms[s].special.None? {
      var i := k.syms[s];
      assert i.choice.Some? ==> s in Group(k, s);
      assert Same(k, w1, w2, Reads(k, s), Sensitive(k, s));
      if i.choice.Some? {
        ChoiceSymbolSame(k, u, s, w1, w2);
      } else if Logical(i.kind) {
        PlainSame(k, u, s, w1, w2);
      } else {
        StringSame(k, u, s, w1, w2);
        NumberSame(k, u, s, 10, w1, w2);
        NumberSame(k, u, s, 16, w1, w2);
      }
    }
  }

  lemma MeaningTyped(k: Config, u: Users, rank: string -> nat, s: string)
    requires Coherent(k)
    ensures var val := Meaning(k, u, rank, s).val;
            Logical(ItemOf(k, s).kind) ==> val in {"n", "m", "y"} && (val == "m" ==> MayBeM(k, s))
  {
    hide ChoiceSymbol, PlainSymbol, StringSymbol, NumberSymbol, Below;
  }

  /** A symbol is only m if it is a tristate, or m itself. */
  lemma FullTyped(k: Config, u: Users, rank: string -> nat)
    requires Coherent(k)
    ensures Typed(k, Full(k, u, rank)) && forall s :: Typed(k, Below(k, u, rank, s))
  {
    hide Meaning, MayBeM, Coherent;
    forall s | !MayBeM(k, s) ensures Full(k, u, rank).v.tri(s) != MOD {
      MeaningTyped(k, u, rank, s);
    }
    forall s, t | !MayBeM(k, t) ensures Below(k, u, rank, s).v.tri(t) != MOD {
      MeaningTyped(k, u, rank, t);
    }
  }

  lemma Fixed(k: Config, u: Users, s: string, w1: View, w2: View)
    requires s in k.syms ==> k.syms[s].special.Some?
    ensures OutcomeIn(k, u, w1, s) == OutcomeIn(k, u, w2, s)
  {
    hide ChoiceSymbol, PlainSymbol, StringSymbol, NumberSymbol;
  }

  lemma BelowAt(k: Config, u: Users, rank: string -> nat, s: string, t: string)
    ensures var v, w := Meaning(k, u, rank, t).val, Below(k, u, rank, s);
            && (rank(t) < rank(s) ==>
                  w.v.str(t) == v && w.v.tri(t) == if Logical(ItemOf(k, t).kind) then TextValue(v) else NO)
            && w.modules == (MODULES in k.syms && rank(MODULES) < rank(s) && Meaning(k, u, rank, MODULES).val == "y")
  {
    hide Meaning, TextValue;
  }

  lemma BelowSame(k: Config, u: Users, rank: string -> nat, s: string)
    requires Coherent(k) && Ranked(k, rank) && s in k.syms && k.syms[s].special.None?
    ensures SameGroup(k, Below(k, u, rank, s), Full(k, u, rank), s)
  {
    hide Reads, Meaning, Sensitive, Coherent, Ranked, Full, Below, Typed, Group, TextValue;
    var w1, w2 := Below(k, u, rank, s), Full(k, u, rank);
    FullTyped(k, u, rank);
    FullModules(k, u, rank);
    BelowAt(k, u, rank, s, s);
    if Sensitive(k, s) && MODULES in k.syms { ModulesBelow(k, rank, s); }
    forall g | g in Group(k, s) ensures Same(k, w1, w2, Reads(k, g), Sensitive(k, g)) {
      Siblings(k, g, s);
      forall t | t in Reads(k, g) ensures w1.v.tri(t) == w2.v.tri(t) && w1.v.str(t) == w2.v.str(t) {
        Lower(k, rank, s, g, t);
        BelowAt(k, u, rank, s, t);
        FullAt(k, u, rank, t);
      }
    }
  }

  /** Every symbol's meaning follows from the meanings of all the others. */
  lemma MeaningEquation(k: Config, u: Users, rank: string -> nat, s: string)
    requires Coherent(k) && UsersFit(k, u) && Ranked(k, rank)
    ensures Meaning(k, u, rank, s) == OutcomeIn(k, u, Full(k, u, rank), s)
  {
    hide OutcomeIn, Ranked, Coherent, SameGroup, Below, Full, UsersFit;
    if s in k.syms && k.syms[s].special.None? {
      BelowSame(k, u, rank, s);
      OutcomeSame(k, u, s, Below(k, u, rank, s), Full(k, u, rank));
    } else {
      Fixed(k, u, s, Below(k, u, rank, s), Full(k, u, rank));
    }
  }

  lemma Siblings(k: Config, g: string, s: string)
    requires Coherent(k) && s in k.syms && g in Group(k, s)
    ensures g in k.syms && s in Group(k, g) && Group(k, g) == Group(k, s)
    ensures g != s ==> Sensitive(k, s)
  {
  }

  lemma Lower(k: Config, rank: string -> nat, s: string, g: string, t: string)
    requires Coherent(k) && Ranked(k, rank) && s in k.syms && g in Group(k, s) && t in Reads(k, g)
    ensures t in k.syms && rank(t) < rank(s)
  {
    hide Reads, Sensitive;
    Siblings(k, g, s);
  }

  /** Two meanings agree on all that the group of `s` directly depends on. */
  ghost predicate AgreeBelow(k: Config, u1: Users, r1: string -> nat, u2: Users, r2: string -> nat, s: string) {
    forall g, t | g in Group(k, s) && t in Reads(k, g) :: Meaning(k, u1, r1, t).val == Meaning(k, u2, r2, t).val
  }

  lemma FullModules(k: Config, u: Users, rank: string -> nat)
    ensures Full(k, u, rank).modules == (MODULES in k.syms && Meaning(k, u, rank, MODULES).val == "y")
  {
    hide Meaning;
  }

  lemma FullAt(k: Config, u: Users, rank: string -> nat, s: string)
    ensures var v, w := Meaning(k, u, rank, s).val, Full(k, u, rank);
            w.v.str(s) == v && w.v.tri(s) == if Logical(ItemOf(k, s).kind) then TextValue(v) else NO
  {
    hide Meaning;
  }

  lemma FullSame(k: Config, u1: Users, r1: string -> nat, u2: Users, r2: string -> nat, s: string)
    requires Coherent(k) && s in k.syms && AgreeBelow(k, u1, r1, u2, r2, s)
    requires Sensitive(k, s) ==> Full(k, u1, r1).modules == Full(k, u2, r2).modules
    ensures SameGroup(k, Full(k, u1, r1), Full(k, u2, r2), s)
  {
    hide Reads, Meaning, Sensitive, Coherent, Full, Typed, Group, TextValue;
    var w1, w2 := Full(k, u1, r1), Full(k, u2, r2);
    FullTyped(k, u1, r1);
    FullTyped(k, u2, r2);
    forall g | g in Group(k, s) ensures Same(k, w1, w2, Reads(k, g), Sensitive(k, g)) {
      Siblings(k, g, s);
      forall t | t in Reads(k, g) ensures w1.v.tri(t) == w2.v.tri(t) && w1.v.str(t) == w2.v.str(t) {
        FullAt(k, u1, r1, t);
        FullAt(k, u2, r2, t);
      }
    }
  }

  lemma SameModules(k: Config, u1: Users, r1: string -> nat, u2: Users, r2: string -> nat)
    requires MODULES in k.syms ==> Meaning(k, u1, r1, MODULES) == Meaning(k, u2, r2, MODULES)
    ensures Full(k, u1, r1).modules == Full(k, u2, r2).modules
  {
    hide Meaning, Full;
    FullModules(k, u1, r1);
    FullModules(k, u2, r2);
  }

  lemma ModulesBelow(k: Config, rank: string -> nat, s: string)
    requires Ranked(k, rank) && s in k.syms && k.syms[s].special.None? && Sensitive(k, s) && MODULES in k.syms
    ensures rank(MODULES) < rank(s)
  {
  }

  /** It does not matter by which order the recursion is justified. */
  lemma {:induction false} MeaningUnique(k: Config, u: Users, r1: string -> nat, r2: string -> nat, s: string)
    requires Coherent(k) && UsersFit(k, u) && Ranked(k, r1) && Ranked(k, r2)
    ensures Meaning(k, u, r1, s) == Meaning(k, u, r2, s)
    decreases r1(s)
  {
    hide OutcomeIn, Coherent, UsersFit, Reads, Sensitive, Meaning, Ranked, Group, Full, SameGroup;
    var w1, w2 := Full(k, u, r1), Full(k, u, r2);
    MeaningEquation(k, u, r1, s);
    MeaningEquation(k, u, r2, s);
    if s in k.syms && k.syms[s].special.None? {
      forall g, t | g in Group(k, s) && t in Reads(k, g) ensures Meaning(k, u, r1, t).val == Meaning(k, u, r2, t).val {
        Lower(k, r1, s, g, t);
        MeaningUnique(k, u, r1, r2, t);
      }
      if Sensitive(k, s) {
        if MODULES in k.syms {
          ModulesBelow(k, r1, s);
          MeaningUnique(k, u, r1, r2, MODULES);
        }
        SameModules(k, u, r1, u, r2);
      }
      FullSame(k, u, r1, u, r2, s);
      OutcomeSame(k, u, s, w1, w2);
    } else {
      Fixed(k, u, s, w1, w2);
    }
  }

  // ----- what a change does not reach -----

  /** Whatever depends on a symbol of the set, or shares a choice with one, is in the set. */
  ghost predicate Saturated(k: Config, x: set<string>) {
    && (forall s, t | s in k.syms && t in Direct(k, s) && t in x :: s in x)
    && (forall s, t | s in k.syms && s in Group(k, t) && t in x :: s in x)
  }

  /** Whatever may ask for a symbol of the set, or shares a choice with one, is in the set. */
  ghost predicate Encloses(k: Config, x: set<string>) {
    && (forall s, t | s in k.syms && t in Reads(k, s) && t in x :: s in x)
    && (forall s, t | s in k.syms && s in Group(k, t) && t in x :: s in x)
  }

  lemma EnclosesSaturated(k: Config, x: set<string>)
    requires Encloses(k, x)
    ensures Saturated(k, x)
  {
    hide Direct, DefaultVisibleNames, Group;
  }

  /** Whatever may ask for a symbol is among its dependents. _build_dep sees to that
      but for the visibility of what a choice defaults to. */
  ghost predicate Tracked(k: Config) {
    forall x | Saturated(k, x) :: Encloses(k, x)
  }

  /** What the user has set differs, if at all, for symbols of the set and their choices. */
  ghost predicate DifferWithin(k: Config, u1: Users, u2: Users, x: set<string>) {
    forall s | s in k.syms && s !in x ::
      && SameAt(u1.val, u2.val, s)
      && (k.syms[s].choice.Some? ==>
            SameAt(u1.sel, u2.sel, k.syms[s].choice.value) && SameAt(u1.mode, u2.mode, k.syms[s].choice.value))
  }

  predicate SameAt<K(==), V(==)>(m1: map<K, V>, m2: map<K, V>, key: K) {
    (key in m1 <==> key in m2) && (key in m1 ==> m1[key] == m2[key])
  }

  lemma UsersSame(k: Config, u1: Users, u2: Users, x: set<string>, s: string, w: View)
    requires DifferWithin(k, u1, u2, x) && s in k.syms && s !in x
    ensures OutcomeIn(k, u1, w, s) == OutcomeIn(k, u2, w, s)
    ensures var c := k.syms[s].choice;
            c.Some? ==> Selection(k, u1, c.value, w) == Selection(k, u2, c.value, w)
  {
    hide Visible, ChoiceVisible, SelectionFromDefaults, LogicalDefault, StringDefault, NumberDefault, ActiveRange;
    var i := k.syms[s];
    assert PlainSymbol(k, u1, s, w) == PlainSymbol(k, u2, s, w);
    assert StringSymbol(k, u1, s, w) == StringSymbol(k, u2, s, w);
    assert forall base: nat :: NumberSymbol(k, u1, s, base, w) == NumberSymbol(k, u2, s, base, w);
  }

  /** Changing user values only within a saturated set leaves the meaning of every
      symbol outside it alone, as long as modules stay enabled or disabled. */
  lemma {:induction false} Unaffected(k: Config, u1: Users, u2: Users, rank: string -> nat, x: set<string>, s: string)
    requires Coherent(k) && UsersFit(k, u1) && UsersFit(k, u2) && Ranked(k, rank)
    requires Encloses(k, x) && DifferWithin(k, u1, u2, x)
    requires Full(k, u1, rank).modules == Full(k, u2, rank).modules || rank(s) <= rank(MODULES)
    requires s in k.syms && s !in x
    ensures Meaning(k, u1, rank, s) == Meaning(k, u2, rank, s)
    ensures k.syms[s].special.None? ==> SameGroup(k, Full(k, u1, rank), Full(k, u2, rank), s)
    decreases rank(s)
  {
    hide OutcomeIn, Coherent, UsersFit, Reads, Sensitive, Meaning, DifferWithin, Ranked, Group, Full, SameGroup, Encloses;
    MeaningEquation(k, u1, rank, s);
    MeaningEquation(k, u2, rank, s);
    forall g, t | g in Group(k, s) && t in Reads(k, g) ensures Meaning(k, u1, rank, t).val == Meaning(k, u2, rank, t).val {
      Lower(k, rank, s, g, t);
      Outside(k, x, s, g, t);
      Unaffected(k, u1, u2, rank, x, t);
    }
    if k.syms[s].special.None? {
      if Sensitive(k, s) && Full(k, u1, rank).modules != Full(k, u2, rank).modules {
        FullModules(k, u1, rank);
        FullModules(k, u2, rank);
        ModulesBelow(k, rank, s);
      }
      FullSame(k, u1, rank, u2, rank, s);
      OutcomeSame(k, u1, s, Full(k, u1, rank), Full(k, u2, rank));
    } else {
      Fixed(k, u1, s, Full(k, u1, rank), Full(k, u2, rank));
    }
    UsersSame(k, u1, u2, x, s, Full(k, u2, rank));
  }

  /** Modules stay as they are unless MODULES itself is among what changes. */
  lemma ModulesKept(k: Config, u1: Users, u2: Users, rank: string -> nat, x: set<string>)
    requires Coherent(k) && UsersFit(k, u1) && UsersFit(k, u2) && Ranked(k, rank)
    requires Encloses(k, x) && DifferWithin(k, u1, u2, x) && MODULES !in x
    ensures Full(k, u1, rank).modules == Full(k, u2, rank).modules
  {
    hide Full, Meaning, Ranked, Coherent, Encloses, DifferWithin, UsersFit, SameGroup;
    if MODULES in k.syms {
      Unaffected(k, u1, u2, rank, x, MODULES);
    }
    SameModules(k, u1, rank, u2, rank);
  }

  lemma Outside(k: Config, x: set<string>, s: string, g: string, t: string)
    requires Coherent(k) && Encloses(k, x) && s in k.syms && s !in x && g in Group(k, s) && t in Reads(k, g)
    ensures t !in x
  {
    hide Reads;
    Siblings(k, g, s);
  }

  // ----- choices -----

  lemma {:induction false} FirstVisibleFound(k: Config, of: seq<string>, w: View)
    ensures var f := FirstVisible(k, of, w);
            && (f.Some? ==> f.value in of && Visible(k, f.value, w) != NO)
            && (f.None? ==> forall s | s in of :: Visible(k, s, w) == NO)
  {
    if of != [] {
      FirstVisibleFound(k, of[1..], w);
    }
  }

  lemma {:induction false} DefaultChoiceFound(defaults: ChoiceDefaults, otherwise: string, w: View)
    ensures var s := DefaultChoice(defaults, otherwise, w);
            s == otherwise || exists d | d in defaults :: d.0 == s
  {
    if defaults != [] {
      DefaultChoiceFound(defaults[1..], otherwise, w);
    }
  }

  /** What a choice selects by default if that is visible. */
  function Default(k: Config, c: nat, w: View): string
    requires ChoiceOf(k, c).actual != []
  {
    DefaultChoice(ChoiceOf(k, c).defaults, ChoiceOf(k, c).actual[0], w)
  }

  predicate AnyVisible(k: Config, c: nat, w: View) {
    exists s | s in ChoiceOf(k, c).actual :: Visible(k, s, w) != NO
  }

  /** The user's selection counts. */
  predicate UserSelects(k: Config, u: Users, c: nat, w: View) {
    c in u.sel && Visible(k, u.sel[c], w) == YES
  }

  /** In mode y there is a selection among the visible symbols of the choice if and
      only if the user's counts, or the choice is not optional, has a visible
      symbol, and does not default to a visible symbol outside it. */
  lemma SelectionFound(k: Config, u: Users, c: nat, w: View)
    requires UsersFit(k, u) && Mode(k, u, c, w) == YES
    ensures var sel := Selection(k, u, c, w);
            && (sel.Some? ==> Visible(k, sel.value, w) != NO)
            && (sel.Some? && sel.value in ChoiceOf(k, c).actual <==>
                  || UserSelects(k, u, c, w)
                  || (&& !ChoiceOf(k, c).optional && AnyVisible(k, c, w)
                      && (Default(k, c, w) in ChoiceOf(k, c).actual || Visible(k, Default(k, c, w), w) == NO)))
  {
    hide Visible, Mode, DefaultChoice;
    FirstVisibleFound(k, ChoiceOf(k, c).actual, w);
  }

  /** In mode y a choice symbol is y if it is the selection, and n otherwise. */
  lemma ChoiceMember(k: Config, u: Users, c: nat, s: string, w: View)
    requires Coherent(k) && UsersFit(k, u) && c in k.choices && s in k.choices[c].actual && Mode(k, u, c, w) == YES
    ensures OutcomeIn(k, u, w, s).val == if Selection(k, u, c, w) == Some(s) then "y" else "n"
  {
    hide Visible, Mode, Selection;
    SelectionFound(k, u, c, w);
  }

  /** A choice in mode y, whatever the other symbols are worth: at most one of its
      symbols is y, and one is if and only if the user's selection counts, or the
      choice is not optional, has a visible symbol, and does not default to a
      visible symbol outside it. */
  lemma ChoiceSymbols(k: Config, u: Users, c: nat, w: View)
    requires Coherent(k) && UsersFit(k, u) && c in k.choices && Mode(k, u, c, w) == YES
    ensures forall s, t | s in k.choices[c].actual && t in k.choices[c].actual ::
              OutcomeIn(k, u, w, s).val == "y" && s != t ==> OutcomeIn(k, u, w, t).val == "n"
    ensures (exists s | s in k.choices[c].actual :: OutcomeIn(k, u, w, s).val == "y")
            <==> || UserSelects(k, u, c, w)
                 || (&& !k.choices[c].optional && AnyVisible(k, c, w)
                     && (Default(k, c, w) in k.choices[c].actual || Visible(k, Default(k, c, w), w) == NO))
  {
    hide Visible, Mode, Selection, OutcomeIn, UserSelects, AnyVisible, Default;
    forall s | s in k.choices[c].actual
      ensures OutcomeIn(k, u, w, s).val == if Selection(k, u, c, w) == Some(s) then "y" else "n"
    {
      ChoiceMember(k, u, c, s, w);
    }
    SelectionFound(k, u, c, w);
  }

  /** The same of a whole configuration. A choice that defaults to its own symbols
      has exactly one y if it is not optional and any of its symbols is visible. */
  lemma ChoiceExactlyOne(k: Config, u: Users, rank: string -> nat, c: nat)
    requires Coherent(k) && UsersFit(k, u) && Ranked(k, rank) && c in k.choices
    requires Mode(k, u, c, Full(k, u, rank)) == YES
    ensures forall s, t | s in k.choices[c].actual && t in k.choices[c].actual ::
              Meaning(k, u, rank, s).val == "y" && s != t ==> Meaning(k, u, rank, t).val == "n"
    ensures var w := Full(k, u, rank);
            (exists s | s in k.choices[c].actual :: Meaning(k, u, rank, s).val == "y")
            <==> || UserSelects(k, u, c, w)
                 || (&& !k.choices[c].optional && AnyVisible(k, c, w)
                     && (Default(k, c, w) in k.choices[c].actual || Visible(k, Default(k, c, w), w) == NO))
    ensures !k.choices[c].optional && AnyVisible(k, c, Full(k, u, rank))
            && (forall d | d in k.choices[c].defaults :: d.0 in k.choices[c].actual) ==>
              exists s | s in k.choices[c].actual :: Meaning(k, u, rank, s).val == "y"
  {
    hide Visible, Mode, Selection, Meaning, OutcomeIn, UserSelects, Full, Ranked, UsersFit, DefaultChoice;
    var w := Full(k, u, rank);
    ChoiceSymbols(k, u, c, w);
    forall s | s in k.choices[c].actual ensures Meaning(k, u, rank, s) == OutcomeIn(k, u, w, s) {
      MeaningEquation(k, u, rank, s);
    }
    if k.choices[c].actual != [] {
      DefaultChoiceFound(k.choices[c].defaults, k.choices[c].actual[0], w);
    }
  }
}
