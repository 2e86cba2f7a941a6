/** kconfiglib's caches: values, visibilities and selections are remembered, and
    forgotten again when something they depend on is set. */
module KconfiglibCache {
  import opened Tristates
  import opened Options
  import opened Exprs
  import opened KconfiglibExpr
  import opened KconfiglibSymbols
  import opened KconfiglibMeaning
  import opened KconfiglibDepend
  import opened KconfiglibFresh
  import opened KconfiglibOrder

  class Configuration {
    const k: Config
    var users: Users
    var value: map<string, Outcome>
    var vis: map<string, Tristate>
    var choiceVis: map<nat, Tristate>
    var selection: map<nat, Option<string>>
    var dep: map<string, set<string>>
    var cachedDeps: map<string, set<string>>

    /** Nothing is set and nothing cached but the fixed values. */
    constructor (k: Config, ghost rank: string -> nat)
      requires Coherent(k) && Ranked(k, rank)
      ensures this.k == k && users == Users(map[], map[], map[]) && Valid(rank) && Linked(rank)
    {
      this.k := k;
      users := Users(map[], map[], map[]);
      value := SpecialValues(k);
      vis, choiceVis, selection, dep, cachedDeps := map[], map[], map[], map[], map[];
      new;
      hide Fresh, Coherent, Ranked, UsersFit, SpecialValues;
      Start(k, users, rank, Cached());
      BuildDep(rank);
    }

    ghost function Cached(): Caches
      reads this
    {
      Caches(value, vis, choiceVis, selection)
    }

    ghost predicate Valid(rank: string -> nat)
      reads this
    {
      Coherent(k) && UsersFit(k, users) && Ranked(k, rank) && Fresh(k, users, rank, Cached())
    }

    ghost function W(rank: string -> nat): View
      reads this
    {
      Full(k, users, rank)
    }

    // ----- evaluation -----

    /** _eval_expr_2: the operands are evaluated in order, up to the first one that
        decides the operator. */
    method EvalTree(e: Sound, ghost rank: string -> nat, ghost n: nat) returns (r: Tristate)
      requires Valid(rank) && Allowed(k, rank, n, Names(e), false)
      modifies this`value, this`vis, this`choiceVis, this`selection
      ensures Valid(rank) && r == Value(e, W(rank).v, false)
      decreases n, 1, e
    {
      hide Fresh, Full, Coherent, UsersFit, Ranked;
      match e
      case Leaf(a) => r := AtomTristate(a, rank, n);
      case Rel(equal, a, b) =>
        var s := AtomText(a, rank, n);
        var t := AtomText(b.value.atom, rank, n);
        r := if (s == t) == equal then YES else NO;
      case Neg(x) =>
        var t := EvalTree(x, rank, n);
        r := if t == YES then NO else if t == NO then YES else MOD;
      case List(op, es) =>
        var decides := if op == And then NO else YES;
        r := 2 - decides;
        var i := 0;
        while i < |es|
          invariant i <= |es| && AllProper(es[i..]) && NamesAll(es[i..]) <= Names(e) && r != decides
          invariant Valid(rank)
          invariant ValueAll(op, es, W(rank).v, false) == Apply(op, r, ValueAll(op, es[i..], W(rank).v, false))
        {
          assert es[i..][1..] == es[i + 1..];
          var t := EvalTree(es[i], rank, n);
          if t == decides { return t; }
          if t == MOD { r := MOD; }
          i := i + 1;
        }
    }

    /** A symbol's value as a tristate, n for types other than bool and tristate. */
    method AtomTristate(a: Atom, ghost rank: string -> nat, ghost n: nat) returns (r: Tristate)
      requires Valid(rank) && Allowed(k, rank, n, AtomNames(a), false)
      modifies this`value, this`vis, this`choiceVis, this`selection
      ensures Valid(rank) && r == AtomValue(a, W(rank).v)
      decreases n, 0
    {
      hide Fresh, Full, Coherent, UsersFit, Ranked;
      match a
      case Text(t) => r := TextValue(t);
      case Name(s) =>
        FullAt(k, users, rank, s);
        if !Logical(ItemOf(k, s).kind) { return NO; }
        var t := GetValue(s, rank);
        r := TextValue(t);
    }

    /** _get_str_value. */
    method AtomText(a: Atom, ghost rank: string -> nat, ghost n: nat) returns (r: string)
      requires Valid(rank) && Allowed(k, rank, n, AtomNames(a), false)
      modifies this`value, this`vis, this`choiceVis, this`selection
      ensures Valid(rank) && r == AtomString(a, W(rank).v)
      decreases n, 0
    {
      hide Fresh, Full, Coherent, UsersFit, Ranked;
      match a
      case Text(t) => r := t;
      case Name(s) =>
        FullAt(k, users, rank, s);
        r := GetValue(s, rank);
    }

    /** _has_modules, asked for only when something is m. */
    method Promote(t: Tristate, ghost rank: string -> nat, ghost n: nat) returns (r: Tristate)
      requires Valid(rank) && Allowed(k, rank, n, {}, t == MOD)
      modifies this`value, this`vis, this`choiceVis, this`selection
      ensures Valid(rank) && r == Promoted(t, W(rank))
      decreases n, 0
    {
      hide Fresh, Full, Coherent, UsersFit, Ranked;
      if t != MOD { return t; }
      FullModules(k, users, rank);
      if MODULES !in k.syms { return YES; }
      var v := GetValue(MODULES, rank);
      r := if v == "y" then MOD else YES;
    }

    /** _eval_expr. */
    method EvalExpr(e: Option<Sound>, ghost rank: string -> nat, ghost n: nat) returns (r: Tristate)
      requires Valid(rank) && Allowed(k, rank, n, OptionNames(e), OptionCanBeM(k, e))
      modifies this`value, this`vis, this`choiceVis, this`selection
      ensures Valid(rank) && r == Ev(e, W(rank)) && (r == MOD ==> OptionCanBeM(k, e))
      decreases n, 2
    {
      hide Fresh, Full, Coherent, UsersFit, Ranked, Names, Value, CanBeM, Meaning;
      if e.None? { return YES; }
      var t := EvalTree(e.value, rank, n);
      NotM(e.value, rank);
      r := Promote(t, rank, n);
    }

    lemma NotM(e: Sound, rank: string -> nat)
      requires Coherent(k)
      ensures !CanBeM(k, e) ==> Value(e, W(rank).v, false) != MOD
    {
      if !CanBeM(k, e) {
        FullTyped(k, users, rank);
        ValueNotM(k, e, W(rank));
      }
    }

    /** _eval_min of two tristates. */
    method MinOf(a: Tristate, b: Tristate, ghost rank: string -> nat, ghost n: nat) returns (r: Tristate)
      requires Valid(rank) && Allowed(k, rank, n, {}, a == MOD || b == MOD)
      modifies this`value, this`vis, this`choiceVis, this`selection
      ensures Valid(rank) && r == EvMin(a, b, W(rank))
      decreases n, 1
    {
      hide Fresh, Full, Coherent, UsersFit, Ranked;
      var p := Promote(a, rank, n);
      var q := Promote(b, rank, n);
      r := Min(p, q);
    }

    /** The loop of _get_visibility over the prompts. */
    method PromptVisibility(prompts: Prompts, ghost rank: string -> nat, ghost n: nat, ghost sensitive: bool)
      returns (r: Tristate)
      requires Valid(rank) && Allowed(k, rank, n, PromptNames(prompts), sensitive)
      requires forall e | e in prompts :: OptionCanBeM(k, e) ==> sensitive
      modifies this`value, this`vis, this`choiceVis, this`selection
      ensures Valid(rank) && r == PromptMax(prompts, W(rank)) && (r == MOD ==> sensitive && W(rank).modules)
      decreases n, 3
    {
      hide Fresh, Full, Coherent, UsersFit, Ranked, Value, OptionCanBeM, OptionNames;
      r := NO;
      for i := 0 to |prompts|
        invariant Valid(rank) && PromptNames(prompts[i..]) <= PromptNames(prompts)
        invariant PromptMax(prompts, W(rank)) == Max(r, PromptMax(prompts[i..], W(rank)))
        invariant r == MOD ==> sensitive && W(rank).modules
      {
        assert prompts[i..][1..] == prompts[i + 1..];
        assert prompts[i] in prompts;
        var p := Promote(r, rank, n);
        var t := EvalExpr(prompts[i], rank, n);
        r := Max(p, t);
      }
    }

    /** _get_visibility of a choice; `s` is one of its symbols. */
    method GetChoiceVisibility(c: nat, ghost s: string, ghost rank: string -> nat, ghost n: nat) returns (r: Tristate)
      requires Valid(rank) && s in k.syms && k.syms[s].choice == Some(c)
      requires Allowed(k, rank, n, PromptNames(ChoiceOf(k, c).prompts), true)
      modifies this`value, this`vis, this`choiceVis, this`selection
      ensures Valid(rank) && r == ChoiceVisible(k, c, W(rank)) && (r == MOD ==> W(rank).modules)
      decreases n, 4
    {
      hide Fresh, Full, Coherent, Ranked, UsersFit, Allowed, PromptMax, PromptNames, OptionCanBeM;
      RankedChoice(k, rank, s);
      ChoiceVisibleModules(k, c, W(rank));
      StoreChoiceVis(k, users, rank, Cached(), c);
      if c in choiceVis { return choiceVis[c]; }
      var t := PromptVisibility(k.choices[c].prompts, rank, n, true);
      r := if t == MOD && k.choices[c].kind != Tri then YES else t;
      StoreChoiceVis(k, users, rank, Cached(), c);
      choiceVis := choiceVis[c := r];
    }

    /** _get_visibility of a symbol. */
    method GetVisibility(s: string, ghost rank: string -> nat, ghost n: nat) returns (r: Tristate)
      requires Valid(rank) && s in k.syms && !IsSpecial(k, s) && Allowed(k, rank, n, VisibleNames(k, s), Sensitive(k, s))
      modifies this`value, this`vis, this`choiceVis, this`selection
      ensures Valid(rank) && r == Visible(k, s, W(rank)) && (r == MOD ==> Sensitive(k, s))
      decreases n, 5
    {
      hide Fresh, Full, Coherent, Ranked, UsersFit, PromptMax, PromptNames, OptionCanBeM, Direct, ChoiceVisible, Sensitive;
      VisibleM(k, s, W(rank));
      StoreVis(k, users, rank, Cached(), s);
      if s in vis { return vis[s]; }
      var i := k.syms[s];
      RankedSymbol(k, rank, s);
      var t := PromptVisibility(i.prompts, rank, n, Sensitive(k, s));
      if i.choice.Some? {
        var p := GetChoiceVisibility(i.choice.value, s, rank, n);
        t := MinOf(t, p, rank, n);
      }
      r := if t == MOD && i.kind != Tri then YES else t;
      StoreVis(k, users, rank, Cached(), s);
      vis := vis[s := r];
    }

    /** The visibility of a symbol, asked for on its own. */
    method VisibilityOf(s: string, ghost rank: string -> nat) returns (r: Tristate)
      requires Valid(rank) && s in k.syms && !IsSpecial(k, s)
      modifies this`value, this`vis, this`choiceVis, this`selection
      ensures Valid(rank) && r == Visible(k, s, W(rank)) && (r == MOD ==> Sensitive(k, s))
      decreases rank(s), 6
    {
      hide Fresh, Full, Coherent, Ranked, UsersFit, Visible, VisibleNames, Sensitive, Allowed;
      RankedVisible(k, rank, s);
      r := GetVisibility(s, rank, rank(s));
    }

    /** Choice.get_mode. */
    method GetMode(c: nat, ghost s: string, ghost rank: string -> nat) returns (r: Tristate)
      requires Valid(rank) && s in k.syms && k.syms[s].choice == Some(c)
      modifies this`value, this`vis, this`choiceVis, this`selection
      ensures Valid(rank) && r == Mode(k, users, c, W(rank))
      decreases rank(s), 7
    {
      hide Fresh, Full, Coherent, Ranked, UsersFit, ChoiceVisible, ChoiceNames, PromptNames;
      RankedChoice(k, rank, s);
      var i := k.choices[c];
      var wanted := if c in users.mode then users.mode[c] else if i.optional then NO else MOD;
      var v := GetChoiceVisibility(c, s, rank, rank(s));
      r := MinOf(wanted, v, rank, rank(s));
      if r == MOD && i.kind == Boolean { r := YES; }
    }

    /** The symbol a choice defaults to, visible or not. */
    method GetDefaultChoice(c: nat, ghost s: string, ghost rank: string -> nat) returns (r: string)
      requires Valid(rank) && s in k.syms && k.syms[s].choice == Some(c) && c in k.choices && k.choices[c].actual != []
      modifies this`value, this`vis, this`choiceVis, this`selection
      ensures Valid(rank) && r == DefaultChoice(k.choices[c].defaults, k.choices[c].actual[0], W(rank))
      decreases rank(s), 7
    {
      hide Fresh, Full, Coherent, Ranked, UsersFit, PromptNames, OptionNames, OptionCanBeM, Ev;
      RankedChoice(k, rank, s);
      var i := k.choices[c];
      for j := 0 to |i.defaults|
        invariant Valid(rank)
        invariant ChoiceDefaultNames(i.defaults[j..]) <= ChoiceDefaultNames(i.defaults)
        invariant DefaultChoice(i.defaults, i.actual[0], W(rank)) == DefaultChoice(i.defaults[j..], i.actual[0], W(rank))
      {
        assert i.defaults[j..][1..] == i.defaults[j + 1..];
        var t := EvalExpr(i.defaults[j].1, rank, rank(s));
        if t != NO { return i.defaults[j].0; }
      }
      r := i.actual[0];
    }

    /** Choice.get_selection_from_defaults. */
    method GetSelectionFromDefaults(c: nat, ghost s: string, ghost rank: string -> nat) returns (r: Option<string>)
      requires Valid(rank) && s in k.syms && k.syms[s].choice == Some(c)
      modifies this`value, this`vis, this`choiceVis, this`selection
      ensures Valid(rank) && r == SelectionFromDefaults(k, c, W(rank))
      decreases rank(s), 8
    {
      hide Fresh, Full, Coherent, Ranked, UsersFit, Visible, Sensitive, DefaultChoice, Allowed, ChoiceNames, PromptNames;
      RankedChoice(k, rank, s);
      var i := k.choices[c];
      var chosen := GetDefaultChoice(c, s, rank);
      DefaultChoiceFound(i.defaults, i.actual[0], W(rank));
      RankedSiblings(k, rank, s);
      ChosenAllowed(k, rank, s, chosen);
      var v := GetVisibility(chosen, rank, rank(s));
      if v != NO { return Some(chosen); }
      for j := 0 to |i.actual|
        invariant Valid(rank)
        invariant FirstVisible(k, i.actual, W(rank)) == FirstVisible(k, i.actual[j..], W(rank))
      {
        assert i.actual[j] in i.actual && i.actual[j..][1..] == i.actual[j + 1..];
        v := VisibilityOf(i.actual[j], rank);
        if v != NO { return Some(i.actual[j]); }
      }
      r := None;
    }

    /** Choice.get_selection. */
    method GetSelection(c: nat, ghost s: string, ghost rank: string -> nat) returns (r: Option<string>)
      requires Valid(rank) && s in k.syms && k.syms[s].choice == Some(c)
      modifies this`value, this`vis, this`choiceVis, this`selection
      ensures Valid(rank) && r == Selection(k, users, c, W(rank))
      decreases rank(s), 10
    {
      hide Fresh, Full, Coherent, Ranked, UsersFit, Visible, Sensitive, Mode, Allowed, ChoiceNames, PromptNames, SelectionFromDefaults;
      RankedChoice(k, rank, s);
      StoreSelection(k, users, rank, Cached(), c);
      if c in selection { return selection[c]; }
      r := FindSelection(c, s, rank);
      StoreSelection(k, users, rank, Cached(), c);
      selection := selection[c := r];
    }

    method FindSelection(c: nat, ghost s: string, ghost rank: string -> nat) returns (r: Option<string>)
      requires Valid(rank) && s in k.syms && k.syms[s].choice == Some(c)
      modifies this`value, this`vis, this`choiceVis, this`selection
      ensures Valid(rank) && r == Selection(k, users, c, W(rank))
      decreases rank(s), 9
    {
      hide Fresh, Full, Coherent, Ranked, Visible, Sensitive, Mode, Allowed, ChoiceNames, PromptNames, SelectionFromDefaults;
      RankedChoice(k, rank, s);
      RankedSiblings(k, rank, s);
      var mode := GetMode(c, s, rank);
      if mode != YES { return None; }
      if c in users.sel {
        var v := VisibilityOf(users.sel[c], rank);
        if v == YES { return Some(users.sel[c]); }
      }
      if k.choices[c].optional { return None; }
      r := GetSelectionFromDefaults(c, s, rank);
    }

    /** The part of get_value for choice symbols. */
    method CalcChoiceSymbol(s: string, c: nat, ghost rank: string -> nat) returns (r: (Tristate, bool))
      requires Valid(rank) && s in k.syms && k.syms[s].choice == Some(c)
      modifies this`value, this`vis, this`choiceVis, this`selection
      ensures Valid(rank) && r == ChoiceSymbol(k, users, s, c, W(rank))
      decreases rank(s), 11
    {
      hide Fresh, Full, Coherent, Ranked, UsersFit, Visible, Sensitive, Mode, Selection, Allowed, ChoiceNames, PromptNames;
      RankedChoice(k, rank, s);
      var tri := NO;
      var v := VisibilityOf(s, rank);
      if v == NO { return (NO, false); }
      var mode := GetMode(c, s, rank);
      if mode == YES {
        var sel := GetSelection(c, s, rank);
        if sel == Some(s) { tri := YES; }
      } else if mode == MOD {
        if s in users.val && (users.val[s] == "m" || users.val[s] == "y") { tri := MOD; }
      }
      return (tri, mode != NO);
    }

    /** The first default of a bool or tristate symbol that applies. */
    method CalcLogicalDefault(s: string, ghost rank: string -> nat) returns (r: Option<Tristate>)
      requires Valid(rank) && s in k.syms && !IsSpecial(k, s)
      modifies this`value, this`vis, this`choiceVis, this`selection
      ensures Valid(rank) && r == LogicalDefault(k.syms[s].defaults, W(rank)) && (r == Some(MOD) ==> Sensitive(k, s))
      decreases rank(s), 3
    {
      hide Fresh, Full, Coherent, Ranked, UsersFit, PromptNames, RangeNames, ChoiceNames, Names, Ev, CanBeM, Sensitive, Meaning;
      var defaults := k.syms[s].defaults;
      for j := 0 to |defaults|
        invariant Valid(rank)
        invariant LogicalDefault(defaults, W(rank)) == LogicalDefault(defaults[j..], W(rank))
      {
        assert defaults[j..][1..] == defaults[j + 1..];
        RankedDefault(k, rank, s, j);
        var t := EvalExpr(defaults[j].1, rank, rank(s));
        if t != NO {
          var v := EvalExpr(Some(defaults[j].0), rank, rank(s));
          var m := MinOf(v, t, rank, rank(s));
          return Some(m);
        }
      }
      r := None;
    }

    /** The part of get_value for other bool and tristate symbols. */
    method CalcPlain(s: string, ghost rank: string -> nat) returns (r: (Tristate, bool))
      requires Valid(rank) && s in k.syms && !IsSpecial(k, s) && Logical(k.syms[s].kind)
      modifies this`value, this`vis, this`choiceVis, this`selection
      ensures Valid(rank) && r == PlainSymbol(k, users, s, W(rank))
      decreases rank(s), 11
    {
      hide Fresh, Full, Coherent, Ranked, Visible, LogicalDefault, Value, Names, CanBeM, Direct, Meaning;
      RankedDefaults(k, rank, s);
      var i := k.syms[s];
      var vis := VisibilityOf(s, rank);
      var tri, write := NO, false;
      if vis != NO {
        write := true;
      }
      if vis != NO && s in users.val {
        assert users.val[s] == "m" ==> Sensitive(k, s);
        tri := MinOf(TextValue(users.val[s]), vis, rank, rank(s));
      } else {
        var d := CalcLogicalDefault(s, rank);
        if d.Some? {
          write := true;
          tri := d.value;
        }
      }
      var rev := EvalExpr(Some(i.revDep), rank, rank(s));
      if rev != NO {
        write := true;
        var p := Promote(tri, rank, rank(s));
        var q := Promote(rev, rank, rank(s));
        tri := Max(p, q);
      }
      return (tri, write);
    }

    /** The part of get_value for string symbols. */
    method CalcString(s: string, ghost rank: string -> nat) returns (r: Outcome)
      requires Valid(rank) && s in k.syms && !IsSpecial(k, s) && !Logical(k.syms[s].kind)
      modifies this`value, this`vis, this`choiceVis, this`selection
      ensures Valid(rank) && r == StringSymbol(k, users, s, W(rank))
      decreases rank(s), 11
    {
      hide Fresh, Full, Coherent, Ranked, UsersFit, Visible, Ev, Names, CanBeM, Sensitive, Meaning;
      var defaults := k.syms[s].defaults;
      var vis := VisibilityOf(s, rank);
      if vis != NO && s in users.val { return Outcome(users.val[s], true); }
      for j := 0 to |defaults|
        invariant Valid(rank)
        invariant StringDefault(defaults, W(rank)) == StringDefault(defaults[j..], W(rank))
      {
        assert defaults[j..][1..] == defaults[j + 1..];
        RankedDefault(k, rank, s, j);
        var t := EvalExpr(defaults[j].1, rank, rank(s));
        if t != NO {
          var v := AtomText(defaults[j].0.atom, rank, rank(s));
          return Outcome(v, true);
        }
      }
      r := Outcome("", vis != NO);
    }

    /** The active range of an int or hex symbol. */
    method CalcRange(s: string, base: nat, ghost rank: string -> nat) returns (r: Range)
      requires Valid(rank) && s in k.syms && !IsSpecial(k, s)
      modifies this`value, this`vis, this`choiceVis, this`selection
      ensures Valid(rank) && r == ActiveRange(k, k.syms[s].ranges, base, W(rank))
      decreases rank(s), 3
    {
      hide Fresh, Full, Coherent, Ranked, UsersFit, Ev, Names, CanBeM, Sensitive, Meaning;
      var ranges := k.syms[s].ranges;
      RankedDefaults(k, rank, s);
      for j := 0 to |ranges|
        invariant Valid(rank)
        invariant RangeNames(ranges[j..]) <= RangeNames(ranges)
        invariant ActiveRange(k, ranges, base, W(rank)) == ActiveRange(k, ranges[j..], base, W(rank))
      {
        assert ranges[j] in ranges && ranges[j..][1..] == ranges[j + 1..];
        var t := EvalExpr(ranges[j].2, rank, rank(s));
        if t != NO {
          var low := AtomText(ranges[j].0, rank, rank(s));
          var high := AtomText(ranges[j].1, rank, rank(s));
          return Range(NumberOr0(k, low, base), NumberOr0(k, high, base));
        }
      }
      r := NoRange;
    }

    /** The part of get_value for int and hex symbols. */
    method CalcNumber(s: string, base: nat, ghost rank: string -> nat) returns (r: Outcome)
      requires Valid(rank) && s in k.syms && !IsSpecial(k, s) && !Logical(k.syms[s].kind)
      modifies this`value, this`vis, this`choiceVis, this`selection
      ensures Valid(rank) && r == NumberSymbol(k, users, s, base, W(rank))
      decreases rank(s), 11
    {
      hide Fresh, Full, Coherent, Ranked, UsersFit, Visible, ActiveRange, NumberDefault, Sensitive, Allowed;
      var limits := CalcRange(s, base, rank);
      var vis := VisibilityOf(s, rank);
      if vis != NO && s in users.val {
        var n := k.number(users.val[s], base);
        if n.Some? && (limits.NoRange? || limits.low <= n.value <= limits.high) {
          return Outcome(users.val[s], true);
        }
      }
      r := CalcNumberDefault(s, base, limits, vis != NO, rank);
    }

    method CalcNumberDefault(s: string, base: nat, limits: Range, write: bool, ghost rank: string -> nat) returns (r: Outcome)
      requires Valid(rank) && s in k.syms && !IsSpecial(k, s) && !Logical(k.syms[s].kind)
      modifies this`value, this`vis, this`choiceVis, this`selection
      ensures Valid(rank) && r == NumberDefault(k, k.syms[s].defaults, base, limits, W(rank), Outcome("", write))
      decreases rank(s), 3
    {
      hide Fresh, Full, Coherent, Ranked, UsersFit, Ev, Names, CanBeM, Sensitive, Meaning, Clamped;
      var defaults := k.syms[s].defaults;
      r := Outcome("", write);
      ghost var result := NumberDefault(k, defaults, base, limits, W(rank), r);
      for j := 0 to |defaults|
        invariant Valid(rank)
        invariant result == NumberDefault(k, defaults[j..], base, limits, W(rank), r)
      {
        assert defaults[j..][1..] == defaults[j + 1..];
        RankedDefault(k, rank, s, j);
        var t := EvalExpr(defaults[j].1, rank, rank(s));
        if t != NO {
          var v := AtomText(defaults[j].0.atom, rank, rank(s));
          r := Outcome(v, true);
          if k.number(v, base).Some? {
            return Outcome(Clamped(k, v, base, limits), true);
          }
        }
      }
      if limits.Range? && limits.low > 0 {
        r := Outcome(k.shown(base == 16, limits.low), r.write);
      }
    }

    /** What get_value computes when nothing is cached. */
    method CalcValue(s: string, ghost rank: string -> nat) returns (r: Outcome)
      requires Valid(rank) && s in k.syms && !IsSpecial(k, s)
      modifies this`value, this`vis, this`choiceVis, this`selection
      ensures Valid(rank) && r == OutcomeIn(k, users, W(rank), s)
      decreases rank(s), 12
    {
      hide Fresh, Full, Coherent, Ranked, UsersFit, ChoiceSymbol, PlainSymbol, StringSymbol, NumberSymbol;
      var i := k.syms[s];
      if i.kind == Unknown { return Outcome(s, false); }
      if Logical(i.kind) {
        var p;
        if i.choice.Some? {
          p := CalcChoiceSymbol(s, i.choice.value, rank);
        } else {
          p := CalcPlain(s, rank);
        }
        var tri := p.0;
        if tri == MOD && i.kind == Boolean { tri := YES; }
        r := Outcome(TristateName(tri), p.1);
      } else if i.kind == String {
        r := CalcString(s, rank);
      } else {
        r := CalcNumber(s, if i.kind == Hex then 16 else 10, rank);
      }
    }

    /** Symbol.get_value: whatever is cached, the answer is the one without caches. */
    method GetValue(s: string, ghost rank: string -> nat) returns (r: string)
      requires Valid(rank) && s in k.syms
      modifies this`value, this`vis, this`choiceVis, this`selection
      ensures Valid(rank) && r == Meaning(k, users, rank, s).val && s in value && value[s] == Meaning(k, users, rank, s)
      decreases rank(s), 13
    {
      hide Fresh, Full, Coherent, Ranked, UsersFit, Meaning, OutcomeIn;
      StoreValue(k, users, rank, Cached(), s);
      if s in value { return value[s].val; }
      var o := CalcValue(s, rank);
      MeaningEquation(k, users, rank, s);
      StoreValue(k, users, rank, Cached(), s);
      value := value[s := o];
      r := o.val;
    }

    // ----- dependencies -----

    ghost predicate Linked(rank: string -> nat)
      reads this`dep, this`cachedDeps
    {
      && (forall s | s in k.syms :: s in dep && dep[s] == Dependents(k, s))
      && (forall s | s in cachedDeps :: s in k.syms && IsDependent(k, s, cachedDeps[s]))
    }

    /** add_expr_deps. `d0` is what dep was before anything of `s` was added, `seen`
        the symbols `s` has been added to since. */
    method AddDeps(on: set<string>, s: string, ghost d0: map<string, set<string>>, ghost seen: set<string>)
      requires on <= d0.Keys && Added(d0, dep, seen, s)
      modifies this`dep
      ensures Added(d0, dep, seen + on, s)
    {
      var rest := on;
      while rest != {}
        invariant rest <= on && Added(d0, dep, seen + (on - rest), s)
      {
        var t :| t in rest;
        dep := dep[t := dep[t] + {s}];
        rest := rest - {t};
      }
      assert on - {} == on;
    }

    method AddPromptDeps(prompts: Prompts, s: string, ghost d0: map<string, set<string>>, ghost seen: set<string>)
      requires PromptNames(prompts) <= d0.Keys && Added(d0, dep, seen, s)
      modifies this`dep
      ensures Added(d0, dep, seen + PromptNames(prompts), s)
    {
      hide Added, OptionNames;
      ghost var now := seen;
      for i := 0 to |prompts|
        invariant Added(d0, dep, now, s) && now + PromptNames(prompts[i..]) == seen + PromptNames(prompts)
        invariant PromptNames(prompts[i..]) <= d0.Keys
      {
        assert prompts[i..][1..] == prompts[i + 1..];
        AddDeps(OptionNames(prompts[i]), s, d0, now);
        now := now + OptionNames(prompts[i]);
      }
      assert now + {} == now;
    }

    method AddDefaultDeps(defaults: Defaults, s: string, ghost d0: map<string, set<string>>, ghost seen: set<string>)
      requires DefaultNames(defaults) <= d0.Keys && Added(d0, dep, seen, s)
      modifies this`dep
      ensures Added(d0, dep, seen + DefaultNames(defaults), s)
    {
      hide Added, OptionNames, Names;
      ghost var now := seen;
      for i := 0 to |defaults|
        invariant Added(d0, dep, now, s) && now + DefaultNames(defaults[i..]) == seen + DefaultNames(defaults)
        invariant DefaultNames(defaults[i..]) <= d0.Keys
      {
        assert defaults[i..][1..] == defaults[i + 1..];
        AddDeps(Names(defaults[i].0), s, d0, now);
        now := now + Names(defaults[i].0);
        AddDeps(OptionNames(defaults[i].1), s, d0, now);
        now := now + OptionNames(defaults[i].1);
      }
      assert now + {} == now;
    }

    method AddRangeDeps(ranges: Ranges, s: string, ghost d0: map<string, set<string>>, ghost seen: set<string>)
      requires RangeNames(ranges) <= d0.Keys && Added(d0, dep, seen, s)
      modifies this`dep
      ensures Added(d0, dep, seen + RangeNames(ranges), s)
    {
      hide Added, OptionNames, AtomNames;
      ghost var now := seen;
      for i := 0 to |ranges|
        invariant Added(d0, dep, now, s) && now + RangeNames(ranges[i..]) == seen + RangeNames(ranges)
        invariant RangeNames(ranges[i..]) <= d0.Keys
      {
        assert ranges[i..][1..] == ranges[i + 1..];
        AddDeps(AtomNames(ranges[i].0), s, d0, now);
        now := now + AtomNames(ranges[i].0);
        AddDeps(AtomNames(ranges[i].1), s, d0, now);
        now := now + AtomNames(ranges[i].1);
        AddDeps(OptionNames(ranges[i].2), s, d0, now);
        now := now + OptionNames(ranges[i].2);
      }
      assert now + {} == now;
    }

    method AddChoiceDeps(c: ChoiceItem, s: string, ghost d0: map<string, set<string>>, ghost seen: set<string>)
      requires ChoiceNames(c) <= d0.Keys && Added(d0, dep, seen, s)
      modifies this`dep
      ensures Added(d0, dep, seen + ChoiceNames(c), s)
    {
      hide Added, OptionNames, PromptNames;
      AddPromptDeps(c.prompts, s, d0, seen);
      ghost var now := seen + PromptNames(c.prompts);
      for i := 0 to |c.defaults|
        invariant Added(d0, dep, now, s) && now + ChoiceDefaultNames(c.defaults[i..]) == seen + ChoiceNames(c)
        invariant ChoiceDefaultNames(c.defaults[i..]) <= d0.Keys
      {
        assert c.defaults[i..][1..] == c.defaults[i + 1..];
        AddDeps(OptionNames(c.defaults[i].1), s, d0, now);
        now := now + OptionNames(c.defaults[i].1);
      }
      assert now + {} == now;
    }

    /** What _build_dep does for one symbol. */
    method AddSymbolDeps(s: string)
      requires s in k.syms && Direct(k, s) <= dep.Keys
      modifies this`dep
      ensures Added(old(dep), dep, Direct(k, s), s)
    {
      hide PromptNames, DefaultNames, RangeNames, ChoiceNames, Names, Added;
      var i := k.syms[s];
      ghost var d0 := dep;
      NothingAdded(d0, s);
      ghost var now: set<string> := {};
      AddPromptDeps(i.prompts, s, d0, now);
      now := now + PromptNames(i.prompts);
      AddDefaultDeps(i.defaults, s, d0, now);
      now := now + DefaultNames(i.defaults);
      AddDeps(Names(i.revDep), s, d0, now);
      now := now + Names(i.revDep);
      AddRangeDeps(i.ranges, s, d0, now);
      now := now + RangeNames(i.ranges);
      if i.choice.Some? {
        AddChoiceDeps(ChoiceOf(k, i.choice.value), s, d0, now);
        now := now + ChoiceNames(ChoiceOf(k, i.choice.value));
      }
      assert now == Direct(k, s);
    }

    /** _build_dep. */
    method BuildDep(ghost rank: string -> nat)
      requires Ranked(k, rank) && cachedDeps == map[]
      modifies this`dep
      ensures Linked(rank)
    {
      hide Direct, Ranked, Built, Added, Dependents;
      dep := map s | s in k.syms :: {};
      var rest := k.syms.Keys;
      NothingBuilt(k, dep);
      while rest != {}
        invariant rest <= k.syms.Keys && Built(k, dep, rest)
      {
        var s :| s in rest;
        ghost var d := dep;
        DirectKnown(k, rank, dep, s, rest);
        AddSymbolDeps(s);
        OneBuilt(k, d, dep, s, rest);
        rest := rest - {s};
      }
      AllBuilt(k, dep);
    }

    /** _add_dependent_ignore_siblings. */
    method AddDependent(s: string, to: set<string>, ghost rank: string -> nat) returns (r: set<string>, ghost v: set<string>)
      requires Coherent(k) && Ranked(k, rank) && Linked(rank) && s in k.syms
      modifies this`cachedDeps
      ensures Linked(rank) && r == to + v && Reached(k, rank, s, v) && Dependents(k, s) <= v
      decreases Higher(k, rank, s), 0
    {
      hide Direct, Sensitive, Group, Saturated, IsDependent, Coherent;
      r, v := to, {};
      NothingReached(k, rank, s);
      var rest := dep[s];
      while rest != {}
        invariant rest <= Dependents(k, s) && Dependents(k, s) - rest <= v
        invariant Linked(rank) && r == to + v && Reached(k, rank, s, v)
        decreases rest
      {
        var t :| t in rest;
        HigherShrinks(k, rank, s, t);
        var d := GetDependent(t, rank);
        OneReached(k, rank, s, t, d, v);
        r := r + {t} + d;
        v := v + ({t} + d);
        rest := rest - {t};
      }
    }

    /** Symbol._get_dependent: all symbols the symbol can affect. */
    method GetDependent(s: string, ghost rank: string -> nat) returns (r: set<string>)
      requires Coherent(k) && Ranked(k, rank) && Linked(rank) && s in k.syms
      modifies this`cachedDeps
      ensures Linked(rank) && IsDependent(k, s, r)
      decreases Higher(k, rank, s), 2
    {
      hide Direct, Sensitive, Saturated, IsDependent, Reached;
      if s in cachedDeps { return cachedDeps[s]; }
      ghost var v;
      r, v := AddDependent(s, {}, rank);
      assert r == v + (Group(k, s) - {s}) || k.syms[s].choice.Some?;
      if k.syms[s].choice.Some? {
        r, v := AddSiblings(s, r, v, rank);
      }
      Together(k, rank, s, v);
      cachedDeps := cachedDeps[s := r];
    }

    method AddSiblings(s: string, to: set<string>, ghost u: set<string>, ghost rank: string -> nat)
      returns (r: set<string>, ghost v: set<string>)
      requires Coherent(k) && Ranked(k, rank) && Linked(rank) && s in k.syms && k.syms[s].choice.Some?
      requires to == u && Reached(k, rank, s, u) && Dependents(k, s) <= u
      modifies this`cachedDeps
      ensures Linked(rank) && r == v + (Group(k, s) - {s}) && Reached(k, rank, s, v)
      ensures forall g | g in Group(k, s) :: Dependents(k, g) <= v
      decreases Higher(k, rank, s), 1
    {
      hide Direct, Sensitive, Saturated, IsDependent, Reached, Coherent, Dependents;
      RankedSiblings(k, rank, s);
      var siblings := k.choices[k.syms[s].choice.value].actual;
      r, v := to, u;
      for i := 0 to |siblings|
        invariant Linked(rank) && Reached(k, rank, s, v) && Dependents(k, s) <= v
        invariant r == v + ((set g | g in siblings[..i]) - {s})
        invariant forall g | g in siblings[..i] :: Dependents(k, g) <= v
      {
        var t := siblings[i];
        assert siblings[..i + 1] == siblings[..i] + [t];
        if t != s {
          SameHigher(k, rank, s, t);
          ghost var w;
          r, w := AddDependent(t, r + {t}, rank);
          SiblingReached(k, rank, s, t, v, w);
          v := v + w;
        }
      }
      assert siblings[..|siblings|] == siblings;
    }

    // ----- setting and unsetting -----

    /** Symbol._invalidate, which also invalidates the symbol's choice. */
    method Invalidate(s: string)
      requires Coherent(k)
      modifies this`value, this`vis, this`choiceVis, this`selection
      ensures Cached() == Without(k, {s}, old(Cached()))
    {
      hide Coherent;
      var i := ItemOf(k, s);
      CoherentItem(k, s);
      WithoutOne(k, s, Cached());
      if i.special.Some? { return; }
      if i.choice.Some? {
        choiceVis := choiceVis - {i.choice.value};
        selection := selection - {i.choice.value};
      }
      vis := vis - {s};
      value := value - {s};
    }

    /** _invalidate of all the symbols in `on`. */
    method InvalidateSet(on: set<string>)
      requires Coherent(k)
      modifies this`value, this`vis, this`choiceVis, this`selection
      ensures Cached() == Without(k, on, old(Cached()))
    {
      hide Coherent, Without;
      var rest := on;
      WithoutNone(k, Cached());
      assert on - rest == {};
      while rest != {}
        invariant rest <= on && Cached() == Without(k, on - rest, old(Cached()))
      {
        var s :| s in rest;
        WithoutTwice(k, on - rest, {s}, old(Cached()));
        assert on - rest + {s} == on - (rest - {s});
        Invalidate(s);
        rest := rest - {s};
      }
      assert on - {} == on;
    }

    /** _set_user_value_no_invalidate. */
    method Assign(s: string, v: string)
      modifies this`users
      ensures users == Assigned(k, old(users), s, v)
    {
      var i := ItemOf(k, s);
      if i.special.Some? { return; }
      if !i.defined { return; }
      if !Accepts(k, s, v) { return; }
      users := users.(val := users.val[s := v]);
      if i.choice.Some? && Logical(i.kind) {
        if v == "y" {
          users := users.(sel := users.sel[i.choice.value := s]);
          users := users.(mode := users.mode[i.choice.value := YES]);
        } else if v == "m" {
          users := users.(sel := users.sel - {i.choice.value});
          users := users.(mode := users.mode[i.choice.value := MOD]);
        }
      }
    }

    /** Symbol.set_user_value. Setting MODULES invalidates everything, any other symbol
        only what can depend on it; the caches stay right unless that enables or
        disables modules, which it cannot if MODULES is not among the dependents. */
    method SetUserValue(s: string, v: string, ghost rank: string -> nat)
      requires Valid(rank) && Tracked(k) && Linked(rank) && s in k.syms
      modifies this
      ensures users == Assigned(k, old(users), s, v) && Linked(rank)
      ensures s == MODULES || W(rank).modules == old(W(rank)).modules ==> Valid(rank)
      ensures (forall r | IsDependent(k, s, r) :: MODULES !in r) ==> Valid(rank)
      ensures s != MODULES ==> forall r | IsDependent(k, s, r) :: Cached() == Without(k, r + {s}, old(Cached()))
    {
      hide Tracked, Coherent, Ranked, UsersFit, Fresh, Without, Full, Assigned, IsDependent, Dependents;
      ghost var u, c := users, Cached();
      AssignedFits(k, users, s, v);
      Assign(s, v);
      if s == MODULES {
        InvalidateSet(k.syms.Keys);
        SurviveNothing(k, u, users, rank, c);
        return;
      }
      Invalidate(s);
      var r := GetDependent(s, rank);
      InvalidateSet(r);
      OnlyDependents(k, s, r, c);
      SurviveSet(k, u, rank, s, v, r, c);
      if MODULES !in r { ModulesOutside(k, u, rank, s, v, r); }
    }

    /** _unset_user_value_no_recursive_invalidate. */
    method Clear(s: string)
      requires Coherent(k)
      modifies this`users, this`value, this`vis, this`choiceVis, this`selection
      ensures users == Cleared(k, old(users), s) && Cached() == Without(k, {s}, old(Cached()))
    {
      hide Coherent, Without;
      Invalidate(s);
      var i := ItemOf(k, s);
      users := users.(val := users.val - {s});
      if i.choice.Some? {
        users := users.(sel := users.sel - {i.choice.value}, mode := users.mode - {i.choice.value});
      }
    }

    /** Symbol.unset_user_value, which makes no exception for MODULES. */
    method UnsetUserValue(s: string, ghost rank: string -> nat)
      requires Valid(rank) && Tracked(k) && Linked(rank) && s in k.syms
      modifies this
      ensures users == Cleared(k, old(users), s) && Linked(rank)
      ensures W(rank).modules == old(W(rank)).modules ==> Valid(rank)
      ensures s != MODULES && (forall r | IsDependent(k, s, r) :: MODULES !in r) ==> Valid(rank)
      ensures forall r | IsDependent(k, s, r) :: Cached() == Without(k, r + {s}, old(Cached()))
    {
      hide Tracked, Coherent, Ranked, UsersFit, Fresh, Without, Full, Cleared, IsDependent, Dependents;
      ghost var u, c := users, Cached();
      ClearedFits(k, users, s);
      Clear(s);
      var r := GetDependent(s, rank);
      InvalidateSet(r);
      OnlyDependents(k, s, r, c);
      SurviveSet(k, u, rank, s, "", r, c);
      if s != MODULES && MODULES !in r { ModulesOutside(k, u, rank, s, "", r); }
    }

    /** Config.unset_user_values. */
    method UnsetUserValues(ghost rank: string -> nat)
      requires Valid(rank)
      modifies this`users, this`value, this`vis, this`choiceVis, this`selection
      ensures Valid(rank) && users == Users(map[], map[], map[])
      ensures Cached() == Without(k, k.syms.Keys, old(Cached()))
    {
      hide Coherent, Ranked, UsersFit, Fresh, Without;
      var rest := k.syms.Keys;
      WithoutNone(k, Cached());
      assert k.syms.Keys - rest == {};
      while rest != {}
        invariant rest <= k.syms.Keys && Cached() == Without(k, k.syms.Keys - rest, old(Cached()))
        invariant UsersFit(k, users)
        invariant forall s | s in k.syms && s !in rest :: s !in users.val
        invariant forall s | s in k.syms && s !in rest && k.syms[s].choice.Some? ::
                    k.syms[s].choice.value !in users.sel && k.syms[s].choice.value !in users.mode
      {
        var s :| s in rest;
        WithoutTwice(k, k.syms.Keys - rest, {s}, old(Cached()));
        assert k.syms.Keys - rest + {s} == k.syms.Keys - (rest - {s});
        ClearedFits(k, users, s);
        Clear(s);
        rest := rest - {s};
      }
      assert k.syms.Keys - {} == k.syms.Keys;
      NothingLeft(k, users);
      SurviveNothing(k, old(users), users, rank, old(Cached()));
    }

    /** Config.load_config on the assignments of a file, where a line saying that a
        symbol is not set assigns n. */
    method LoadConfig(lines: seq<(string, string)>, replace: bool, ghost rank: string -> nat)
      requires Valid(rank)
      modifies this`users, this`value, this`vis, this`choiceVis, this`selection
      ensures Valid(rank)
      ensures users == Loaded(k, if replace then Users(map[], map[], map[]) else old(users), lines)
    {
      hide Coherent, Ranked, UsersFit, Fresh, Without, Assigned;
      ghost var c := Cached();
      if replace {
        UnsetUserValues(rank);
      } else {
        InvalidateSet(k.syms.Keys);
      }
      ghost var start := users;
      for i := 0 to |lines|
        invariant UsersFit(k, users) && users == Loaded(k, start, lines[..i]) && Cached() == Without(k, k.syms.Keys, c)
      {
        assert lines[..i + 1][..i] == lines[..i];
        if lines[i].0 in k.syms {
          AssignedFits(k, users, lines[i].0, lines[i].1);
          Assign(lines[i].0, lines[i].1);
        }
      }
      assert lines[..|lines|] == lines;
      SurviveNothing(k, old(users), users, rank, c);
    }
  }
}
