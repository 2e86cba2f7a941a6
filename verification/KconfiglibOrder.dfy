/** What the evaluation of a symbol may ask for: symbols of lower rank. */
module KconfiglibOrder {
  import opened Tristates
  import opened Options
  import opened KconfiglibSymbols
  import opened KconfiglibMeaning
  import opened KconfiglibFresh

  /** Evaluation at rank `n` may ask for the symbols in `on`, and for MODULES if
      it may come across m. */
  ghost predicate Allowed(k: Config, rank: string -> nat, n: nat, on: set<string>, sensitive: bool) {
    && (forall s | s in on :: s in k.syms && rank(s) < n)
    && (sensitive && MODULES in k.syms ==> rank(MODULES) < n)
  }

  lemma RankedSiblings(k: Config, rank: string -> nat, s: string)
    requires Coherent(k) && Ranked(k, rank) && s in k.syms && k.syms[s].choice.Some?
    ensures var c := k.syms[s].choice.value;
            && c in k.choices
            && (forall t | t in k.choices[c].actual ::
                  t in k.syms && k.syms[t].choice == Some(c) && !IsSpecial(k, t) && rank(t) == rank(s))
  {
    hide Reads, Sensitive;
  }

  /** The default of a choice may be asked how visible it is, wherever it belongs. */
  lemma RankedDefaultChoice(k: Config, rank: string -> nat, s: string, d: (string, Option<Sound>))
    requires Coherent(k) && Ranked(k, rank) && s in k.syms && k.syms[s].choice.Some?
    requires k.syms[s].choice.value in k.choices && d in k.choices[k.syms[s].choice.value].defaults
    ensures d.0 in k.syms && !IsSpecial(k, d.0) && Allowed(k, rank, rank(s), VisibleNames(k, d.0), true)
  {
    hide Direct, VisibleNames, Sensitive;
    RankedSymbol(k, rank, s);
    DefaultVisibleNamesOf(k, k.choices[k.syms[s].choice.value].defaults, d);
  }

  lemma ChosenAllowed(k: Config, rank: string -> nat, s: string, chosen: string)
    requires Coherent(k) && Ranked(k, rank) && s in k.syms && k.syms[s].choice.Some? && k.syms[s].choice.value in k.choices
    requires var i := k.choices[k.syms[s].choice.value];
             chosen in i.actual || exists d | d in i.defaults :: d.0 == chosen
    ensures chosen in k.syms && !IsSpecial(k, chosen)
    ensures Allowed(k, rank, rank(s), VisibleNames(k, chosen), Sensitive(k, chosen))
  {
    hide Reads, VisibleNames, Sensitive;
    RankedSiblings(k, rank, s);
    var i := k.choices[k.syms[s].choice.value];
    if chosen in i.actual {
      RankedVisible(k, rank, chosen);
    } else {
      var d :| d in i.defaults && d.0 == chosen;
      RankedDefaultChoice(k, rank, s, d);
    }
  }

  lemma RankedVisible(k: Config, rank: string -> nat, s: string)
    requires Ranked(k, rank) && s in k.syms && !IsSpecial(k, s)
    ensures Allowed(k, rank, rank(s), VisibleNames(k, s), Sensitive(k, s))
  {
    hide PromptNames, DefaultNames, RangeNames, Names, CanBeM, ChoiceDefaultNames, DefaultVisibleNames;
  }

  lemma RankedDefaults(k: Config, rank: string -> nat, s: string)
    requires Ranked(k, rank) && s in k.syms && !IsSpecial(k, s)
    ensures var i := k.syms[s];
            && Allowed(k, rank, rank(s), DefaultNames(i.defaults), Sensitive(k, s))
            && Allowed(k, rank, rank(s), Names(i.revDep), Sensitive(k, s))
            && Allowed(k, rank, rank(s), RangeNames(i.ranges), Sensitive(k, s))
            && (CanBeM(k, i.revDep) ==> Sensitive(k, s))
            && (forall d | d in i.defaults :: CanBeM(k, d.0) || OptionCanBeM(k, d.1) ==> Sensitive(k, s))
            && (forall r | r in i.ranges :: OptionCanBeM(k, r.2) ==> Sensitive(k, s))
  {
    hide PromptNames, DefaultNames, RangeNames, Names, CanBeM, ChoiceNames, DefaultVisibleNames;
  }

  lemma {:induction false} DefaultNamesAt(defaults: Defaults, j: nat)
    requires j < |defaults|
    ensures Names(defaults[j].0) <= DefaultNames(defaults) && OptionNames(defaults[j].1) <= DefaultNames(defaults)
  {
    if j > 0 {
      DefaultNamesAt(defaults[1..], j - 1);
    }
  }

  lemma RankedDefault(k: Config, rank: string -> nat, s: string, j: nat)
    requires Coherent(k) && Ranked(k, rank) && s in k.syms && !IsSpecial(k, s) && j < |k.syms[s].defaults|
    ensures var d := k.syms[s].defaults[j];
            && Allowed(k, rank, rank(s), OptionNames(Some(d.0)), OptionCanBeM(k, Some(d.0)))
            && Allowed(k, rank, rank(s), OptionNames(d.1), OptionCanBeM(k, d.1))
            && (CanBeM(k, d.0) || OptionCanBeM(k, d.1) ==> Sensitive(k, s))
            && (!Logical(k.syms[s].kind) ==> d.0.Leaf? && Allowed(k, rank, rank(s), AtomNames(d.0.atom), false))
  {
    hide PromptNames, DefaultNames, RangeNames, CanBeM, ChoiceNames, Reads, Sensitive;
    assert k.syms[s].defaults[j] in k.syms[s].defaults;
    DefaultNamesAt(k.syms[s].defaults, j);
    RankedDefaults(k, rank, s);
  }

  lemma RankedSymbol(k: Config, rank: string -> nat, s: string)
    requires Ranked(k, rank) && s in k.syms && !IsSpecial(k, s)
    ensures Allowed(k, rank, rank(s), Reads(k, s), Sensitive(k, s))
    ensures k.syms[s].choice.Some? ==> Sensitive(k, s)
    ensures forall e | e in k.syms[s].prompts :: OptionCanBeM(k, e) ==> Sensitive(k, s)
  {
    hide PromptNames, DefaultNames, RangeNames, Names, CanBeM, ChoiceNames, DefaultVisibleNames;
  }

  lemma RankedChoice(k: Config, rank: string -> nat, s: string)
    requires Coherent(k) && Ranked(k, rank) && s in k.syms && k.syms[s].choice.Some?
    ensures var c := k.syms[s].choice.value; c in k.choices && s in k.choices[c].actual && !IsSpecial(k, s)
    ensures Allowed(k, rank, rank(s), ChoiceNames(k.choices[k.syms[s].choice.value]), true)
    ensures Allowed(k, rank, rank(s), PromptNames(k.choices[k.syms[s].choice.value].prompts), true)
  {
    hide PromptNames, DefaultNames, RangeNames, Names, CanBeM, ChoiceDefaultNames, DefaultVisibleNames;
  }

  lemma {:induction false} PromptMaxModules(prompts: Prompts, w: View)
    ensures PromptMax(prompts, w) == MOD ==> w.modules
  {
    if prompts != [] {
      PromptMaxModules(prompts[1..], w);
    }
  }

  lemma ChoiceVisibleModules(k: Config, c: nat, w: View)
    ensures ChoiceVisible(k, c, w) == MOD ==> w.modules
  {
    PromptMaxModules(ChoiceOf(k, c).prompts, w);
  }

  lemma VisibleM(k: Config, s: string, w: View)
    requires s in k.syms
    ensures Visible(k, s, w) == MOD ==> Sensitive(k, s)
  {
    hide PromptMax, ChoiceVisible, CanBeM;
  }
}
