/** What a kconfiglib choice selects and its symbols are worth, said without the
    functions that compute it: by position among defaults and symbols. */
module KconfiglibChoice {
  import opened Tristates
  import opened Options
  import opened Exprs
  import opened KconfiglibSymbols
  import opened KconfiglibMeaning
  import opened KconfiglibDepend

  // ----- visibility and mode -----

  /** The visibility of prompts is the greatest among their conditions, n without any. */
  lemma {:induction false} PromptMaxExactly(prompts: Prompts, w: View)
    ensures forall p | p in prompts :: Ev(p, w) <= PromptMax(prompts, w)
    ensures PromptMax(prompts, w) == NO || exists p | p in prompts :: Ev(p, w) == PromptMax(prompts, w)
  {
    if prompts != [] {
      PromptMaxExactly(prompts[1..], w);
      assert prompts[0] in prompts;
      if PromptMax(prompts, w) != Ev(prompts[0], w) && PromptMax(prompts, w) != NO {
        var p :| p in prompts[1..] && Ev(p, w) == PromptMax(prompts[1..], w);
        assert p in prompts;
      }
    }
  }

  /** Some prompt is shown, or fully shown. */
  predicate SomePrompt(prompts: Prompts, atLeast: Tristate, w: View) {
    exists p | p in prompts :: Ev(p, w) >= atLeast
  }

  lemma PromptMaxAtLeast(prompts: Prompts, t: Tristate, w: View)
    requires t > NO
    ensures PromptMax(prompts, w) >= t <==> SomePrompt(prompts, t, w)
    ensures PromptMax(prompts, w) == MOD ==> w.modules
  {
    PromptMaxExactly(prompts, w);
    assert forall p :: Ev(p, w) == MOD ==> w.modules;
  }

  /** A choice shows if a prompt of it does, and a symbol of it if that is so and a
      prompt of its own does; both are m only for tristates, with modules, if no
      prompt on one of the two sides is fully shown. */
  lemma VisibleExactly(k: Config, s: string, c: nat, w: View)
    requires ItemOf(k, s).choice == Some(c)
    ensures var own, all := ItemOf(k, s).prompts, ChoiceOf(k, c).prompts;
            && (ChoiceVisible(k, c, w) != NO <==> SomePrompt(all, MOD, w))
            && (ChoiceVisible(k, c, w) == MOD <==> ChoiceOf(k, c).kind == Tri && SomePrompt(all, MOD, w) && !SomePrompt(all, YES, w))
            && (Visible(k, s, w) != NO <==> SomePrompt(own, MOD, w) && SomePrompt(all, MOD, w))
            && (Visible(k, s, w) == MOD <==>
                  && ItemOf(k, s).kind == Tri && SomePrompt(own, MOD, w) && SomePrompt(all, MOD, w)
                  && (!SomePrompt(own, YES, w) || ChoiceVisible(k, c, w) == MOD))
  {
    hide PromptMax, SomePrompt, Ev;
    var own, all := ItemOf(k, s).prompts, ChoiceOf(k, c).prompts;
    PromptMaxAtLeast(own, MOD, w);
    PromptMaxAtLeast(own, YES, w);
    PromptMaxAtLeast(all, MOD, w);
    PromptMaxAtLeast(all, YES, w);
  }

  /** The user has switched the choice off, or not on if that is up to the user. */
  predicate SwitchedOff(k: Config, u: Users, c: nat) {
    if c in u.mode then u.mode[c] == NO else ChoiceOf(k, c).optional
  }

  /** A choice that shows and is not switched off is in mode y, unless it is no bool, with
      modules, and either only shown as m or not set to y. */
  lemma ModeExactly(k: Config, u: Users, c: nat, w: View)
    ensures Mode(k, u, c, w) == NO <==> ChoiceVisible(k, c, w) == NO || SwitchedOff(k, u, c)
    ensures Mode(k, u, c, w) == MOD <==>
              && ChoiceVisible(k, c, w) != NO && !SwitchedOff(k, u, c)
              && ChoiceOf(k, c).kind != Boolean && w.modules
              && (ChoiceVisible(k, c, w) == MOD || !(c in u.mode && u.mode[c] == YES))
  {
    hide PromptMax;
  }

  // ----- the selection -----

  /** The `i`th default is the first one in force. */
  predicate IsFirstDefault(defaults: ChoiceDefaults, i: nat, w: View) {
    i < |defaults| && Ev(defaults[i].1, w) != NO && forall j | 0 <= j < i :: Ev(defaults[j].1, w) == NO
  }

  /** The `i`th symbol is the first visible one. */
  predicate IsFirstVisible(k: Config, of: seq<string>, i: nat, w: View) {
    i < |of| && Visible(k, of[i], w) != NO && forall j | 0 <= j < i :: Visible(k, of[j], w) == NO
  }

  /** The first default in force is a visible symbol. */
  predicate DefaultShows(k: Config, c: nat, i: nat, w: View) {
    var defaults := ChoiceOf(k, c).defaults;
    IsFirstDefault(defaults, i, w) && Visible(k, defaults[i].0, w) != NO
  }

  /** What a choice in mode y selects: what the user has, if fully visible; or else, if
      it is not optional, the first default in force, if visible; or else the first
      visible symbol. */
  predicate IsSelected(k: Config, u: Users, c: nat, w: View, s: string) {
    if c in u.sel && Visible(k, u.sel[c], w) == YES then s == u.sel[c]
    else !ChoiceOf(k, c).optional && IsDefault(k, c, w, s)
  }

  predicate IsDefault(k: Config, c: nat, w: View, s: string) {
    var i := ChoiceOf(k, c);
    && i.actual != []
    && if exists d: nat | d < |i.defaults| :: DefaultShows(k, c, d, w) then
         exists d: nat | d < |i.defaults| :: DefaultShows(k, c, d, w) && s == i.defaults[d].0
       else
         exists j: nat | j < |i.actual| :: IsFirstVisible(k, i.actual, j, w) && s == i.actual[j]
  }

  lemma {:induction false} FirstDefault(defaults: ChoiceDefaults, otherwise: string, w: View) returns (i: nat)
    ensures IsFirstDefault(defaults, i, w) || (i == |defaults| && forall j | 0 <= j < |defaults| :: Ev(defaults[j].1, w) == NO)
    ensures DefaultChoice(defaults, otherwise, w) == if i < |defaults| then defaults[i].0 else otherwise
  {
    i := 0;
    if defaults != [] && Ev(defaults[0].1, w) == NO {
      var j := FirstDefault(defaults[1..], otherwise, w);
      i := j + 1;
    }
  }

  lemma {:induction false} FirstShown(k: Config, of: seq<string>, w: View) returns (i: nat)
    ensures IsFirstVisible(k, of, i, w) || (i == |of| && forall j | 0 <= j < |of| :: Visible(k, of[j], w) == NO)
    ensures FirstVisible(k, of, w) == if i < |of| then Some(of[i]) else None
  {
    hide Visible;
    i := 0;
    if of != [] && Visible(k, of[0], w) == NO {
      var j := FirstShown(k, of[1..], w);
      i := j + 1;
    }
  }

  lemma DefaultExactly(k: Config, c: nat, w: View, s: string)
    ensures SelectionFromDefaults(k, c, w) == Some(s) <==> IsDefault(k, c, w, s)
  {
    hide Visible, DefaultChoice, FirstVisible, IsFirstDefault, IsFirstVisible, Ev;
    var i := ChoiceOf(k, c);
    if i.actual != [] {
      var d := FirstDefault(i.defaults, i.actual[0], w);
      var j := FirstShown(k, i.actual, w);
      FirstsAreUnique(k, c, w);
      NoOtherFirst(k, i.defaults, i.actual, d, j, w);
      if d < |i.defaults| && Visible(k, i.defaults[d].0, w) != NO {
        assert DefaultShows(k, c, d, w);
        assert forall e: nat | e < |i.defaults| :: DefaultShows(k, c, e, w) ==> e == d;
      } else {
        assert forall e: nat | e < |i.defaults| :: !DefaultShows(k, c, e, w);
        assert SelectionFromDefaults(k, c, w) == if j < |i.actual| then Some(i.actual[j]) else None;
        assert forall e: nat | e < |i.actual| :: IsFirstVisible(k, i.actual, e, w) ==> e == j;
      }
    }
  }

  /** That is what the code selects, in mode y and in no other. */
  lemma SelectionExactly(k: Config, u: Users, c: nat, w: View, s: string)
    ensures Selection(k, u, c, w) == Some(s) <==> Mode(k, u, c, w) == YES && IsSelected(k, u, c, w, s)
  {
    hide Visible, Mode, SelectionFromDefaults, IsDefault;
    DefaultExactly(k, c, w, s);
  }

  lemma FirstsAreUnique(k: Config, c: nat, w: View)
    ensures forall d: nat, e: nat :: IsFirstDefault(ChoiceOf(k, c).defaults, d, w) && IsFirstDefault(ChoiceOf(k, c).defaults, e, w) ==> d == e
    ensures forall d: nat, e: nat :: IsFirstVisible(k, ChoiceOf(k, c).actual, d, w) && IsFirstVisible(k, ChoiceOf(k, c).actual, e, w) ==> d == e
  {
    hide Visible, Ev;
  }

  lemma NoOtherFirst(k: Config, defaults: ChoiceDefaults, of: seq<string>, d: nat, j: nat, w: View)
    requires IsFirstDefault(defaults, d, w) || (d == |defaults| && forall i | 0 <= i < |defaults| :: Ev(defaults[i].1, w) == NO)
    requires IsFirstVisible(k, of, j, w) || (j == |of| && forall i | 0 <= i < |of| :: Visible(k, of[i], w) == NO)
    ensures d >= |defaults| ==> forall e: nat :: !IsFirstDefault(defaults, e, w)
    ensures j >= |of| ==> forall e: nat :: !IsFirstVisible(k, of, e, w)
    ensures d < |defaults| ==> IsFirstDefault(defaults, d, w)
    ensures j < |of| ==> IsFirstVisible(k, of, j, w)
    ensures of != [] && Visible(k, of[0], w) != NO ==> IsFirstVisible(k, of, 0, w)
  {
    hide Visible, Ev;
  }

  // ----- the symbols of a choice -----

  /** In mode y a symbol is y exactly if it is the one selected and visible, and n
      otherwise; in mode m it is m, or y if it is a bool, exactly if it is visible and
      set to m or y; it is written exactly if it is visible and the mode is not n. */
  lemma ChoiceSymbolExactly(k: Config, u: Users, c: nat, s: string, w: View)
    requires Coherent(k) && UsersFit(k, u) && s in k.syms && k.syms[s].choice == Some(c)
    ensures var o, shown, mode := OutcomeIn(k, u, w, s), Visible(k, s, w) != NO, Mode(k, u, c, w);
            && (mode == YES ==> o.val == if shown && IsSelected(k, u, c, w, s) then "y" else "n")
            && (mode == MOD ==> o.val == if shown && s in u.val && u.val[s] != "n" then (if k.syms[s].kind == Tri then "m" else "y") else "n")
            && (mode == NO ==> o.val == "n")
            && (o.write <==> shown && mode != NO)
  {
    hide Visible, Mode, Selection, IsSelected;
    SelectionExactly(k, u, c, w, s);
    assert s in u.val ==> Accepts(k, s, u.val[s]);
  }

  /** The same of whole configurations. */
  lemma ChoiceMeaning(k: Config, u: Users, rank: string -> nat, c: nat, s: string)
    requires Coherent(k) && UsersFit(k, u) && Ranked(k, rank) && s in k.syms && k.syms[s].choice == Some(c)
    ensures var w := Full(k, u, rank);
            var o, shown, mode := Meaning(k, u, rank, s), Visible(k, s, w) != NO, Mode(k, u, c, w);
            && (mode == YES ==> o.val == if shown && IsSelected(k, u, c, w, s) then "y" else "n")
            && (mode == MOD ==> o.val == if shown && s in u.val && u.val[s] != "n" then (if k.syms[s].kind == Tri then "m" else "y") else "n")
            && (mode == NO ==> o.val == "n")
            && (o.write <==> shown && mode != NO)
  {
    hide Visible, Mode, IsSelected, OutcomeIn, Meaning, Full, Coherent, UsersFit, Ranked;
    MeaningEquation(k, u, rank, s);
    ChoiceSymbolExactly(k, u, c, s, Full(k, u, rank));
  }

  // ----- setting and unsetting -----

  /** The values a symbol of each type may be given. */
  predicate Fits(k: Config, kind: SymbolType, v: string) {
    || (kind == Boolean && v in {"n", "y"}) || (kind == Tri && v in {"n", "m", "y"}) || kind == String
    || (kind == Int && k.number(v, 10).Some?) || (kind == Hex && k.number(v, 16).Some?)
  }

  /** Setting a symbol changes its value, if that fits a symbol that is defined and not
      special, and is ignored otherwise; it changes its choice if it is y or m. */
  lemma AssignedExactly(k: Config, u: Users, s: string, v: string)
    ensures var a := Assigned(k, u, s, v);
            var i := ItemOf(k, s);
            if i.special.None? && i.defined && Fits(k, i.kind, v) then
              && s in a.val && a.val[s] == v && (forall t | t != s :: SameAt(a.val, u.val, t))
              && (forall c: nat | Some(c) != i.choice :: SameAt(a.sel, u.sel, c) && SameAt(a.mode, u.mode, c))
              && (i.choice.Some? && Logical(i.kind) ==>
                    var c := i.choice.value;
                    && (v == "y" ==> c in a.sel && a.sel[c] == s && c in a.mode && a.mode[c] == YES)
                    && (v == "m" ==> c !in a.sel && c in a.mode && a.mode[c] == MOD)
                    && (v == "n" ==> SameAt(a.sel, u.sel, c) && SameAt(a.mode, u.mode, c)))
            else a == u
  {
  }

  /** Unsetting undoes setting: it leaves what unsetting alone leaves. */
  lemma UnsetUndoes(k: Config, u: Users, s: string, v: string)
    ensures Cleared(k, Assigned(k, u, s, v), s) == Cleared(k, u, s)
  {
    hide Accepts, Logical;
    var i, a := ItemOf(k, s), Assigned(k, u, s, v);
    assert a.val - {s} == u.val - {s};
    if i.choice.Some? {
      assert a.sel - {i.choice.value} == u.sel - {i.choice.value} && a.mode - {i.choice.value} == u.mode - {i.choice.value};
    }
  }

  lemma Removed<K, V>(m: map<K, V>, key: K)
    ensures m - {key} == m <==> key !in m
  {
    assert key !in m - {key};
  }

  /** That is everything exactly if neither the symbol nor its choice was set. */
  lemma UnsetNothing(k: Config, u: Users, s: string)
    ensures Cleared(k, u, s) == u <==>
              s !in u.val && (ItemOf(k, s).choice.Some? ==>
                ItemOf(k, s).choice.value !in u.sel && ItemOf(k, s).choice.value !in u.mode)
  {
    var i := ItemOf(k, s);
    Removed(u.val, s);
    if i.choice.Some? {
      Removed(u.sel, i.choice.value);
      Removed(u.mode, i.choice.value);
    }
  }

  /** The line is one that is taken over. */
  predicate Counts(k: Config, line: (string, string), s: string) {
    line.0 == s && s in k.syms && k.syms[s].special.None? && k.syms[s].defined && Accepts(k, s, line.1)
  }

  predicate IsLastLine(k: Config, lines: seq<(string, string)>, j: nat, s: string) {
    j < |lines| && Counts(k, lines[j], s) && forall l | j < l < |lines| :: !Counts(k, lines[l], s)
  }

  lemma LineCounts(k: Config, u: Users, line: (string, string), s: string)
    ensures var a := if line.0 in k.syms then Assigned(k, u, line.0, line.1) else u;
            if Counts(k, line, s) then s in a.val && a.val[s] == line.1 else SameAt(a.val, u.val, s)
  {
    hide Accepts;
  }

  /** After loading, a symbol has the value of its last line that is taken over, and
      what it had before if there is none. */
  lemma {:induction false} LastLineWins(k: Config, u: Users, lines: seq<(string, string)>, s: string)
    ensures forall j: nat | IsLastLine(k, lines, j, s) :: s in Loaded(k, u, lines).val && Loaded(k, u, lines).val[s] == lines[j].1
    ensures (forall l | 0 <= l < |lines| :: !Counts(k, lines[l], s)) ==> SameAt(Loaded(k, u, lines).val, u.val, s)
  {
    hide Assigned, Counts, IsLastLine;
    if lines != [] {
      var n := |lines| - 1;
      LastLineWins(k, u, lines[..n], s);
      LineCounts(k, Loaded(k, u, lines[..n]), lines[n], s);
      LastLineBefore(k, lines, s);
      assert forall j | 0 <= j < n :: lines[..n][j] == lines[j];
    } else {
      LastLineWithin(k, lines, s);
    }
  }

  lemma LastLineBefore(k: Config, lines: seq<(string, string)>, s: string)
    requires lines != []
    ensures var n := |lines| - 1;
            forall j: nat | IsLastLine(k, lines, j, s) ::
              if Counts(k, lines[n], s) then j == n else j < n && IsLastLine(k, lines[..n], j, s)
  {
    hide Counts;
  }

  lemma LastLineWithin(k: Config, lines: seq<(string, string)>, s: string)
    ensures forall j: nat | IsLastLine(k, lines, j, s) :: j < |lines|
  {
  }
}
