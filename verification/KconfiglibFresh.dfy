/** What the caches may hold, and what invalidation leaves in them. */
module KconfiglibFresh {
  import opened Tristates
  import opened Options
  import opened KconfiglibSymbols
  import opened KconfiglibMeaning
  import opened KconfiglibDepend

  /** cached_value with write_to_conf, cached_visibility of symbols and of choices,
      cached_selection. */
  datatype Caches = Caches(
    value: map<string, Outcome>,
    vis: map<string, Tristate>,
    choiceVis: map<nat, Tristate>,
    selection: map<nat, Option<string>>)

  predicate IsSpecial(k: Config, s: string) {
    ItemOf(k, s).special.Some?
  }

  function SpecialValues(k: Config): map<string, Outcome> {
    map s | s in k.syms && IsSpecial(k, s) :: Outcome(k.syms[s].special.value, false)
  }

  /** Every cache holds what evaluation without caches gives. Nothing is said of the
      visibility of special symbols and of choices without symbols, which no
      invalidation reaches. */
  ghost predicate Fresh(k: Config, u: Users, rank: string -> nat, c: Caches) {
    var w := Full(k, u, rank);
    && (forall s | s in c.value :: c.value[s] == Meaning(k, u, rank, s))
    && (forall s | s in k.syms && IsSpecial(k, s) :: s in c.value)
    && (forall s | s in c.vis && !IsSpecial(k, s) :: c.vis[s] == Visible(k, s, w))
    && (forall i | i in c.choiceVis && ChoiceOf(k, i).actual != [] :: c.choiceVis[i] == ChoiceVisible(k, i, w))
    && (forall i | i in c.selection && ChoiceOf(k, i).actual != [] :: c.selection[i] == Selection(k, u, i, w))
  }

  lemma Start(k: Config, u: Users, rank: string -> nat, c: Caches)
    requires Coherent(k) && Ranked(k, rank) && u == Users(map[], map[], map[])
    requires c.vis == map[] && c.choiceVis == map[] && c.selection == map[]
    requires c.value == SpecialValues(k)
    ensures UsersFit(k, u) && Fresh(k, u, rank, c)
  {
    hide Full, Below;
  }

  /** What is cached may be used, and what has been computed may be cached. */
  lemma StoreVis(k: Config, u: Users, rank: string -> nat, c: Caches, s: string)
    requires Fresh(k, u, rank, c) && s in k.syms && !IsSpecial(k, s)
    ensures s in c.vis ==> c.vis[s] == Visible(k, s, Full(k, u, rank))
    ensures Fresh(k, u, rank, c.(vis := c.vis[s := Visible(k, s, Full(k, u, rank))]))
  {
    hide Full, Visible, ChoiceVisible, Selection, Meaning;
  }

  lemma StoreChoiceVis(k: Config, u: Users, rank: string -> nat, c: Caches, i: nat)
    requires Fresh(k, u, rank, c) && ChoiceOf(k, i).actual != []
    ensures i in c.choiceVis ==> c.choiceVis[i] == ChoiceVisible(k, i, Full(k, u, rank))
    ensures Fresh(k, u, rank, c.(choiceVis := c.choiceVis[i := ChoiceVisible(k, i, Full(k, u, rank))]))
  {
    hide Full, Visible, ChoiceVisible, Selection, Meaning;
  }

  lemma StoreSelection(k: Config, u: Users, rank: string -> nat, c: Caches, i: nat)
    requires Fresh(k, u, rank, c) && ChoiceOf(k, i).actual != []
    ensures i in c.selection ==> c.selection[i] == Selection(k, u, i, Full(k, u, rank))
    ensures Fresh(k, u, rank, c.(selection := c.selection[i := Selection(k, u, i, Full(k, u, rank))]))
  {
    hide Full, Visible, ChoiceVisible, Selection, Meaning;
  }

  lemma StoreValue(k: Config, u: Users, rank: string -> nat, c: Caches, s: string)
    requires Fresh(k, u, rank, c)
    ensures s in c.value ==> c.value[s] == Meaning(k, u, rank, s)
    ensures s in k.syms && IsSpecial(k, s) ==> s in c.value
    ensures Fresh(k, u, rank, c.(value := c.value[s := Meaning(k, u, rank, s)]))
  {
    hide Full, Visible, ChoiceVisible, Selection, Meaning;
  }

  // ----- what invalidation leaves -----

  /** Some symbol of the set belongs to the choice. */
  predicate Touches(k: Config, x: set<string>, i: nat) {
    exists s | s in x :: ItemOf(k, s).choice == Some(i)
  }

  /** The caches after the symbols in `x` have been invalidated. */
  function Without(k: Config, x: set<string>, c: Caches): Caches {
    Caches(
      map s | s in c.value && (s !in x || IsSpecial(k, s)) :: c.value[s],
      map s | s in c.vis && (s !in x || IsSpecial(k, s)) :: c.vis[s],
      map i | i in c.choiceVis && !Touches(k, x, i) :: c.choiceVis[i],
      map i | i in c.selection && !Touches(k, x, i) :: c.selection[i])
  }

  lemma CoherentItem(k: Config, s: string)
    requires Coherent(k)
    ensures ItemOf(k, s).special.Some? ==> ItemOf(k, s).choice.None?
  {
  }

  lemma WithoutNone(k: Config, c: Caches)
    ensures Without(k, {}, c) == c
  {
  }

  lemma WithoutOne(k: Config, s: string, c: Caches)
    requires IsSpecial(k, s) ==> ItemOf(k, s).choice.None?
    ensures var i := ItemOf(k, s);
            var w := Without(k, {s}, c);
            && w.value == (if i.special.Some? then c.value else c.value - {s})
            && w.vis == (if i.special.Some? then c.vis else c.vis - {s})
            && w.choiceVis == (if i.choice.Some? then c.choiceVis - {i.choice.value} else c.choiceVis)
            && w.selection == (if i.choice.Some? then c.selection - {i.choice.value} else c.selection)
  {
    assert forall j: nat :: Touches(k, {s}, j) <==> ItemOf(k, s).choice == Some(j);
  }

  lemma WithoutTwice(k: Config, x: set<string>, y: set<string>, c: Caches)
    ensures Without(k, y, Without(k, x, c)) == Without(k, x + y, c)
  {
    assert forall i: nat :: Touches(k, x + y, i) <==> Touches(k, x, i) || Touches(k, y, i);
  }

  lemma OnlyDependents(k: Config, s: string, r: set<string>, c: Caches)
    requires IsDependent(k, s, r)
    ensures Without(k, r, Without(k, {s}, c)) == Without(k, r + {s}, c)
    ensures forall q | IsDependent(k, s, q) :: q == r
  {
    hide Without, Saturated;
    WithoutTwice(k, {s}, r, c);
    assert {s} + r == r + {s};
    forall q | IsDependent(k, s, q) ensures q == r {
      DependentUnique(k, s, q, r);
    }
  }

  /** What is left after invalidating a saturated set around all that has changed is
      still right. */
  lemma Survive(k: Config, u1: Users, u2: Users, rank: string -> nat, x: set<string>, c: Caches)
    requires Coherent(k) && UsersFit(k, u1) && UsersFit(k, u2) && Ranked(k, rank)
    requires Fresh(k, u1, rank, c) && Encloses(k, x) && DifferWithin(k, u1, u2, x)
    requires Full(k, u1, rank).modules == Full(k, u2, rank).modules
    ensures Fresh(k, u2, rank, Without(k, x, c))
  {
    hide Coherent, UsersFit, Ranked, Encloses, DifferWithin, Full, Meaning, Visible, ChoiceVisible, Selection;
    var w1, w2 := Full(k, u1, rank), Full(k, u2, rank);
    forall s | s !in x || IsSpecial(k, s) ensures Meaning(k, u1, rank, s) == Meaning(k, u2, rank, s) {
      MeaningSurvives(k, u1, u2, rank, x, s);
    }
    forall s | s !in x && !IsSpecial(k, s) ensures Visible(k, s, w1) == Visible(k, s, w2) {
      VisibleSurvives(k, u1, u2, rank, x, s);
    }
    forall i: nat | ChoiceOf(k, i).actual != [] && !Touches(k, x, i)
      ensures ChoiceVisible(k, i, w1) == ChoiceVisible(k, i, w2) && Selection(k, u1, i, w1) == Selection(k, u2, i, w2)
    {
      ChoiceSurvives(k, u1, u2, rank, x, i);
    }
  }

  lemma MeaningSurvives(k: Config, u1: Users, u2: Users, rank: string -> nat, x: set<string>, s: string)
    requires Coherent(k) && UsersFit(k, u1) && UsersFit(k, u2) && Ranked(k, rank)
    requires Encloses(k, x) && DifferWithin(k, u1, u2, x)
    requires Full(k, u1, rank).modules == Full(k, u2, rank).modules
    requires s !in x || IsSpecial(k, s)
    ensures Meaning(k, u1, rank, s) == Meaning(k, u2, rank, s)
  {
    hide Coherent, UsersFit, Ranked, Encloses, DifferWithin, Full, Meaning, SameGroup;
    if s in k.syms && !IsSpecial(k, s) {
      Unaffected(k, u1, u2, rank, x, s);
    } else {
      FixedMeaning(k, u1, u2, rank, s);
    }
  }

  lemma FixedMeaning(k: Config, u1: Users, u2: Users, rank: string -> nat, s: string)
    requires s in k.syms ==> IsSpecial(k, s)
    ensures Meaning(k, u1, rank, s) == Meaning(k, u2, rank, s)
  {
    hide Below, ChoiceSymbol, PlainSymbol, StringSymbol, NumberSymbol;
  }

  lemma VisibleSurvives(k: Config, u1: Users, u2: Users, rank: string -> nat, x: set<string>, s: string)
    requires Coherent(k) && UsersFit(k, u1) && UsersFit(k, u2) && Ranked(k, rank)
    requires Encloses(k, x) && DifferWithin(k, u1, u2, x)
    requires Full(k, u1, rank).modules == Full(k, u2, rank).modules
    requires s !in x && !IsSpecial(k, s)
    ensures Visible(k, s, Full(k, u1, rank)) == Visible(k, s, Full(k, u2, rank))
  {
    hide Coherent, UsersFit, Ranked, Encloses, DifferWithin, Full, Meaning, Visible, Direct, Sensitive, Same, Group;
    if s in k.syms {
      Unaffected(k, u1, u2, rank, x, s);
      GroupHasSelf(k, s);
      VisibleSame(k, u1, s, Full(k, u1, rank), Full(k, u2, rank));
    } else {
      UnknownVisible(k, s, Full(k, u1, rank), Full(k, u2, rank));
    }
  }

  lemma UnknownVisible(k: Config, s: string, w1: View, w2: View)
    requires s !in k.syms
    ensures Visible(k, s, w1) == Visible(k, s, w2)
  {
  }

  lemma ChoiceSurvives(k: Config, u1: Users, u2: Users, rank: string -> nat, x: set<string>, i: nat)
    requires Coherent(k) && UsersFit(k, u1) && UsersFit(k, u2) && Ranked(k, rank)
    requires Encloses(k, x) && DifferWithin(k, u1, u2, x)
    requires Full(k, u1, rank).modules == Full(k, u2, rank).modules
    requires ChoiceOf(k, i).actual != [] && !Touches(k, x, i)
    ensures ChoiceVisible(k, i, Full(k, u1, rank)) == ChoiceVisible(k, i, Full(k, u2, rank))
    ensures Selection(k, u1, i, Full(k, u1, rank)) == Selection(k, u2, i, Full(k, u2, rank))
  {
    hide UsersFit, Ranked, Encloses, DifferWithin, Full, Meaning, Visible, Direct, Sensitive, Same, ChoiceVisible, Selection;
    var s := ChoiceOf(k, i).actual[0];
    assert s in k.syms && k.syms[s].choice == Some(i);
    assert s !in x;
    Unaffected(k, u1, u2, rank, x, s);
    GroupHasSelf(k, s);
    VisibleSame(k, u1, s, Full(k, u1, rank), Full(k, u2, rank));
    SelectionSame(k, u1, s, Full(k, u1, rank), Full(k, u2, rank));
    UsersSame(k, u1, u2, x, s, Full(k, u2, rank));
  }

  lemma SurviveSet(k: Config, u: Users, rank: string -> nat, s: string, v: string, r: set<string>, c: Caches)
    requires Coherent(k) && Tracked(k) && UsersFit(k, u) && Ranked(k, rank) && Fresh(k, u, rank, c)
    requires s in k.syms && IsDependent(k, s, r)
    ensures Full(k, u, rank).modules == Full(k, Assigned(k, u, s, v), rank).modules ==>
              Fresh(k, Assigned(k, u, s, v), rank, Without(k, r + {s}, c))
    ensures Full(k, u, rank).modules == Full(k, Cleared(k, u, s), rank).modules ==>
              Fresh(k, Cleared(k, u, s), rank, Without(k, r + {s}, c))
  {
    hide Coherent, UsersFit, Ranked, Saturated, Encloses, Full, Fresh, Assigned, Cleared, DifferWithin, Without;
    var a, b := Assigned(k, u, s, v), Cleared(k, u, s);
    AssignedFits(k, u, s, v);
    ClearedFits(k, u, s);
    assert Encloses(k, r + {s});
    ChangesWithin(k, u, s, v, r + {s});
    if Full(k, u, rank).modules == Full(k, a, rank).modules { Survive(k, u, a, rank, r + {s}, c); }
    if Full(k, u, rank).modules == Full(k, b, rank).modules { Survive(k, u, b, rank, r + {s}, c); }
  }

  /** After invalidating everything only fixed values are left, right for any user values. */
  lemma SurviveNothing(k: Config, u1: Users, u2: Users, rank: string -> nat, c: Caches)
    requires Coherent(k) && Fresh(k, u1, rank, c)
    ensures Fresh(k, u2, rank, Without(k, k.syms.Keys, c))
  {
    hide Full, Meaning, ChoiceVisible, Selection;
    forall s | s in k.syms ==> IsSpecial(k, s) ensures Meaning(k, u1, rank, s) == Meaning(k, u2, rank, s) {
      FixedMeaning(k, u1, u2, rank, s);
    }
    forall i: nat | ChoiceOf(k, i).actual != [] ensures Touches(k, k.syms.Keys, i) {
      var s := ChoiceOf(k, i).actual[0];
      assert s in k.syms && k.syms[s].choice == Some(i);
    }
  }
}
