/** Which symbols a change of one symbol can reach, and what the user changes. */
module KconfiglibDepend {
  import opened Tristates
  import opened Options
  import opened KconfiglibSymbols
  import opened KconfiglibMeaning

  /** Symbol.dep after _build_dep. */
  function Dependents(k: Config, s: string): set<string> {
    set t | t in k.syms && s in Direct(k, t)
  }

  /** `r` and `s` make up the least saturated set around `s`. */
  ghost predicate IsDependent(k: Config, s: string, r: set<string>) {
    && s !in r
    && Saturated(k, r + {s})
    && (forall x | Saturated(k, x) && s in x :: r <= x)
  }

  /** There is only one such set. */
  lemma DependentUnique(k: Config, s: string, r1: set<string>, r2: set<string>)
    requires IsDependent(k, s, r1) && IsDependent(k, s, r2)
    ensures r1 == r2
  {
    hide Saturated;
    assert r1 <= r2 + {s} && r2 <= r1 + {s};
  }

  lemma SaturatedUnion(k: Config, x: set<string>, y: set<string>)
    requires Saturated(k, x) && Saturated(k, y)
    ensures Saturated(k, x + y)
  {
    hide Direct, Group;
  }

  /** Whatever a symbol reaches ranks no lower. */
  lemma DependentAbove(k: Config, rank: string -> nat, s: string, r: set<string>)
    requires Coherent(k) && Ranked(k, rank) && s in k.syms && IsDependent(k, s, r)
    ensures forall t | t in r :: t in k.syms && rank(t) >= rank(s)
  {
    hide Direct, Sensitive, Coherent;
    var x := set t | t in k.syms && rank(t) >= rank(s);
    forall a, b | a in k.syms && a in Group(k, b) && b in x ensures a in x {
      Siblings(k, a, b);
    }
    assert Saturated(k, x);
  }

  /** What a group reaches, put together from what its symbols reach on their own. */
  lemma GroupReaches(k: Config, rank: string -> nat, s: string, u: set<string>)
    requires Coherent(k) && Ranked(k, rank) && s in k.syms && Saturated(k, u)
    requires forall g | g in Group(k, s) :: Dependents(k, g) <= u
    requires forall t | t in u :: rank(t) > rank(s)
    requires forall x | Saturated(k, x) && s in x :: u <= x
    ensures IsDependent(k, s, u + (Group(k, s) - {s}))
  {
    hide Direct, Sensitive, Coherent, Group;
    var x := u + (Group(k, s) - {s}) + {s};
    GroupHasSelf(k, s);
    assert x == u + Group(k, s);
    forall a, b | a in k.syms && b in Direct(k, a) && b in x ensures a in x {
      if b in Group(k, s) {
        assert a in Dependents(k, b);
      }
    }
    forall a, b | a in k.syms && a in Group(k, b) && b in x ensures a in x {
      if b in Group(k, s) { Siblings(k, b, s); }
    }
    forall y | Saturated(k, y) && s in y ensures u + (Group(k, s) - {s}) <= y {
      forall g | g in Group(k, s) ensures g in y { Siblings(k, g, s); }
    }
  }

  lemma GroupHasSelf(k: Config, s: string)
    requires Coherent(k) && s in k.syms
    ensures s in Group(k, s)
  {
  }

  /** `s` has been added to the dependents of the symbols in `on`. */
  ghost predicate Added(d1: map<string, set<string>>, d2: map<string, set<string>>, on: set<string>, s: string) {
    d2.Keys == d1.Keys && forall t | t in d1 :: d2[t] == d1[t] + if t in on then {s} else {}
  }

  lemma NothingAdded(d: map<string, set<string>>, s: string)
    ensures Added(d, d, {}, s)
  {
  }

  /** Everything has been recorded but what the symbols in `rest` depend on. */
  ghost predicate Built(k: Config, d: map<string, set<string>>, rest: set<string>) {
    d.Keys == k.syms.Keys && forall s | s in k.syms :: d[s] == Dependents(k, s) - rest
  }

  lemma NothingBuilt(k: Config, d: map<string, set<string>>)
    requires d == map s | s in k.syms :: {}
    ensures Built(k, d, k.syms.Keys)
  {
    hide Direct;
  }

  lemma DirectKnown(k: Config, rank: string -> nat, d: map<string, set<string>>, s: string, rest: set<string>)
    requires Ranked(k, rank) && s in k.syms && Built(k, d, rest)
    ensures Direct(k, s) <= d.Keys
  {
    hide Direct;
  }

  lemma OneBuilt(k: Config, d1: map<string, set<string>>, d2: map<string, set<string>>, s: string, rest: set<string>)
    requires Built(k, d1, rest) && s in k.syms && s in rest && Added(d1, d2, Direct(k, s), s)
    ensures Built(k, d2, rest - {s})
  {
    hide Direct;
  }

  lemma AllBuilt(k: Config, d: map<string, set<string>>)
    requires Built(k, d, {})
    ensures forall s | s in k.syms :: s in d && d[s] == Dependents(k, s)
  {
    hide Direct;
  }

  /** Symbols reached from those that depend on `s`, and all they reach. */
  ghost predicate Reached(k: Config, rank: string -> nat, s: string, v: set<string>) {
    && Saturated(k, v)
    && (forall t | t in v :: t in k.syms && rank(t) > rank(s))
    && (forall x | Saturated(k, x) && s in x :: v <= x)
  }

  ghost function Higher(k: Config, rank: string -> nat, s: string): set<string> {
    set t | t in k.syms && rank(t) > rank(s)
  }

  lemma HigherShrinks(k: Config, rank: string -> nat, s: string, t: string)
    requires Ranked(k, rank) && s in k.syms && t in Dependents(k, s)
    ensures t in k.syms && Higher(k, rank, t) < Higher(k, rank, s)
  {
    hide Direct, Sensitive, Group;
    assert t in Higher(k, rank, s) && t !in Higher(k, rank, t);
  }

  lemma SameHigher(k: Config, rank: string -> nat, s: string, t: string)
    requires rank(t) == rank(s)
    ensures Higher(k, rank, t) == Higher(k, rank, s)
  {
  }

  lemma NothingReached(k: Config, rank: string -> nat, s: string)
    ensures Reached(k, rank, s, {})
  {
  }

  lemma OneReached(k: Config, rank: string -> nat, s: string, t: string, d: set<string>, v: set<string>)
    requires Coherent(k) && Ranked(k, rank) && s in k.syms && t in Dependents(k, s)
    requires IsDependent(k, t, d) && Reached(k, rank, s, v)
    ensures Reached(k, rank, s, v + ({t} + d))
  {
    hide Sensitive, Group, Coherent, Direct;
    DependentAbove(k, rank, t, d);
    assert d + {t} == {t} + d;
    SaturatedUnion(k, v, {t} + d);
  }

  lemma SiblingReached(k: Config, rank: string -> nat, s: string, t: string, v: set<string>, w: set<string>)
    requires Coherent(k) && Ranked(k, rank) && s in k.syms && t in Group(k, s)
    requires Reached(k, rank, s, v) && Reached(k, rank, t, w)
    ensures Reached(k, rank, s, v + w)
  {
    hide Sensitive, Direct;
    Siblings(k, t, s);
    SaturatedUnion(k, v, w);
  }

  lemma Together(k: Config, rank: string -> nat, s: string, v: set<string>)
    requires Coherent(k) && Ranked(k, rank) && s in k.syms && Reached(k, rank, s, v)
    requires forall g | g in Group(k, s) :: Dependents(k, g) <= v
    ensures IsDependent(k, s, v + (Group(k, s) - {s}))
  {
    hide Coherent, Ranked, Saturated, Direct, Group, Dependents;
    GroupReaches(k, rank, s, v);
  }

  // ----- what the user sets -----

  /** _set_user_value_no_invalidate: assignments to special or undefined symbols and
      ill-typed values are ignored; a choice symbol set to y or m sets its choice. */
  function Assigned(k: Config, u: Users, s: string, v: string): Users {
    var i := ItemOf(k, s);
    if i.special.Some? || !i.defined || !Accepts(k, s, v) then u
    else
      var w := u.(val := u.val[s := v]);
      if i.choice.None? || !Logical(i.kind) then w
      else if v == "y" then w.(sel := w.sel[i.choice.value := s], mode := w.mode[i.choice.value := YES])
      else if v == "m" then w.(sel := w.sel - {i.choice.value}, mode := w.mode[i.choice.value := MOD])
      else w
  }

  /** _unset_user_value_no_recursive_invalidate: a choice symbol unsets its choice. */
  function Cleared(k: Config, u: Users, s: string): Users {
    var i := ItemOf(k, s);
    if i.choice.None? then u.(val := u.val - {s})
    else Users(u.val - {s}, u.sel - {i.choice.value}, u.mode - {i.choice.value})
  }

  function Loaded(k: Config, u: Users, lines: seq<(string, string)>): Users {
    if lines == [] then u
    else
      var last := lines[|lines| - 1];
      var v := Loaded(k, u, lines[..|lines| - 1]);
      if last.0 in k.syms then Assigned(k, v, last.0, last.1) else v
  }

  lemma AssignedFits(k: Config, u: Users, s: string, v: string)
    requires Coherent(k) && UsersFit(k, u)
    ensures UsersFit(k, Assigned(k, u, s, v))
  {
    hide Accepts, Logical;
    var i := ItemOf(k, s);
    assert Accepts(k, s, v) ==> s in k.syms by { AcceptsKnown(k, s, v); }
    assert s in k.syms && i.choice.Some? ==> s in ChoiceOf(k, i.choice.value).actual;
  }

  lemma AcceptsKnown(k: Config, s: string, v: string)
    ensures Accepts(k, s, v) ==> s in k.syms
  {
  }

  lemma ClearedFits(k: Config, u: Users, s: string)
    requires UsersFit(k, u)
    ensures UsersFit(k, Cleared(k, u, s))
  {
  }

  lemma SameChoice(k: Config, x: set<string>, s: string, t: string)
    requires Coherent(k) && Saturated(k, x) && s in x && s in k.syms && t in k.syms && t !in x
    ensures k.syms[t].choice.Some? ==> k.syms[t].choice != k.syms[s].choice
  {
    hide Direct;
    assert k.syms[t].choice.Some? && k.syms[t].choice == k.syms[s].choice ==> t in Group(k, s);
  }

  /** Setting or unsetting a symbol changes user values within any saturated set around it. */
  lemma ChangesWithin(k: Config, u: Users, s: string, v: string, x: set<string>)
    requires Coherent(k) && Saturated(k, x) && s in x && s in k.syms
    ensures DifferWithin(k, u, Assigned(k, u, s, v), x) && DifferWithin(k, u, Cleared(k, u, s), x)
  {
    hide Saturated, Coherent, Accepts;
    forall t | t in k.syms && t !in x
      ensures k.syms[t].choice.Some? ==> k.syms[t].choice != k.syms[s].choice
    {
      SameChoice(k, x, s, t);
    }
  }

  /** A symbol outside _get_dependent keeps its value when another one is set or
      unset, unless that enables or disables modules. */
  lemma OutsideKeeps(k: Config, u: Users, rank: string -> nat, s: string, v: string, r: set<string>, t: string)
    requires Coherent(k) && Tracked(k) && UsersFit(k, u) && Ranked(k, rank)
    requires s in k.syms && IsDependent(k, s, r) && t in k.syms && t != s && t !in r
    ensures var a := Assigned(k, u, s, v);
            Full(k, u, rank).modules == Full(k, a, rank).modules ==> Meaning(k, a, rank, t) == Meaning(k, u, rank, t)
    ensures var c := Cleared(k, u, s);
            Full(k, u, rank).modules == Full(k, c, rank).modules ==> Meaning(k, c, rank, t) == Meaning(k, u, rank, t)
  {
    hide Coherent, UsersFit, Ranked, Saturated, Encloses, Full, Meaning, Assigned, Cleared, DifferWithin, SameGroup;
    var a, c := Assigned(k, u, s, v), Cleared(k, u, s);
    AssignedFits(k, u, s, v);
    ClearedFits(k, u, s);
    assert Encloses(k, r + {s});
    ChangesWithin(k, u, s, v, r + {s});
    if Full(k, u, rank).modules == Full(k, a, rank).modules { Unaffected(k, u, a, rank, r + {s}, t); }
    if Full(k, u, rank).modules == Full(k, c, rank).modules { Unaffected(k, u, c, rank, r + {s}, t); }
  }

  /** Setting a symbol leaves modules alone unless MODULES is, or depends on, that symbol. */
  lemma ModulesOutside(k: Config, u: Users, rank: string -> nat, s: string, v: string, r: set<string>)
    requires Coherent(k) && Tracked(k) && UsersFit(k, u) && Ranked(k, rank)
    requires s in k.syms && IsDependent(k, s, r) && MODULES != s && MODULES !in r
    ensures Full(k, u, rank).modules == Full(k, Assigned(k, u, s, v), rank).modules
    ensures Full(k, u, rank).modules == Full(k, Cleared(k, u, s), rank).modules
  {
    hide Coherent, UsersFit, Ranked, Saturated, Encloses, Full, Assigned, Cleared, DifferWithin;
    AssignedFits(k, u, s, v);
    ClearedFits(k, u, s);
    assert Encloses(k, r + {s});
    ChangesWithin(k, u, s, v, r + {s});
    ModulesKept(k, u, Assigned(k, u, s, v), rank, r + {s});
    ModulesKept(k, u, Cleared(k, u, s), rank, r + {s});
  }

  /** A choice with a selection or a mode has a symbol. */
  lemma ChoiceHasSymbol(k: Config, u: Users, c: nat)
    requires Coherent(k) && UsersFit(k, u) && (c in u.sel || c in u.mode)
    ensures exists s :: s in k.syms && k.syms[s].choice == Some(c)
  {
    var s := if c in u.sel then u.sel[c] else ChoiceOf(k, c).actual[0];
    assert s in ChoiceOf(k, c).actual;
    assert c in k.choices && s in k.choices[c].actual;
    assert s in k.syms && k.syms[s].choice == Some(c);
  }

  /** Unsetting every symbol leaves nothing the user has set. */
  lemma NothingLeft(k: Config, u: Users)
    requires Coherent(k) && UsersFit(k, u)
    requires forall s | s in k.syms :: s !in u.val
    requires forall s | s in k.syms && k.syms[s].choice.Some? ::
               k.syms[s].choice.value !in u.sel && k.syms[s].choice.value !in u.mode
    ensures u == Users(map[], map[], map[])
  {
    forall c | c in u.sel || c in u.mode ensures exists s :: s in k.syms && k.syms[s].choice == Some(c) {
      ChoiceHasSymbol(k, u, c);
    }
    assert u.val.Keys == {} && u.sel.Keys == {} && u.mode.Keys == {};
  }
}
