/** The recursion by which menu_finalize hands dependencies down a whole tree, on
    the tree as parsing leaves it. */
module HandingDown {
  import opened Tristates
  import opened Exprs
  import opened Options
  import opened Transforming
  import opened Comparing
  import opened Dups
  import opened SymbolTable
  import opened Inheriting

  /** An entry: its symbol, whether that is a choice, the condition of its prompt
      (if it has one), its dependency, and the entries between it and its end. */
  datatype Item = Item(
    sym: Option<Symbol>,
    choice: bool,
    prompt: Option<Option<Expr>>,
    dep: Option<Expr>,
    kids: seq<Item>)

  /** Only menus, ifs and choices have entries before menu_finalize. */
  predicate Parsed(kids: seq<Item>) {
    forall m | m in kids ::
      (m.choice ==> m.sym.Some?) && (m.kids != [] && m.sym.Some? ==> m.choice) && Parsed(m.kids)
  }

  function Conjunction(path: seq<Option<Expr>>, env: Env): Tristate {
    if path == [] then YES else Min(Conjunction(path[..|path| - 1], env), EvalOption(path[|path| - 1], env))
  }

  /** `e` is the conjunction of all in `path`, wherever that is not m. */
  ghost predicate Conjoins(path: seq<Option<Expr>>, e: Option<Expr>) {
    forall env | WellFormed(env) && Conjunction(path, env) != MOD :: EvalOption(e, env) == Conjunction(path, env)
  }

  /** The same up to being n. */
  ghost predicate ConjoinsNo(path: seq<Option<Expr>>, e: Option<Expr>) {
    forall env | WellFormed(env) && Conjunction(path, env) != MOD ::
      EvalOption(e, env) == NO <==> Conjunction(path, env) == NO
  }

  /** What stands above the entries of `m`: a choice starts anew with its symbol. */
  function PathBelow(path: seq<Option<Expr>>, m: Item): seq<Option<Expr>> {
    if m.choice && m.sym.Some? then [Some(Ref(m.sym.value))]
    else if m.prompt.Some? then path + [m.dep, m.prompt.value]
    else path + [m.dep]
  }

  /** Every dependency has become the conjunction of all from the top of the tree, or
      from the choice, down to the entry, and every prompt that with its condition. */
  ghost predicate HandedDown(path: seq<Option<Expr>>, kids: seq<Item>, kids': seq<Item>)
    decreases kids
  {
    && |kids'| == |kids|
    && forall i | 0 <= i < |kids| ::
         && OneHandedDown(path, kids[i], kids'[i])
         && HandedDown(PathBelow(path, kids[i]), kids[i].kids, kids'[i].kids)
  }

  ghost predicate OneHandedDown(path: seq<Option<Expr>>, m: Item, m': Item) {
    && m'.sym == m.sym && m'.choice == m.choice && (m'.prompt.Some? <==> m.prompt.Some?)
    && Conjoins(path + [m.dep], m'.dep) && NormalOption(m'.dep) && SettledOption(m'.dep)
    && (m.prompt.Some? ==>
          var all := path + [m.dep, m.prompt.value];
          NormalOption(m'.prompt.value) &&
          if m.sym.None? || m.sym.value.Type() == Tri then Conjoins(all, m'.prompt.value)
          else ConjoinsNo(all, m'.prompt.value))
  }

  /** Being m on the way does no harm: an n further down decides, and otherwise the
      conjunction is m itself. */
  lemma ConjunctionStep(path: seq<Option<Expr>>, above: Option<Expr>, own: Option<Expr>, env: Env)
    requires WellFormed(env) && Conjoins(path, above)
    ensures Conjunction(path + [own], env) == Min(Conjunction(path, env), EvalOption(own, env))
    ensures Conjunction(path + [own], env) != MOD ==> Both(above, own, env) == Conjunction(path + [own], env)
  {
    assert (path + [own])[..|path|] == path;
  }

  lemma InheritedConjoins(path: seq<Option<Expr>>, above: Option<Expr>, own: Option<Expr>, e: Option<Expr>)
    requires Conjoins(path, above)
    requires forall env | WellFormed(env) && Both(above, own, env) != MOD :: EvalOption(e, env) == Both(above, own, env)
    ensures Conjoins(path + [own], e)
  {
    forall env | WellFormed(env) && Conjunction(path + [own], env) != MOD
      ensures EvalOption(e, env) == Conjunction(path + [own], env)
    {
      ConjunctionStep(path, above, own, env);
    }
  }

  lemma InheritedNo(path: seq<Option<Expr>>, above: Option<Expr>, own: Option<Expr>, e: Option<Expr>)
    requires Conjoins(path, above)
    requires forall env | WellFormed(env) && Both(above, own, env) != MOD :: EvalOption(e, env) == NO <==> Both(above, own, env) == NO
    ensures ConjoinsNo(path + [own], e)
  {
    forall env | WellFormed(env) && Conjunction(path + [own], env) != MOD
      ensures EvalOption(e, env) == NO <==> Conjunction(path + [own], env) == NO
    {
      ConjunctionStep(path, above, own, env);
    }
  }

  /** So an entry is nothing that what it stands below is not: the symbol of the choice,
      or else the dependency and the prompt of the entry above it, and all above that. */
  lemma NoMoreThanAbove(path: seq<Option<Expr>>, m: Item, kid: Item, env: Env)
    ensures var v := Conjunction(PathBelow(path, m) + [kid.dep], env);
            && v <= EvalOption(kid.dep, env)
            && if m.choice && m.sym.Some? then v <= env.tri(m.sym.value)
               else
                 && v <= EvalOption(m.dep, env) && v <= Conjunction(path, env)
                 && (m.prompt.Some? ==> v <= EvalOption(m.prompt.value, env))
  {
    OneMore(PathBelow(path, m), kid.dep, env);
    OneMore(path, m.dep, env);
    if m.choice && m.sym.Some? {
      OneMore([], Some(Ref(m.sym.value)), env);
      assert [] + [Some(Ref(m.sym.value))] == [Some(Ref(m.sym.value))];
    } else if m.prompt.Some? {
      OneMore(path + [m.dep], m.prompt.value, env);
      assert (path + [m.dep]) + [m.prompt.value] == path + [m.dep, m.prompt.value];
    }
  }

  lemma OneMore(path: seq<Option<Expr>>, e: Option<Expr>, env: Env)
    ensures Conjunction(path + [e], env) == Min(Conjunction(path, env), EvalOption(e, env))
  {
    assert (path + [e])[..|path|] == path;
  }

  lemma OneConjoins(e: Expr)
    ensures Conjoins([Some(e)], Some(e))
  {
    forall env ensures Conjunction([Some(e)], env) == Eval(e, env) {
      var path := [Some(e)];
      assert path[..0] == [] && Conjunction(path[..0], env) == YES;
    }
  }

  /** The dependency and the prompt of one entry. */
  method HandToEntry(ghost path: seq<Option<Expr>>, above: Option<Expr>, m: Item) returns (m': Item)
    requires Conjoins(path, above) && NormalOption(above)
    ensures OneHandedDown(path, m, m') && m'.kids == m.kids && m'.choice == m.choice && m'.sym == m.sym
  {
    hide Conjoins, ConjoinsNo, Conjunction, Normal, Settled, Eval;
    var dep := Inherit(above, m.dep);
    InheritedConjoins(path, above, m.dep, dep);
    m' := m.(dep := dep);
    if m.prompt.Some? {
      var tristate := m.sym.None? || m.sym.value.Type() == Tri;
      var visible := InheritVisibility(dep, m.prompt.value, tristate);
      assert path + [m.dep, m.prompt.value] == (path + [m.dep]) + [m.prompt.value];
      if tristate {
        InheritedConjoins(path + [m.dep], dep, m.prompt.value, visible);
      } else {
        InheritedNo(path + [m.dep], dep, m.prompt.value, visible);
      }
      m' := m'.(prompt := Some(visible));
    }
  }

  /** The two loops of menu_finalize over the entries below one: all of them are given
      their dependencies first, and then each hands its own down. */
  method HandDown(ghost path: seq<Option<Expr>>, above: Option<Expr>, kids: seq<Item>) returns (kids': seq<Item>)
    requires Conjoins(path, above) && NormalOption(above) && Parsed(kids)
    ensures HandedDown(path, kids, kids')
    decreases kids
  {
    hide Conjoins, ConjoinsNo, Conjunction, Normal, Settled, OneHandedDown, HandedDown;
    kids' := [];
    for i := 0 to |kids|
      invariant |kids'| == i
      invariant forall j | 0 <= j < i :: OneHandedDown(path, kids[j], kids'[j]) && kids'[j].kids == kids[j].kids
      invariant forall j | 0 <= j < i :: kids'[j].choice == kids[j].choice && kids'[j].sym == kids[j].sym
    {
      var m := HandToEntry(path, above, kids[i]);
      kids' := kids' + [m];
    }
    for i := 0 to |kids|
      invariant |kids'| == |kids|
      invariant forall j | 0 <= j < |kids| :: OneHandedDown(path, kids[j], kids'[j])
      invariant forall j | 0 <= j < |kids| :: kids'[j].choice == kids[j].choice && kids'[j].sym == kids[j].sym
      invariant forall j | i <= j < |kids| :: kids'[j].kids == kids[j].kids
      invariant forall j | 0 <= j < i :: HandedDown(PathBelow(path, kids[j]), kids[j].kids, kids'[j].kids)
    {
      if kids[i].kids != [] {
        var m := kids'[i];
        var parentdep := if m.choice then Some(Ref(m.sym.value)) else if m.prompt.Some? then m.prompt.value else m.dep;
        AboveChildren(path, kids[i], m, parentdep);
        var below := HandDown(PathBelow(path, kids[i]), parentdep, m.kids);
        kids' := kids'[i := m.(kids := below)];
        ChildrenDoNotMatter(path, kids[i], m, below);
      } else {
        NothingBelow(PathBelow(path, kids[i]));
      }
    }
    AllHandedDown(path, kids, kids');
  }

  lemma AboveChildren(path: seq<Option<Expr>>, m: Item, m': Item, parentdep: Option<Expr>)
    requires OneHandedDown(path, m, m') && (m.choice ==> m.sym.Some?) && (m.sym.Some? ==> m.choice)
    requires parentdep == if m'.choice then Some(Ref(m'.sym.value)) else if m'.prompt.Some? then m'.prompt.value else m'.dep
    ensures Conjoins(PathBelow(path, m), parentdep) && NormalOption(parentdep)
  {
    hide Conjoins, ConjoinsNo, Settled;
    if m.choice {
      OneConjoins(Ref(m.sym.value));
    }
  }

  lemma ChildrenDoNotMatter(path: seq<Option<Expr>>, m: Item, m': Item, kids: seq<Item>)
    requires OneHandedDown(path, m, m')
    ensures OneHandedDown(path, m, m'.(kids := kids))
  {
  }

  lemma AllHandedDown(path: seq<Option<Expr>>, kids: seq<Item>, kids': seq<Item>)
    requires |kids'| == |kids|
    requires forall j | 0 <= j < |kids| ::
               OneHandedDown(path, kids[j], kids'[j]) && HandedDown(PathBelow(path, kids[j]), kids[j].kids, kids'[j].kids)
    ensures HandedDown(path, kids, kids')
  {
    hide OneHandedDown;
  }

  lemma NothingBelow(path: seq<Option<Expr>>)
    ensures HandedDown(path, [], [])
  {
  }
}
