/** menu_finalize: absorbing the entries that follow as submenus, and hoisting the
    children of entries without a prompt. */
module MenuFinalize {
  import opened Tristates
  import opened Exprs
  import opened Options
  import opened ExprEq
  import opened Transforming
  import opened Slots
  import opened Dups
  import opened Comparing
  import opened MenuTree

  predicate HasText(e: Entry) {
    e.prompt.Some? && e.prompt.value.text
  }

  /** Below the root of the tree, an entry without a prompt has no children. */
  ghost predicate Hoisted(t: Tree) {
    AllHoisted(t.kids)
  }

  ghost predicate AllHoisted(f: seq<Tree>) {
    forall t | t in f :: (t.kids != [] ==> HasText(t.m.entry)) && Hoisted(t)
  }

  /** Puts the children of `child` behind it, among its siblings. */
  method HoistOne(menu: Menu, child: Menu, ghost t: Tree, ghost tail: seq<Tree>)
    requires child == t.m && child.list != null
    requires Linked([t] + tail, child, menu, null) && Distinct([t] + tail)
    modifies Nodes([t])
    ensures child.parent == menu && child.list == null
    ensures Linked(t.kids + tail, child.next, menu, null)
  {
    hide Preorder, Linked, Distinct;
    SplitFirst(t, tail);
    DistinctNode(t);
    LinkedCons(t, tail, child, menu, null);
    HasChildren(t);
    RootsAreNodes(t.kids);
    var first, after := child.list, child.next;
    assert allocated(Nodes(tail));
    var last := SetParents(first, menu, t.kids, child);
    assert last in Roots(t.kids);
    SetNext(last, after, t.kids, first, menu);
    child.next := first;
    child.list := null;
    LinkedConcat(t.kids, tail, child.next, after, menu, null);
  }

  lemma HasChildren(t: Tree)
    requires t.m.list != null && Linked(t.kids, t.m.list, t.m, null)
    ensures t.kids != []
  {
  }

  /** The last loop of menu_finalize. */
  method HoistChildren(menu: Menu, ghost kids: seq<Tree>) returns (ghost kids': seq<Tree>)
    requires Linked(kids, menu.list, menu, null) && Distinct(kids) && menu !in Nodes(kids)
    requires forall t | t in kids :: Hoisted(t)
    modifies Nodes(kids)
    ensures Linked(kids', menu.list, menu, null) && Preorder(kids') == Preorder(kids)
    ensures AllHoisted(kids') && kids' == Hoist(kids)
  {
    hide Hoisted, Preorder, Linked, Distinct, Nodes, Hoist;
    var child := menu.list;
    ghost var done: seq<Tree>, rest := [], kids;
    NothingLinked(menu.list, menu);
    assert done + rest == kids;
    while child != null
      invariant Linked(done, menu.list, menu, child) && Linked(rest, child, menu, null)
      invariant Preorder(done + rest) == Preorder(kids)
      invariant AllHoisted(done) && done + Hoist(rest) == Hoist(kids)
      invariant forall t | t in rest :: Hoisted(t)
      decreases |Preorder(rest)|
    {
      RestStarts(rest, child, menu);
      ghost var t, tail := rest[0], rest[1..];
      assert rest == [t] + tail;
      SamePreorder(done + rest, kids);
      Apart(done, t, tail);
      LinkedCons(t, tail, child, menu, null);
      assert allocated(Nodes(done)) && allocated(Nodes(tail));
      ghost var t', tail' := t, tail;
      if child.list != null && !HasText(child.entry) {
        HasChildren(t);
        HoistOne(menu, child, t, tail);
        t', tail' := Node(child, []), t.kids + tail;
        NothingLinked(null, child);
      } else if child.list == null {
        NothingLeft(t.kids, child);
      }
      HoistedStep(done, t, tail, t', tail');
      HoistStep(done, t, tail);
      assert done + Hoist(rest) == (done + [t']) + Hoist(tail');
      LinkedOne(t', menu, child.next);
      LinkedConcat(done, [t'], menu.list, child, menu, child.next);
      done, rest := done + [t'], tail';
      child := child.next;
    }
    NothingLeft(rest, menu);
    assert done + rest == done;
    NothingHoisted(done);
    kids' := done;
  }

  lemma HoistedStep(done: seq<Tree>, t: Tree, tail: seq<Tree>, t': Tree, tail': seq<Tree>)
    requires (t', tail') == (Node(t.m, []), t.kids + tail) || ((t', tail') == (t, tail) && (t.kids != [] ==> HasText(t.m.entry)))
    requires AllHoisted(done) && Hoisted(t) && forall x | x in tail :: Hoisted(x)
    ensures AllHoisted(done + [t']) && forall x | x in tail' :: Hoisted(x)
    ensures Preorder((done + [t']) + tail') == Preorder(done + ([t] + tail))
    ensures |Preorder(tail')| < |Preorder([t] + tail)|
  {
    hide Preorder, HasText;
    SameOrder(t, tail, t', tail');
    assert (done + [t']) + tail' == done + ([t'] + tail');
    PreorderConcat(done, [t'] + tail');
    PreorderConcat(done, [t] + tail);
    assert Hoisted(t');
    forall x | x in tail' ensures Hoisted(x) {
      assert x in t.kids || x in tail;
    }
  }

  lemma SameOrder(t: Tree, tail: seq<Tree>, t': Tree, tail': seq<Tree>)
    requires (t', tail') == (Node(t.m, []), t.kids + tail) || (t', tail') == (t, tail)
    ensures Preorder([t'] + tail') == Preorder([t] + tail)
    ensures |Preorder(tail')| < |Preorder([t] + tail)|
  {
    hide Preorder;
    PreorderFirst(t, tail);
    if (t', tail') != (t, tail) {
      PreorderFirst(t', tail');
      PreorderConcat(t.kids, tail);
      NothingLinked(null, null);
      Regroup(t.m, Preorder(t.kids), Preorder(tail));
    }
  }

  lemma Regroup<T>(x: T, a: seq<T>, b: seq<T>)
    ensures [x] + [] + (a + b) == [x] + a + b
  {
  }

  // Absorbing submenus

  function PromptVisible(e: Entry): Option<Expr> {
    if e.prompt.Some? then e.prompt.value.visible else None
  }

  /** What decides whether the entry shows. */
  function ShownBy(e: Entry): Option<Expr> {
    if e.prompt.Some? then e.prompt.value.visible else e.dep
  }

  /** Why `c` may be put below `p`: what shows `c` mentions the symbol of `p`, and
      depends on it or implies that the prompt of `p` shows. */
  ghost predicate Justified(p: Entry, c: Entry) {
    && p.sym.Some? && ShownBy(c).Some? && Contains(ShownBy(c).value, p.sym.value)
    && (Depends(ShownBy(c).value, p.sym.value) || ImpliesVisible(ShownBy(c), PromptVisible(p)))
  }

  lemma JustifiedIntro(p: Entry, c: Entry)
    requires p.sym.Some? && ShownBy(c).Some? && Contains(ShownBy(c).value, p.sym.value)
    requires Depends(ShownBy(c).value, p.sym.value) || ImpliesVisible(ShownBy(c), PromptVisible(p))
    ensures Justified(p, c)
  {
  }

  /** In every environment in which `c` shows, the symbol of `p` is not n, or the
      prompt of `p` shows too. */
  lemma JustifiedMeans(p: Entry, c: Entry, env: Env)
    requires Justified(p, c) && p.sym.value.HasTristate() && WellFormed(env)
    ensures EvalOption(ShownBy(c), env) != NO && Shows(ShownBy(c), env) ==>
              env.tri(p.sym.value) != NO || Shows(PromptVisible(p), env)
    ensures EvalOption(ShownBy(c), env) != NO && SharpOption(ShownBy(c), env) && SharpOption(PromptVisible(p), env) ==>
              env.tri(p.sym.value) != NO || EvalOption(PromptVisible(p), env) != NO
  {
    if Depends(ShownBy(c).value, p.sym.value) {
      if EvalOption(ShownBy(c), env) != NO { DependsForces(ShownBy(c).value, p.sym.value, env); }
    } else if SharpOption(ShownBy(c), env) && SharpOption(PromptVisible(p), env) {
      ShowsIsNotNo(ShownBy(c), env);
      ShowsIsNotNo(PromptVisible(p), env);
    }
  }

  /** Expressions as menu_finalize has them, about bool and tristate symbols. */
  predicate Logical(e: Option<Expr>) {
    e.Some? ==> Normal(e.value) && TristateLeaves(e.value)
  }

  /** `c` shows only where the symbol of `p` is not n or the prompt of `p` shows. */
  ghost predicate ShowsBelow(p: Entry, c: Entry, env: Env)
    requires p.sym.Some?
  {
    EvalOption(ShownBy(c), env) != NO ==> env.tri(p.sym.value) != NO || EvalOption(PromptVisible(p), env) != NO
  }

  ghost predicate CanBeBelow(p: Entry, c: Entry) {
    && Justified(p, c) && p.sym.value.HasTristate()
    && Logical(ShownBy(c)) && Logical(PromptVisible(p))
  }

  /** That holds of all entries that may be put below others if and only if there
      are not both a symbol that is m and one that is n. */
  lemma AbsorbedExactly(env: Env)
    requires WellFormed(env)
    ensures (forall p, c | CanBeBelow(p, c) :: ShowsBelow(p, c, env)) <==>
            !exists a: Symbol, s: Symbol ::
              a.HasTristate() && s.HasTristate() && env.tri(a) == MOD && env.tri(s) == NO
  {
    if a: Symbol, s: Symbol :| a.HasTristate() && s.HasTristate() && env.tri(a) == MOD && env.tri(s) == NO {
      var p := Entry(Some(s), Some(PromptInfo(Some(Compare(true, a, No)), true)), None);
      var c := Entry(None, None, Some(UnlessShown(a, s)));
      assert a.Type() == Tri;
      UnlessShownNormal(a, s);
      UnlessShownImplies(a, s);
      UnlessShownAtMod(a, s, env);
      hide Normal, TristateLeaves, Contains, ImpliesVisible, Eval, UnlessShown;
      assert CanBeBelow(p, c) && !ShowsBelow(p, c, env);
    } else {
      forall p, c | CanBeBelow(p, c) ensures ShowsBelow(p, c, env) {
        if env.tri(p.sym.value) == NO {
          SharpOptions(ShownBy(c), env);
          SharpOptions(PromptVisible(p), env);
          JustifiedMeans(p, c, env);
        }
      }
    }
  }

  lemma SharpOptions(e: Option<Expr>, env: Env)
    requires Logical(e) && forall s: Symbol | s.HasTristate() :: env.tri(s) != MOD
    ensures SharpOption(e, env)
  {
    if e.Some? {
      SharpSymbols(e.value, env);
    }
  }

  /** Whether `c`, coming next, goes below `p`. */
  predicate Below(p: Entry, c: Entry) {
    p.sym.Some? && GoesBelow(p.sym.value, PromptVisible(p), ShownBy(c))
  }

  lemma BelowIsJustified(p: Entry, c: Entry)
    requires Below(p, c)
    ensures Justified(p, c)
  {
    hide Depends, Contains, ImpliesVisible, EliminateEq, Test, Leaves, NamesSymbol;
    BelowMeans(p.sym.value, PromptVisible(p), ShownBy(c));
  }

  // What becomes of the tree. First the entries are put below one another, and then
  // what is below entries without a prompt is taken out again.

  /** `a` is made of the first `n` trees of a row: the children of the first one are
      taken as a row of their own, or else, if it has a symbol, entries that follow are
      put below it until one comes that does not go there. */
  ghost predicate FormsFirst(row: seq<Tree>, a: Tree, n: nat)
    decreases a, 0
  {
    && 0 < n <= |row| && a.m == row[0].m
    && if row[0].kids != [] || a.m.entry.sym.None? then n == 1 && FormsRow(row[0].kids, a.kids, |row[0].kids|)
       else FormsBelow(a.m, row[1..], a.kids, n - 1) && (n < |row| ==> !Below(a.m.entry, row[n].m.entry))
  }

  /** The first `n` trees of a row are formed one after the other. */
  ghost predicate FormsRow(row: seq<Tree>, formed: seq<Tree>, n: nat)
    decreases formed, 1
  {
    if formed == [] then n == 0
    else
      var last := |formed| - 1;
      exists k: nat | k < n <= |row| :: FormsRow(row, formed[..last], k) && FormsFirst(row[k..], formed[last], n - k)
  }

  /** So are those that are put below `m`. */
  ghost predicate FormsBelow(m: Menu, row: seq<Tree>, formed: seq<Tree>, n: nat)
    decreases formed, 1
  {
    if formed == [] then n == 0
    else
      var last := |formed| - 1;
      exists k: nat | k < n <= |row| ::
        && FormsBelow(m, row, formed[..last], k)
        && Below(m.entry, row[k].m.entry) && FormsFirst(row[k..], formed[last], n - k)
  }

  lemma FormsOneMore(m: Menu, row: seq<Tree>, formed: seq<Tree>, k: nat, a: Tree, n: nat)
    requires k < |row| && FormsFirst(row[k..], a, n)
    ensures 0 < n && k + n <= |row|
    ensures FormsRow(row, formed, k) ==> FormsRow(row, formed + [a], k + n)
    ensures FormsBelow(m, row, formed, k) && Below(m.entry, row[k].m.entry) ==> FormsBelow(m, row, formed + [a], k + n)
  {
    hide FormsFirst, Below;
    FormsWithin(row[k..], a, n);
    var more := formed + [a];
    assert more[..|more| - 1] == formed && n == (k + n) - k;
  }

  lemma FormsWithin(row: seq<Tree>, a: Tree, n: nat)
    requires FormsFirst(row, a, n)
    ensures 0 < n <= |row|
  {
  }

  /** What is below entries without a prompt comes after them. */
  ghost function Hoist(row: seq<Tree>): seq<Tree> {
    if row == [] then []
    else (if HasText(row[0].m.entry) then [row[0]] else [Node(row[0].m, [])] + row[0].kids) + Hoist(row[1..])
  }

  /** From the leaves up to, but without, the root. */
  ghost function Flat(t: Tree): Tree
    decreases t, 0
  {
    Node(t.m, Hoist(FlatEach(t.kids)))
  }

  ghost function FlatEach(row: seq<Tree>): (r: seq<Tree>)
    ensures |r| == |row|
    decreases row, 1
  {
    if row == [] then [] else [Flat(row[0])] + FlatEach(row[1..])
  }

  lemma {:induction false} HoistConcat(a: seq<Tree>, b: seq<Tree>)
    ensures Hoist(a + b) == Hoist(a) + Hoist(b)
  {
    if a == [] {
      assert a + b == b;
    } else {
      assert (a + b)[1..] == a[1..] + b;
      HoistConcat(a[1..], b);
    }
  }

  lemma {:induction false} HoistHoisted(a: seq<Tree>)
    requires AllHoisted(a)
    ensures Hoist(a) == a
  {
    if a != [] {
      HoistHoisted(a[1..]);
      assert a[0] in a;
    }
  }

  lemma NothingHoisted(done: seq<Tree>)
    ensures done + Hoist([]) == done
  {
  }

  lemma HoistCons(t: Tree, tail: seq<Tree>)
    ensures Hoist([t] + tail) == (if HasText(t.m.entry) then [t] else [Node(t.m, [])] + t.kids) + Hoist(tail)
    ensures Hoist([]) == []
  {
    hide HasText;
    assert ([t] + tail)[1..] == tail;
  }

  lemma BelowHoisted(t: Tree)
    requires Hoisted(t)
    ensures AllHoisted(t.kids)
  {
  }

  /** One step of the last loop of menu_finalize. */
  lemma HoistStep(done: seq<Tree>, t: Tree, tail: seq<Tree>)
    requires Hoisted(t)
    ensures done + Hoist([t] + tail) ==
            if HasText(t.m.entry) || t.kids == [] then (done + [t]) + Hoist(tail)
            else (done + [Node(t.m, [])]) + Hoist(t.kids + tail)
  {
    hide HasText, Hoist, Hoisted, AllHoisted;
    BelowHoisted(t);
    HoistCons(t, tail);
    HoistConcat(t.kids, tail);
    HoistHoisted(t.kids);
    assert t.kids == [] ==> t == Node(t.m, []);
  }

  lemma {:induction false} FlatEachConcat(a: seq<Tree>, b: seq<Tree>)
    ensures FlatEach(a + b) == FlatEach(a) + FlatEach(b)
  {
    if a == [] {
      assert a + b == b;
    } else {
      assert (a + b)[1..] == a[1..] + b;
      FlatEachConcat(a[1..], b);
    }
  }

  lemma FlatEachOneMore(a: seq<Tree>, t: Tree)
    ensures FlatEach(a + [t]) == FlatEach(a) + [Flat(t)]
  {
    FlatEachConcat(a, [t]);
    assert FlatEach([t]) == [Flat(t)] + FlatEach([t][1..]);
  }

  /** menu_finalize, the dependencies being in place already. `f` is the entry with
      what is below it, followed by its siblings. The first `n` trees are made into
      one, which is then flattened; the rest stay as they are. Entries keep their order
      and are finalized once each, in that order. */
  method Finalize(menu: Menu, ghost f: seq<Tree>, ghost parent: Menu?)
    returns (ghost f': seq<Tree>, ghost log: seq<Menu>, ghost a: Tree, ghost n: nat)
    requires f != [] && f[0].m == menu && Linked(f, menu, parent, null) && Distinct(f)
    modifies Nodes(f)
    ensures f' != [] && f'[0].m == menu && Linked(f', menu, parent, null)
    ensures Preorder(f') == Preorder(f) && log == Preorder([f'[0]])
    ensures n <= |f| && FormsFirst(f, a, n) && f' == [Flat(a)] + f[n..]
    ensures Hoisted(f'[0])
    decreases |Preorder(f)|, 0
  {
    hide Hoisted, Preorder, Linked, Distinct, Nodes, FormsRow, FormsBelow, FlatEach, Hoist;
    ghost var t, rest := f[0], f[1..];
    assert f == [t] + rest;
    ApartFirst(t, rest);
    LinkedCons(t, rest, menu, parent, null);
    PreorderFirst(t, rest);
    NothingLinked(null, menu);
    assert allocated(Nodes(rest));
    ghost var kids, below, formed: seq<Tree> := t.kids, [], [];
    n := 1;
    if menu.list != null {
      HasChildren(t);
      kids, below, formed := FinalizeChildren(menu, t.kids);
      SamePreorder(kids, t.kids);
    } else {
      NothingLeft(t.kids, menu);
      NothingFormed();
      if menu.entry.sym.Some? {
        ghost var k;
        kids, below, formed, k := AbsorbSiblings(menu, menu.entry.sym.value, rest, parent);
        rest, n := rest[k..], k + 1;
        ApartRows(kids, rest, f[1..]);
      }
    }
    a := Node(menu, formed);
    assert allocated(Nodes(rest));
    ghost var kids' := HoistChildren(menu, kids);
    SamePreorder(kids', kids);
    ghost var t' := Node(menu, kids');
    LinkedCons(t', rest, menu, parent, null);
    PreorderFirst(t', rest);
    DistinctNode(t');
    HoistedNode(t');
    f' := [t'] + rest;
    assert f[n..] == rest;
    log := [menu] + below;
  }

  lemma NothingFormed()
    ensures FlatEach([]) == []
    ensures forall row :: FormsRow(row, [], 0)
    ensures forall m, row :: FormsBelow(m, row, [], 0)
  {
  }

  lemma HoistedNode(t: Tree)
    requires AllHoisted(t.kids)
    ensures Hoisted(t)
  {
  }

  /** The recursion into the children. */
  method FinalizeChildren(menu: Menu, ghost kids: seq<Tree>)
    returns (ghost kids': seq<Tree>, ghost log: seq<Menu>, ghost formed: seq<Tree>)
    requires Linked(kids, menu.list, menu, null) && Distinct(kids) && menu !in Nodes(kids)
    modifies Nodes(kids)
    ensures Linked(kids', menu.list, menu, null) && Preorder(kids') == Preorder(kids) && log == Preorder(kids')
    ensures forall t | t in kids' :: Hoisted(t)
    ensures FormsRow(kids, formed, |kids|) && kids' == FlatEach(formed)
    decreases |Preorder(kids)|, 1
  {
    hide Hoisted, Preorder, Linked, Distinct, Nodes, FormsRow, FormsFirst, FlatEach, Flat;
    ghost var done: seq<Tree>, rest := [], kids;
    log, formed := [], [];
    ghost var n: nat := 0;
    NothingFormed();
    var child := menu.list;
    NothingLinked(child, menu);
    assert done + rest == kids;
    while child != null
      invariant Linked(done, menu.list, menu, child) && Linked(rest, child, menu, null)
      invariant Preorder(done + rest) == Preorder(kids) && log == Preorder(done)
      invariant forall t | t in done :: Hoisted(t)
      invariant n <= |kids| && rest == kids[n..] && FormsRow(kids, formed, n) && done == FlatEach(formed)
      decreases |rest|
    {
      RestStarts(rest, child, menu);
      ApartRows(done, rest, kids);
      assert allocated(Nodes(done));
      ghost var f, below, a, k := Finalize(child, rest, menu);
      FormsWithin(rest, a, k);
      ghost var t, tail := f[0], f[1..];
      OneMoreFormed(menu, kids, formed, n, a, k, f);
      LinkedCons(t, tail, child, menu, null);
      LinkedOne(t, menu, child.next);
      LinkedConcat(done, [t], menu.list, child, menu, child.next);
      OneMoreInOrder(done, f);
      done, rest, log, formed, n := done + [t], tail, log + below, formed + [a], n + k;
      child := child.next;
    }
    NothingLeft(rest, menu);
    assert done + rest == done;
    kids' := done;
  }

  lemma OneMoreFormed(m: Menu, kids: seq<Tree>, formed: seq<Tree>, n: nat, a: Tree, k: nat, f: seq<Tree>)
    requires n < |kids| && FormsRow(kids, formed, n) && FormsFirst(kids[n..], a, k)
    requires 0 < k && n + k <= |kids| && f == [Flat(a)] + kids[n..][k..]
    ensures FormsRow(kids, formed + [a], n + k) && FlatEach(formed + [a]) == FlatEach(formed) + [f[0]]
    ensures f[1..] == kids[n + k..] && f == [f[0]] + f[1..]
  {
    hide FormsRow, FormsFirst, Flat, FlatEach;
    FormsOneMore(m, kids, formed, n, a, k);
    FlatEachOneMore(formed, a);
  }

  lemma OneMoreInOrder(done: seq<Tree>, f: seq<Tree>)
    requires f != []
    ensures Preorder((done + [f[0]]) + f[1..]) == Preorder(done) + Preorder(f)
    ensures Preorder(done + [f[0]]) == Preorder(done) + Preorder([f[0]])
  {
    hide Preorder;
    PreorderConcat(done, f);
    PreorderConcat(done, [f[0]]);
    assert (done + [f[0]]) + f[1..] == done + f;
  }

  /** Finalizes the entry that follows and makes it the last one below `menu`. */
  method AbsorbOne(menu: Menu, sibling: Menu, ghost first: Menu?,
                   ghost absorbed: seq<Tree>, ghost rest: seq<Tree>, ghost parent: Menu?)
    returns (ghost t: Tree, ghost log: seq<Menu>, ghost a: Tree, ghost k: nat)
    requires rest != [] && rest[0].m == sibling && Distinct(absorbed + rest)
    requires Linked(absorbed, first, menu, sibling) && Linked(rest, sibling, parent, null)
    modifies Nodes(rest)
    ensures 0 < k <= |rest| && FormsFirst(rest, a, k) && t == Flat(a)
    ensures t.m == sibling && Hoisted(t)
    ensures Linked(absorbed + [t], first, menu, sibling.next) && Linked(rest[k..], sibling.next, parent, null)
    ensures Preorder((absorbed + [t]) + rest[k..]) == Preorder(absorbed + rest)
    ensures Preorder(absorbed + [t]) == Preorder(absorbed) + log
    decreases |Preorder(rest)|, 1
  {
    hide Hoisted, Preorder, Linked, Distinct, Nodes, FormsFirst, Flat;
    ApartRows(absorbed, rest, absorbed + rest);
    assert allocated(Nodes(absorbed));
    ghost var f;
    f, log, a, k := Finalize(sibling, rest, parent);
    FormsWithin(rest, a, k);
    t := f[0];
    ghost var tail := f[1..];
    assert f == [t] + tail;
    SamePreorder(f, rest);
    ApartFirst(t, tail);
    LinkedCons(t, tail, sibling, parent, null);
    sibling.parent := menu;
    LinkedOne(t, menu, sibling.next);
    LinkedConcat(absorbed, [t], first, sibling, menu, sibling.next);
    PreorderConcat(absorbed, f);
    PreorderConcat(absorbed, rest);
    PreorderConcat(absorbed, [t]);
    assert (absorbed + [t]) + tail == absorbed + f;
  }

  /** The loop over the entries that follow. */
  method AbsorbSiblings(menu: Menu, sym: Symbol, ghost siblings: seq<Tree>, ghost parent: Menu?)
    returns (ghost absorbed: seq<Tree>, ghost log: seq<Menu>, ghost formed: seq<Tree>, ghost n: nat)
    requires menu.list == null && menu.entry.sym == Some(sym)
    requires Linked(siblings, menu.next, parent, null) && Distinct(siblings) && menu !in Nodes(siblings)
    modifies Nodes(siblings), menu
    ensures menu.parent == old(menu.parent)
    ensures n <= |siblings| && FormsBelow(menu, siblings, formed, n) && absorbed == FlatEach(formed)
    ensures n < |siblings| ==> !Below(menu.entry, siblings[n].m.entry)
    ensures Linked(absorbed, menu.list, menu, null) && Linked(siblings[n..], menu.next, parent, null)
    ensures Preorder(absorbed + siblings[n..]) == Preorder(siblings) && log == Preorder(absorbed)
    ensures forall t | t in absorbed :: Hoisted(t)
    decreases |Preorder(siblings)|, 2
  {
    hide Hoisted, Preorder, Linked, Distinct, Nodes, GoesBelow, Depends, ImpliesVisible, IsVisibilityTest, Test, FormsFirst,
      FormsBelow, Flat, FlatEach;
    absorbed, log, formed, n := [], [], [], 0;
    ghost var rest := siblings;
    NothingFormed();
    assert allocated(Nodes(siblings));
    var base := VisibilityTest(PromptVisible(menu.entry));
    var last: Menu? := null;
    var sibling := menu.next;
    ghost var first := menu.next;
    NothingLinked(first, menu);
    NothingLinked(null, menu);
    assert absorbed + rest == siblings;
    while sibling != null
      invariant menu.list == null && menu.parent == old(menu.parent) && menu.next == first
      invariant Linked(absorbed, first, menu, sibling) && Linked(rest, sibling, parent, null)
      invariant Preorder(absorbed + rest) == Preorder(siblings) && log == Preorder(absorbed)
      invariant forall t | t in absorbed :: Hoisted(t)
      invariant n <= |siblings| && rest == siblings[n..] && FormsBelow(menu, siblings, formed, n) && absorbed == FlatEach(formed)
      invariant if absorbed == [] then last == null && sibling == first
                else last == absorbed[|absorbed| - 1].m && last.next == sibling
      decreases |rest|
    {
      RestStarts(rest, sibling, parent);
      assert allocated(Nodes(rest)) && allocated(Nodes(absorbed));
      var below := IsSubmenuEntry(sym, PromptVisible(menu.entry), base, ShownBy(sibling.entry));
      if !below {
        break;
      }
      ApartRows(absorbed, rest, siblings);
      SamePreorder(absorbed + rest, siblings);
      ghost var t, finalized, a, k := AbsorbOne(menu, sibling, first, absorbed, rest, parent);
      FormsOneMore(menu, siblings, formed, n, a, k);
      FlatEachOneMore(formed, a);
      absorbed, rest, log, formed, n := absorbed + [t], rest[k..], log + finalized, formed + [a], n + k;
      last := sibling;
      sibling := sibling.next;
    }
    if sibling == null {
      NothingLeft(rest, parent);
    }
    ApartRows(absorbed, rest, siblings);
    assert allocated(Nodes(rest));
    if last != null {
      RootsAreNodes(absorbed);
      assert last in Roots(absorbed);
      menu.list := menu.next;
      menu.next := last.next;
      SetNext(last, null, absorbed, first, menu);
    } else {
      NothingLinked(null, menu);
    }
  }
}
