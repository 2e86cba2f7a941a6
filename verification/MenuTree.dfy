/** The linked tree of menu entries: `list` leads to the first child, `next` to
    the following sibling, `parent` upwards. */
module MenuTree {
  import opened Exprs
  import opened Options

  /** `visible` and `text` are prompt->visible.expr and prompt->text. */
  datatype PromptInfo = PromptInfo(visible: Option<Expr>, text: bool)

  datatype Entry = Entry(sym: Option<Symbol>, prompt: Option<PromptInfo>, dep: Option<Expr>)

  class Menu {
    const entry: Entry
    var next: Menu?
    var parent: Menu?
    var list: Menu?

    constructor (entry: Entry)
      ensures this.entry == entry && next == null && parent == null && list == null
    {
      this.entry := entry;
      next, parent, list := null, null, null;
    }
  }

  /** The shape of such a tree. */
  datatype Tree = Node(m: Menu, kids: seq<Tree>)

  /** The entries of a row of trees, each before what is below it. */
  ghost function Preorder(f: seq<Tree>): (s: seq<Menu>)
    ensures |s| >= |f|
    ensures f == [] <==> s == []
  {
    if f == [] then [] else [f[0].m] + Preorder(f[0].kids) + Preorder(f[1..])
  }

  ghost function Nodes(f: seq<Tree>): set<Menu> {
    set m | m in Preorder(f)
  }

  ghost predicate NoRepeat(s: seq<Menu>) {
    forall i, j | 0 <= i < j < |s| :: s[i] != s[j]
  }

  ghost predicate Distinct(f: seq<Tree>) {
    NoRepeat(Preorder(f))
  }

  /** Following `next` from `first` passes the roots of `f` and arrives at `end`;
      all name `parent` as their parent, and what is below them is linked too. */
  ghost predicate Linked(f: seq<Tree>, first: Menu?, parent: Menu?, end: Menu?)
    reads Nodes(f)
  {
    if f == [] then first == end
    else
      && first == f[0].m
      && f[0].m.parent == parent
      && Linked(f[0].kids, f[0].m.list, f[0].m, null)
      && Linked(f[1..], f[0].m.next, parent, end)
  }

  lemma {:induction false} PreorderConcat(a: seq<Tree>, b: seq<Tree>)
    ensures Preorder(a + b) == Preorder(a) + Preorder(b)
    ensures Nodes(a + b) == Nodes(a) + Nodes(b)
  {
    if a == [] {
      assert a + b == b;
    } else {
      assert (a + b)[1..] == a[1..] + b;
      PreorderConcat(a[1..], b);
    }
  }

  lemma {:induction false} LinkedConcat(a: seq<Tree>, b: seq<Tree>, first: Menu?, mid: Menu?, parent: Menu?, end: Menu?)
    requires Linked(a, first, parent, mid) && Linked(b, mid, parent, end)
    ensures Linked(a + b, first, parent, end)
  {
    if a == [] {
      assert a + b == b;
    } else {
      assert (a + b)[1..] == a[1..] + b;
      LinkedConcat(a[1..], b, a[0].m.next, mid, parent, end);
    }
  }

  ghost predicate Disjoint(s: seq<Menu>, t: seq<Menu>) {
    forall i, j | 0 <= i < |s| && 0 <= j < |t| :: s[i] != t[j]
  }

  lemma NoRepeatConcat(s: seq<Menu>, t: seq<Menu>)
    ensures NoRepeat(s + t) <==> NoRepeat(s) && NoRepeat(t) && Disjoint(s, t)
  {
    var w := s + t;
    assert forall i | 0 <= i < |s| :: w[i] == s[i];
    assert forall j | 0 <= j < |t| :: w[|s| + j] == t[j];
    if NoRepeat(w) {
      forall i, j | 0 <= i < j < |t| ensures t[i] != t[j] {
        assert w[|s| + i] != w[|s| + j];
      }
      forall i, j | 0 <= i < |s| && 0 <= j < |t| ensures s[i] != t[j] {
        assert w[i] != w[|s| + j];
      }
    }
    if NoRepeat(s) && NoRepeat(t) && Disjoint(s, t) {
      forall i, j | 0 <= i < j < |w| ensures w[i] != w[j] {
        if i >= |s| {
          assert t[i - |s|] != t[j - |s|];
        } else if j >= |s| {
          assert s[i] != t[j - |s|];
        }
      }
    }
  }

  /** Distinctness of a whole is that of its parts, and that they share nothing. */
  lemma DistinctConcat(a: seq<Tree>, b: seq<Tree>)
    ensures Distinct(a + b) <==> Distinct(a) && Distinct(b) && Nodes(a) !! Nodes(b)
  {
    PreorderConcat(a, b);
    var s, t := Preorder(a), Preorder(b);
    NoRepeatConcat(s, t);
    if Nodes(a) !! Nodes(b) {
      forall i, j | 0 <= i < |s| && 0 <= j < |t| ensures s[i] != t[j] {
        assert s[i] in Nodes(a) && t[j] in Nodes(b);
      }
    }
    if Disjoint(s, t) {
      forall m ensures !(m in Nodes(a) && m in Nodes(b)) {
        assert m in Nodes(a) ==> m in s;
        assert m in Nodes(b) ==> m in t;
      }
    }
  }

  lemma DistinctNode(t: Tree)
    ensures Distinct([t]) <==> Distinct(t.kids) && t.m !in Nodes(t.kids)
    ensures Preorder([t]) == [t.m] + Preorder(t.kids)
    ensures Nodes([t]) == {t.m} + Nodes(t.kids)
  {
    assert [t][1..] == [];
    var s := Preorder(t.kids);
    assert Preorder([t]) == [t.m] + s;
    NoRepeatConcat([t.m], s);
    DisjointOne(t.m, s);
  }

  lemma DisjointOne(x: Menu, s: seq<Menu>)
    ensures Disjoint([x], s) <==> x !in s
  {
    assert [x][0] == x;
    assert x !in s ==> forall j | 0 <= j < |s| :: s[j] in s;
  }

  ghost function Start(f: seq<Tree>, end: Menu?): Menu? {
    if f == [] then end else f[0].m
  }

  lemma {:induction false} LinkedSplit(a: seq<Tree>, b: seq<Tree>, first: Menu?, parent: Menu?, end: Menu?)
    requires Linked(a + b, first, parent, end)
    ensures Linked(a, first, parent, Start(b, end)) && Linked(b, Start(b, end), parent, end)
  {
    if a == [] {
      assert a + b == b;
    } else {
      assert (a + b)[1..] == a[1..] + b;
      LinkedSplit(a[1..], b, a[0].m.next, parent, end);
    }
  }

  lemma LinkedOne(t: Tree, parent: Menu?, end: Menu?)
    ensures Linked([t], t.m, parent, end) <==> t.m.parent == parent && t.m.next == end && Linked(t.kids, t.m.list, t.m, null)
  {
    assert [t][1..] == [];
  }

  lemma LinkedCons(t: Tree, tail: seq<Tree>, first: Menu?, parent: Menu?, end: Menu?)
    ensures Linked([t] + tail, first, parent, end) <==>
            first == t.m && t.m.parent == parent && Linked(t.kids, t.m.list, t.m, null) && Linked(tail, t.m.next, parent, end)
  {
    assert ([t] + tail)[1..] == tail;
  }

  lemma PreorderFirst(t: Tree, tail: seq<Tree>)
    ensures Preorder([t] + tail) == [t.m] + Preorder(t.kids) + Preorder(tail)
  {
    assert ([t] + tail)[1..] == tail;
  }

  /** Everything there is to know about one more tree in front of others. */
  lemma SplitFirst(t: Tree, tail: seq<Tree>)
    ensures Preorder([t] + tail) == [t.m] + Preorder(t.kids) + Preorder(tail)
    ensures Nodes([t] + tail) == {t.m} + Nodes(t.kids) + Nodes(tail)
    ensures Distinct([t] + tail) <==>
            && Distinct(t.kids) && Distinct(tail)
            && t.m !in Nodes(t.kids) && t.m !in Nodes(tail) && Nodes(t.kids) !! Nodes(tail)
  {
    PreorderConcat([t], tail);
    DistinctConcat([t], tail);
    DistinctNode(t);
  }

  ghost function Roots(f: seq<Tree>): set<Menu> {
    set t | t in f :: t.m
  }

  lemma {:induction false} RootsAreNodes(f: seq<Tree>)
    ensures Roots(f) <= Nodes(f)
  {
    if f != [] {
      RootsAreNodes(f[1..]);
      assert f == [f[0]] + f[1..];
      PreorderConcat([f[0]], f[1..]);
      DistinctNode(f[0]);
    }
  }

  /** Lets the last of a row point elsewhere. */
  method SetNext(last: Menu, to: Menu?, ghost f: seq<Tree>, ghost first: Menu?, ghost parent: Menu?)
    requires f != [] && last == f[|f| - 1].m && Linked(f, first, parent, last.next) && Distinct(f)
    modifies last
    ensures last.next == to && last.list == old(last.list) && last.parent == old(last.parent)
    ensures Linked(f, first, parent, to)
  {
    ghost var front, t := f[..|f| - 1], f[|f| - 1];
    assert f == front + [t];
    LinkedSplit(front, [t], first, parent, last.next);
    LinkedOne(t, parent, last.next);
    DistinctConcat(front, [t]);
    DistinctNode(t);
    last.next := to;
    LinkedOne(t, parent, to);
    LinkedConcat(front, [t], first, last, parent, to);
  }

  /** A tree in the middle has nothing in common with its surroundings. */
  lemma Apart(done: seq<Tree>, t: Tree, tail: seq<Tree>)
    requires Distinct(done + ([t] + tail))
    ensures t.m !in Nodes(done) && t.m !in Nodes(t.kids) && t.m !in Nodes(tail)
    ensures Nodes(done) !! Nodes(t.kids) && Nodes(t.kids) !! Nodes(tail) && Nodes(done) !! Nodes(tail)
    ensures Distinct(t.kids) && Distinct([t] + tail)
    ensures Nodes([t]) == {t.m} + Nodes(t.kids) && Nodes([t]) <= Nodes(done + ([t] + tail))
  {
    hide Distinct, Nodes, Preorder;
    PreorderConcat(done, [t] + tail);
    DistinctConcat(done, [t] + tail);
    SplitFirst(t, tail);
    DistinctNode(t);
  }

  lemma ApartFirst(t: Tree, tail: seq<Tree>)
    requires Distinct([t] + tail)
    ensures t.m !in Nodes(t.kids) && t.m !in Nodes(tail) && Nodes(t.kids) !! Nodes(tail)
    ensures Distinct(t.kids) && Distinct(tail)
    ensures Nodes([t] + tail) == {t.m} + Nodes(t.kids) + Nodes(tail)
  {
    hide Distinct, Nodes, Preorder;
    SplitFirst(t, tail);
  }

  /** Two rows side by side. */
  lemma ApartRows(a: seq<Tree>, b: seq<Tree>, f: seq<Tree>)
    requires Preorder(a + b) == Preorder(f) && Distinct(f)
    ensures Distinct(a) && Distinct(b) && Nodes(a) !! Nodes(b) && Nodes(f) == Nodes(a) + Nodes(b)
    ensures Preorder(f) == Preorder(a) + Preorder(b)
  {
    hide Distinct, Nodes, Preorder;
    SamePreorder(a + b, f);
    PreorderConcat(a, b);
    DistinctConcat(a, b);
  }

  lemma SamePreorder(f: seq<Tree>, g: seq<Tree>)
    requires Preorder(f) == Preorder(g)
    ensures Nodes(f) == Nodes(g) && (Distinct(f) <==> Distinct(g))
  {
  }

  lemma NothingLinked(m: Menu?, parent: Menu?)
    ensures Linked([], m, parent, m) && Preorder([]) == []
  {
  }

  lemma NothingLeft(rest: seq<Tree>, parent: Menu?)
    requires Linked(rest, null, parent, null)
    ensures rest == []
  {
  }

  lemma RestStarts(rest: seq<Tree>, first: Menu, parent: Menu?)
    requires Linked(rest, first, parent, null)
    ensures rest != [] && rest[0].m == first
  {
  }

  /** Gives a row of siblings another parent. */
  method SetParents(first: Menu, parent: Menu?, ghost f: seq<Tree>, ghost parent0: Menu?) returns (last: Menu)
    requires f != [] && Linked(f, first, parent0, null) && Distinct(f)
    modifies Roots(f)
    ensures Linked(f, first, parent, null) && last == f[|f| - 1].m && last.next == null
  {
    hide Linked, Nodes, Distinct;
    last := first;
    ghost var done: seq<Tree>, rest := [], f;
    NothingLinked(first, parent);
    RestStarts(rest, first, parent0);
    assert done + rest == f;
    while true
      invariant done + rest == f && rest != [] && last == rest[0].m
      invariant Linked(done, first, parent, last)
      invariant Linked(rest, last, parent0, null)
      decreases |rest|
    {
      ghost var t, tail := rest[0], rest[1..];
      assert rest == [t] + tail;
      Apart(done, t, tail);
      LinkedCons(t, tail, last, parent0, null);
      assert t in f;
      last.parent := parent;
      LinkedOne(t, parent, last.next);
      LinkedConcat(done, [t], first, last, parent, last.next);
      assert (done + [t]) + tail == f;
      done, rest := done + [t], tail;
      if last.next == null {
        NothingLeft(rest, parent0);
        break;
      }
      last := last.next;
      RestStarts(rest, last, parent0);
    }
    assert done == f;
  }
}
