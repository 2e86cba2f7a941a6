/** The walk over all menu entries in conf_write and conf_write_defconfig: down
    `list`, else along `next`, else up until there is a `next`. */
module MenuWalk {
  import opened MenuTree

  /** The rows still to be visited after the entries below `p`: those that follow
      `p`, those that follow its parent, and so on up to the root. */
  ghost predicate Pending(rows: seq<seq<Tree>>, p: Menu)
    reads *
    decreases |rows|
  {
    if rows == [] then p.next == null && p.parent == null
    else
      && Linked(rows[0], p.next, p.parent, null)
      && p.parent != null
      && Pending(rows[1..], p.parent)
  }

  ghost function PreorderAll(rows: seq<seq<Tree>>): seq<Menu> {
    if rows == [] then [] else Preorder(rows[0]) + PreorderAll(rows[1..])
  }

  /** What is left to visit. */
  ghost function Left(row: seq<Tree>, rows: seq<seq<Tree>>): seq<Menu> {
    Preorder(row) + PreorderAll(rows)
  }

  lemma Descend(t: Tree, rest: seq<Tree>, rows: seq<seq<Tree>>)
    ensures Left([t] + rest, rows) == [t.m] + Left(t.kids, [rest] + rows)
  {
    hide Preorder;
    PreorderFirst(t, rest);
    assert ([rest] + rows)[1..] == rows;
    Regroup4(t.m, Preorder(t.kids), Preorder(rest), PreorderAll(rows));
  }

  lemma Regroup4<T>(x: T, a: seq<T>, b: seq<T>, c: seq<T>)
    ensures ([x] + a + b) + c == [x] + (a + (b + c))
  {
  }

  lemma EmptyRow(rows: seq<seq<Tree>>)
    ensures Left([], rows) == PreorderAll(rows)
    ensures rows != [] ==> PreorderAll(rows) == Left(rows[0], rows[1..])
    ensures rows == [] ==> PreorderAll(rows) == []
  {
  }

  lemma DescendPending(t: Tree, rest: seq<Tree>, rows: seq<seq<Tree>>, p: Menu)
    requires Linked([t] + rest, t.m, p, null) && Pending(rows, p)
    ensures t.m.parent == p && Linked(t.kids, t.m.list, t.m, null) && Linked(rest, t.m.next, p, null)
    ensures Pending([rest] + rows, t.m)
  {
    hide Linked;
    LinkedCons(t, rest, t.m, p, null);
    assert ([rest] + rows)[1..] == rows;
  }

  /** The climb: up to the first ancestor that something follows. */
  method Climb(start: Menu, ghost rows: seq<seq<Tree>>)
    returns (menu: Menu?, ghost row: seq<Tree>, ghost rows': seq<seq<Tree>>, ghost p: Menu)
    requires Pending(rows, start)
    ensures menu != null ==> Linked(row, menu, p, null) && Pending(rows', p)
    ensures menu == null ==> row == [] && rows' == []
    ensures Left(row, rows') == PreorderAll(rows)
  {
    hide Preorder, Linked;
    menu := start;
    row, rows', p := [], rows, start;
    EmptyRow(rows');
    while true
      invariant menu != null ==> menu == p && Pending(rows', p)
      invariant menu == null ==> rows' == []
      invariant row == [] && PreorderAll(rows') == PreorderAll(rows)
      decreases |rows'| + if menu == null then 0 else 1
    {
      EmptyRow(rows');
      if menu == null {
        break;
      }
      if menu.next != null {
        row, rows', p := rows'[0], rows'[1..], menu.parent;
        menu := menu.next;
        break;
      }
      menu := menu.parent;
      if menu != null {
        NothingLeft(rows'[0], menu);
        EmptyRow(rows'[1..]);
        rows', p := rows'[1..], menu;
      }
    }
  }

  /** The walk ends and visits the entries in preorder, each once. */
  method Walk(root: Menu, ghost t: Tree) returns (visited: seq<Menu>)
    requires Linked([t], root, null, null) && Distinct([t])
    ensures visited == Preorder(t.kids)
    ensures forall i, j | 0 <= i < j < |visited| :: visited[i] != visited[j]
  {
    hide Preorder, Linked, Left, Pending;
    LinkedOne(t, null, null);
    DistinctNode(t);
    visited := [];
    var menu := root.list;
    ghost var row: seq<Tree>, rows: seq<seq<Tree>>, p: Menu := t.kids, [], root;
    StartPending(root, t);
    while menu != null
      invariant menu != null ==> Linked(row, menu, p, null) && Pending(rows, p)
      invariant menu == null ==> Left(row, rows) == []
      invariant visited + Left(row, rows) == Preorder(t.kids)
      decreases |Left(row, rows)|
    {
      RestStarts(row, menu, p);
      ghost var first, rest := row[0], row[1..];
      assert row == [first] + rest;
      Descend(first, rest, rows);
      DescendPending(first, rest, rows, p);
      visited := visited + [menu];
      row, rows, p := first.kids, [rest] + rows, menu;
      if menu.list != null {
        menu := menu.list;
      } else {
        NothingLeft(first.kids, menu);
        EmptyRow(rows);
        menu, row, rows, p := Climb(menu, rows);
        EmptyRow(rows);
      }
    }
  }

  lemma StartPending(root: Menu, t: Tree)
    requires Linked([t], root, null, null)
    ensures Pending([], root) && Linked(t.kids, root.list, root, null)
    ensures Left(t.kids, []) == Preorder(t.kids)
    ensures root.list == null ==> t.kids == []
  {
    LinkedOne(t, null, null);
  }
}
