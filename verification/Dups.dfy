/** expr_eliminate_dups: both pairwise passes, repeated until nothing changes. */
module Dups {
  import opened Tristates
  import opened Exprs
  import opened EliminateYn
  import opened Transforming
  import opened ExprEq
  import opened Joining
  import opened Extracting
  import opened Slots
  import opened Steps
  import opened Merging
  import opened Contradicting

  predicate Settled(e: Expr) {
    Merged(e) && Consistent(e)
  }

  /** Both passes, and the clean-up after them, until nothing changes. */
  function Deduped(e: Expr): Expr
    decreases Bins(e)
  {
    if !e.Bin? then e
    else
      var (merged, changes1) := MergedTree(e);
      MergedTreeStep(e);
      var (consistent, changes2) := ClearedTree(merged);
      ClearedTreeStep(merged);
      if changes1 + changes2 == 0 then e
      else
        YnAfterChange(e, merged, consistent, changes1, changes2);
        Deduped(Yn(consistent))
  }

  /** The result keeps every value other than m, in every environment, and has
      nothing left to merge and no operand left that contradicts another, by the code's
      own tests and by what they mean; where the tests find nothing, nothing happens. */
  lemma {:induction false} DedupedMeans(e: Expr)
    ensures var r := Deduped(e);
            && (forall env | WellFormed(env) :: Eval(e, env) != MOD ==> Eval(r, env) == Eval(e, env))
            && Settled(r) && Irreducible(r) && Uncontradicted(r)
            && (r == e || Clean(r))
            && (r == e <==> Settled(e))
            && (Normal(e) ==> Normal(r))
    decreases Bins(e)
  {
    hide Merged, Consistent, Irreducible, Uncontradicted, Eval, Normal, MergedTree, ClearedTree, Clean;
    if !e.Bin? {
      OperandSettled(e);
      SettledMeans(e);
    } else {
      var (merged, changes1) := MergedTree(e);
      MergedTreeStep(e);
      var (consistent, changes2) := ClearedTree(merged);
      ClearedTreeStep(merged);
      if changes1 + changes2 == 0 {
        SettledMeans(e);
      } else {
        YnAfterChange(e, merged, consistent, changes1, changes2);
        YnClean(consistent);
        DedupedMeans(Yn(consistent));
        DedupedShrinks(Yn(consistent));
      }
    }
  }

  lemma {:induction false} DedupedShrinks(e: Expr)
    ensures Bins(Deduped(e)) <= Bins(e)
    decreases Bins(e)
  {
    hide MergedTree, ClearedTree;
    if e.Bin? {
      var (merged, changes1) := MergedTree(e);
      MergedTreeStep(e);
      var (consistent, changes2) := ClearedTree(merged);
      ClearedTreeStep(merged);
      if changes1 + changes2 > 0 {
        YnAfterChange(e, merged, consistent, changes1, changes2);
        DedupedShrinks(Yn(consistent));
      }
    }
  }

  /** Each round that changes anything and the clean-up after it remove an && or ||. */
  method EliminateDups(e: Expr) returns (r: Expr)
    ensures r == Deduped(e)
    ensures forall env | WellFormed(env) :: Eval(e, env) != MOD ==> Eval(r, env) == Eval(e, env)
    ensures Settled(r) && Irreducible(r) && Uncontradicted(r)
    ensures r == e || Clean(r)
    ensures r == e <==> Settled(e)
    ensures Normal(e) ==> Normal(r)
  {
    hide Merged, Consistent, Irreducible, Uncontradicted, Eval, Normal, MergedTree, ClearedTree, Clean;
    DedupedMeans(e);
    r := e;
    while r.Bin?
      invariant Deduped(r) == Deduped(e)
      decreases Bins(r)
    {
      var merged, changes1 := MergeInside(r);
      var consistent, changes2 := ContradictInside(merged);
      if changes1 + changes2 == 0 {
        return;
      }
      YnAfterChange(r, merged, consistent, changes1, changes2);
      r := Yn(consistent);
    }
  }

  lemma SettledMeans(e: Expr)
    requires Settled(e)
    ensures Irreducible(e) && Uncontradicted(e)
  {
    MergedIsIrreducible(e);
    ConsistentIsUncontradicted(e);
  }

  lemma OperandSettled(e: Expr)
    requires !e.Bin?
    ensures Settled(e)
  {
  }

  lemma {:induction false} YnNormal(e: Expr)
    requires Normal(e)
    ensures Normal(Yn(e))
  {
    if e.Bin? {
      YnNormal(e.lhs);
      YnNormal(e.rhs);
    }
  }

  /** One round and its clean-up. */
  lemma YnAfterChange(e: Expr, e1: Expr, e2: Expr, changes1: nat, changes2: nat)
    requires e.Bin? && TreeStep(true, e, e1, changes1) && TreeStep(false, e1, e2, changes2)
    requires changes1 + changes2 > 0
    ensures Bins(Yn(e2)) < Bins(e)
    ensures Normal(e) ==> Normal(Yn(e2))
    ensures forall env | WellFormed(env) :: Eval(e, env) != MOD ==> Eval(Yn(e2), env) == Eval(e, env)
  {
    hide Yn, Eval, Normal, Live;
    YnBins(e2);
    if Normal(e) {
      YnNormal(e2);
    }
    forall env | WellFormed(env) ensures Eval(Yn(e2), env) == Eval(e2, env) {
      YnValue(e2, env);
    }
  }

  // Which of two equal operands stays.

  function Three(op: Op, x: Symbol, y: Symbol, z: Symbol): Expr {
    Bin(op, Bin(op, Ref(x), Ref(y)), Ref(z))
  }

  function AtSlots(op: Op, i: nat, j: nat, s: seq<Expr>, n: nat): Pass
    requires i < |s| && j < |s|
  {
    if i == j then Pass(s, 0) else MergedPair(op, i, j, s, n)
  }

  lemma ThreeWidths(op: Op, x: Symbol, y: Symbol, z: Symbol)
    ensures var e := Three(op, x, y, z);
            && Leaves(op, e) == [Ref(x), Ref(y), Ref(z)] && Width(op, e) == 3 && Width(op, e.lhs) == 2
            && Width(op, e.rhs) == Width(op, e.lhs.lhs) == Width(op, e.lhs.rhs) == 1
  {
    var e := Three(op, x, y, z);
    LeavesSplit(op, e);
    LeavesSplit(op, e.lhs);
    LeavesSplit(op, e.lhs.lhs);
    LeavesSplit(op, e.lhs.rhs);
    LeavesSplit(op, e.rhs);
  }

  /** One operand against all three slots. */
  lemma ThreeRow(op: Op, t: Symbol, i: nat, e: Expr, s: seq<Expr>, n: nat)
    requires |s| == 3 && i < 3 && Width(op, e) == 3 && Width(op, Ref(t)) == 1
    requires exists x, y, z :: e == Three(op, x, y, z)
    ensures var a := AtSlots(op, i, 0, s, n);
            var b := AtSlots(op, i, 1, a.slots, n);
            var c := AtSlots(op, i, 2, b.slots, n);
            MergedSlots(op, Ref(t), i, e, 0, s, n) == Pass(c.slots, a.changes + b.changes + c.changes)
  {
    hide MergedSlots, MergedPair, Width;
    var x, y, z :| e == Three(op, x, y, z);
    ThreeWidths(op, x, y, z);
    MergedSlotsRight(op, Ref(t), i, e, 0, s, n);
    MergedSlotsRight(op, Ref(t), i, e.lhs, 0, s, n);
    var a := AtSlots(op, i, 0, s, n);
    var b := AtSlots(op, i, 1, a.slots, n);
    MergedSlotsOne(op, Ref(t), i, e.lhs.lhs, 0, s, n);
    MergedSlotsOne(op, Ref(t), i, e.lhs.rhs, 1, a.slots, n);
    MergedSlotsOne(op, Ref(t), i, e.rhs, 2, b.slots, n);
  }

  lemma SymbolsApart(op: Op, i: nat, j: nat, s: seq<Expr>, n: nat)
    requires i < |s| && j < |s| && s[i].Ref? && s[j].Ref?
    ensures AtSlots(op, i, j, s, n) ==
            if i != j && s[i] == s[j] then Pass(s[i := Ref(Unit(op))], 1) else Pass(s, 0)
  {
    assert s[i := s[i]] == s;
    if i != j && s[i] == s[j] {
      assert s[i := Ref(Unit(op))][j := s[i]] == s[i := Ref(Unit(op))];
    }
  }

  lemma ThreeMerged(op: Op, x: Symbol, y: Symbol)
    requires x != y && x != Unit(op) && y != Unit(op)
    ensures MergedTree(Three(op, x, y, x)) == (Three(op, Unit(op), y, x), 1)
  {
    hide MergedSlots, MergedPair, AtSlots, Rebuild, Leaves;
    var e, s, n := Three(op, x, y, x), [Ref(x), Ref(y), Ref(x)], Size(Three(op, x, y, x));
    var s' := s[0 := Ref(Unit(op))];
    ThreeWidths(op, x, y, x);
    ThreeWidths(op, Unit(op), y, x);
    MergedSlotsLeft(op, e, 0, e, 0, s, n);
    MergedSlotsLeft(op, e.lhs, 0, e, 0, s, n);
    ThreeRow(op, x, 0, e, s, n);
    ThreeRow(op, y, 1, e, s', n);
    ThreeRow(op, x, 2, e, s', n);
    SymbolsApart(op, 0, 0, s, n);
    SymbolsApart(op, 0, 1, s, n);
    SymbolsApart(op, 0, 2, s, n);
    forall i: nat, j: nat | 0 < i < 3 && j < 3 ensures AtSlots(op, i, j, s', n) == Pass(s', 0) {
      SymbolsApart(op, i, j, s', n);
    }
    RebuildLeaves(op, Three(op, Unit(op), y, x));
    ThreeRebuild(op, e, s');
  }

  lemma ThreeRebuild(op: Op, e: Expr, s: seq<Expr>)
    requires (exists x, y, z :: e == Three(op, x, y, z)) && |s| == 3 && Width(op, e) == 3
    ensures Rebuild(op, e, s) == Bin(op, Bin(op, s[0], s[1]), s[2])
  {
    hide Leaves;
    var x, y, z :| e == Three(op, x, y, z);
    ThreeWidths(op, x, y, z);
    assert Rebuild(op, e.lhs, s[..2]) == Bin(op, s[..2][..1][0], s[..2][1..][0]);
    assert Rebuild(op, e.rhs, s[2..]) == s[2..][0];
  }

  /** The later one: `x op y op x` becomes `y op x`. */
  lemma LaterStays(op: Op, x: Symbol, y: Symbol)
    requires x != y && x !in {Yes, No} && y !in {Yes, No}
    ensures Deduped(Three(op, x, y, x)) == Bin(op, Ref(y), Ref(x))
  {
    hide MergedTree, ClearedTree, Deduped, Merged, Consistent;
    var e, m, r := Three(op, x, y, x), Three(op, Unit(op), y, x), Bin(op, Ref(y), Ref(x));
    ThreeMerged(op, x, y);
    ThreeConsistent(op, Unit(op), y, x);
    ClearedTreeStep(m);
    MergedBoth(op, Ref(y), Ref(x)) by { OperandSettled(Ref(y)); OperandSettled(Ref(x)); }
    ConsistentPair(op, Ref(y), Ref(x));
    DedupedMeans(r);
    YnUnit(op, Ref(y), Ref(x));
    DedupedOnce(e, m);
  }

  lemma YnUnit(op: Op, y: Expr, x: Expr)
    requires y.Ref? && x.Ref? && !IsYn(y) && !IsYn(x)
    ensures Yn(Bin(op, Bin(op, Ref(Unit(op)), y), x)) == Bin(op, y, x)
  {
    assert Yn(Bin(op, Ref(Unit(op)), y)) == y;
  }

  lemma ThreeConsistent(op: Op, x: Symbol, y: Symbol, z: Symbol)
    ensures Consistent(Three(op, x, y, z))
  {
    hide Contradicts, Rebuild, NoContradiction;
    var e := Three(op, x, y, z);
    ThreeWidths(op, x, y, z);
    ConsistentWhole(e);
    forall p: nat | p < 3 ensures NoContradiction(op, Leaves(op, e), p, e, 0) {
      LeafClear(op, Leaves(op, e), p, e, 0);
    }
  }

  lemma {:induction false} LeafClear(op: Op, s: seq<Expr>, p: nat, t: Expr, j: nat)
    requires p < |s| && j + Width(op, t) <= |s| && !s[p].Bin?
    ensures NoContradiction(op, s, p, t, j)
    decreases t
  {
    WidthSplit(op, t);
    if IsOp(op, t) {
      LeafClear(op, s, p, t.lhs, j);
      LeafClear(op, s, p, t.rhs, j + Width(op, t.lhs));
    }
  }

  lemma DedupedOnce(e: Expr, m: Expr)
    requires e.Bin? && MergedTree(e) == (m, 1) && m.Bin? && ClearedTree(m) == (m, 0)
    ensures Deduped(e) == Deduped(Yn(m))
  {
    hide MergedTree, ClearedTree;
    MergedTreeStep(e);
    ClearedTreeStep(m);
  }
}
