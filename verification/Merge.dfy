/** expr_eliminate_dups1: pairwise merging of operands. */
module Merging {
  import opened Tristates
  import opened Exprs
  import opened EliminateYn
  import opened ExprEq
  import opened Transforming
  import opened Joining
  import opened Slots
  import opened Steps

  predicate Joinable(op: Op, s: seq<Expr>, p: nat, q: nat)
    requires p < |s| && q < |s|
  {
    p != q && Join(op, s[p], s[q]).Some?
  }

  /** No two operands, at any level above negations, can be merged. */
  predicate Merged(e: Expr)
    decreases Size(e)
  {
    e.Bin? ==>
      var s := Leaves(e.op, e);
      && (forall p: nat, q: nat | p < |s| && q < |s| :: !Joinable(e.op, s, p, q))
      && (forall p | 0 <= p < |s| :: Merged(s[p]))
  }

  /** Merging slots `i` and `j` into the second one. */
  lemma JoinStep(op: Op, s: seq<Expr>, i: nat, j: nat)
    requires i < |s| && j < |s| && Joinable(op, s, i, j)
    ensures Step(true, op, s, s[i := Ref(Unit(op))][j := Join(op, s[i], s[j]).value], 1)
  {
    hide Fold, Total, Join, Normal, Eval, Size, Live, Count, AllBeyond, Beyond;
    var r := Join(op, s[i], s[j]).value;
    var s1 := s[i := Ref(Unit(op))];
    var s2 := s1[j := r];
    JoinShape(op, s[i], s[j]);
    TotalUpdate(Size, s, i, Ref(Unit(op)));
    TotalUpdate(Size, s1, j, r);
    TotalUpdate(Live, s, i, Ref(Unit(op)));
    TotalUpdate(Live, s1, j, r);
    TotalSlack(s, j);
    LiveCount(s[j]);
    LiveOfUnit(op);
    forall env | WellFormed(env) ensures Fold(op, s, env) == Fold(op, s2, env) {
      JoinValue(op, s[i], s[j], env);
      RefValue(Unit(op), env);
      forall t: Tristate ensures AllBeyond(op, t, s, env) <==> AllBeyond(op, t, s2, env) {
        BeyondApply(op, t, Eval(s[i], env), Eval(s[j], env), env);
        AllBeyondElsewhere(op, t, s, s2, i, j, env);
      }
      FoldEqual(op, s, s2, env);
    }
    NormalUnit(op);
    assert Total(Size, s2) <= Total(Size, s);
    assert Total(Live, s2) <= Total(Live, s);
    assert Total(Live, s2) < Total(Count, s);
    assert AllNormal(s) ==> AllNormal(s2);
  }

  lemma BeyondApply(op: Op, t: Tristate, x: Tristate, y: Tristate, env: Env)
    requires Constants(env)
    ensures Beyond(op, t, env.tri(Unit(op)))
    ensures Beyond(op, t, Apply(op, x, y)) <==> Beyond(op, t, x) && Beyond(op, t, y)
  {
  }

  lemma AllBeyondElsewhere(op: Op, t: Tristate, s: seq<Expr>, s': seq<Expr>, i: nat, j: nat, env: Env)
    requires |s| == |s'| && i < |s| && j < |s|
    requires forall k | 0 <= k < |s| && k != i && k != j :: s'[k] == s[k]
    requires Beyond(op, t, Eval(s[i], env)) && Beyond(op, t, Eval(s[j], env)) <==>
             Beyond(op, t, Eval(s'[i], env)) && Beyond(op, t, Eval(s'[j], env))
    ensures AllBeyond(op, t, s, env) <==> AllBeyond(op, t, s', env)
  {
    hide Beyond, Eval;
    forall k | 0 <= k < |s| ensures AllBeyond(op, t, s', env) ==> Beyond(op, t, Eval(s[k], env)) {
      assert k == i || k == j || s'[k] == s[k];
    }
    forall k | 0 <= k < |s| ensures AllBeyond(op, t, s, env) ==> Beyond(op, t, Eval(s'[k], env)) {
      assert k == i || k == j || s'[k] == s[k];
    }
  }

  predicate Quiet(op: Op, s: seq<Expr>, p: nat, q: nat)
    requires p < |s| && q < |s|
  {
    p != q ==> !Joinable(op, s, p, q) && Merged(s[p])
  }

  predicate NoneJoinable(op: Op, s: seq<Expr>, i: nat, i': nat, j: nat, j': nat)
    requires i' <= |s| && j' <= |s|
  {
    forall p: nat, q: nat | i <= p < i' && j <= q < j' :: Quiet(op, s, p, q)
  }

  lemma NoneJoinableRow(op: Op, s: seq<Expr>, i: nat, m: nat, i': nat, j: nat, j': nat)
    requires m <= i' <= |s| && j' <= |s|
    requires i <= m
    ensures NoneJoinable(op, s, i, i', j, j') <==> NoneJoinable(op, s, i, m, j, j') && NoneJoinable(op, s, m, i', j, j')
  {
    hide Quiet;
  }

  lemma NoneJoinableColumn(op: Op, s: seq<Expr>, i: nat, i': nat, j: nat, m: nat, j': nat)
    requires i' <= |s| && m <= j' <= |s|
    requires j <= m
    ensures NoneJoinable(op, s, i, i', j, j') <==> NoneJoinable(op, s, i, i', j, m) && NoneJoinable(op, s, i, i', m, j')
  {
    hide Quiet;
  }

  lemma MergedOperand(e: Expr)
    requires !e.Bin?
    ensures Merged(e)
  {
  }

  lemma NoneJoinableOne(op: Op, s: seq<Expr>, i: nat, j: nat)
    requires i < |s| && j < |s|
    ensures NoneJoinable(op, s, i, i + 1, j, j + 1) <==> (i != j ==> !Joinable(op, s, i, j) && Merged(s[i]))
  {
    hide Joinable, Merged;
    assert NoneJoinable(op, s, i, i + 1, j, j + 1) <==> Quiet(op, s, i, j);
  }

  lemma MergedWhole(e: Expr)
    requires e.Bin?
    ensures var n := Width(e.op, e); Merged(e) <==> NoneJoinable(e.op, Leaves(e.op, e), 0, n, 0, n)
  {
    hide Join;
    var s := Leaves(e.op, e);
    if NoneJoinable(e.op, s, 0, |s|, 0, |s|) {
      forall p | 0 <= p < |s| ensures Merged(s[p]) {
        var q: nat := if p == 0 then 1 else 0;
        assert Quiet(e.op, s, p, q);
      }
      forall p: nat, q: nat | p < |s| && q < |s| ensures !Joinable(e.op, s, p, q) {
        assert Quiet(e.op, s, p, q);
      }
    }
  }

  // What the pass makes of slots, and how often it changes them. `n` bounds the size
  // of operands.

  function JoinedSlots(op: Op, i: nat, j: nat, s: seq<Expr>): (r: Pass)
    requires i < |s| && j < |s|
    ensures |r.slots| == |s|
  {
    var joined := Join(op, s[i], s[j]);
    if joined.Some? then Pass(s[i := Ref(Unit(op))][j := joined.value], 1) else Pass(s, 0)
  }

  function MergedPair(op: Op, i: nat, j: nat, s: seq<Expr>, n: nat): (r: Pass)
    requires i < |s| && j < |s|
    ensures |r.slots| == |s|
    decreases n, 1, 0
  {
    var (x, m) := if s[i].Bin? && Size(s[i]) < n then MergedTree(s[i]) else (s[i], 0);
    var r := JoinedSlots(op, i, j, s[i := x]);
    Pass(r.slots, m + r.changes)
  }

  function MergedSlots(op: Op, t1: Expr, i: nat, t2: Expr, j: nat, s: seq<Expr>, n: nat): (r: Pass)
    requires i + Width(op, t1) <= |s| && j + Width(op, t2) <= |s|
    ensures |r.slots| == |s|
    decreases n, 1, Size(t1), Size(t2)
  {
    WidthSplit(op, t1);
    WidthSplit(op, t2);
    if IsOp(op, t1) then
      var a := MergedSlots(op, t1.lhs, i, t2, j, s, n);
      var b := MergedSlots(op, t1.rhs, i + Width(op, t1.lhs), t2, j, a.slots, n);
      Pass(b.slots, a.changes + b.changes)
    else if IsOp(op, t2) then
      var a := MergedSlots(op, t1, i, t2.lhs, j, s, n);
      var b := MergedSlots(op, t1, i, t2.rhs, j + Width(op, t2.lhs), a.slots, n);
      Pass(b.slots, a.changes + b.changes)
    else if i == j then Pass(s, 0)
    else MergedPair(op, i, j, s, n)
  }

  function MergedTree(e: Expr): (Expr, nat)
    requires e.Bin?
    decreases Size(e), 2
  {
    var r := MergedSlots(e.op, e, 0, e, 0, Leaves(e.op, e), Size(e));
    (Rebuild(e.op, e, r.slots), r.changes)
  }

  lemma MergedSlotsLeft(op: Op, t1: Expr, i: nat, t2: Expr, j: nat, s: seq<Expr>, n: nat)
    requires i + Width(op, t1) <= |s| && j + Width(op, t2) <= |s| && IsOp(op, t1)
    ensures Width(op, t1) == Width(op, t1.lhs) + Width(op, t1.rhs)
    ensures var a := MergedSlots(op, t1.lhs, i, t2, j, s, n);
            var b := MergedSlots(op, t1.rhs, i + Width(op, t1.lhs), t2, j, a.slots, n);
            MergedSlots(op, t1, i, t2, j, s, n) == Pass(b.slots, a.changes + b.changes)
  {
    WidthSplit(op, t1);
  }

  lemma MergedSlotsRight(op: Op, t1: Expr, i: nat, t2: Expr, j: nat, s: seq<Expr>, n: nat)
    requires i + Width(op, t1) <= |s| && j + Width(op, t2) <= |s| && !IsOp(op, t1) && IsOp(op, t2)
    ensures Width(op, t2) == Width(op, t2.lhs) + Width(op, t2.rhs)
    ensures var a := MergedSlots(op, t1, i, t2.lhs, j, s, n);
            var b := MergedSlots(op, t1, i, t2.rhs, j + Width(op, t2.lhs), a.slots, n);
            MergedSlots(op, t1, i, t2, j, s, n) == Pass(b.slots, a.changes + b.changes)
  {
    WidthSplit(op, t2);
  }

  lemma MergedSlotsOne(op: Op, t1: Expr, i: nat, t2: Expr, j: nat, s: seq<Expr>, n: nat)
    requires i + Width(op, t1) <= |s| && j + Width(op, t2) <= |s| && !IsOp(op, t1) && !IsOp(op, t2)
    ensures Width(op, t1) == 1 == Width(op, t2)
    ensures MergedSlots(op, t1, i, t2, j, s, n) == if i == j then Pass(s, 0) else MergedPair(op, i, j, s, n)
  {
    WidthSplit(op, t1);
    WidthSplit(op, t2);
  }

  // What the pass does to values and sizes, and when it changes nothing.

  lemma {:induction false} MergedSlotsStep(op: Op, t1: Expr, i: nat, t2: Expr, j: nat, s: seq<Expr>, n: nat)
    requires i + Width(op, t1) <= |s| && j + Width(op, t2) <= |s| && Bounded(op, s, n)
    ensures var r := MergedSlots(op, t1, i, t2, j, s, n);
            && Bounded(op, r.slots, n) && Step(true, op, s, r.slots, r.changes)
            && (r.changes == 0 <==> NoneJoinable(op, s, i, i + Width(op, t1), j, j + Width(op, t2)))
    decreases n, 1, Size(t1), Size(t2)
  {
    hide Step, Joinable, Merged, Width, NoneJoinable, Bounded, MergedSlots, MergedPair;
    if IsOp(op, t1) {
      MergedSlotsLeft(op, t1, i, t2, j, s, n);
      var a := MergedSlots(op, t1.lhs, i, t2, j, s, n);
      var b := MergedSlots(op, t1.rhs, i + Width(op, t1.lhs), t2, j, a.slots, n);
      MergedSlotsStep(op, t1.lhs, i, t2, j, s, n);
      MergedSlotsStep(op, t1.rhs, i + Width(op, t1.lhs), t2, j, a.slots, n);
      StepTrans(true, op, s, a.slots, b.slots, a.changes, b.changes);
      StepSame(true, op, s, a.slots, a.changes);
      NoneJoinableRow(op, s, i, i + Width(op, t1.lhs), i + Width(op, t1), j, j + Width(op, t2));
    } else if IsOp(op, t2) {
      MergedSlotsRight(op, t1, i, t2, j, s, n);
      var a := MergedSlots(op, t1, i, t2.lhs, j, s, n);
      var b := MergedSlots(op, t1, i, t2.rhs, j + Width(op, t2.lhs), a.slots, n);
      MergedSlotsStep(op, t1, i, t2.lhs, j, s, n);
      MergedSlotsStep(op, t1, i, t2.rhs, j + Width(op, t2.lhs), a.slots, n);
      StepTrans(true, op, s, a.slots, b.slots, a.changes, b.changes);
      StepSame(true, op, s, a.slots, a.changes);
      NoneJoinableColumn(op, s, i, i + Width(op, t1), j, j + Width(op, t2.lhs), j + Width(op, t2));
    } else {
      MergedSlotsOne(op, t1, i, t2, j, s, n);
      NoneJoinableOne(op, s, i, j);
      if i == j {
        StepNone(true, op, s);
      } else {
        MergedPairStep(op, i, j, s, n);
      }
    }
  }

  lemma {:induction false} MergedPairStep(op: Op, i: nat, j: nat, s: seq<Expr>, n: nat)
    requires i < |s| && j < |s| && i != j && Bounded(op, s, n)
    ensures var r := MergedPair(op, i, j, s, n);
            && Bounded(op, r.slots, n) && Step(true, op, s, r.slots, r.changes)
            && (r.changes == 0 <==> !Joinable(op, s, i, j) && Merged(s[i]))
    decreases n, 1, 0
  {
    hide Step, TreeStep, Joinable, Size, Bounded, Merged, MergedTree, JoinedSlots;
    BoundedAt(op, s, n, i);
    var (x, m) := if s[i].Bin? then MergedTree(s[i]) else (s[i], 0);
    if s[i].Bin? {
      MergedTreeStep(s[i]);
      NestedStep(true, op, s, i, x, m);
      TreeStepSize(true, s[i], x, m);
      BoundedUpdate(op, s, n, i, x);
    } else {
      MergedOperand(s[i]);
      StepNone(true, op, s);
      assert s[i := x] == s;
    }
    var s1 := s[i := x];
    StepSame(true, op, s, s1, m);
    JoinedSlotsStep(op, i, j, s1, n);
    var r := JoinedSlots(op, i, j, s1);
    StepTrans(true, op, s, s1, r.slots, m, r.changes);
  }

  lemma JoinedSlotsStep(op: Op, i: nat, j: nat, s: seq<Expr>, n: nat)
    requires i < |s| && j < |s| && i != j && Bounded(op, s, n)
    ensures var r := JoinedSlots(op, i, j, s);
            && Bounded(op, r.slots, n) && Step(true, op, s, r.slots, r.changes)
            && (r.changes == 0 <==> !Joinable(op, s, i, j))
  {
    hide Step, Join, Size, Bounded;
    if Joinable(op, s, i, j) {
      var r := Join(op, s[i], s[j]).value;
      BoundedAt(op, s, n, i);
      JoinStep(op, s, i, j);
      JoinShape(op, s[i], s[j]);
      LiveOfUnit(op);
      BoundedUpdate(op, s, n, i, Ref(Unit(op)));
      BoundedUpdate(op, s[i := Ref(Unit(op))], n, j, r);
    } else {
      StepNone(true, op, s);
    }
  }

  lemma MergedInside(e: Expr, s: seq<Expr>, changes: nat)
    requires e.Bin? && Step(true, e.op, Leaves(e.op, e), s, changes)
    requires changes == 0 <==> NoneJoinable(e.op, Leaves(e.op, e), 0, Width(e.op, e), 0, Width(e.op, e))
    ensures IsOp(e.op, Rebuild(e.op, e, s)) && TreeStep(true, e, Rebuild(e.op, e, s), changes)
    ensures changes == 0 <==> Merged(e)
  {
    hide Step, TreeStep, Merged, NoneJoinable, Rebuild;
    TreeStepOfSlots(true, e.op, e, s, changes);
    StepSame(true, e.op, Leaves(e.op, e), s, changes);
    RebuildShape(e.op, e, s);
    MergedWhole(e);
  }

  /** The whole merge pass is exact, and leaves alone exactly what has nothing to merge. */
  lemma {:induction false} MergedTreeStep(e: Expr)
    requires e.Bin?
    ensures var (r, changes) := MergedTree(e);
            IsOp(e.op, r) && TreeStep(true, e, r, changes) && (changes == 0 <==> Merged(e))
    decreases Size(e), 2
  {
    hide Step, TreeStep, Merged, NoneJoinable, Rebuild, MergedSlots, Width, Leaves, Bounded;
    WholeSpine(e);
    var r := MergedSlots(e.op, e, 0, e, 0, Leaves(e.op, e), Size(e));
    MergedSlotsStep(e.op, e, 0, e, 0, Leaves(e.op, e), Size(e));
    MergedInside(e, r.slots, r.changes);
  }

  // The pass itself

  /** expr_eliminate_dups1: `t1` at slot `i` and `t2` at slot `j` are the parts of
      the spine that the two `struct expr **` arguments stand on. */
  method MergePairs(op: Op, t1: Expr, i: nat, t2: Expr, j: nat, slots: array<Expr>, ghost n: nat)
    returns (changes: nat)
    requires i + Width(op, t1) <= slots.Length && j + Width(op, t2) <= slots.Length
    requires Bounded(op, slots[..], n)
    modifies slots
    ensures Pass(slots[..], changes) == MergedSlots(op, t1, i, t2, j, old(slots[..]), n)
    decreases n, 1, Size(t1), Size(t2)
  {
    hide Step, Width, NoneJoinable, Bounded, MergedSlots, MergedPair;
    ghost var s := slots[..];
    if IsOp(op, t1) {
      MergedSlotsLeft(op, t1, i, t2, j, s, n);
      var m1 := MergePairs(op, t1.lhs, i, t2, j, slots, n);
      MergedSlotsStep(op, t1.lhs, i, t2, j, s, n);
      var m2 := MergePairs(op, t1.rhs, i + Width(op, t1.lhs), t2, j, slots, n);
      changes := m1 + m2;
    } else if IsOp(op, t2) {
      MergedSlotsRight(op, t1, i, t2, j, s, n);
      var m1 := MergePairs(op, t1, i, t2.lhs, j, slots, n);
      MergedSlotsStep(op, t1, i, t2.lhs, j, s, n);
      var m2 := MergePairs(op, t1, i, t2.rhs, j + Width(op, t2.lhs), slots, n);
      changes := m1 + m2;
    } else {
      MergedSlotsOne(op, t1, i, t2, j, s, n);
      changes := 0;
      if i != j {
        changes := MergePair(op, i, j, slots, n);
      }
    }
  }

  /** Two operands: first inside the first one, then the two with each other. */
  method MergePair(op: Op, i: nat, j: nat, slots: array<Expr>, ghost n: nat) returns (changes: nat)
    requires i < slots.Length && j < slots.Length && i != j
    requires Bounded(op, slots[..], n)
    modifies slots
    ensures Pass(slots[..], changes) == MergedPair(op, i, j, old(slots[..]), n)
    decreases n, 1, 0
  {
    hide Size, Bounded, MergedTree, Join;
    ghost var s := slots[..];
    BoundedAt(op, s, n, i);
    changes := 0;
    if slots[i].Bin? {
      var x, m := MergeInside(slots[i]);
      slots[i] := x;
      changes := m;
    }
    assert slots[..] == s[i := slots[i]];
    var joined := Join(op, slots[i], slots[j]);
    if joined.Some? {
      slots[i], slots[j] := Ref(Unit(op)), joined.value;
      changes := changes + 1;
    }
  }

  /** expr_eliminate_dups1(e->type, &e, &e). */
  method MergeInside(e: Expr) returns (r: Expr, changes: nat)
    requires e.Bin?
    ensures (r, changes) == MergedTree(e)
    ensures IsOp(e.op, r) && TreeStep(true, e, r, changes)
    ensures changes == 0 <==> Merged(e)
    decreases Size(e), 2
  {
    hide TreeStep, Merged, Rebuild, MergedSlots;
    var s := Leaves(e.op, e);
    var slots := new Expr[|s|](k requires 0 <= k < |s| => s[k]);
    assert slots[..] == s;
    assert 0 + Width(e.op, e) == Width(e.op, e);
    changes := MergePairs(e.op, e, 0, e, 0, slots, Size(e));
    r := Rebuild(e.op, e, slots[..]);
    MergedTreeStep(e);
  }

  /** Two operands that are merged inside and not with each other. */
  lemma MergedBoth(op: Op, x: Expr, y: Expr)
    requires !IsOp(op, x) && !IsOp(op, y) && Merged(x) && Merged(y)
    requires Join(op, x, y).None? && Join(op, y, x).None?
    ensures Merged(Bin(op, x, y))
  {
    hide Join;
    assert Leaves(op, Bin(op, x, y)) == [x, y];
  }

  // What the absence of merges means.

  /** Neither about the same symbol in a way that can be reduced, nor equal up to order
      and nesting. */
  predicate Unrelated(op: Op, a: Expr, b: Expr) {
    !Reduces(op, a, b) && (YnFree(a) && YnFree(b) ==> Canonical(a) != Canonical(b))
  }

  /** So are any two operands of an && or ||, at every level above negations. */
  predicate Irreducible(e: Expr)
    decreases Size(e)
  {
    e.Bin? ==>
      var s := Leaves(e.op, e);
      && (forall p: nat, q: nat | p < |s| && q < |s| && p != q :: Unrelated(e.op, s[p], s[q]))
      && (forall p | 0 <= p < |s| :: Irreducible(s[p]))
  }

  lemma {:induction false} MergedIsIrreducible(e: Expr)
    requires Merged(e)
    ensures Irreducible(e)
    decreases Size(e)
  {
    hide Join, Eq, Reduces, Canonical, YnFree;
    if e.Bin? {
      var s := Leaves(e.op, e);
      forall p: nat, q: nat | p < |s| && q < |s| && p != q ensures Unrelated(e.op, s[p], s[q]) {
        assert !Joinable(e.op, s, p, q);
        JoinExactly(e.op, s[p], s[q]);
        if YnFree(s[p]) && YnFree(s[q]) {
          EqExact(s[p], s[q]);
        }
      }
      forall p | 0 <= p < |s| ensures Irreducible(s[p]) {
        MergedIsIrreducible(s[p]);
      }
    }
  }
}
