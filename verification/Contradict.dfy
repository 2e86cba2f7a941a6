/** expr_eliminate_dups2: detection of operands that contradict each other. */
module Contradicting {
  import opened Tristates
  import opened Exprs
  import opened EliminateYn
  import opened ExprEq
  import opened Transforming
  import opened Extracting
  import opened Slots
  import opened Steps

  /** Operand `p` does not contradict the part of the spine that starts at slot
      `j` nor any part of it, unless that is slot `p` itself. */
  predicate NoContradiction(op: Op, s: seq<Expr>, p: nat, t: Expr, j: nat)
    requires p < |s| && j + Width(op, t) <= |s|
    decreases Size(s[p]), 2, t
  {
    (if IsOp(op, t) then
       && NoContradiction(op, s, p, t.lhs, j)
       && NoContradiction(op, s, p, t.rhs, j + Width(op, t.lhs))
       && Clear(op, s, p, t, j)
     else p == j || Clear(op, s, p, t, j))
  }

  predicate ContradictsAt(op: Op, s: seq<Expr>, p: nat, t: Expr, j: nat)
    requires p < |s| && j + Width(op, t) <= |s|
  {
    Contradicts(op, s[p], Rebuild(op, t, s[j..j + Width(op, t)]))
  }

  predicate Clear(op: Op, s: seq<Expr>, p: nat, t: Expr, j: nat)
    requires p < |s| && j + Width(op, t) <= |s|
    decreases Size(s[p]), 1, t
  {
    s[p].Bin? ==> !ContradictsAt(op, s, p, t, j) && Consistent(s[p])
  }

  /** No operand contradicts the rest of its && or ||, at any level above negations. */
  predicate Consistent(e: Expr)
    decreases Size(e), 0, e
  {
    e.Bin? ==>
      var s := Leaves(e.op, e);
      forall p | 0 <= p < |s| :: NoContradiction(e.op, s, p, e, 0)
  }

  /** Replacing a contradicting operand by the constant that decides `op` changes
      the value of the whole only where that was m. */
  lemma ContradictionStep(op: Op, s: seq<Expr>, i: nat, t: Expr, j: nat)
    requires i < |s| && j + Width(op, t) <= |s| && s[i].Bin?
    requires ContradictsAt(op, s, i, t, j)
    ensures Step(false, op, s, s[i := Ref(Zero(op))], 1)
  {
    hide Fold, Total, Normal, Size, Live, Count, Contradicts, Rebuild, Eval, Width;
    var e2 := Rebuild(op, t, s[j..j + Width(op, t)]);
    var s' := s[i := Ref(Zero(op))];
    TotalUpdate(Size, s, i, Ref(Zero(op)));
    TotalUpdate(Live, s, i, Ref(Zero(op)));
    TotalSlack(s, i);
    BinHasOperands(s[i]);
    LiveOfUnit(op);
    NormalUnit(op);
    forall env | WellFormed(env) ensures Keeps(false, Fold(op, s, env), Fold(op, s', env)) {
      RefValue(Zero(op), env);
      FoldSplit(op, s', i, env);
      ZeroDecides(op, Fold(op, s'[..i], env), Fold(op, s'[i + 1..], env), env);
      RebuildValue(op, t, s[j..j + Width(op, t)], env);
      ContradictsValue(op, s[i], e2, env);
      var u := Fold(op, s, env);
      FoldBeyond(op, s, env, u);
      FoldBeyond(op, s[j..j + Width(op, t)], env, u);
      AllBeyondPart(op, u, s, j, j + Width(op, t), env);
    }
  }

  lemma BinHasOperands(e: Expr)
    requires e.Bin?
    ensures Live(e) < Count(e) || Live(e) > 0
    ensures Size(e) >= 1 && Live(e) <= Count(e)
  {
    LiveCount(e);
  }

  lemma ZeroDecides(op: Op, x: Tristate, y: Tristate, env: Env)
    requires Constants(env)
    ensures Apply(op, x, Apply(op, env.tri(Zero(op)), y)) == env.tri(Zero(op))
  {
  }

  lemma AllBeyondPart(op: Op, t: Tristate, s: seq<Expr>, j: nat, j': nat, env: Env)
    requires j <= j' <= |s| && AllBeyond(op, t, s, env)
    ensures AllBeyond(op, t, s[j..j'], env)
  {
  }

  lemma ClearSplit(op: Op, s: seq<Expr>, p: nat, t: Expr, j: nat)
    requires p < |s| && j + Width(op, t) <= |s|
    ensures Clear(op, s, p, t, j) <==> (s[p].Bin? ==> !ContradictsAt(op, s, p, t, j) && Consistent(s[p]))
  {
  }

  lemma NoContradictionSplit(op: Op, s: seq<Expr>, p: nat, t: Expr, j: nat)
    requires p < |s| && j + Width(op, t) <= |s|
    ensures NoneContradicts(op, s, p, p + 1, t, j) <==>
              && (IsOp(op, t) ==>
                    && NoneContradicts(op, s, p, p + 1, t.lhs, j)
                    && NoneContradicts(op, s, p, p + 1, t.rhs, j + Width(op, t.lhs)))
              && (IsOp(op, t) || p != j ==> Clear(op, s, p, t, j))
  {
    hide Clear;
    NoneContradictsOne(op, s, p, t, j);
    if IsOp(op, t) {
      NoneContradictsOne(op, s, p, t.lhs, j);
      NoneContradictsOne(op, s, p, t.rhs, j + Width(op, t.lhs));
    }
  }

  lemma NoneContradictsOne(op: Op, s: seq<Expr>, p: nat, t: Expr, j: nat)
    requires p < |s| && j + Width(op, t) <= |s|
    ensures NoneContradicts(op, s, p, p + 1, t, j) <==> NoContradiction(op, s, p, t, j)
  {
    hide NoContradiction;
  }

  lemma NoneContradictsRow(op: Op, s: seq<Expr>, i: nat, m: nat, i': nat, t: Expr, j: nat)
    requires i <= m <= i' <= |s| && j + Width(op, t) <= |s|
    ensures NoneContradicts(op, s, i, i', t, j) <==>
              NoneContradicts(op, s, i, m, t, j) && NoneContradicts(op, s, m, i', t, j)
  {
    hide NoContradiction;
  }

  lemma ConsistentWhole(e: Expr)
    requires e.Bin?
    ensures Consistent(e) <==> NoneContradicts(e.op, Leaves(e.op, e), 0, Width(e.op, e), e, 0)
  {
    hide NoContradiction;
  }

  ghost predicate NoneContradicts(op: Op, s: seq<Expr>, i: nat, i': nat, t: Expr, j: nat)
    requires i' <= |s| && j + Width(op, t) <= |s|
  {
    forall p | i <= p < i' :: NoContradiction(op, s, p, t, j)
  }

  // What the pass makes of slots, and how often it changes them. `n` bounds the size
  // of operands.

  function ClearedHere(op: Op, i: nat, t: Expr, j: nat, s: seq<Expr>): (r: Pass)
    requires i < |s| && j + Width(op, t) <= |s|
    ensures |r.slots| == |s|
  {
    if ContradictsAt(op, s, i, t, j) then Pass(s[i := Ref(Zero(op))], 1) else Pass(s, 0)
  }

  function ClearedOne(op: Op, i: nat, t: Expr, j: nat, s: seq<Expr>, n: nat): (r: Pass)
    requires i < |s| && j + Width(op, t) <= |s|
    ensures |r.slots| == |s|
    decreases n, 1, 0
  {
    if s[i].Bin? && Size(s[i]) < n then
      var (x, m) := ClearedTree(s[i]);
      var r := ClearedHere(op, i, t, j, s[i := x]);
      Pass(r.slots, m + r.changes)
    else Pass(s, 0)
  }

  function ClearedSlots(op: Op, t1: Expr, i: nat, t2: Expr, j: nat, s: seq<Expr>, n: nat): (r: Pass)
    requires i + Width(op, t1) <= |s| && j + Width(op, t2) <= |s|
    ensures |r.slots| == |s|
    decreases n, 1, Size(t1), Size(t2)
  {
    WidthSplit(op, t1);
    WidthSplit(op, t2);
    if IsOp(op, t1) then
      var a := ClearedSlots(op, t1.lhs, i, t2, j, s, n);
      var b := ClearedSlots(op, t1.rhs, i + Width(op, t1.lhs), t2, j, a.slots, n);
      Pass(b.slots, a.changes + b.changes)
    else if IsOp(op, t2) then
      var a := ClearedSlots(op, t1, i, t2.lhs, j, s, n);
      var b := ClearedSlots(op, t1, i, t2.rhs, j + Width(op, t2.lhs), a.slots, n);
      var c := ClearedOne(op, i, t2, j, b.slots, n);
      Pass(c.slots, a.changes + b.changes + c.changes)
    else if i == j then Pass(s, 0)
    else ClearedOne(op, i, t2, j, s, n)
  }

  function ClearedTree(e: Expr): (Expr, nat)
    requires e.Bin?
    decreases Size(e), 2
  {
    var r := ClearedSlots(e.op, e, 0, e, 0, Leaves(e.op, e), Size(e));
    (Rebuild(e.op, e, r.slots), r.changes)
  }

  lemma ClearedSlotsLeft(op: Op, t1: Expr, i: nat, t2: Expr, j: nat, s: seq<Expr>, n: nat)
    requires i + Width(op, t1) <= |s| && j + Width(op, t2) <= |s| && IsOp(op, t1)
    ensures Width(op, t1) == Width(op, t1.lhs) + Width(op, t1.rhs)
    ensures var a := ClearedSlots(op, t1.lhs, i, t2, j, s, n);
            var b := ClearedSlots(op, t1.rhs, i + Width(op, t1.lhs), t2, j, a.slots, n);
            ClearedSlots(op, t1, i, t2, j, s, n) == Pass(b.slots, a.changes + b.changes)
  {
    WidthSplit(op, t1);
  }

  lemma ClearedSlotsRight(op: Op, t1: Expr, i: nat, t2: Expr, j: nat, s: seq<Expr>, n: nat)
    requires i + Width(op, t1) <= |s| && j + Width(op, t2) <= |s| && !IsOp(op, t1) && IsOp(op, t2)
    ensures Width(op, t1) == 1 && Width(op, t2) == Width(op, t2.lhs) + Width(op, t2.rhs)
    ensures var a := ClearedSlots(op, t1, i, t2.lhs, j, s, n);
            var b := ClearedSlots(op, t1, i, t2.rhs, j + Width(op, t2.lhs), a.slots, n);
            var c := ClearedOne(op, i, t2, j, b.slots, n);
            ClearedSlots(op, t1, i, t2, j, s, n) == Pass(c.slots, a.changes + b.changes + c.changes)
  {
    WidthSplit(op, t1);
    WidthSplit(op, t2);
  }

  lemma ClearedSlotsOne(op: Op, t1: Expr, i: nat, t2: Expr, j: nat, s: seq<Expr>, n: nat)
    requires i + Width(op, t1) <= |s| && j + Width(op, t2) <= |s| && !IsOp(op, t1) && !IsOp(op, t2)
    ensures Width(op, t1) == 1 == Width(op, t2)
    ensures ClearedSlots(op, t1, i, t2, j, s, n) == if i == j then Pass(s, 0) else ClearedOne(op, i, t2, j, s, n)
  {
    WidthSplit(op, t1);
    WidthSplit(op, t2);
  }

  // What the pass does to values and sizes, and when it changes nothing.

  lemma {:induction false} ClearedSlotsStep(op: Op, t1: Expr, i: nat, t2: Expr, j: nat, s: seq<Expr>, n: nat)
    requires i + Width(op, t1) <= |s| && j + Width(op, t2) <= |s| && Bounded(op, s, n)
    ensures var r := ClearedSlots(op, t1, i, t2, j, s, n);
            && Bounded(op, r.slots, n) && Step(false, op, s, r.slots, r.changes)
            && (r.changes == 0 <==> NoneContradicts(op, s, i, i + Width(op, t1), t2, j))
    decreases n, 1, Size(t1), Size(t2)
  {
    hide Step, Width, Bounded, Consistent, Clear, NoContradiction, NoneContradicts, ClearedSlots, ClearedOne;
    if IsOp(op, t1) {
      ClearedSlotsLeft(op, t1, i, t2, j, s, n);
      var a := ClearedSlots(op, t1.lhs, i, t2, j, s, n);
      var b := ClearedSlots(op, t1.rhs, i + Width(op, t1.lhs), t2, j, a.slots, n);
      ClearedSlotsStep(op, t1.lhs, i, t2, j, s, n);
      ClearedSlotsStep(op, t1.rhs, i + Width(op, t1.lhs), t2, j, a.slots, n);
      StepTrans(false, op, s, a.slots, b.slots, a.changes, b.changes);
      StepSame(false, op, s, a.slots, a.changes);
      NoneContradictsRow(op, s, i, i + Width(op, t1.lhs), i + Width(op, t1), t2, j);
    } else if IsOp(op, t2) {
      ClearedSlotsRight(op, t1, i, t2, j, s, n);
      NoContradictionSplit(op, s, i, t2, j);
      var a := ClearedSlots(op, t1, i, t2.lhs, j, s, n);
      var b := ClearedSlots(op, t1, i, t2.rhs, j + Width(op, t2.lhs), a.slots, n);
      var c := ClearedOne(op, i, t2, j, b.slots, n);
      ClearedSlotsStep(op, t1, i, t2.lhs, j, s, n);
      ClearedSlotsStep(op, t1, i, t2.rhs, j + Width(op, t2.lhs), a.slots, n);
      ClearedOneStep(op, i, t2, j, b.slots, n);
      StepTrans(false, op, s, a.slots, b.slots, a.changes, b.changes);
      StepTrans(false, op, s, b.slots, c.slots, a.changes + b.changes, c.changes);
      StepSame(false, op, s, a.slots, a.changes);
      StepSame(false, op, a.slots, b.slots, b.changes);
    } else {
      ClearedSlotsOne(op, t1, i, t2, j, s, n);
      NoContradictionSplit(op, s, i, t2, j);
      if i == j {
        StepNone(false, op, s);
      } else {
        ClearedOneStep(op, i, t2, j, s, n);
      }
    }
  }

  lemma {:induction false} ClearedOneStep(op: Op, i: nat, t: Expr, j: nat, s: seq<Expr>, n: nat)
    requires i < |s| && j + Width(op, t) <= |s| && Bounded(op, s, n)
    ensures var r := ClearedOne(op, i, t, j, s, n);
            && Bounded(op, r.slots, n) && Step(false, op, s, r.slots, r.changes)
            && (r.changes == 0 <==> Clear(op, s, i, t, j))
    decreases n, 1, 0
  {
    hide Step, TreeStep, Leaves, Size, Bounded, Consistent, Width, ContradictsAt, Clear, ClearedTree, ClearedHere;
    BoundedAt(op, s, n, i);
    ClearSplit(op, s, i, t, j);
    if s[i].Bin? {
      var (x, m) := ClearedTree(s[i]);
      ClearedTreeStep(s[i]);
      NestedStep(false, op, s, i, x, m);
      TreeStepSize(false, s[i], x, m);
      BoundedUpdate(op, s, n, i, x);
      var s1 := s[i := x];
      StepSame(false, op, s, s1, m);
      ClearedHereStep(op, i, t, j, s1, n);
      var r := ClearedHere(op, i, t, j, s1);
      StepTrans(false, op, s, s1, r.slots, m, r.changes);
    } else {
      StepNone(false, op, s);
    }
  }

  lemma ClearedHereStep(op: Op, i: nat, t: Expr, j: nat, s: seq<Expr>, n: nat)
    requires i < |s| && j + Width(op, t) <= |s| && Bounded(op, s, n) && s[i].Bin?
    ensures var r := ClearedHere(op, i, t, j, s);
            && Bounded(op, r.slots, n) && Step(false, op, s, r.slots, r.changes)
            && (r.changes == 0 <==> !ContradictsAt(op, s, i, t, j))
  {
    hide Step, Size, Bounded, Width, ContradictsAt;
    if ContradictsAt(op, s, i, t, j) {
      ContradictionStep(op, s, i, t, j);
      BoundedAt(op, s, n, i);
      SizeOfBin(s[i]);
      LiveOfUnit(op);
      BoundedUpdate(op, s, n, i, Ref(Zero(op)));
    } else {
      StepNone(false, op, s);
    }
  }

  lemma SizeOfBin(e: Expr)
    requires e.Bin?
    ensures Size(e) > 1
  {
  }

  lemma ClearedInside(e: Expr, s: seq<Expr>, changes: nat)
    requires e.Bin? && Step(false, e.op, Leaves(e.op, e), s, changes)
    requires changes == 0 <==> NoneContradicts(e.op, Leaves(e.op, e), 0, Width(e.op, e), e, 0)
    ensures IsOp(e.op, Rebuild(e.op, e, s)) && TreeStep(false, e, Rebuild(e.op, e, s), changes)
    ensures changes == 0 <==> Consistent(e)
  {
    hide Step, TreeStep, Consistent, NoneContradicts, Rebuild;
    TreeStepOfSlots(false, e.op, e, s, changes);
    StepSame(false, e.op, Leaves(e.op, e), s, changes);
    RebuildShape(e.op, e, s);
    ConsistentWhole(e);
  }

  /** The whole pass keeps every value other than m, and leaves alone exactly what has no
      contradictions. */
  lemma {:induction false} ClearedTreeStep(e: Expr)
    requires e.Bin?
    ensures var (r, changes) := ClearedTree(e);
            IsOp(e.op, r) && TreeStep(false, e, r, changes) && (changes == 0 <==> Consistent(e))
    decreases Size(e), 2
  {
    hide Step, TreeStep, Consistent, NoneContradicts, Rebuild, ClearedSlots, Width, Leaves, Bounded;
    WholeSpine(e);
    var r := ClearedSlots(e.op, e, 0, e, 0, Leaves(e.op, e), Size(e));
    ClearedSlotsStep(e.op, e, 0, e, 0, Leaves(e.op, e), Size(e));
    ClearedInside(e, r.slots, r.changes);
  }

  // The pass itself

  /** expr_eliminate_dups2. There is no return after the second pair of calls in
      the C function: an operand is also held against every inner node of the
      spine, so that a contradiction spread over several operands is found. */
  method ContradictPairs(op: Op, t1: Expr, i: nat, t2: Expr, j: nat, slots: array<Expr>, ghost n: nat)
    returns (changes: nat)
    requires i + Width(op, t1) <= slots.Length && j + Width(op, t2) <= slots.Length
    requires Bounded(op, slots[..], n)
    modifies slots
    ensures Pass(slots[..], changes) == ClearedSlots(op, t1, i, t2, j, old(slots[..]), n)
    decreases n, 1, Size(t1), Size(t2)
  {
    hide Step, Width, Bounded, NoneContradicts, ClearedSlots, ClearedOne;
    ghost var s := slots[..];
    if IsOp(op, t1) {
      ClearedSlotsLeft(op, t1, i, t2, j, s, n);
      var m1 := ContradictPairs(op, t1.lhs, i, t2, j, slots, n);
      ClearedSlotsStep(op, t1.lhs, i, t2, j, s, n);
      var m2 := ContradictPairs(op, t1.rhs, i + Width(op, t1.lhs), t2, j, slots, n);
      changes := m1 + m2;
    } else {
      changes := 0;
      if IsOp(op, t2) {
        ClearedSlotsRight(op, t1, i, t2, j, s, n);
        var m1 := ContradictPairs(op, t1, i, t2.lhs, j, slots, n);
        ClearedSlotsStep(op, t1, i, t2.lhs, j, s, n);
        ghost var s1 := slots[..];
        var m2 := ContradictPairs(op, t1, i, t2.rhs, j + Width(op, t2.lhs), slots, n);
        ClearedSlotsStep(op, t1, i, t2.rhs, j + Width(op, t2.lhs), s1, n);
        changes := m1 + m2;
      } else {
        ClearedSlotsOne(op, t1, i, t2, j, s, n);
        if i == j {
          return;
        }
      }
      var m := ContradictOne(op, i, t2, j, slots, n);
      changes := changes + m;
    }
  }

  /** One operand against one part of the spine: first inside the operand. */
  method ContradictOne(op: Op, i: nat, t: Expr, j: nat, slots: array<Expr>, ghost n: nat) returns (changes: nat)
    requires i < slots.Length && j + Width(op, t) <= slots.Length
    requires Bounded(op, slots[..], n)
    modifies slots
    ensures Pass(slots[..], changes) == ClearedOne(op, i, t, j, old(slots[..]), n)
    decreases n, 1, 0
  {
    hide Size, Bounded, ClearedTree, ClearedHere, Width, Leaves, TreeStep, Consistent;
    ghost var s := slots[..];
    BoundedAt(op, s, n, i);
    changes := 0;
    if slots[i].Bin? {
      var x, m := ContradictInside(slots[i]);
      slots[i] := x;
      assert slots[..] == s[i := x];
      var m' := ContradictHere(op, i, t, j, slots);
      changes := m + m';
    }
  }

  /** The replacement itself. */
  method ContradictHere(op: Op, i: nat, t: Expr, j: nat, slots: array<Expr>) returns (changes: nat)
    requires i < slots.Length && j + Width(op, t) <= slots.Length
    modifies slots
    ensures Pass(slots[..], changes) == ClearedHere(op, i, t, j, old(slots[..]))
  {
    hide Contradicts, Rebuild, Width;
    ghost var s := slots[..];
    var e2 := Rebuild(op, t, slots[j..j + Width(op, t)]);
    assert slots[j..j + Width(op, t)] == s[j..j + Width(op, t)];
    changes := 0;
    if Contradicts(op, slots[i], e2) {
      slots[i] := Ref(Zero(op));
      changes := 1;
    }
  }

  /** expr_eliminate_dups2(e->type, &e, &e). */
  method ContradictInside(e: Expr) returns (r: Expr, changes: nat)
    requires e.Bin?
    ensures (r, changes) == ClearedTree(e)
    ensures IsOp(e.op, r) && TreeStep(false, e, r, changes)
    ensures changes == 0 <==> Consistent(e)
    decreases Size(e), 2
  {
    hide TreeStep, Consistent, Rebuild, ClearedSlots;
    var s := Leaves(e.op, e);
    var slots := new Expr[|s|](k requires 0 <= k < |s| => s[k]);
    assert slots[..] == s;
    assert 0 + Width(e.op, e) == Width(e.op, e);
    changes := ContradictPairs(e.op, e, 0, e, 0, slots, Size(e));
    r := Rebuild(e.op, e, slots[..]);
    ClearedTreeStep(e);
  }

  /** A leaf and an operand that contradicts neither it nor both together. */
  lemma ConsistentPair(op: Op, x: Expr, y: Expr)
    requires !IsOp(op, x) && !IsOp(op, y) && !x.Bin?
    requires y.Bin? ==> Consistent(y) && !Contradicts(op, y, x) && !Contradicts(op, y, Bin(op, x, y))
    ensures Consistent(Bin(op, x, y))
  {
    hide Contradicts, NoContradiction, NoneContradicts, Clear, Consistent, Rebuild;
    var e := Bin(op, x, y);
    LeavesSplit(op, e);
    LeavesSplit(op, x);
    LeavesSplit(op, y);
    assert Leaves(op, e) == [x, y];
    ConsistentWhole(e);
    NoneContradictsRow(op, [x, y], 0, 1, 2, e, 0);
    OperandConsistent(op, x, y, 0);
    OperandConsistent(op, x, y, 1);
  }

  lemma OperandConsistent(op: Op, x: Expr, y: Expr, p: nat)
    requires !IsOp(op, x) && !IsOp(op, y) && !x.Bin? && p < 2
    requires y.Bin? ==> Consistent(y) && !Contradicts(op, y, x) && !Contradicts(op, y, Bin(op, x, y))
    ensures Width(op, Bin(op, x, y)) == 2
    ensures NoneContradicts(op, [x, y], p, p + 1, Bin(op, x, y), 0)
  {
    hide Contradicts, NoContradiction, NoneContradicts, Clear, Consistent, Rebuild;
    var e := Bin(op, x, y);
    var s := [x, y];
    LeavesSplit(op, e);
    LeavesSplit(op, x);
    LeavesSplit(op, y);
    RebuildLeaves(op, e);
    RebuildLeaves(op, x);
    RebuildLeaves(op, y);
    assert s[0..0 + Width(op, e)] == Leaves(op, e);
    assert s[0..1] == [x] && s[1..2] == [y];
    ClearSplit(op, s, p, e, 0);
    ClearSplit(op, s, p, x, 0);
    ClearSplit(op, s, p, y, 1);
    NoContradictionSplit(op, s, p, x, 0);
    NoContradictionSplit(op, s, p, y, 1);
    NoContradictionSplit(op, s, p, e, 0);
  }

  // What the absence of contradictions means.

  /** At every level above negations, no && among the operands of an || (or the other
      way round) has a negation whose operands are all among those of the ||. */
  predicate Uncontradicted(e: Expr)
    decreases Size(e)
  {
    e.Bin? ==>
      var s := Leaves(e.op, e);
      forall p | 0 <= p < |s| ::
        && Uncontradicted(s[p])
        && (s[p].Bin? && Normal(s[p]) && YnFree(e) ==>
              !(Operands(e.op, Transform(Not(s[p]))) <= Operands(e.op, e)))
  }

  lemma {:induction false} YnFreeOperands(op: Op, e: Expr)
    requires YnFree(e)
    ensures forall k | 0 <= k < |Leaves(op, e)| :: YnFree(Leaves(op, e)[k])
  {
    if IsOp(op, e) {
      YnFreeOperands(op, e.lhs);
      YnFreeOperands(op, e.rhs);
    }
  }

  lemma {:induction false} ConsistentIsUncontradicted(e: Expr)
    requires Consistent(e)
    ensures Uncontradicted(e)
    decreases Size(e)
  {
    hide Transform, Operands, Contradicts, Rebuild, Normal, YnFree;
    if e.Bin? {
      var s := Leaves(e.op, e);
      RebuildLeaves(e.op, e);
      assert s[0..0 + Width(e.op, e)] == s;
      forall p | 0 <= p < |s|
        ensures Uncontradicted(s[p])
        ensures s[p].Bin? && Normal(s[p]) && YnFree(e) ==> !(Operands(e.op, Transform(Not(s[p]))) <= Operands(e.op, e))
      {
        assert NoContradiction(e.op, s, p, e, 0);
        assert Clear(e.op, s, p, e, 0);
        if s[p].Bin? {
          ConsistentIsUncontradicted(s[p]);
          if Normal(s[p]) && YnFree(e) {
            YnFreeOperands(e.op, e);
            ContradictsExact(e.op, s[p], e);
          }
        }
      }
    }
  }
}
