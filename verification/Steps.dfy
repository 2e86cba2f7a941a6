/** What a pairwise pass of expr.c may do to the operands of one && or ||. */
module Steps {
  import opened Tristates
  import opened Exprs
  import opened EliminateYn
  import opened Transforming
  import opened Slots

  /** `w` may stand for `v`: always when `exact`, and otherwise unless `v` is m. */
  predicate Keeps(exact: bool, v: Tristate, w: Tristate) {
    exact || v != MOD ==> w == v
  }

  ghost predicate Step(exact: bool, op: Op, s: seq<Expr>, s': seq<Expr>, changes: nat) {
    && |s'| == |s|
    && (forall env | WellFormed(env) :: Keeps(exact, Fold(op, s, env), Fold(op, s', env)))
    && Total(Size, s') <= Total(Size, s)
    && Total(Live, s') <= Total(Live, s)
    && (changes > 0 ==> Total(Live, s') < Total(Count, s))
    && (changes == 0 ==> s' == s)
    && (AllNormal(s) ==> AllNormal(s'))
  }

  /** Slots after a pass, and the number of changes. */
  datatype Pass = Pass(slots: seq<Expr>, changes: nat)

  /** The same for a whole expression. */
  ghost predicate TreeStep(exact: bool, e: Expr, e': Expr, changes: nat) {
    && (forall env | WellFormed(env) :: Keeps(exact, Eval(e, env), Eval(e', env)))
    && Size(e') <= Size(e)
    && Live(e') <= Live(e)
    && (changes > 0 ==> Live(e') < Count(e))
    && (changes == 0 ==> e' == e)
    && (Normal(e) ==> Normal(e'))
  }

  lemma StepTrans(exact: bool, op: Op, s0: seq<Expr>, s1: seq<Expr>, s2: seq<Expr>, m1: nat, m2: nat)
    requires Step(exact, op, s0, s1, m1) && Step(exact, op, s1, s2, m2)
    ensures Step(exact, op, s0, s2, m1 + m2)
  {
    hide Fold, Total, Normal;
  }

  lemma TreeStepSize(exact: bool, e: Expr, e': Expr, changes: nat)
    requires TreeStep(exact, e, e', changes)
    ensures Size(e') <= Size(e)
  {
  }

  lemma TreeStepOfSlots(exact: bool, op: Op, e: Expr, s: seq<Expr>, changes: nat)
    requires Step(exact, op, Leaves(op, e), s, changes)
    ensures TreeStep(exact, e, Rebuild(op, e, s), changes)
  {
    RebuildLeaves(op, e);
    RebuildShape(op, e, s);
    RebuildShape(op, e, Leaves(op, e));
    RebuildNormal(op, e, s);
    RebuildNormal(op, e, Leaves(op, e));
    forall env | WellFormed(env)
      ensures Keeps(exact, Eval(e, env), Eval(Rebuild(op, e, s), env))
    {
      RebuildValue(op, e, s, env);
      RebuildValue(op, e, Leaves(op, e), env);
    }
  }

  /** A value-keeping change of one slot keeps the value of the whole. */
  lemma FoldKeeps(exact: bool, op: Op, s: seq<Expr>, p: nat, x: Expr, env: Env)
    requires p < |s| && Constants(env) && Keeps(exact, Eval(s[p], env), Eval(x, env))
    ensures Keeps(exact, Fold(op, s, env), Fold(op, s[p := x], env))
  {
    hide Fold, Eval;
    var s' := s[p := x];
    assert s'[..p] == s[..p] && s'[p + 1..] == s[p + 1..];
    FoldSplit(op, s, p, env);
    FoldSplit(op, s', p, env);
  }

  /** What one pass leaves in one slot is a step of the whole. */
  lemma NestedStep(exact: bool, op: Op, s: seq<Expr>, p: nat, x: Expr, changes: nat)
    requires p < |s| && TreeStep(exact, s[p], x, changes)
    ensures Step(exact, op, s, s[p := x], changes)
  {
    hide Fold, Total, Eval, Size, Live, Bins, Count, Normal;
    var s' := s[p := x];
    TotalUpdate(Size, s, p, x);
    TotalUpdate(Live, s, p, x);
    TotalSlack(s, p);
    forall env | WellFormed(env) ensures Keeps(exact, Fold(op, s, env), Fold(op, s', env)) {
      FoldKeeps(exact, op, s, p, x, env);
    }
    assert changes == 0 ==> s' == s;
  }

  lemma LiveOfUnit(op: Op)
    ensures Live(Ref(Unit(op))) == 0 && Size(Ref(Unit(op))) == 1
    ensures Live(Ref(Zero(op))) == 0 && Size(Ref(Zero(op))) == 1
  {
  }

  lemma NormalUnit(op: Op)
    ensures Normal(Ref(Unit(op))) && Normal(Ref(Zero(op)))
  {
  }

  lemma StepNone(exact: bool, op: Op, s: seq<Expr>)
    ensures Step(exact, op, s, s, 0)
  {
  }

  lemma StepSame(exact: bool, op: Op, s: seq<Expr>, s': seq<Expr>, changes: nat)
    requires Step(exact, op, s, s', changes)
    ensures |s| == |s'|
    ensures changes == 0 ==> s == s'
  {
  }

  /** Slots hold operands of `op`, each smaller than `n`. */
  predicate Bounded(op: Op, s: seq<Expr>, n: nat) {
    forall k | 0 <= k < |s| :: !IsOp(op, s[k]) && Size(s[k]) < n
  }

  lemma WholeSpine(e: Expr)
    requires e.Bin?
    ensures 0 + Width(e.op, e) == Width(e.op, e) == |Leaves(e.op, e)| && Bounded(e.op, Leaves(e.op, e), Size(e))
  {
  }

  lemma BoundedAt(op: Op, s: seq<Expr>, n: nat, p: nat)
    requires Bounded(op, s, n) && p < |s|
    ensures !IsOp(op, s[p]) && Size(s[p]) < n
  {
  }

  lemma BoundedUpdate(op: Op, s: seq<Expr>, n: nat, p: nat, x: Expr)
    requires Bounded(op, s, n) && p < |s| && !IsOp(op, x) && Size(x) < n
    ensures Bounded(op, s[p := x], n)
  {
  }
}
