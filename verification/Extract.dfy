/** expr_extract_eq: taking the operands two expressions share out of both. */
module Extracting {
  import opened Tristates
  import opened Exprs
  import opened Options
  import opened EliminateYn
  import opened ExprEq
  import opened Transforming

  /** `common` collects what is taken out, as the `struct expr **ep` argument does. */
  function ExtractEq(op: Op, common: Option<Expr>, a: Expr, b: Expr): (r: (Option<Expr>, Expr, Expr))
    ensures Size(r.1) <= Size(a) && Size(r.2) <= Size(b)
    decreases Size(a) + Size(b)
  {
    if IsOp(op, a) then
      var (c1, l, b1) := ExtractEq(op, common, a.lhs, b);
      var (c2, r, b2) := ExtractEq(op, c1, a.rhs, b1);
      (c2, Bin(op, l, r), b2)
    else if IsOp(op, b) then
      var (c1, a1, l) := ExtractEq(op, common, a, b.lhs);
      var (c2, a2, r) := ExtractEq(op, c1, a1, b.rhs);
      (c2, a2, Bin(op, l, r))
    else if Eq(a, b) then
      (Some(if common.Some? then Bin(op, common.value, a) else a), Ref(Unit(op)), Ref(Unit(op)))
    else (common, a, b)
  }

  /** expr_extract_eq_and and expr_extract_eq_or. */
  function Extract(op: Op, a: Expr, b: Expr): (Option<Expr>, Expr, Expr) {
    var (common, a1, b1) := ExtractEq(op, None, a, b);
    if common.Some? then (common, Yn(a1), Yn(b1)) else (common, a1, b1)
  }

  lemma ExtractEqLeft(op: Op, common: Option<Expr>, a: Expr, b: Expr)
    requires IsOp(op, a)
    ensures var (c1, l, b1) := ExtractEq(op, common, a.lhs, b);
            var (c2, r, b2) := ExtractEq(op, c1, a.rhs, b1);
            ExtractEq(op, common, a, b) == (c2, Bin(op, l, r), b2)
  {
  }

  lemma ExtractEqRight(op: Op, common: Option<Expr>, a: Expr, b: Expr)
    requires !IsOp(op, a) && IsOp(op, b)
    ensures var (c1, a1, l) := ExtractEq(op, common, a, b.lhs);
            var (c2, a2, r) := ExtractEq(op, c1, a1, b.rhs);
            ExtractEq(op, common, a, b) == (c2, a2, Bin(op, l, r))
  {
  }

  function CommonValue(op: Op, common: Option<Expr>, env: Env): Tristate {
    if common.Some? then Eval(common.value, env) else env.tri(Unit(op))
  }

  /** What is taken out has one value `c`; both expressions are `c` combined with
      what is left of them. */
  lemma {:induction false} ExtractEqFactor(op: Op, common: Option<Expr>, a: Expr, b: Expr, env: Env) returns (c: Tristate)
    requires Constants(env)
    ensures var (common', a', b') := ExtractEq(op, common, a, b);
            && CommonValue(op, common', env) == Apply(op, CommonValue(op, common, env), c)
            && Eval(a, env) == Apply(op, c, Eval(a', env))
            && Eval(b, env) == Apply(op, c, Eval(b', env))
    decreases Size(a) + Size(b)
  {
    hide Apply, Eq;
    if IsOp(op, a) {
      var (k1, l, b1) := ExtractEq(op, common, a.lhs, b);
      var (_, r, b2) := ExtractEq(op, k1, a.rhs, b1);
      ExtractEqLeft(op, common, a, b);
      var c1 := ExtractEqFactor(op, common, a.lhs, b, env);
      var c2 := ExtractEqFactor(op, k1, a.rhs, b1, env);
      c := Apply(op, c1, c2);
      ApplyRegroup(op, c1, c2, Eval(l, env), Eval(r, env));
      ApplyRegroup(op, c1, c2, Eval(b, env), Eval(b2, env));
      ApplyRegroup(op, CommonValue(op, common, env), c1, c2, c2);
    } else if IsOp(op, b) {
      var (k1, a1, l) := ExtractEq(op, common, a, b.lhs);
      var (_, a2, r) := ExtractEq(op, k1, a1, b.rhs);
      ExtractEqRight(op, common, a, b);
      var c1 := ExtractEqFactor(op, common, a, b.lhs, env);
      var c2 := ExtractEqFactor(op, k1, a1, b.rhs, env);
      c := Apply(op, c1, c2);
      ApplyRegroup(op, c1, c2, Eval(l, env), Eval(r, env));
      ApplyRegroup(op, c1, c2, Eval(a, env), Eval(a2, env));
      ApplyRegroup(op, CommonValue(op, common, env), c1, c2, c2);
    } else {
      c := if Eq(a, b) then Eval(a, env) else env.tri(Unit(op));
      if Eq(a, b) {
        EqSound(a, b, env);
      }
      ApplyUnit(op, Eval(a, env), env);
      ApplyUnit(op, Eval(b, env), env);
      ApplyUnit(op, CommonValue(op, common, env), env);
    }
  }

  /** The extracted expression times each remainder gives back each original. */
  lemma ExtractFactor(op: Op, a: Expr, b: Expr, env: Env)
    requires Constants(env)
    ensures var (common, a', b') := Extract(op, a, b);
            && Eval(a, env) == Apply(op, CommonValue(op, common, env), Eval(a', env))
            && Eval(b, env) == Apply(op, CommonValue(op, common, env), Eval(b', env))
  {
    hide ExtractEq;
    var (common, a1, b1) := ExtractEq(op, None, a, b);
    var c := ExtractEqFactor(op, None, a, b, env);
    ApplyUnit(op, c, env);
    YnValue(a1, env);
    YnValue(b1, env);
  }

  /** On expressions free of y and n the remainders are those of expr_eliminate_eq. */
  lemma {:induction false} ExtractEqCancels(op: Op, common: Option<Expr>, a: Expr, b: Expr)
    requires Partial(op, a) && Partial(op, b)
    ensures var (common', a', b') := ExtractEq(op, common, a, b);
            && (a', b') == CancelPairs(op, a, b)
            && (common'.None? ==> common.None? && a' == a && b' == b)
    decreases Size(a) + Size(b)
  {
    hide Eq, EliminateEq, CancelPairs, YnFree;
    if IsOp(op, a) {
      var (k1, l, b1) := ExtractEq(op, common, a.lhs, b);
      ExtractEqLeft(op, common, a, b);
      CancelPairsLeft(op, a, b);
      CancelPairsIsDifference(op, a.lhs, b);
      ExtractEqCancels(op, common, a.lhs, b);
      ExtractEqCancels(op, k1, a.rhs, b1);
    } else if IsOp(op, b) {
      var (k1, a1, l) := ExtractEq(op, common, a, b.lhs);
      ExtractEqRight(op, common, a, b);
      CancelPairsRight(op, a, b);
      CancelPairsIsDifference(op, a, b.lhs);
      ExtractEqCancels(op, common, a, b.lhs);
      ExtractEqCancels(op, k1, a1, b.rhs);
    } else {
      CancelPairsLeaf(op, a, b);
      YnIsUnitOrZero(op, a);
    }
  }

  lemma YnIsUnitOrZero(op: Op, a: Expr)
    ensures IsYn(a) <==> a == Ref(Unit(op)) || a == Ref(Zero(op))
  {
  }

  // Operands that contradict each other (expr_eliminate_dups2).

  /** The test of expr_eliminate_dups2 on operands `e1`, an && or || other than
      `op`, and `e2` of an `op`: every operand of !e1 is found in e2. */
  predicate Contradicts(op: Op, e1: Expr, e2: Expr) {
    Extract(op, Transform(Not(e1)), e2).1 == Ref(Unit(op))
  }

  /** Together the operands then have the value that decides `op` unless both
      are m, and in that case they do not. */
  lemma ContradictsValue(op: Op, e1: Expr, e2: Expr, env: Env)
    requires WellFormed(env) && Contradicts(op, e1, e2)
    ensures Apply(op, Eval(e1, env), Eval(e2, env)) == env.tri(Zero(op))
            <==> !(Eval(e1, env) == MOD && Eval(e2, env) == MOD)
  {
    hide Extract, Transform;
    var not1 := Transform(Not(e1));
    TransformValue(Not(e1), env);
    ExtractFactor(op, not1, e2, env);
    ApplyUnit(op, CommonValue(op, Extract(op, not1, e2).0, env), env);
  }

  lemma {:induction false} NotOfFree(e: Expr)
    requires Normal(e) && YnFree(e)
    ensures YnFree(Transform(Not(e)))
    ensures e.Bin? ==> IsOp(Dual(e.op), Transform(Not(e)))
    ensures IsYn(Transform(Not(e))) ==> IsYn(e)
    decreases e
  {
    NormalIsFixed(e);
    if e.Bin? {
      NotOfFree(e.lhs);
      NotOfFree(e.rhs);
    }
  }

  lemma EmptyDifference<T>(p: multiset<T>, q: multiset<T>)
    ensures Diff(p, q) == multiset{} <==> p <= q
  {
    if Diff(p, q) == multiset{} {
      forall k ensures p[k] <= q[k] {
        assert Diff(p, q)[k] == 0;
      }
    }
  }

  /** On y/n-free operands the test is inclusion of bags, both ways. */
  lemma ContradictsExact(op: Op, e1: Expr, e2: Expr)
    requires Normal(e1) && YnFree(e1) && IsOp(Dual(op), e1)
    requires YnFree(e2) && !IsYn(e2)
    ensures Contradicts(op, e1, e2) <==> Operands(op, Transform(Not(e1))) <= Operands(op, e2)
  {
    hide ExtractEq, Transform, CancelPairs, Diff, Sum, Yn, YnFree, Operands, Normal, Partial;
    var x := Transform(Not(e1));
    NotOfFree(e1);
    FreeIsPartial(op, x);
    FreeIsPartial(op, e2);
    var (common, x', e2') := ExtractEq(op, None, x, e2);
    ExtractEqCancels(op, None, x, e2);
    CancelPairsIsDifference(op, x, e2);
    YnOfPartial(op, x');
    YnOfPartial(op, x);
    FreeIsClean(x);
    YnClean(x);
    EmptyDifference(Operands(op, x), Operands(op, e2));
  }

  /** A witness that three values are one too many for the test:
      (A || B) && (!A && !B) is called contradictory, and is m when A and B are. */
  lemma ContradictsAtMod(a: Symbol, b: Symbol, env: Env)
    requires a.Type() == Tri && b.Type() == Tri && a != b
    requires WellFormed(env) && env.tri(a) == MOD && env.tri(b) == MOD
    ensures var e1, e2 := Bin(Or, Ref(a), Ref(b)), Bin(And, Not(Ref(a)), Not(Ref(b)));
            && Contradicts(And, e1, e2)
            && Eval(Bin(And, e1, e2), env) == MOD
  {
    var e1, e2 := Bin(Or, Ref(a), Ref(b)), Bin(And, Not(Ref(a)), Not(Ref(b)));
    assert Transform(Not(e1)) == e2 by {
      NormalIsFixed(e1);
      assert Transform(Not(e1)) == Transform(Pushed(Or, Ref(a), Ref(b)));
      assert Normal(Not(Ref(a))) && Normal(Not(Ref(b)));
      NormalIsFixed(e2);
    }
    ContradictsExact(And, e1, e2);
    assert Eval(e1, env) == MOD && Eval(e2, env) == MOD by {
      assert Eval(Not(Ref(a)), env) == MOD && Eval(Not(Ref(b)), env) == MOD;
    }
  }
}
