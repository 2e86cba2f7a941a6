/** The operands of one && or || as a sequence of slots, the way the pairwise
    passes of expr.c address them through `struct expr **`: two slots are the
    same exactly when their positions are. */
module Slots {
  import opened Tristates
  import opened Exprs
  import opened EliminateYn
  import opened Transforming

  /** The operands of the `op` spine of `e`, left to right. */
  function Leaves(op: Op, e: Expr): (s: seq<Expr>)
    ensures |s| > 0
    ensures IsOp(op, e) ==> |s| > 1
    ensures forall k | 0 <= k < |s| :: !IsOp(op, s[k]) && Size(s[k]) <= Size(e) && (IsOp(op, e) ==> Size(s[k]) < Size(e))
  {
    if IsOp(op, e) then Leaves(op, e.lhs) + Leaves(op, e.rhs) else [e]
  }

  function Width(op: Op, e: Expr): (n: nat)
    ensures n > 0
  {
    |Leaves(op, e)|
  }

  lemma WidthSplit(op: Op, e: Expr)
    ensures Width(op, e) == if IsOp(op, e) then Width(op, e.lhs) + Width(op, e.rhs) else 1
  {
  }

  /** The spine of `shape` with other operands in its slots. */
  function Rebuild(op: Op, shape: Expr, s: seq<Expr>): Expr
    requires |s| == Width(op, shape)
    decreases shape
  {
    if IsOp(op, shape) then
      var n := Width(op, shape.lhs);
      Bin(op, Rebuild(op, shape.lhs, s[..n]), Rebuild(op, shape.rhs, s[n..]))
    else s[0]
  }

  function Fold(op: Op, s: seq<Expr>, env: Env): Tristate {
    if s == [] then env.tri(Unit(op)) else Apply(op, Eval(s[0], env), Fold(op, s[1..], env))
  }

  function Total(f: Expr -> nat, s: seq<Expr>): nat {
    if s == [] then 0 else f(s[0]) + Total(f, s[1..])
  }

  /** Operands above negations, y and n included. */
  function Count(e: Expr): (n: nat)
    ensures n > 0
  {
    Bins(e) + 1
  }

  predicate AllNormal(s: seq<Expr>) {
    forall k | 0 <= k < |s| :: Normal(s[k])
  }

  lemma {:induction false} TotalConcat(f: Expr -> nat, a: seq<Expr>, b: seq<Expr>)
    ensures Total(f, a + b) == Total(f, a) + Total(f, b)
  {
    if a == [] {
      assert a + b == b;
    } else {
      assert (a + b)[1..] == a[1..] + b;
      TotalConcat(f, a[1..], b);
    }
  }

  lemma {:induction false} TotalUpdate(f: Expr -> nat, s: seq<Expr>, p: nat, x: Expr)
    requires p < |s|
    ensures Total(f, s[p := x]) == Total(f, s) - f(s[p]) + f(x)
  {
    assert s == s[..p] + ([s[p]] + s[p + 1..]);
    assert s[p := x] == s[..p] + ([x] + s[p + 1..]);
    TotalConcat(f, s[..p], [s[p]] + s[p + 1..]);
    TotalConcat(f, s[..p], [x] + s[p + 1..]);
  }

  lemma {:induction false} LiveCount(e: Expr)
    ensures Live(e) <= Count(e)
  {
    if e.Bin? {
      LiveCount(e.lhs);
      LiveCount(e.rhs);
    }
  }

  /** The slack between all operands and the live ones, of some slot, is a
      lower bound of the slack of all. */
  lemma {:induction false} TotalSlack(s: seq<Expr>, p: nat)
    requires p < |s|
    ensures Total(Live, s) + (Count(s[p]) - Live(s[p])) <= Total(Count, s)
  {
    LiveCount(s[0]);
    if p > 0 {
      TotalSlack(s[1..], p - 1);
    } else if |s| > 1 {
      LiveCount(s[1]);
      TotalSlack(s[1..], 0);
    }
  }

  /** Being above (for &&) or below (for ||) a bound is decided slot by slot. */
  predicate Beyond(op: Op, t: Tristate, v: Tristate) {
    if op == And then t <= v else v <= t
  }

  ghost predicate AllBeyond(op: Op, t: Tristate, s: seq<Expr>, env: Env) {
    forall k | 0 <= k < |s| :: Beyond(op, t, Eval(s[k], env))
  }

  lemma {:induction false} FoldBeyond(op: Op, s: seq<Expr>, env: Env, t: Tristate)
    requires Constants(env)
    ensures Beyond(op, t, Fold(op, s, env)) <==> AllBeyond(op, t, s, env)
  {
    if s != [] {
      FoldBeyond(op, s[1..], env, t);
      assert forall k | 0 < k < |s| :: s[k] == s[1..][k - 1];
    }
  }

  lemma {:induction false} FoldConcat(op: Op, a: seq<Expr>, b: seq<Expr>, env: Env)
    requires Constants(env)
    ensures Fold(op, a + b, env) == Apply(op, Fold(op, a, env), Fold(op, b, env))
  {
    if a == [] {
      assert a + b == b;
    } else {
      assert (a + b)[1..] == a[1..] + b;
      FoldConcat(op, a[1..], b, env);
    }
  }

  /** Slots that respect the same bounds fold to the same value. */
  lemma FoldEqual(op: Op, s: seq<Expr>, s': seq<Expr>, env: Env)
    requires Constants(env)
    requires forall t: Tristate :: AllBeyond(op, t, s, env) <==> AllBeyond(op, t, s', env)
    ensures Fold(op, s, env) == Fold(op, s', env)
  {
    var v, v' := Fold(op, s, env), Fold(op, s', env);
    FoldBeyond(op, s, env, v);
    FoldBeyond(op, s', env, v);
    FoldBeyond(op, s, env, v');
    FoldBeyond(op, s', env, v');
  }

  /** One slot singled out. */
  lemma FoldSplit(op: Op, s: seq<Expr>, p: nat, env: Env)
    requires p < |s| && Constants(env)
    ensures Fold(op, s, env) == Apply(op, Fold(op, s[..p], env), Apply(op, Eval(s[p], env), Fold(op, s[p + 1..], env)))
  {
    assert s == s[..p] + s[p..];
    FoldConcat(op, s[..p], s[p..], env);
    assert s[p..][1..] == s[p + 1..];
  }

  lemma {:induction false} RebuildValue(op: Op, shape: Expr, s: seq<Expr>, env: Env)
    requires |s| == Width(op, shape) && Constants(env)
    ensures Eval(Rebuild(op, shape, s), env) == Fold(op, s, env)
    decreases shape
  {
    if IsOp(op, shape) {
      var n := Width(op, shape.lhs);
      RebuildValue(op, shape.lhs, s[..n], env);
      RebuildValue(op, shape.rhs, s[n..], env);
      assert s == s[..n] + s[n..];
      FoldConcat(op, s[..n], s[n..], env);
    }
  }

  lemma {:induction false} RebuildShape(op: Op, shape: Expr, s: seq<Expr>)
    requires |s| == Width(op, shape)
    ensures var e := Rebuild(op, shape, s);
            && Size(e) == Total(Size, s) + |s| - 1
            && Live(e) == Total(Live, s)
            && Count(e) == Total(Count, s)
            && (IsOp(op, shape) ==> IsOp(op, e))
    decreases shape
  {
    hide Total, Leaves;
    LeavesSplit(op, shape);
    if IsOp(op, shape) {
      var n := Width(op, shape.lhs);
      var s1, s2 := s[..n], s[n..];
      RebuildShape(op, shape.lhs, s1);
      RebuildShape(op, shape.rhs, s2);
      assert s == s1 + s2;
      TotalConcat(Size, s1, s2);
      TotalConcat(Live, s1, s2);
      TotalConcat(Count, s1, s2);
    } else {
      TotalOne(Size, s);
      TotalOne(Live, s);
      TotalOne(Count, s);
    }
  }

  lemma LeavesSplit(op: Op, e: Expr)
    ensures Leaves(op, e) == if IsOp(op, e) then Leaves(op, e.lhs) + Leaves(op, e.rhs) else [e]
  {
  }

  lemma TotalOne(f: Expr -> nat, s: seq<Expr>)
    requires |s| == 1
    ensures Total(f, s) == f(s[0])
  {
    assert s[1..] == [];
  }

  lemma {:induction false} RebuildNormal(op: Op, shape: Expr, s: seq<Expr>)
    requires |s| == Width(op, shape)
    ensures Normal(Rebuild(op, shape, s)) <==> AllNormal(s)
    decreases shape
  {
    if IsOp(op, shape) {
      var n := Width(op, shape.lhs);
      RebuildNormal(op, shape.lhs, s[..n]);
      RebuildNormal(op, shape.rhs, s[n..]);
      assert forall k | n <= k < |s| :: s[k] == s[n..][k - n];
      assert forall k | 0 <= k < n :: s[k] == s[..n][k];
    }
  }

  lemma {:induction false} RebuildLeaves(op: Op, e: Expr)
    ensures Rebuild(op, e, Leaves(op, e)) == e
    decreases e
  {
    if IsOp(op, e) {
      var n := Width(op, e.lhs);
      assert Leaves(op, e)[..n] == Leaves(op, e.lhs) && Leaves(op, e)[n..] == Leaves(op, e.rhs);
      RebuildLeaves(op, e.lhs);
      RebuildLeaves(op, e.rhs);
    }
  }

  lemma RefValue(s: Symbol, env: Env)
    ensures Eval(Ref(s), env) == env.tri(s)
  {
  }
}
