/** expr_eq and expr_eliminate_eq: comparing expressions by cancelling equal operands. */
module ExprEq {
  import opened Tristates
  import opened Exprs
  import opened EliminateYn

  /** __expr_eliminate_eq: walks the `op` operands of both trees and replaces each
      pair of equal operands by the unit of `op`. The second pair of calls sees
      what the first has left in the two slots. */
  function CancelPairs(op: Op, a: Expr, b: Expr): (r: (Expr, Expr))
    ensures Size(r.0) <= Size(a) && Size(r.1) <= Size(b)
    decreases Size(a) + Size(b), if IsOp(op, a) || IsOp(op, b) then 0 else 3
  {
    if IsOp(op, a) then
      var (l, b1) := CancelPairs(op, a.lhs, b);
      var (r, b2) := CancelPairs(op, a.rhs, b1);
      (Bin(op, l, r), b2)
    else if IsOp(op, b) then
      var (a1, l) := CancelPairs(op, a, b.lhs);
      var (a2, r) := CancelPairs(op, a1, b.rhs);
      (a2, Bin(op, l, r))
    else if a == b && IsYn(a) then (a, b)
    else if !Eq(a, b) then (a, b)
    else (Ref(Unit(op)), Ref(Unit(op)))
  }

  /** expr_eliminate_eq on two expressions that are both present. */
  function EliminateEq(a: Expr, b: Expr): (r: (Expr, Expr))
    ensures Size(r.0) <= Size(a) && Size(r.1) <= Size(b)
    decreases Size(a) + Size(b), 1
  {
    var (a1, b1) := if a.Bin? then CancelPairs(a.op, a, b) else (a, b);
    var (a2, b2) := if b1.Bin? && !IsOp(b1.op, a1) then CancelPairs(b1.op, a1, b1) else (a1, b1);
    YnClean(a2);
    YnClean(b2);
    (Yn(a2), Yn(b2))
  }

  /** expr_eq. */
  predicate Eq(a: Expr, b: Expr)
    decreases Size(a) + Size(b), 2
  {
    match (a, b)
    case (Ref(s), Ref(t)) => s == t
    case (Not(x), Not(y)) => Eq(x, y)
    case (Compare(_, _, _), Compare(_, _, _)) => a == b
    case (Bin(op, _, _), Bin(op', _, _)) =>
      if op != op' then false else
        var (x, y) := EliminateEq(a, b);
        x.Ref? && x == y
    case _ => false
  }

  lemma CancelPairsLeft(op: Op, a: Expr, b: Expr)
    requires IsOp(op, a)
    ensures var (l, b1) := CancelPairs(op, a.lhs, b);
            var (r, b2) := CancelPairs(op, a.rhs, b1);
            CancelPairs(op, a, b) == (Bin(op, l, r), b2)
  {
  }

  lemma CancelPairsRight(op: Op, a: Expr, b: Expr)
    requires !IsOp(op, a) && IsOp(op, b)
    ensures var (a1, l) := CancelPairs(op, a, b.lhs);
            var (a2, r) := CancelPairs(op, a1, b.rhs);
            CancelPairs(op, a, b) == (a2, Bin(op, l, r))
  {
  }

  lemma CancelPairsLeaf(op: Op, a: Expr, b: Expr)
    requires !IsOp(op, a) && !IsOp(op, b)
    ensures CancelPairs(op, a, b) ==
            if Eq(a, b) && !(a == b && IsYn(a)) then (Ref(Unit(op)), Ref(Unit(op))) else (a, b)
  {
  }

  // Soundness over every three-valued environment.

  lemma ApplyRegroup(op: Op, c1: Tristate, c2: Tristate, x: Tristate, y: Tristate)
    ensures Apply(op, Apply(op, c1, x), Apply(op, c2, y)) == Apply(op, Apply(op, c1, c2), Apply(op, x, y))
    ensures Apply(op, c1, Apply(op, c2, y)) == Apply(op, Apply(op, c1, c2), y)
  {
  }

  lemma ApplyMonotone(op: Op, c: Tristate, x: Tristate, y: Tristate)
    ensures x <= y ==> Apply(op, c, x) <= Apply(op, c, y)
    ensures y <= x ==> Apply(op, c, y) <= Apply(op, c, x)
  {
  }

  lemma ApplyUnit(op: Op, t: Tristate, env: Env)
    requires Constants(env)
    ensures Apply(op, env.tri(Unit(op)), t) == t == Apply(op, t, env.tri(Unit(op)))
  {
  }

  /** Cancelling takes one common operand, of value `c`, out of both trees. */
  lemma {:induction false} CancelPairsFactor(op: Op, a: Expr, b: Expr, env: Env) returns (c: Tristate)
    requires Constants(env)
    ensures Eval(a, env) == Apply(op, c, Eval(CancelPairs(op, a, b).0, env))
    ensures Eval(b, env) == Apply(op, c, Eval(CancelPairs(op, a, b).1, env))
    decreases Size(a) + Size(b), if IsOp(op, a) || IsOp(op, b) then 0 else 3
  {
    hide CancelPairs, Eq, EliminateEq, Apply;
    c := env.tri(Unit(op));
    if IsOp(op, a) {
      var (l, b1) := CancelPairs(op, a.lhs, b);
      var (r, b2) := CancelPairs(op, a.rhs, b1);
      CancelPairsLeft(op, a, b);
      var c1 := CancelPairsFactor(op, a.lhs, b, env);
      var c2 := CancelPairsFactor(op, a.rhs, b1, env);
      ApplyRegroup(op, c1, c2, Eval(l, env), Eval(r, env));
      ApplyRegroup(op, c1, c2, Eval(b, env), Eval(b2, env));
      c := Apply(op, c1, c2);
    } else if IsOp(op, b) {
      var (a1, l) := CancelPairs(op, a, b.lhs);
      var (a2, r) := CancelPairs(op, a1, b.rhs);
      CancelPairsRight(op, a, b);
      var c1 := CancelPairsFactor(op, a, b.lhs, env);
      var c2 := CancelPairsFactor(op, a1, b.rhs, env);
      ApplyRegroup(op, c1, c2, Eval(l, env), Eval(r, env));
      ApplyRegroup(op, c1, c2, Eval(a, env), Eval(a2, env));
      c := Apply(op, c1, c2);
    } else {
      CancelPairsLeaf(op, a, b);
      if Eq(a, b) && !(a == b && IsYn(a)) {
        EqSound(a, b, env);
        c := Eval(a, env);
        ApplyUnit(op, c, env);
      } else {
        ApplyUnit(op, Eval(a, env), env);
        ApplyUnit(op, Eval(b, env), env);
      }
    }
  }

  /** expr_eliminate_eq reflects order, in both directions: whatever order holds
      between the reduced expressions holds between the original ones. */
  lemma {:induction false} EliminateEqReflectsOrder(a: Expr, b: Expr, env: Env)
    requires Constants(env)
    ensures var (x, y) := EliminateEq(a, b);
            && (Eval(x, env) <= Eval(y, env) ==> Eval(a, env) <= Eval(b, env))
            && (Eval(y, env) <= Eval(x, env) ==> Eval(b, env) <= Eval(a, env))
    decreases Size(a) + Size(b), 1
  {
    hide CancelPairs, Eq, Yn, Apply, Eval;
    var (a1, b1) := if a.Bin? then CancelPairs(a.op, a, b) else (a, b);
    if a.Bin? {
      var c := CancelPairsFactor(a.op, a, b, env);
      ApplyMonotone(a.op, c, Eval(a1, env), Eval(b1, env));
    }
    var (a2, b2) := if b1.Bin? && !IsOp(b1.op, a1) then CancelPairs(b1.op, a1, b1) else (a1, b1);
    if b1.Bin? && !IsOp(b1.op, a1) {
      var c := CancelPairsFactor(b1.op, a1, b1, env);
      ApplyMonotone(b1.op, c, Eval(a2, env), Eval(b2, env));
    }
    YnValue(a2, env);
    YnValue(b2, env);
  }

  /** Expressions that expr_eq accepts have the same value everywhere. */
  lemma {:induction false} EqSound(a: Expr, b: Expr, env: Env)
    requires Constants(env)
    requires Eq(a, b)
    ensures Eval(a, env) == Eval(b, env)
    decreases Size(a) + Size(b), 2
  {
    match (a, b) {
      case (Not(x), Not(y)) => EqSound(x, y, env);
      case (Bin(_, _, _), Bin(_, _, _)) => EliminateEqReflectsOrder(a, b, env);
      case _ =>
    }
  }

  // On expressions without y and n as operands, expr_eq decides equality up to
  // associativity and commutativity, exactly.

  /** An expression with the operands of every && and || gathered in a bag. */
  datatype Canon =
    | CRef(s: Symbol)
    | CNot(x: Canon)
    | CCompare(equal: bool, left: Symbol, right: Symbol)
    | CBin(op: Op, operands: multiset<Canon>)

  function Canonical(e: Expr): Canon
    decreases e, 1
  {
    match e
    case Ref(s) => CRef(s)
    case Not(x) => CNot(Canonical(x))
    case Compare(q, a, b) => CCompare(q, a, b)
    case Bin(op, l, r) => CBin(op, Sum(Operands(op, l), Operands(op, r)))
  }

  function Sum<T>(p: multiset<T>, q: multiset<T>): multiset<T> {
    p + q
  }

  function Diff<T>(p: multiset<T>, q: multiset<T>): multiset<T> {
    p - q
  }

  /** The `op` operands of `e`, except the units of `op`. */
  function Operands(op: Op, e: Expr): multiset<Canon>
    decreases e, 2
  {
    if IsOp(op, e) then Sum(Operands(op, e.lhs), Operands(op, e.rhs))
    else if e == Ref(Unit(op)) then multiset{}
    else multiset{Canonical(e)}
  }

  /** No && or ||, at any depth, has y or n as an operand. */
  predicate YnFree(e: Expr) {
    match e
    case Ref(_) => true
    case Not(x) => YnFree(x)
    case Compare(_, _, _) => true
    case Bin(_, l, r) => !IsYn(l) && !IsYn(r) && YnFree(l) && YnFree(r)
  }

  /** What a y/n-free expression turns into while its `op` operands are cancelled. */
  predicate Partial(op: Op, e: Expr) {
    if IsOp(op, e) then Partial(op, e.lhs) && Partial(op, e.rhs)
    else e == Ref(Unit(op)) || (YnFree(e) && !IsYn(e))
  }

  lemma {:induction false} FreeIsPartial(op: Op, e: Expr)
    requires YnFree(e) && !IsYn(e)
    ensures Partial(op, e)
  {
    if IsOp(op, e) {
      FreeIsPartial(op, e.lhs);
      FreeIsPartial(op, e.rhs);
    }
  }

  lemma {:induction false} CancelPairsIsDifference(op: Op, a: Expr, b: Expr)
    requires Partial(op, a) && Partial(op, b)
    ensures var (x, y) := CancelPairs(op, a, b);
            && Partial(op, x) && Operands(op, x) == Diff(Operands(op, a), Operands(op, b))
            && Partial(op, y) && Operands(op, y) == Diff(Operands(op, b), Operands(op, a))
            && (IsOp(op, x) <==> IsOp(op, a)) && (IsOp(op, y) <==> IsOp(op, b))
    decreases Size(a) + Size(b), if IsOp(op, a) || IsOp(op, b) then 0 else 3
  {
    hide CancelPairs, Eq, EliminateEq, Sum, Diff, YnFree;
    if IsOp(op, a) {
      var (l, b1) := CancelPairs(op, a.lhs, b);
      CancelPairsLeft(op, a, b);
      CancelPairsIsDifference(op, a.lhs, b);
      CancelPairsIsDifference(op, a.rhs, b1);
      DifferenceInSteps(Operands(op, a.lhs), Operands(op, a.rhs), Operands(op, b));
    } else if IsOp(op, b) {
      var (a1, l) := CancelPairs(op, a, b.lhs);
      CancelPairsRight(op, a, b);
      CancelPairsIsDifference(op, a, b.lhs);
      CancelPairsIsDifference(op, a1, b.rhs);
      DifferenceInSteps(Operands(op, b.lhs), Operands(op, b.rhs), Operands(op, a));
    } else {
      CancelPairsLeaf(op, a, b);
      if a == Ref(Unit(op)) || b == Ref(Unit(op)) {
        EqWithUnit(op, a, b);
      } else {
        EqExact(a, b);
      }
      LeafDifference(op, a, b);
    }
  }

  lemma LeafDifference(op: Op, a: Expr, b: Expr)
    requires !IsOp(op, a) && !IsOp(op, b)
    ensures var p, q := Operands(op, a), Operands(op, b);
            if a != Ref(Unit(op)) && b != Ref(Unit(op)) && Canonical(a) == Canonical(b)
            then Diff(p, q) == multiset{} == Diff(q, p)
            else Diff(p, q) == p && Diff(q, p) == q
  {
  }

  lemma EqWithUnit(op: Op, a: Expr, b: Expr)
    requires a == Ref(Unit(op)) || b == Ref(Unit(op))
    ensures Eq(a, b) <==> a == b
  {
  }

  lemma DifferenceInSteps<T>(p: multiset<T>, q: multiset<T>, e: multiset<T>)
    ensures Sum(Diff(p, e), Diff(q, Diff(e, p))) == Diff(Sum(p, q), e)
    ensures Diff(Diff(e, p), q) == Diff(e, Sum(p, q))
  {
  }

  lemma {:induction false} YnOfPartial(op: Op, e: Expr)
    requires Partial(op, e)
    ensures Yn(e) != Ref(Zero(op))
    ensures Operands(op, e) == multiset{} <==> Yn(e) == Ref(Unit(op))
    ensures Yn(e).Ref? && Yn(e) != Ref(Unit(op)) ==> Operands(op, e) == multiset{CRef(Yn(e).sym)}
  {
    if IsOp(op, e) {
      YnOfPartial(op, e.lhs);
      YnOfPartial(op, e.rhs);
    } else if e.Bin? {
      FreeIsClean(e);
      YnClean(e);
    }
  }

  lemma {:induction false} FreeIsClean(e: Expr)
    requires YnFree(e)
    ensures Clean(e)
  {
    if e.Bin? {
      FreeIsClean(e.lhs);
      FreeIsClean(e.rhs);
    }
  }

  /** Two bags are equal when each exhausts the other, and what they leave
      of each other has nothing in common. */
  lemma SameBags<T>(p: multiset<T>, q: multiset<T>)
    ensures p == q <==> Diff(p, q) == multiset{} == Diff(q, p)
    ensures forall k :: Diff(p, q) == Diff(q, p) ==> Diff(p, q) != multiset{k}
  {
    if Diff(p, q) == multiset{} == Diff(q, p) {
      forall k ensures p[k] == q[k] {
        assert Diff(p, q)[k] == 0 == Diff(q, p)[k];
      }
    }
    forall k | Diff(p, q) == Diff(q, p) ensures Diff(p, q) != multiset{k} {
      assert Diff(p, q)[k] == 0 || Diff(q, p)[k] == 0;
    }
  }

  /** expr_eq on y/n-free expressions is equality of canonical forms, both ways. */
  lemma {:induction false} EqExact(a: Expr, b: Expr)
    requires YnFree(a) && YnFree(b)
    ensures Eq(a, b) <==> Canonical(a) == Canonical(b)
    decreases Size(a) + Size(b), 2
  {
    hide Diff, Sum, CancelPairs, Yn;
    match (a, b) {
      case (Not(x), Not(y)) => EqExact(x, y);
      case (Bin(op, _, _), Bin(op', _, _)) =>
        if op == op' {
          FreeIsPartial(op, a);
          FreeIsPartial(op, b);
          CancelPairsIsDifference(op, a, b);
          var (x, y) := CancelPairs(op, a, b);
          YnOfPartial(op, x);
          YnOfPartial(op, y);
          SameBags(Operands(op, a), Operands(op, b));
        }
      case _ =>
    }
  }

  /** Hence expr_eq is an equivalence there, insensitive to order and nesting. */
  lemma {:induction false} EqIsEquivalence(a: Expr, b: Expr, c: Expr)
    requires YnFree(a) && YnFree(b) && YnFree(c)
    ensures Eq(a, a)
    ensures Eq(a, b) ==> Eq(b, a)
    ensures Eq(a, b) && Eq(b, c) ==> Eq(a, c)
  {
    EqExact(a, a);
    EqExact(a, b);
    EqExact(b, a);
    EqExact(b, c);
    EqExact(a, c);
  }
}
