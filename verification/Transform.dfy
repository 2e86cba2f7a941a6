/** expr_transform and expr_trans_bool: pushing negations to the symbols. */
module Transforming {
  import opened Tristates
  import opened Exprs

  /** Negation doubles the weight, which pays for the two negations that
      De Morgan's laws leave in the place of one. */
  function Weight(e: Expr): (w: nat)
    ensures w > 0
  {
    match e
    case Ref(_) => 1
    case Compare(_, _, _) => 2
    case Not(x) => 2 * Weight(x)
    case Bin(_, l, r) => 1 + Weight(l) + Weight(r)
  }

  predicate IsYmn(s: Symbol) {
    s == Yes || s == Mod || s == No
  }

  /** Comparing a bool symbol with y, m or n. */
  function TransformCompare(e: Expr): Expr
    requires e.Compare?
  {
    if e.left.Type() != Boolean || !IsYmn(e.right) then e
    else if e.right == Mod then Ref(if e.equal then No else Yes)
    else if e.equal == (e.right == Yes) then Ref(e.left)
    else Not(Ref(e.left))
  }

  /** De Morgan: the negation of `l op r`. */
  function Pushed(op: Op, l: Expr, r: Expr): Expr {
    Bin(Dual(op), Not(l), Not(r))
  }

  lemma PushedWeight(op: Op, l: Expr, r: Expr)
    ensures Weight(Pushed(op, l, r)) < 2 * Weight(Bin(op, l, r))
  {
    assert Weight(Not(l)) == 2 * Weight(l) && Weight(Not(r)) == 2 * Weight(r);
  }

  /** expr_transform. A negation looks at what its operand has become, and what
      De Morgan's laws make of it is transformed once more. */
  function Transform(e: Expr): (r: Expr)
    ensures Weight(r) <= Weight(e)
    decreases Weight(e)
  {
    match e
    case Ref(_) => e
    case Compare(_, _, _) => TransformCompare(e)
    case Bin(op, l, r) => Bin(op, Transform(l), Transform(r))
    case Not(x) =>
      match Transform(x)
      case Not(y) => Transform(y)
      case Compare(equal, a, b) => Compare(!equal, a, b)
      case Bin(op, l, r) => PushedWeight(op, l, r); Transform(Pushed(op, l, r))
      case Ref(s) => if IsYmn(s) then Ref(NotConst(s)) else Not(Ref(s))
  }

  function NotConst(s: Symbol): Symbol
    requires IsYmn(s)
  {
    if s == Yes then No else if s == No then Yes else Mod
  }

  /** Negation only above symbols other than y, m and n, and no bool symbol
      compared with one of these. */
  predicate Normal(e: Expr) {
    match e
    case Ref(_) => true
    case Not(x) => x.Ref? && !IsYmn(x.sym)
    case Compare(_, a, b) => !(a.Type() == Boolean && IsYmn(b))
    case Bin(_, l, r) => Normal(l) && Normal(r)
  }

  lemma {:induction false} TransformValue(e: Expr, env: Env)
    requires WellFormed(env)
    ensures Eval(Transform(e), env) == Eval(e, env)
    decreases Weight(e)
  {
    match e {
      case Ref(_) =>
      case Compare(_, _, _) =>
      case Bin(_, l, r) =>
        TransformValue(l, env);
        TransformValue(r, env);
      case Not(x) =>
        TransformValue(x, env);
        match Transform(x) {
          case Not(y) => TransformValue(y, env);
          case Bin(op, l, r) => PushedWeight(op, l, r); TransformValue(Pushed(op, l, r), env);
          case _ =>
        }
    }
  }

  lemma {:induction false} TransformNormal(e: Expr)
    ensures Normal(Transform(e))
    decreases Weight(e)
  {
    match e {
      case Ref(_) =>
      case Compare(_, _, _) =>
      case Bin(_, l, r) =>
        TransformNormal(l);
        TransformNormal(r);
      case Not(x) =>
        TransformNormal(x);
        match Transform(x) {
          case Not(y) => TransformNormal(y);
          case Bin(op, l, r) => PushedWeight(op, l, r); TransformNormal(Pushed(op, l, r));
          case _ =>
        }
    }
  }

  /** Normal expressions are exactly the ones expr_transform leaves alone. */
  lemma {:induction false} NormalIsFixed(e: Expr)
    ensures Normal(e) <==> Transform(e) == e
  {
    TransformNormal(e);
    if Normal(e) && e.Bin? {
      NormalIsFixed(e.lhs);
      NormalIsFixed(e.rhs);
    }
  }

  lemma TransformIdempotent(e: Expr)
    ensures Transform(Transform(e)) == Transform(e)
  {
    TransformNormal(e);
    NormalIsFixed(Transform(e));
  }

  /** The symbols an expression is about, from left to right, as far as they matter:
      a bool symbol is never m. */
  function Subjects(e: Expr): seq<Symbol> {
    match e
    case Ref(s) => if IsYmn(s) then [] else [s]
    case Not(x) => Subjects(x)
    case Compare(_, a, b) => if a.Type() == Boolean && b == Mod then [] else [a]
    case Bin(_, l, r) => Subjects(l) + Subjects(r)
  }

  /** expr_transform keeps them and their order. */
  lemma {:induction false} TransformSubjects(e: Expr)
    ensures Subjects(Transform(e)) == Subjects(e)
    decreases Weight(e)
  {
    match e {
      case Ref(_) =>
      case Compare(_, _, _) =>
      case Bin(_, l, r) =>
        TransformSubjects(l);
        TransformSubjects(r);
      case Not(x) =>
        TransformSubjects(x);
        match Transform(x) {
          case Not(y) => TransformSubjects(y);
          case Bin(op, l, r) =>
            PushedWeight(op, l, r);
            TransformSubjects(Pushed(op, l, r));
            assert Subjects(Not(l)) == Subjects(l) && Subjects(Not(r)) == Subjects(r);
          case _ =>
        }
    }
  }

  /** expr_trans_bool. */
  function TransBool(e: Expr): Expr {
    match e
    case Bin(op, l, r) => Bin(op, TransBool(l), TransBool(r))
    case Not(x) => Not(TransBool(x))
    case Compare(equal, a, b) => if !equal && a.Type() == Tri && b == No then Ref(a) else e
    case Ref(_) => e
  }

  /** No tristate symbol is tested for being other than n, at any depth. */
  predicate TestFree(e: Expr) {
    match e
    case Bin(_, l, r) => TestFree(l) && TestFree(r)
    case Not(x) => TestFree(x)
    case Compare(equal, a, b) => equal || a.Type() != Tri || b != No
    case Ref(_) => true
  }

  /** All such tests are gone after expr_trans_bool, which leaves alone exactly the
      expressions without any. */
  lemma {:induction false} TransBoolTestFree(e: Expr)
    ensures TestFree(TransBool(e))
    ensures TransBool(e) == e <==> TestFree(e)
  {
    match e {
      case Bin(_, l, r) =>
        TransBoolTestFree(l);
        TransBoolTestFree(r);
      case Not(x) => TransBoolTestFree(x);
      case _ =>
    }
  }

  /** Where no tristate symbol is m, it keeps every value. */
  lemma {:induction false} TransBoolKeepsSharp(e: Expr, env: Env)
    requires WellFormed(env) && forall s: Symbol | s.Type() == Tri :: env.tri(s) != MOD
    ensures Eval(TransBool(e), env) == Eval(e, env)
  {
    match e {
      case Bin(_, l, r) =>
        TransBoolKeepsSharp(l, env);
        TransBoolKeepsSharp(r, env);
      case Not(x) => TransBoolKeepsSharp(x, env);
      case _ =>
    }
  }

  /** expr_trans_bool may lower y to m, but never moves a value to or from n. */
  lemma {:induction false} TransBoolKeepsNo(e: Expr, env: Env)
    requires WellFormed(env) && Normal(e)
    ensures Eval(TransBool(e), env) <= Eval(e, env)
    ensures Eval(TransBool(e), env) == NO <==> Eval(e, env) == NO
  {
    if e.Bin? {
      TransBoolKeepsNo(e.lhs, env);
      TransBoolKeepsNo(e.rhs, env);
    }
  }

  /** A != n is in normal form, is y for a tristate that is m, and becomes m. */
  lemma TransBoolLowers(a: Symbol, env: Env)
    requires WellFormed(env) && a.Type() == Tri && env.tri(a) == MOD
    ensures var e := Compare(false, a, No);
            Normal(e) && Eval(e, env) == YES && Eval(TransBool(e), env) == MOD
  {
    assert env.str(a)[0] == 'm' && env.str(No)[0] == 'n';
  }

  /** Below a negation it even moves n: !(A != n) is n and becomes m. */
  lemma TransBoolUnderNegation(a: Symbol, env: Env)
    requires WellFormed(env) && a.Type() == Tri && env.tri(a) == MOD
    ensures var e := Not(Compare(false, a, No));
            Eval(e, env) == NO && Eval(TransBool(e), env) == MOD
  {
  }
}
