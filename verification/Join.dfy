/** expr_join_or and expr_join_and: one expression for two operands about one symbol. */
module Joining {
  import opened Tristates
  import opened Exprs
  import opened Options
  import opened ExprEq
  import opened EliminateYn
  import opened Transforming

  /** The symbol the first operand is about; it may be a negated comparison. */
  function FirstSubject(e: Expr): Option<Symbol> {
    match e
    case Ref(s) => Some(s)
    case Compare(_, a, _) => Some(a)
    case Not(Ref(s)) => Some(s)
    case Not(Compare(_, a, _)) => Some(a)
    case _ => None
  }

  /** The symbol the second operand is about; only a symbol may be negated. */
  function SecondSubject(e: Expr): Option<Symbol> {
    match e
    case Ref(s) => Some(s)
    case Compare(_, a, _) => Some(a)
    case Not(Ref(s)) => Some(s)
    case _ => None
  }

  predicate Comparing(equal: bool, e: Expr) {
    e.Compare? && e.equal == equal
  }

  /** Both are (un)equalities and their right-hand sides are `x` and `y`, in either order. */
  predicate BothCompare(equal: bool, e1: Expr, e2: Expr, x: Symbol, y: Symbol) {
    && Comparing(equal, e1) && Comparing(equal, e2)
    && ((e1.right == x && e2.right == y) || (e1.right == y && e2.right == x))
  }

  /** One is a plain symbol, the other an (un)equality with `x`. */
  predicate RefAndCompare(equal: bool, e1: Expr, e2: Expr, x: Symbol) {
    || (e1.Ref? && Comparing(equal, e2) && e2.right == x)
    || (e2.Ref? && Comparing(equal, e1) && e1.right == x)
  }

  function Join(op: Op, e1: Expr, e2: Expr): Option<Expr> {
    if Eq(e1, e2) then Some(e1) else
      match (FirstSubject(e1), SecondSubject(e2))
      case (Some(s), Some(t)) =>
        if s != t || !s.HasTristate() then None
        else if op == Or then JoinOr(s, e1, e2) else JoinAnd(s, e1, e2)
      case _ => None
  }

  function JoinOr(s: Symbol, e1: Expr, e2: Expr): Option<Expr> {
    if s.Type() == Tri then
      if BothCompare(true, e1, e2, Yes, Mod) then Some(Compare(false, s, No))
      else if BothCompare(true, e1, e2, Yes, No) then Some(Compare(false, s, Mod))
      else if BothCompare(true, e1, e2, Mod, No) then Some(Compare(false, s, Yes))
      else None
    else if (e1.Not? && e1.arg.Ref? && e2.Ref?) || (e2.Not? && e2.arg.Ref? && e1.Ref?) then Some(Ref(Yes))
    else None
  }

  function JoinAnd(s: Symbol, e1: Expr, e2: Expr): Option<Expr> {
    if RefAndCompare(true, e1, e2, Yes) then Some(Compare(true, s, Yes))
    else if RefAndCompare(false, e1, e2, No) then Some(Ref(s))
    else if RefAndCompare(false, e1, e2, Mod) then Some(Compare(true, s, Yes))
    else if s.Type() != Tri then None
    else if Comparing(true, e1) && Comparing(false, e2) && e1.right.IsConst() && e2.right.IsConst() then
      Some(if e1.right != e2.right then Compare(true, s, e1.right) else Ref(No))
    else if Comparing(false, e1) && Comparing(true, e2) && e1.right.IsConst() && e2.right.IsConst() then
      Some(if e1.right != e2.right then Compare(true, s, e2.right) else Ref(No))
    else if BothCompare(false, e1, e2, Yes, No) then Some(Compare(true, s, Mod))
    else if BothCompare(false, e1, e2, Yes, Mod) then Some(Compare(true, s, No))
    else if BothCompare(false, e1, e2, Mod, No) then Some(Compare(true, s, Yes))
    else None
  }

  /** All that merging needs to know about an environment. */
  ghost predicate Knows(env: Env, s: Symbol, a: Symbol, b: Symbol) {
    && Constants(env)
    && env.str(Yes) == TristateName(YES) && env.str(Mod) == TristateName(MOD) && env.str(No) == TristateName(NO)
    && env.str(s) == TristateName(env.tri(s))
    && (s.Type() == Boolean ==> env.tri(s) != MOD)
    && (a.IsConst() && b.IsConst() && a != b ==> env.str(a) != env.str(b))
  }

  lemma NamesDiffer()
    ensures forall t: Tristate, u: Tristate :: TristateName(t) == TristateName(u) ==> t == u
  {
    assert forall t: Tristate :: TristateName(t)[0] == (if t == NO then 'n' else if t == MOD then 'm' else 'y');
  }

  lemma JoinOrValue(s: Symbol, e1: Expr, e2: Expr, env: Env)
    requires s.HasTristate() && FirstSubject(e1) == Some(s) == SecondSubject(e2)
    requires Knows(env, s, s, s) && JoinOr(s, e1, e2).Some?
    ensures Eval(JoinOr(s, e1, e2).value, env) == Max(Eval(e1, env), Eval(e2, env))
  {
    NamesDiffer();
    hide TristateName;
  }

  lemma JoinAndValue(s: Symbol, e1: Expr, e2: Expr, env: Env)
    requires s.HasTristate() && FirstSubject(e1) == Some(s) == SecondSubject(e2)
    requires e1.Compare? && e2.Compare? ==> Knows(env, s, e1.right, e2.right)
    requires Knows(env, s, s, s) && JoinAnd(s, e1, e2).Some?
    ensures Eval(JoinAnd(s, e1, e2).value, env) == Min(Eval(e1, env), Eval(e2, env))
  {
    NamesDiffer();
    hide TristateName;
  }

  lemma JoinValue(op: Op, e1: Expr, e2: Expr, env: Env)
    requires WellFormed(env) && Join(op, e1, e2).Some?
    ensures Eval(Join(op, e1, e2).value, env) == Apply(op, Eval(e1, env), Eval(e2, env))
  {
    hide Eq, JoinOr, JoinAnd, Eval;
    if Eq(e1, e2) {
      EqSound(e1, e2, env);
    } else if op == Or {
      JoinOrValue(FirstSubject(e1).value, e1, e2, env);
    } else {
      JoinAndValue(FirstSubject(e1).value, e1, e2, env);
    }
  }

  /** What a merge leaves behind is no bigger than its first operand, stays
      normal, is no && or || of its own, and has fewer live operands. */
  lemma JoinShape(op: Op, e1: Expr, e2: Expr)
    requires Join(op, e1, e2).Some?
    ensures var r := Join(op, e1, e2).value;
            && Size(r) <= Size(e1)
            && (Normal(e1) && Normal(e2) ==> Normal(r))
            && (!IsOp(op, e1) ==> !IsOp(op, r))
            && Live(r) <= Live(e1) + Live(e2)
            && (Live(r) == Live(e1) + Live(e2) ==> Live(e2) == 0 && r == e1)
  {
    hide Eq;
  }

  /** Pairs of operands about one bool or tristate symbol that one expression says
      as well: S and !S of a bool, equalities and inequalities that leave one or two
      of three values. */
  predicate Reduces(op: Op, a: Expr, b: Expr) {
    match (a, b)
    case (Ref(s), Not(Ref(t))) => op == Or && s == t && s.Type() == Boolean
    case (Ref(s), Compare(equal, t, y)) =>
      op == And && s == t && s.HasTristate() && (if equal then y == Yes else y == No || y == Mod)
    case (Compare(true, s, x), Compare(true, t, y)) =>
      op == Or && s == t && s.Type() == Tri && IsYmn(x) && IsYmn(y) && x != y
    case (Compare(true, s, x), Compare(false, t, y)) =>
      op == And && s == t && s.Type() == Tri && x.IsConst() && y.IsConst()
    case (Compare(false, s, x), Compare(false, t, y)) =>
      op == And && s == t && s.Type() == Tri && IsYmn(x) && IsYmn(y) && x != y
    case _ => false
  }

  /** Exactly these are merged, in either order, and equal operands. */
  lemma JoinExactly(op: Op, a: Expr, b: Expr)
    ensures Join(op, a, b).Some? <==> Eq(a, b) || Reduces(op, a, b) || Reduces(op, b, a)
  {
    hide Eq;
  }
}
