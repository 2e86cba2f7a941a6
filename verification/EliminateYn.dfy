/** expr_eliminate_yn: removing the constants y and n from the operands of && and ||. */
module EliminateYn {
  import opened Exprs

  function Yn(e: Expr): Expr {
    if !e.Bin? then e else
      var l := Yn(e.lhs);
      var r := Yn(e.rhs);
      if l == Ref(Zero(e.op)) then l
      else if l == Ref(Unit(e.op)) then r
      else if r == Ref(Zero(e.op)) then r
      else if r == Ref(Unit(e.op)) then l
      else Bin(e.op, l, r)
  }

  /** No && or || above the first negation has the constant y or n as an operand. */
  predicate Clean(e: Expr) {
    e.Bin? ==> !IsYn(e.lhs) && !IsYn(e.rhs) && Clean(e.lhs) && Clean(e.rhs)
  }

  /** Number of && and || above negations. */
  function Bins(e: Expr): nat {
    if e.Bin? then 1 + Bins(e.lhs) + Bins(e.rhs) else 0
  }

  /** Operands of && and || that are neither y nor n. */
  function Live(e: Expr): nat {
    if e.Bin? then Live(e.lhs) + Live(e.rhs) else if IsYn(e) then 0 else 1
  }

  lemma {:induction false} YnValue(e: Expr, env: Env)
    requires Constants(env)
    ensures Eval(Yn(e), env) == Eval(e, env)
  {
    if e.Bin? {
      YnValue(e.lhs, env);
      YnValue(e.rhs, env);
    }
  }

  lemma {:induction false} YnClean(e: Expr)
    ensures Clean(Yn(e))
    ensures Clean(e) ==> Yn(e) == e
    ensures Size(Yn(e)) <= Size(e)
  {
    if e.Bin? {
      YnClean(e.lhs);
      YnClean(e.rhs);
    }
  }

  /** What is left has one connective fewer than it has operands to connect. */
  lemma {:induction false} YnBins(e: Expr)
    ensures Live(e) == 0 ==> IsYn(Yn(e))
    ensures Live(e) > 0 ==> Bins(Yn(e)) < Live(e)
    ensures IsYn(Yn(e)) ==> Bins(Yn(e)) == 0
  {
    if e.Bin? {
      YnBins(e.lhs);
      YnBins(e.rhs);
    }
  }
}
