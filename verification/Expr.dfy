/** Dependency expressions, the environments they are evaluated in and their value. */
module Exprs {
  import opened Tristates

  datatype SymbolType = Unknown | Boolean | Tri | Int | Hex | String

  /** sym_lookup keeps one symbol per name among the constants and one among the
      others; y, m and n are symbols of their own. */
  datatype Symbol =
    | Yes
    | Mod
    | No
    | Constant(name: string)
    | Config(name: string, kind: SymbolType)
  {
    function Type(): SymbolType {
      if Config? then kind else Unknown
    }

    /** Carries SYMBOL_CONST. No constant is ever created under the names y, m, n. */
    predicate IsConst() {
      !Config? && (Constant? ==> name != "y" && name != "m" && name != "n")
    }

    predicate HasTristate() {
      Type() == Boolean || Type() == Tri
    }
  }

  datatype Op = And | Or

  /** `Bin` is E_AND and E_OR, `Compare` is E_EQUAL and E_UNEQUAL. */
  datatype Expr =
    | Ref(sym: Symbol)
    | Not(arg: Expr)
    | Compare(equal: bool, left: Symbol, right: Symbol)
    | Bin(op: Op, lhs: Expr, rhs: Expr)

  predicate IsOp(op: Op, e: Expr) {
    e.Bin? && e.op == op
  }

  function Dual(op: Op): Op {
    if op == And then Or else And
  }

  /** The constant that leaves the other operand of `op` as it is. */
  function Unit(op: Op): Symbol {
    if op == And then Yes else No
  }

  /** The constant that decides `op` on its own. */
  function Zero(op: Op): Symbol {
    if op == And then No else Yes
  }

  /** True of the two constants every simplification looks for. */
  predicate IsYn(e: Expr) {
    e == Ref(Yes) || e == Ref(No)
  }

  /** What evaluation reads from the symbols: a tristate and a string each. */
  datatype Env = Env(tri: Symbol -> Tristate, str: Symbol -> string)

  ghost predicate Constants(env: Env) {
    && env.tri(Yes) == YES && env.tri(Mod) == MOD && env.tri(No) == NO
  }

  /** The environments that symbol evaluation produces; see `SymbolTable`. */
  ghost predicate WellFormed(env: Env) {
    && Constants(env)
    && env.str(Yes) == "y" && env.str(Mod) == "m" && env.str(No) == "n"
    && (forall s: Symbol | s.Type() == Boolean :: env.tri(s) != MOD)
    && (forall s: Symbol | s.HasTristate() :: env.str(s) == TristateName(env.tri(s)))
    && (forall a: Symbol, b: Symbol | a.IsConst() && b.IsConst() && a != b :: env.str(a) != env.str(b))
  }

  function Apply(op: Op, a: Tristate, b: Tristate): Tristate {
    if op == And then Min(a, b) else Max(a, b)
  }

  function Eval(e: Expr, env: Env): Tristate {
    match e
    case Ref(s) => env.tri(s)
    case Not(x) => 2 - Eval(x, env)
    case Compare(equal, a, b) => if (env.str(a) == env.str(b)) == equal then YES else NO
    case Bin(op, l, r) => Apply(op, Eval(l, env), Eval(r, env))
  }

  function Size(e: Expr): (n: nat)
    ensures n > 0
  {
    match e
    case Ref(_) => 1
    case Not(x) => 1 + Size(x)
    case Compare(_, _, _) => 1
    case Bin(_, l, r) => 1 + Size(l) + Size(r)
  }

  /** expr_contains_symbol. */
  predicate Contains(e: Expr, s: Symbol) {
    match e
    case Ref(t) => t == s
    case Not(x) => Contains(x, s)
    case Compare(_, a, b) => a == s || b == s
    case Bin(_, l, r) => Contains(l, s) || Contains(r, s)
  }
}
