/** expr_trans_compare and expr_depends_symbol, and the test by which
    menu_finalize makes an entry a submenu of the one before it. */
module Comparing {
  import opened Tristates
  import opened Exprs
  import opened Options
  import opened ExprEq
  import opened Transforming
  import opened EliminateYn
  import opened Merging
  import opened Contradicting
  import opened Extracting
  import opened Slots
  import opened Dups

  /** expr_trans_compare: "`e` is (not) `sym`" as an expression. */
  function TransCompare(e: Expr, equal: bool, sym: Symbol): Expr
    requires IsYmn(sym)
  {
    match e
    case Ref(s) => Compare(equal, s, sym)
    case Not(x) => TransCompare(x, !equal, sym)
    case Compare(_, _, _) =>
      if sym == Mod then Ref(if equal then No else Yes)
      else if equal == (sym == Yes) then e
      else Not(e)
    case Bin(op, l, r) =>
      var x := TransCompare(l, true, sym);
      var y := TransCompare(r, true, sym);
      var c := if sym == Mod then e else Bin(if sym == Yes then op else Dual(op), x, y);
      if equal then c else Not(c)
  }

  /** The same for an absent expression, which counts as y. */
  function TransCompareOption(e: Option<Expr>, equal: bool, sym: Symbol): Expr
    requires IsYmn(sym)
  {
    if e.Some? then TransCompare(e.value, equal, sym)
    else if equal then Ref(sym) else Not(Ref(sym))
  }

  function EvalOption(e: Option<Expr>, env: Env): Tristate {
    if e.Some? then Eval(e.value, env) else YES
  }

  function Holds(b: bool): Tristate {
    if b then YES else NO
  }

  lemma NamesAreInjective(t: Tristate, u: Tristate)
    ensures TristateName(t) == TristateName(u) <==> t == u
  {
    assert forall t: Tristate :: TristateName(t)[0] == (if t == NO then 'n' else if t == MOD then 'm' else 'y');
  }

  /** Every symbol is taken for y or n, by whether its string is that of `sym`. */
  function Rounded(sym: Symbol, env: Env): Env {
    Env((s: Symbol) => if (env.str(s) == env.str(sym)) == (sym == Yes) then YES else NO, env.str)
  }

  /** Against y and n the comparison says, of every expression in every
      environment, what it should say after rounding: m, and any text other than y
      and n, counts as n in the comparison with y, and as y in the comparison with n. */
  lemma {:induction false} TransCompareRounds(e: Expr, equal: bool, sym: Symbol, env: Env)
    requires sym == Yes || sym == No
    ensures Eval(TransCompare(e, equal, sym), env)
            == Holds((Eval(e, Rounded(sym, env)) == if sym == Yes then YES else NO) == equal)
    ensures Eval(e, Rounded(sym, env)) != MOD
  {
    match e {
      case Ref(s) =>
      case Not(x) => TransCompareRounds(x, !equal, sym, env);
      case Compare(_, _, _) =>
      case Bin(op, l, r) =>
        TransCompareRounds(l, true, sym, env);
        TransCompareRounds(r, true, sym, env);
    }
  }

  /** Every symbol that stands for itself has a tristate value. */
  predicate TristateLeaves(e: Expr) {
    match e
    case Ref(s) => s.HasTristate() || IsYmn(s)
    case Not(x) => TristateLeaves(x)
    case Compare(_, _, _) => true
    case Bin(_, l, r) => TristateLeaves(l) && TristateLeaves(r)
  }

  /** No negated expression is m. */
  predicate SharpNegations(e: Expr, env: Env) {
    match e
    case Not(x) => Eval(x, env) != MOD && SharpNegations(x, env)
    case Bin(_, l, r) => SharpNegations(l, env) && SharpNegations(r, env)
    case _ => true
  }

  /** Of bool and tristate symbols, rounding does so where nothing negated is m. */
  lemma {:induction false} RoundingKeeps(e: Expr, sym: Symbol, env: Env)
    requires (sym == Yes || sym == No) && WellFormed(env) && TristateLeaves(e) && SharpNegations(e, env)
    ensures Eval(e, Rounded(sym, env)) == env.tri(sym) <==> Eval(e, env) == env.tri(sym)
    ensures Eval(e, env) != MOD ==> Eval(e, Rounded(sym, env)) == Eval(e, env)
  {
    match e {
      case Ref(s) => NamesAreInjective(env.tri(s), env.tri(sym));
      case Not(x) => RoundingKeeps(x, sym, env);
      case Compare(_, _, _) =>
      case Bin(op, l, r) =>
        RoundingKeeps(l, sym, env);
        RoundingKeeps(r, sym, env);
    }
  }

  /** So with nothing negated inside the operand of a negation being m, the
      comparison of the negation is right exactly where that operand is not m. */
  lemma TransCompareNegation(x: Expr, equal: bool, sym: Symbol, env: Env)
    requires sym == Yes || sym == No
    requires WellFormed(env) && TristateLeaves(x) && SharpNegations(x, env)
    ensures Eval(TransCompare(Not(x), equal, sym), env) == Holds((Eval(Not(x), env) == env.tri(sym)) == equal)
            <==> Eval(x, env) != MOD
  {
    TransCompareRounds(x, !equal, sym, env);
    RoundingKeeps(x, sym, env);
  }

  /** "`e` is y", "is not y", "is n" and "is not n" all come out as they should. */
  ghost predicate ComparesRight(e: Expr, env: Env) {
    forall equal, sym | sym == Yes || sym == No ::
      Eval(TransCompare(e, equal, sym), env) == Holds((Eval(e, env) == env.tri(sym)) == equal)
  }

  /** The comparisons are right of all expressions in normal form if and only if no
      symbol is m. */
  lemma TransCompareExactly(env: Env)
    requires WellFormed(env)
    ensures (forall e | Normal(e) && TristateLeaves(e) :: ComparesRight(e, env))
            <==> forall s: Symbol | s.HasTristate() :: env.tri(s) != MOD
  {
    if forall s: Symbol | s.HasTristate() :: env.tri(s) != MOD {
      forall e | Normal(e) && TristateLeaves(e) ensures ComparesRight(e, env) {
        SharpSymbols(e, env);
        ComparesRightIfSharp(e, env);
      }
    }
    forall s: Symbol | s.HasTristate() && env.tri(s) == MOD ensures !ComparesRight(Not(Ref(s)), env) {
      TransCompareNegation(Ref(s), true, Yes, env);
    }
    assert forall s: Symbol | s.HasTristate() :: Normal(Not(Ref(s))) && TristateLeaves(Not(Ref(s)));
  }

  lemma {:induction false} SharpSymbols(e: Expr, env: Env)
    requires Normal(e) && TristateLeaves(e)
    requires forall s: Symbol | s.HasTristate() :: env.tri(s) != MOD
    ensures SharpNegations(e, env)
  {
    if e.Bin? {
      SharpSymbols(e.lhs, env);
      SharpSymbols(e.rhs, env);
    }
  }

  lemma ComparesRightIfSharp(e: Expr, env: Env)
    requires WellFormed(env) && TristateLeaves(e) && SharpNegations(e, env)
    ensures ComparesRight(e, env)
  {
    forall equal, sym | sym == Yes || sym == No
      ensures Eval(TransCompare(e, equal, sym), env) == Holds((Eval(e, env) == env.tri(sym)) == equal)
    {
      TransCompareRounds(e, equal, sym, env);
      RoundingKeeps(e, sym, env);
    }
  }

  /** A symbol of any other type is n but compared by its text, so that the
      comparisons are right exactly where that is n. */
  lemma TransCompareText(s: Symbol, env: Env)
    requires WellFormed(env) && s.Config? && !s.HasTristate() && env.tri(s) == NO
    ensures ComparesRight(Ref(s), env) <==> env.str(s) == "n"
  {
    assert Eval(TransCompare(Ref(s), true, No), env) == if env.str(s) == "n" then YES else NO;
  }

  /** A comparison with y or n is never m itself. */
  lemma {:induction false} TransCompareSharp(e: Expr, equal: bool, sym: Symbol, env: Env)
    requires sym == Yes || sym == No
    ensures Eval(TransCompare(e, equal, sym), env) != MOD
  {
    match e {
      case Ref(_) =>
      case Not(x) => TransCompareSharp(x, !equal, sym, env);
      case Compare(_, _, _) =>
      case Bin(_, l, r) =>
        TransCompareSharp(l, true, sym, env);
        TransCompareSharp(r, true, sym, env);
    }
  }

  /** expr_depends_symbol. */
  predicate Depends(e: Expr, s: Symbol) {
    match e
    case Bin(op, l, r) => op == And && (Depends(l, s) || Depends(r, s))
    case Ref(t) => t == s
    case Compare(true, a, b) => a == s && (b == Yes || b == Mod)
    case Compare(false, a, b) => a == s && b == No
    case Not(_) => false
  }

  /** An operand that says, for a bool or tristate symbol, that it is not n. */
  predicate NamesSymbol(x: Expr, s: Symbol) {
    x in {Ref(s), Compare(true, s, Yes), Compare(true, s, Mod), Compare(false, s, No)}
  }

  /** An expression depends on a symbol if and only if such an operand is among those of
      its &&, wherever it stands. */
  lemma {:induction false} DependsExactly(e: Expr, s: Symbol)
    ensures Depends(e, s) <==> exists x | x in Leaves(And, e) :: NamesSymbol(x, s)
  {
    if IsOp(And, e) {
      DependsExactly(e.lhs, s);
      DependsExactly(e.rhs, s);
    } else {
      assert Leaves(And, e) == [e];
      assert e in Leaves(And, e);
    }
  }

  /** What depends on a bool or tristate symbol in this sense is n with it. */
  lemma {:induction false} DependsForces(e: Expr, s: Symbol, env: Env)
    requires WellFormed(env) && s.HasTristate() && Depends(e, s) && Eval(e, env) != NO
    ensures env.tri(s) != NO
    ensures Contains(e, s)
  {
    match e {
      case Bin(_, l, r) =>
        if Depends(l, s) { DependsForces(l, s, env); } else { DependsForces(r, s, env); }
      case Compare(_, _, b) => NamesAreInjective(env.tri(s), env.tri(b));
      case _ =>
    }
  }

  /** An environment in which `s`, a symbol without a tristate value, has the text y. */
  function TextIsY(s: Symbol): Env {
    Env(t => if t == Yes then YES else if t == Mod then MOD else NO,
        (t: Symbol) =>
          if t == s || t == Yes then "y" else if t == Mod then "m" else if t == No || t.Config? then "n" else t.name)
  }

  lemma TextIsYNotForced(s: Symbol)
    requires s.Config? && !s.HasTristate()
    ensures var e, env := Compare(true, s, Yes), TextIsY(s);
            WellFormed(env) && Depends(e, s) && Eval(e, env) == YES && env.tri(s) == NO
  {
  }

  ghost predicate Forced(e: Expr, s: Symbol, env: Env) {
    WellFormed(env) && Depends(e, s) && Eval(e, env) != NO ==> env.tri(s) != NO
  }

  /** It forces exactly the bool and tristate symbols: a symbol of any other type,
      or of none, can equal y and is n all the same. */
  lemma DependsForcesExactly(s: Symbol)
    requires s.Config?
    ensures (forall e, env :: Forced(e, s, env)) <==> s.HasTristate()
  {
    if s.HasTristate() {
      forall e, env ensures Forced(e, s, env) {
        if WellFormed(env) && Depends(e, s) && Eval(e, env) != NO { DependsForces(e, s, env); }
      }
    } else {
      TextIsYNotForced(s);
      assert !Forced(Compare(true, s, Yes), s, TextIsY(s));
    }
  }

  lemma {:induction false} DependsContains(e: Expr, s: Symbol)
    requires Depends(e, s)
    ensures Contains(e, s)
  {
    if e.Bin? {
      if Depends(e.lhs, s) { DependsContains(e.lhs, s); } else { DependsContains(e.rhs, s); }
    }
  }

  // The submenu test of menu_finalize.

  /** `base` has the value of "`e` is not n" in every environment. */
  ghost predicate IsVisibilityTest(e: Option<Expr>, base: Expr) {
    forall env | WellFormed(env) :: Eval(base, env) == Eval(TransCompareOption(e, false, No), env)
  }

  /** expr_trans_compare(e, E_UNEQUAL, &symbol_no), transformed and rid of duplicates. */
  function Test(e: Option<Expr>): Expr {
    Deduped(Transform(TransCompareOption(e, false, No)))
  }

  /** Not being m, the test survives that with its exact value. */
  lemma TestIsVisibilityTest(e: Option<Expr>)
    ensures IsVisibilityTest(e, Test(e))
  {
    hide Settled, Irreducible, Uncontradicted, Clean, Deduped;
    var test := TransCompareOption(e, false, No);
    DedupedMeans(Transform(test));
    forall env | WellFormed(env) ensures Eval(Test(e), env) == Eval(test, env) {
      TransformValue(test, env);
      if e.Some? {
        TransCompareSharp(e.value, false, No, env);
      }
    }
  }

  method VisibilityTest(e: Option<Expr>) returns (base: Expr)
    ensures base == Test(e) && IsVisibilityTest(e, base)
  {
    hide IsVisibilityTest;
    base := EliminateDups(Transform(TransCompareOption(e, false, No)));
    TestIsVisibilityTest(e);
  }

  /** Whether an expression, or none, is other than n once every symbol counts as y
      whose text is not n: that is every m, and any text or number. */
  predicate Shows(e: Option<Expr>, env: Env) {
    EvalOption(e, Rounded(No, env)) != NO
  }

  /** `dep` is n whenever `visible` is, once symbols are rounded in this way. */
  ghost predicate ImpliesVisible(dep: Option<Expr>, visible: Option<Expr>) {
    forall env | WellFormed(env) :: Shows(dep, env) ==> Shows(visible, env)
  }

  lemma TestShows(e: Option<Expr>, env: Env)
    requires WellFormed(env)
    ensures Eval(TransCompareOption(e, false, No), env) == Holds(Shows(e, env))
  {
    if e.Some? {
      TransCompareRounds(e.value, false, No, env);
    }
  }

  predicate SharpOption(e: Option<Expr>, env: Env) {
    e.Some? ==> TristateLeaves(e.value) && SharpNegations(e.value, env)
  }

  /** Where nothing negated is m, that is being other than n. */
  lemma ShowsIsNotNo(e: Option<Expr>, env: Env)
    requires WellFormed(env) && SharpOption(e, env)
    ensures Shows(e, env) <==> EvalOption(e, env) != NO
  {
    if e.Some? {
      RoundingKeeps(e.value, No, env);
    }
  }

  /** An entry with dependency `dep` goes below the one of symbol `sym`, whose prompt has
      visibility `visible`: `dep` contains the symbol and has an operand that names it, or
      its test cancels that of the prompt to y. */
  predicate GoesBelow(sym: Symbol, visible: Option<Expr>, dep: Option<Expr>) {
    && dep.Some? && Contains(dep.value, sym)
    && ((exists x | x in Leaves(And, dep.value) :: NamesSymbol(x, sym)) || EliminateEq(Test(dep), Test(visible)).1 == Ref(Yes))
  }

  /** The test of menu_finalize, `base` being what has been made of `visible`. */
  method IsSubmenuEntry(sym: Symbol, visible: Option<Expr>, base: Expr, dep: Option<Expr>) returns (below: bool)
    requires base == Test(visible)
    ensures below <==> GoesBelow(sym, visible, dep)
    ensures below && !Depends(dep.value, sym) ==> ImpliesVisible(dep, visible)
  {
    hide EliminateEq, Test, ImpliesVisible, IsVisibilityTest, Leaves, NamesSymbol, Depends, Contains;
    if dep.None? || !Contains(dep.value, sym) {
      return false;
    }
    DependsExactly(dep.value, sym);
    if Depends(dep.value, sym) {
      return true;
    }
    var test := VisibilityTest(dep);
    var (test', base') := EliminateEq(test, base);
    below := base' == Ref(Yes);
    if below {
      TestIsVisibilityTest(visible);
      ImplicationFound(dep, visible, test, base);
    }
  }

  /** Why it may: the entry depends on the symbol, or implies that the prompt shows. */
  lemma BelowMeans(sym: Symbol, visible: Option<Expr>, dep: Option<Expr>)
    requires GoesBelow(sym, visible, dep)
    ensures Depends(dep.value, sym) || ImpliesVisible(dep, visible)
  {
    hide EliminateEq, Test, ImpliesVisible, IsVisibilityTest, Leaves, NamesSymbol, Depends, Contains;
    DependsExactly(dep.value, sym);
    if !Depends(dep.value, sym) {
      TestIsVisibilityTest(dep);
      TestIsVisibilityTest(visible);
      ImplicationFound(dep, visible, Test(dep), Test(visible));
    }
  }

  lemma ImplicationFound(dep: Option<Expr>, visible: Option<Expr>, test: Expr, base: Expr)
    requires IsVisibilityTest(dep, test) && IsVisibilityTest(visible, base)
    requires EliminateEq(test, base).1 == Ref(Yes)
    ensures ImpliesVisible(dep, visible)
  {
    hide EliminateEq;
    forall env | WellFormed(env) && Shows(dep, env) ensures Shows(visible, env) {
      EliminateEqReflectsOrder(test, base, env);
      TestShows(dep, env);
      TestShows(visible, env);
    }
  }

  // What the test lets through.

  /** `!A && (S || A != n)`. */
  function UnlessShown(a: Symbol, s: Symbol): Expr {
    Bin(And, Not(Ref(a)), Bin(Or, Ref(s), Compare(false, a, No)))
  }

  lemma UnlessShownNormal(a: Symbol, s: Symbol)
    requires a.Type() == Tri && s.HasTristate()
    ensures Normal(UnlessShown(a, s)) && Normal(Compare(true, a, No))
    ensures TristateLeaves(UnlessShown(a, s)) && Contains(UnlessShown(a, s), s)
  {
    var e := UnlessShown(a, s);
    assert Normal(e.rhs.rhs) && TristateLeaves(e.rhs.rhs);
    assert Contains(e.rhs, s) && TristateLeaves(e.rhs) && TristateLeaves(e.lhs) && Normal(e.lhs) && Normal(e.rhs);
  }

  /** It implies, rounded, that `A = n`. */
  lemma UnlessShownImplies(a: Symbol, s: Symbol)
    ensures ImpliesVisible(Some(UnlessShown(a, s)), Some(Compare(true, a, No)))
  {
    var dep, visible := UnlessShown(a, s), Compare(true, a, No);
    forall env | WellFormed(env) && Shows(Some(dep), env) ensures Shows(Some(visible), env) {
      var rounded := Rounded(No, env);
      assert Eval(dep, rounded) <= Eval(dep.lhs, rounded) == 2 - rounded.tri(a);
      assert Eval(visible, rounded) == if env.str(a) == env.str(No) then YES else NO;
    }
  }

  /** But it is m where A is, with S and `A = n` being n. */
  lemma UnlessShownAtMod(a: Symbol, s: Symbol, env: Env)
    requires WellFormed(env) && a.HasTristate() && env.tri(a) == MOD && env.tri(s) == NO
    ensures Eval(UnlessShown(a, s), env) == MOD && Eval(Compare(true, a, No), env) == NO
  {
    NamesAreInjective(MOD, NO);
    assert env.str(a) != env.str(No);
    assert Eval(Not(Ref(a)), env) == MOD;
    assert Eval(Compare(false, a, No), env) == YES;
  }

  /** Its test in simplest form. */
  function UnlessTest(a: Symbol, s: Symbol): Expr {
    Bin(And, Compare(true, a, No), Bin(Or, Compare(false, s, No), Compare(false, a, No)))
  }

  lemma UnlessTestIs(a: Symbol, s: Symbol)
    requires a.Type() == Tri && s.Type() == Tri
    ensures Transform(TransCompare(UnlessShown(a, s), false, No)) == UnlessTest(a, s)
    ensures Transform(TransCompare(Compare(true, a, No), false, No)) == Compare(true, a, No)
  {
    var inner := Bin(And, Compare(true, s, No), Compare(true, a, No));
    var c := Bin(Or, Compare(false, a, No), inner);
    var dep := UnlessShown(a, s);
    var right := TransCompare(dep.rhs, true, No);
    assert TransCompare(dep.rhs.lhs, true, No) == Compare(true, s, No);
    assert TransCompare(dep.rhs.rhs, true, No) == Not(Compare(false, a, No));
    assert TransCompare(dep.lhs, true, No) == Compare(false, a, No);
    assert right == Bin(And, Compare(true, s, No), Not(Compare(false, a, No)));
    assert Transform(Compare(false, a, No)) == Compare(false, a, No);
    assert Transform(right.rhs) == Compare(true, a, No);
    assert Transform(right) == inner;
    assert TransCompare(dep, false, No) == Not(Bin(Or, Compare(false, a, No), right));
    assert Transform(Bin(Or, Compare(false, a, No), right)) == c;
    NormalIsFixed(inner);
    assert Transform(Not(Compare(false, a, No))) == Compare(true, a, No);
    assert Transform(Pushed(And, inner.lhs, inner.rhs)) == UnlessTest(a, s).rhs by {
      assert Transform(Not(inner.lhs)) == Compare(false, s, No);
      assert Transform(Not(inner.rhs)) == Compare(false, a, No);
    }
    assert Transform(Not(inner)) == UnlessTest(a, s).rhs;
    assert Transform(Pushed(Or, c.lhs, c.rhs)) == UnlessTest(a, s);
  }

  /** Duplicate elimination leaves the tests alone, and what is left of the second
      after cancelling is y. */
  lemma UnlessTestPasses(a: Symbol, s: Symbol)
    requires a.Type() == Tri && s.Type() == Tri && a != s
    ensures Settled(UnlessTest(a, s)) && Settled(Compare(true, a, No))
    ensures EliminateEq(UnlessTest(a, s), Compare(true, a, No)).1 == Ref(Yes)
  {
    hide Contradicts, Transform, CancelPairs, Operands;
    var x, y := Compare(true, a, No), Bin(Or, Compare(false, s, No), Compare(false, a, No));
    OperandSettled(x);
    OperandSettled(y.lhs);
    OperandSettled(y.rhs);
    MergedBoth(Or, y.lhs, y.rhs);
    MergedBoth(And, x, y);
    UnlessConsistent(a, s);
    CancelPairsLeft(And, Bin(And, x, y), x);
    CancelPairsLeaf(And, x, x);
    CancelPairsLeaf(And, y, Ref(Yes));
  }

  lemma UnlessNegated(a: Symbol, s: Symbol)
    requires a.Type() == Tri && s.Type() == Tri
    ensures Transform(Not(UnlessTest(a, s).rhs)) == Bin(And, Compare(true, s, No), Compare(true, a, No))
  {
    var y := UnlessTest(a, s).rhs;
    NormalIsFixed(y);
    assert Transform(Not(y.lhs)) == Compare(true, s, No) && Transform(Not(y.rhs)) == Compare(true, a, No);
    assert Transform(Pushed(Or, y.lhs, y.rhs)) == Bin(And, Compare(true, s, No), Compare(true, a, No));
  }

  /** `S = n` is an operand of the negation, and not of the test. */
  lemma UnlessOperands(a: Symbol, s: Symbol)
    requires a != s
    ensures var c := CCompare(true, s, No);
            var e := UnlessTest(a, s);
            && c in Operands(And, Bin(And, Compare(true, s, No), Compare(true, a, No)))
            && c !in Operands(And, e.lhs) && c !in Operands(And, e)
  {
    var c, x, y := CCompare(true, s, No), UnlessTest(a, s).lhs, UnlessTest(a, s).rhs;
    assert Operands(And, Compare(true, s, No)) == multiset{c};
    assert Operands(And, x) == multiset{Canonical(x)} && Operands(And, y) == multiset{Canonical(y)};
    assert Canonical(x) == CCompare(true, a, No) && Canonical(y).CBin?;
  }

  lemma UnlessConsistent(a: Symbol, s: Symbol)
    requires a.Type() == Tri && s.Type() == Tri && a != s
    ensures Consistent(UnlessTest(a, s))
  {
    hide Contradicts, Transform, Operands, Consistent;
    var x, y := UnlessTest(a, s).lhs, UnlessTest(a, s).rhs;
    UnlessNegated(a, s);
    UnlessOperands(a, s);
    ContradictsExact(And, y, x);
    ContradictsExact(And, y, Bin(And, x, y));
    ConsistentPair(Or, y.lhs, y.rhs);
    ConsistentPair(And, x, y);
  }

  /** So an entry with that dependency goes below S, if the prompt of S shows when `A = n`. */
  method AbsorbedAtMod(a: Symbol, s: Symbol) returns (below: bool)
    requires a.Type() == Tri && s.Type() == Tri && a != s
    ensures below
  {
    hide EliminateEq, Settled, Deduped, UnlessTest, IsVisibilityTest, ImpliesVisible, Depends, Contains, Transform, TransCompare,
      Irreducible, Uncontradicted, Clean, Eval, Leaves, NamesSymbol;
    var dep, visible := Some(UnlessShown(a, s)), Some(Compare(true, a, No));
    UnlessShownNormal(a, s);
    UnlessTestIs(a, s);
    UnlessTestPasses(a, s);
    DedupedMeans(UnlessTest(a, s));
    DedupedMeans(Compare(true, a, No));
    var base := VisibilityTest(visible);
    below := IsSubmenuEntry(s, visible, base, dep);
  }
}
