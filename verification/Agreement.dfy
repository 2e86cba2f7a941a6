/** The two implementations of the language compared: symbols of all types, without
    choices and ranges, read by both from the same declarations. */
module Agreement {
  import opened Tristates
  import opened Exprs
  import opened Options
  import opened Comparing
  import E = KconfiglibExpr
  import C = SymbolTable
  import L = KconfiglibSymbols
  import M = KconfiglibMeaning
  import SymbolEval

  // ----- the same declarations -----

  function AtomOf(s: Symbol): E.Atom {
    match s
    case Yes => E.Name("y")
    case Mod => E.Name("m")
    case No => E.Name("n")
    case Constant(name) => E.Text(name)
    case Config(name, _) => E.Name(name)
  }

  function TreeOf(e: Expr): (t: L.Sound) {
    match e
    case Ref(s) => E.Leaf(AtomOf(s))
    case Not(x) => E.Neg(TreeOf(x))
    case Compare(equal, a, b) => E.Rel(equal, AtomOf(a), Some(E.AtomToken(AtomOf(b))))
    case Bin(op, l, r) => PairOf(op, TreeOf(l), TreeOf(r))
  }

  function PairOf(op: Op, a: L.Sound, b: L.Sound): L.Sound {
    PairProper(a, b);
    E.List(op, [a, b])
  }

  lemma PairProper(a: L.Sound, b: L.Sound)
    ensures E.AllProper([a, b]) && E.AllProper([b])
  {
    var one, two: seq<E.Tree> := [b], [a, b];
    assert one[1..] == [] && two[1..] == one;
    assert E.AllProper(one);
  }

  lemma PairValue(op: Op, a: L.Sound, b: L.Sound, v: E.Values)
    ensures E.Value(PairOf(op, a, b), v, false) == Apply(op, E.Value(a, v, false), E.Value(b, v, false))
  {
    PairProper(a, b);
    var one, two: seq<E.Tree> := [b], [a, b];
    assert one[1..] == [] && two[1..] == one;
    assert E.ValueAll(op, one, v, false) == E.Value(b, v, false);
    assert E.ValueAll(op, two, v, false) == Apply(op, E.Value(a, v, false), E.ValueAll(op, one, v, false));
  }

  function OptionOf(e: Option<Expr>): Option<L.Sound> {
    if e.Some? then Some(TreeOf(e.value)) else None
  }

  function PromptsOf(props: seq<C.Property>): L.Prompts {
    if props == [] then []
    else if props[0].kind == C.Prompt then [OptionOf(props[0].visible)] + PromptsOf(props[1..])
    else PromptsOf(props[1..])
  }

  function DefaultsOf(props: seq<C.Property>): L.Defaults {
    if props == [] then []
    else if props[0].kind == C.Default && props[0].expr.Some? then
      [(TreeOf(props[0].expr.value), OptionOf(props[0].visible))] + DefaultsOf(props[1..])
    else DefaultsOf(props[1..])
  }

  function ItemFor(k: C.Kconfig, s: Symbol): L.Item {
    var d := C.DeclarationOf(k, s);
    L.Item(s.Type(), PromptsOf(d.props), DefaultsOf(d.props),
      if d.revDep.Some? then TreeOf(d.revDep.value) else E.Leaf(E.Text("n")), [], None, None, true)
  }

  /** Defaults have a value, those of string and number symbols a single symbol. */
  predicate DefaultsHaveValues(s: Symbol, props: seq<C.Property>) {
    forall p | p in props && p.kind == C.Default :: p.expr.Some? && (s.HasTristate() || p.expr.value.Ref?)
  }

  /** kconfiglib knows the symbol, or string, as what it is. */
  predicate Known(k: C.Kconfig, l: L.Config, s: Symbol) {
    match s
    case Constant(name) => name != "y" && name != "m"
    case Config(name, kind) =>
      s in k.decls || (kind == Unknown && L.ItemOf(l, name).kind == Unknown && L.ItemOf(l, name).special.None?)
    case _ =>
      var i := L.ItemOf(l, AtomOf(s).name);
      i.kind == Tri && i.special == Some(AtomOf(s).name)
  }

  /** Symbols from the environment are strings, which kconfiglib has from there. */
  ghost predicate Mirrors(k: C.Kconfig, l: L.Config) {
    forall s | s in k.decls ::
      && s.Config? && s.kind != Unknown
      && s.name in l.syms && l.syms[s.name] == ItemFor(k, s).(special := l.syms[s.name].special)
      && (k.decls[s].auto <==> l.syms[s.name].special.Some?) && (k.decls[s].auto ==> s.kind == String)
      && DefaultsHaveValues(s, k.decls[s].props)
      && forall t | t in C.Edges(k, s) :: Known(k, l, t)
  }

  /** The user has set the same. */
  ghost predicate SameUser(k: C.Kconfig, user: C.UserValues, u: L.Users) {
    forall s | s in k.decls && s.Config? ::
      && (s in user <==> s.name in u.val)
      && (s in user ==> u.val[s.name] == if s.HasTristate() then TristateName(user[s].tri) else user[s].val)
  }

  // ----- one symbol, given the values of the others -----

  /** Both see the same of `s`. */
  predicate Matches(env: Env, w: L.View, s: Symbol) {
    E.AtomValue(AtomOf(s), w.v) == env.tri(s) && E.AtomString(AtomOf(s), w.v) == env.str(s)
  }

  ghost predicate AllMatch(env: Env, w: L.View, on: set<Symbol>) {
    forall s | s in on :: Matches(env, w, s)
  }

  lemma {:induction false} ValueOf(e: Expr, env: Env, w: L.View)
    requires AllMatch(env, w, C.Mentions(e))
    ensures E.Value(TreeOf(e), w.v, false) == Eval(e, env)
  {
    match e {
      case Ref(s) => assert Matches(env, w, s);
      case Not(x) => ValueOf(x, env, w);
      case Compare(_, a, b) => assert Matches(env, w, a) && Matches(env, w, b);
      case Bin(op, l, r) =>
        ValueOf(l, env, w);
        ValueOf(r, env, w);
        PairValue(op, TreeOf(l), TreeOf(r), w.v);
    }
  }

  lemma EvOf(e: Option<Expr>, env: Env, w: L.View)
    requires AllMatch(env, w, C.MentionsOption(e))
    ensures L.Ev(OptionOf(e), w) == L.Promoted(EvalOption(e, env), w)
  {
    if e.Some? {
      ValueOf(e.value, env, w);
    }
  }

  lemma {:induction false} PromptMaxOf(props: seq<C.Property>, env: Env, w: L.View)
    requires AllMatch(env, w, C.PropertiesEdges(props))
    ensures L.PromptMax(PromptsOf(props), w) == L.Promoted(C.PromptVisibility(props, env), w)
  {
    if props != [] {
      PromptMaxOf(props[1..], env, w);
      if props[0].kind == C.Prompt {
        EvOf(props[0].visible, env, w);
        assert PromptsOf(props)[1..] == PromptsOf(props[1..]);
      }
    }
  }

  lemma {:induction false} LogicalDefaultOf(s: Symbol, props: seq<C.Property>, env: Env, w: L.View)
    requires AllMatch(env, w, C.PropertiesEdges(props)) && DefaultsHaveValues(s, props)
    ensures var p, d := C.DefaultProperty(props, env), L.LogicalDefault(DefaultsOf(props), w);
            if p.None? then d == None
            else d == Some(L.Promoted(Min(EvalOption(p.value.expr, env), EvalOption(p.value.visible, env)), w))
  {
    if props != [] {
      LogicalDefaultOf(s, props[1..], env, w);
      if props[0].kind == C.Default {
        EvOf(props[0].visible, env, w);
        EvOf(props[0].expr, env, w);
        assert DefaultsOf(props)[1..] == DefaultsOf(props[1..]);
      }
    }
  }

  lemma {:induction false} StringDefaultOf(s: Symbol, props: seq<C.Property>, env: Env, w: L.View)
    requires AllMatch(env, w, C.PropertiesEdges(props)) && DefaultsHaveValues(s, props) && !s.HasTristate()
    ensures var p, d := C.DefaultProperty(props, env), L.StringDefault(DefaultsOf(props), w);
            if p.None? then d == None
            else p.value.expr.Some? && p.value.expr.value.Ref? && d == Some(env.str(p.value.expr.value.sym))
  {
    if props != [] {
      StringDefaultOf(s, props[1..], env, w);
      if props[0].kind == C.Default {
        EvOf(props[0].visible, env, w);
        assert props[0] in props;
        assert Matches(env, w, props[0].expr.value.sym);
        assert DefaultsOf(props)[1..] == DefaultsOf(props[1..]);
      }
    }
  }

  predicate IsNumber(l: L.Config, s: Symbol, t: string) {
    l.number(t, if s.Type() == Hex then 16 else 10).Some?
  }

  /** The default kconfiglib takes for a number: the first one in force that is a
      number, or else the last one in force, or else `otherwise`. */
  function NumberPicked(l: L.Config, s: Symbol, props: seq<C.Property>, env: Env, otherwise: Option<string>): Option<string> {
    if props == [] then otherwise
    else if props[0].kind == C.Default && props[0].expr.Some? && props[0].expr.value.Ref?
            && EvalOption(props[0].visible, env) != NO then
      var t := env.str(props[0].expr.value.sym);
      if IsNumber(l, s, t) then Some(t) else NumberPicked(l, s, props[1..], env, Some(t))
    else NumberPicked(l, s, props[1..], env, otherwise)
  }

  /** Where the two part. With a symbol from the environment: the user or the first
      default in force gives it another text. With another symbol that is no bool or
      tristate and takes its default, the first in force: that default is a bool or
      tristate symbol other than n, of which C copies the text n and kconfiglib the
      value, or kconfiglib passes over it, because it is no number, for another text. */
  predicate Parts(k: C.Kconfig, l: L.Config, user: C.UserValues, env: Env, s: Symbol)
    requires s.Config? && s in k.decls
  {
    var byUser := C.Visible(k, s, env) != NO && s in user;
    var d := C.DefaultSymbol(k, s, env);
    && !s.HasTristate()
    && if L.ItemOf(l, s.name).special.Some? then
         L.ItemOf(l, s.name).special.value
           != if byUser then user[s].val else if d.Some? then C.RawValue(d.value, env) else ""
       else
         && !byUser && d.Some?
         && if s.kind == String || IsNumber(l, s, env.str(d.value)) then
              d.value.HasTristate() && env.tri(d.value) != NO
            else
              NumberPicked(l, s, k.decls[s].props, env, None) != Some(C.RawValue(d.value, env))
  }

  predicate SameOutcome(k: C.Kconfig, s: Symbol, o: C.Outcome, o': L.Outcome) {
    o' == L.Outcome(C.StringValue(k, s, o), o.write)
  }

  lemma VisibleOf(k: C.Kconfig, l: L.Config, env: Env, w: L.View, s: Symbol)
    requires Mirrors(k, l) && s in k.decls && AllMatch(env, w, C.Edges(k, s)) && w.modules == (k.modules != NO)
    ensures L.Visible(l, s.name, w) == C.Visible(k, s, env)
  {
    PromptMaxOf(k.decls[s].props, env, w);
  }

  lemma LogicalAgrees(k: C.Kconfig, l: L.Config, user: C.UserValues, u: L.Users, env: Env, w: L.View, s: Symbol)
    requires Mirrors(k, l) && SameUser(k, user, u) && s in k.decls && s.HasTristate()
    requires AllMatch(env, w, C.Edges(k, s)) && w.modules == (k.modules != NO)
    ensures SameOutcome(k, s, C.OutcomeIn(k, user, env, s), L.OutcomeIn(l, u, w, s.name))
  {
    hide C.Edges, C.DirDep, C.Visible, L.Visible, PromptsOf, DefaultsOf, L.LogicalDefault, C.DefaultProperty, E.Value, Eval;
    var d := k.decls[s];
    VisibleOf(k, l, env, w, s);
    EdgesOf(k, s);
    LogicalDefaultOf(s, d.props, env, w);
    RevDepOf(k, s, env, w);
    if s in user {
      assert L.TextValue(TristateName(user[s].tri)) == user[s].tri;
    }
  }

  lemma RevDepOf(k: C.Kconfig, s: Symbol, env: Env, w: L.View)
    requires AllMatch(env, w, C.MentionsOption(C.DeclarationOf(k, s).revDep))
    ensures var dep := C.DeclarationOf(k, s).revDep;
            L.Ev(Some(ItemFor(k, s).revDep), w) == L.Promoted(if dep.Some? then Eval(dep.value, env) else NO, w)
  {
    EvOf(C.DeclarationOf(k, s).revDep, env, w);
  }

  lemma EdgesOf(k: C.Kconfig, s: Symbol)
    ensures C.Edges(k, s) == C.MentionsOption(C.DeclarationOf(k, s).revDep) + C.PropertiesEdges(C.DeclarationOf(k, s).props)
  {
  }

  lemma {:induction false} NumberDefaultOf(l: L.Config, s: Symbol, props: seq<C.Property>, env: Env, w: L.View, so: L.Outcome)
    requires s.Config? && s.kind in {Int, Hex}
    requires AllMatch(env, w, C.PropertiesEdges(props)) && DefaultsHaveValues(s, props)
    ensures var n := L.NumberDefault(l, DefaultsOf(props), if s.kind == Hex then 16 else 10, L.NoRange, w, so);
            var t := NumberPicked(l, s, props, env, None);
            && (t.None? <==> C.DefaultProperty(props, env).None?)
            && n == (if t.Some? then L.Outcome(t.value, true) else so)
            && forall o :: NumberPicked(l, s, props, env, o) == if t.Some? then t else o
  {
    if props != [] {
      if props[0].kind == C.Default {
        EvOf(props[0].visible, env, w);
        assert props[0] in props;
        assert Matches(env, w, props[0].expr.value.sym);
        assert DefaultsOf(props)[1..] == DefaultsOf(props[1..]);
        NumberDefaultOf(l, s, props[1..], env, w, so);
        NumberDefaultOf(l, s, props[1..], env, w, L.Outcome(env.str(props[0].expr.value.sym), true));
      } else {
        NumberDefaultOf(l, s, props[1..], env, w, so);
      }
    }
  }

  /** If the first default in force is a number, that is what is picked. */
  lemma {:induction false} FirstPicked(l: L.Config, s: Symbol, props: seq<C.Property>, env: Env)
    requires DefaultsHaveValues(s, props) && !s.HasTristate() && C.DefaultProperty(props, env).Some?
    ensures var e := C.DefaultProperty(props, env).value.expr;
            e.Some? && e.value.Ref?
            && (IsNumber(l, s, env.str(e.value.sym)) ==> NumberPicked(l, s, props, env, None) == Some(env.str(e.value.sym)))
  {
    assert props[0] in props;
    if !(props[0].kind == C.Default && EvalOption(props[0].visible, env) != NO) {
      FirstPicked(l, s, props[1..], env);
    }
  }

  /** What each makes of a number that takes its default. */
  lemma NumberDefaultsAgree(l: L.Config, s: Symbol, props: seq<C.Property>, env: Env, w: L.View, so: L.Outcome)
    requires s.Config? && s.kind in {Int, Hex} && WellFormed(env)
    requires AllMatch(env, w, C.PropertiesEdges(props)) && DefaultsHaveValues(s, props)
    ensures var n := L.NumberDefault(l, DefaultsOf(props), if s.kind == Hex then 16 else 10, L.NoRange, w, so);
            var p := C.DefaultProperty(props, env);
            if p.None? then n == so
            else
              && p.value.expr.Some? && p.value.expr.value.Ref? && n.write
              && var d := p.value.expr.value.sym;
                 n.val == C.RawValue(d, env) <==>
                   if IsNumber(l, s, env.str(d)) then !(d.HasTristate() && env.tri(d) != NO)
                   else NumberPicked(l, s, props, env, None) == Some(C.RawValue(d, env))
  {
    hide AllMatch, C.PropertiesEdges, DefaultsOf, L.NumberDefault, NumberPicked, C.DefaultProperty;
    NumberDefaultOf(l, s, props, env, w, so);
    if C.DefaultProperty(props, env).Some? {
      FirstPicked(l, s, props, env);
      var d := C.DefaultProperty(props, env).value.expr.value.sym;
      if d.HasTristate() {
        NamesAreInjective(env.tri(d), NO);
      }
    }
  }

  lemma NumberAgrees(k: C.Kconfig, l: L.Config, user: C.UserValues, u: L.Users, env: Env, w: L.View, s: Symbol)
    requires Mirrors(k, l) && SameUser(k, user, u) && s in k.decls && s.kind in {Int, Hex} && WellFormed(env)
    requires L.UsersFit(l, u)
    requires AllMatch(env, w, C.Edges(k, s)) && w.modules == (k.modules != NO)
    ensures SameOutcome(k, s, C.OutcomeIn(k, user, env, s), L.OutcomeIn(l, u, w, s.name)) <==> !Parts(k, l, user, env, s)
  {
    hide C.Edges, C.DirDep, C.RevDep, C.Visible, L.Visible, PromptsOf, DefaultsOf, L.NumberDefault, NumberPicked,
      C.DefaultProperty, E.Value, Eval, IsNumber, C.RawValue, C.PropertiesEdges;
    VisibleOf(k, l, env, w, s);
    EdgesOf(k, s);
    NumberDefaultsAgree(l, s, k.decls[s].props, env, w, L.Outcome("", L.Visible(l, s.name, w) != NO));
    assert s.name in u.val ==> L.Accepts(l, s.name, u.val[s.name]);
  }

  lemma EnvironmentAgrees(k: C.Kconfig, l: L.Config, user: C.UserValues, u: L.Users, env: Env, w: L.View, s: Symbol)
    requires Mirrors(k, l) && s in k.decls && k.decls[s].auto
    ensures SameOutcome(k, s, C.OutcomeIn(k, user, env, s), L.OutcomeIn(l, u, w, s.name)) <==> !Parts(k, l, user, env, s)
  {
    hide C.Edges, C.DirDep, C.RevDep, C.Visible, PromptsOf, DefaultsOf, C.DefaultProperty;
  }

  lemma StringAgrees(k: C.Kconfig, l: L.Config, user: C.UserValues, u: L.Users, env: Env, w: L.View, s: Symbol)
    requires Mirrors(k, l) && SameUser(k, user, u) && s in k.decls && s.kind == String && !k.decls[s].auto && WellFormed(env)
    requires AllMatch(env, w, C.Edges(k, s)) && w.modules == (k.modules != NO)
    ensures SameOutcome(k, s, C.OutcomeIn(k, user, env, s), L.OutcomeIn(l, u, w, s.name)) <==> !Parts(k, l, user, env, s)
  {
    hide C.Edges, C.DirDep, C.RevDep, C.Visible, L.Visible, PromptsOf, DefaultsOf, L.StringDefault, C.DefaultProperty, E.Value, Eval;
    VisibleOf(k, l, env, w, s);
    EdgesOf(k, s);
    StringDefaultOf(s, k.decls[s].props, env, w);
    var d := C.DefaultSymbol(k, s, env);
    if d.Some? && d.value.HasTristate() {
      NamesAreInjective(env.tri(d.value), NO);
    }
  }

  // ----- whole configurations -----

  /** Two meanings of one configuration. */
  ghost predicate Paired(k: C.Kconfig, l: L.Config, user: C.UserValues, u: L.Users, rank: Symbol -> nat, rank': string -> nat) {
    && C.Ranked(k, rank) && C.DirDepsCovered(k) && Mirrors(k, l) && SameUser(k, user, u)
    && L.Coherent(l) && L.UsersFit(l, u) && L.Ranked(l, rank')
    && L.Full(l, u, rank').modules == (k.modules != NO)
  }

  ghost predicate Agrees(k: C.Kconfig, l: L.Config, user: C.UserValues, u: L.Users,
                         rank: Symbol -> nat, rank': string -> nat, s: Symbol)
    requires s.Config?
  {
    SameOutcome(k, s, C.Meaning(k, user, rank, s), L.Meaning(l, u, rank', s.name))
  }

  lemma PlainTristate(k: C.Kconfig, user: C.UserValues, rank: Symbol -> nat, t: Symbol)
    requires t.Config? && !t.HasTristate()
    ensures C.Meaning(k, user, rank, t).tri == NO
  {
    hide C.Visible, C.DirDep, C.RevDep, C.DefaultSymbol;
  }

  lemma DeclaredMatches(k: C.Kconfig, l: L.Config, user: C.UserValues, u: L.Users,
                        rank: Symbol -> nat, rank': string -> nat, t: Symbol)
    requires Paired(k, l, user, u, rank, rank') && t in k.decls && t.Config? && Agrees(k, l, user, u, rank, rank', t)
    ensures Matches(C.MeaningEnv(k, user, rank), L.Full(l, u, rank'), t)
  {
    hide C.Meaning, L.Meaning, C.Ranked, L.Ranked, L.Coherent, L.UsersFit, SameUser, L.Full, PromptsOf, DefaultsOf;
    M.FullAt(l, u, rank', t.name);
    C.MeaningEnvWellFormed(k, user, rank);
    if t.HasTristate() {
      assert L.TextValue(TristateName(C.Meaning(k, user, rank, t).tri)) == C.Meaning(k, user, rank, t).tri;
    } else {
      PlainTristate(k, user, rank, t);
    }
  }

  /** The constants, and symbols nobody declares. */
  lemma FixedMatches(k: C.Kconfig, l: L.Config, user: C.UserValues, u: L.Users,
                     rank: Symbol -> nat, rank': string -> nat, t: Symbol)
    requires Paired(k, l, user, u, rank, rank') && Known(k, l, t) && t !in k.decls && !t.Constant?
    ensures Matches(C.MeaningEnv(k, user, rank), L.Full(l, u, rank'), t)
  {
    hide C.Meaning, L.Meaning, C.Ranked, L.Ranked, L.Coherent, L.UsersFit, SameUser, L.Full, Mirrors;
    M.FullAt(l, u, rank', AtomOf(t).name);
    M.MeaningEquation(l, u, rank', AtomOf(t).name);
    FixedOutcome(k, l, u, L.Full(l, u, rank'), t);
    SymbolEval.MeaningUntyped(k, user, rank, t);
    ConstantIn(k, user, rank, t);
    assert L.TextValue("y") == YES && L.TextValue("m") == MOD && L.TextValue("n") == NO;
    var env, w := C.MeaningEnv(k, user, rank), L.Full(l, u, rank');
    assert w.v.str(AtomOf(t).name) == AtomOf(t).name;
    assert t.Config? ==> env.str(t) == C.StringValue(k, t, C.Meaning(k, user, rank, t));
    assert env.str(t) == AtomOf(t).name;
    assert t.Config? ==> env.tri(t) == NO;
    assert t.Config? ==> w.v.tri(AtomOf(t).name) == NO;
    assert !t.Config? ==> w.v.tri(AtomOf(t).name) == L.TextValue(AtomOf(t).name);
  }

  lemma ConstantIn(k: C.Kconfig, user: C.UserValues, rank: Symbol -> nat, t: Symbol)
    ensures var env := C.MeaningEnv(k, user, rank);
            !t.Config? ==> env.tri(t) == C.ConstantTristate(t) && env.str(t) == C.ConstantText(t)
  {
    hide C.Meaning;
  }

  lemma FixedOutcome(k: C.Kconfig, l: L.Config, u: L.Users, w: L.View, t: Symbol)
    requires Known(k, l, t) && t !in k.decls && !t.Constant?
    ensures L.OutcomeIn(l, u, w, AtomOf(t).name).val == AtomOf(t).name
  {
    hide L.ChoiceSymbol, L.PlainSymbol, L.StringSymbol, L.NumberSymbol;
  }

  lemma KnownMatches(k: C.Kconfig, l: L.Config, user: C.UserValues, u: L.Users,
                     rank: Symbol -> nat, rank': string -> nat, t: Symbol)
    requires Paired(k, l, user, u, rank, rank') && Known(k, l, t)
    requires t in k.decls ==> t.Config? && Agrees(k, l, user, u, rank, rank', t)
    ensures Matches(C.MeaningEnv(k, user, rank), L.Full(l, u, rank'), t)
  {
    hide Paired, Agrees, L.Full, C.Meaning, C.MeaningEnv;
    if t in k.decls {
      DeclaredMatches(k, l, user, u, rank, rank', t);
    } else if !t.Constant? {
      FixedMatches(k, l, user, u, rank, rank', t);
    } else {
      ConstantIn(k, user, rank, t);
    }
  }

  lemma DeclaredConfig(k: C.Kconfig, l: L.Config, s: Symbol, t: Symbol)
    requires Mirrors(k, l) && s in k.decls && t in C.Edges(k, s)
    ensures s.Config? && Known(k, l, t) && (t in k.decls ==> t.Config?)
  {
    hide C.Edges, ItemFor, Known;
  }

  /** Where all that a symbol depends on agrees, it agrees unless it is where the two part. */
  lemma SymbolAgrees(k: C.Kconfig, l: L.Config, user: C.UserValues, u: L.Users,
                     rank: Symbol -> nat, rank': string -> nat, s: Symbol)
    requires Paired(k, l, user, u, rank, rank') && s in k.decls && s.Config?
    requires forall t | t in C.Edges(k, s) && t in k.decls && t.Config? :: Agrees(k, l, user, u, rank, rank', t)
    ensures Agrees(k, l, user, u, rank, rank', s) <==> !Parts(k, l, user, C.MeaningEnv(k, user, rank), s)
  {
    hide C.Meaning, L.Meaning, C.Ranked, L.Ranked, L.Coherent, L.UsersFit, SameUser, L.Full, Mirrors, C.Edges, C.OutcomeIn,
      L.OutcomeIn, C.MeaningEnv, Known, Matches, Parts;
    var env, w := C.MeaningEnv(k, user, rank), L.Full(l, u, rank');
    forall t | t in C.Edges(k, s) ensures Matches(env, w, t) {
      DeclaredConfig(k, l, s, t);
      KnownMatches(k, l, user, u, rank, rank', t);
    }
    C.MeaningEnvWellFormed(k, user, rank);
    C.MeaningEquation(k, user, rank, s);
    M.MeaningEquation(l, u, rank', s.name);
    MirroredType(k, l, s);
    if s.HasTristate() {
      LogicalAgrees(k, l, user, u, env, w, s);
      NeverAtLogical(k, l, user, env, s);
    } else if k.decls[s].auto {
      EnvironmentAgrees(k, l, user, u, env, w, s);
    } else if s.kind == String {
      StringAgrees(k, l, user, u, env, w, s);
    } else {
      NumberAgrees(k, l, user, u, env, w, s);
    }
  }

  lemma MirroredType(k: C.Kconfig, l: L.Config, s: Symbol)
    requires Mirrors(k, l) && s in k.decls
    ensures s.Config? && s.kind in {Boolean, Tri, Int, Hex, String} && (k.decls[s].auto ==> s.kind == String)
  {
  }

  lemma NeverAtLogical(k: C.Kconfig, l: L.Config, user: C.UserValues, env: Env, s: Symbol)
    requires s.Config? && s in k.decls && s.HasTristate()
    ensures !Parts(k, l, user, env, s)
  {
  }

  lemma {:induction false} AllBelowAgree(k: C.Kconfig, l: L.Config, user: C.UserValues, u: L.Users,
                                         rank: Symbol -> nat, rank': string -> nat, s: Symbol)
    requires Paired(k, l, user, u, rank, rank') && s in k.decls && s.Config?
    requires forall t | t in k.decls && t.Config? :: !Parts(k, l, user, C.MeaningEnv(k, user, rank), t)
    ensures Agrees(k, l, user, u, rank, rank', s)
    decreases rank(s)
  {
    hide Agrees, Mirrors, SameUser, L.Coherent, L.UsersFit, L.Ranked, L.Full, C.Edges, Parts, C.MeaningEnv;
    forall t | t in C.Edges(k, s) && t in k.decls && t.Config? ensures Agrees(k, l, user, u, rank, rank', t) {
      AllBelowAgree(k, l, user, u, rank, rank', t);
    }
    SymbolAgrees(k, l, user, u, rank, rank', s);
  }

  /** Both implementations give every symbol the same value, and write the same
      symbols, if and only if there is none at which they part. */
  lemma ImplementationsAgree(k: C.Kconfig, l: L.Config, user: C.UserValues, u: L.Users,
                             rank: Symbol -> nat, rank': string -> nat)
    requires Paired(k, l, user, u, rank, rank')
    ensures (forall s | s in k.decls && s.Config? :: Agrees(k, l, user, u, rank, rank', s))
            <==> (forall s | s in k.decls && s.Config? :: !Parts(k, l, user, C.MeaningEnv(k, user, rank), s))
  {
    hide Agrees, SameUser, L.Coherent, L.UsersFit, L.Ranked, C.Ranked, L.Full, C.Edges, Parts, C.MeaningEnv;
    if forall s | s in k.decls && s.Config? :: !Parts(k, l, user, C.MeaningEnv(k, user, rank), s) {
      forall s | s in k.decls && s.Config? ensures Agrees(k, l, user, u, rank, rank', s) {
        AllBelowAgree(k, l, user, u, rank, rank', s);
      }
    }
    if forall s | s in k.decls && s.Config? :: Agrees(k, l, user, u, rank, rank', s) {
      forall s | s in k.decls && s.Config? ensures !Parts(k, l, user, C.MeaningEnv(k, user, rank), s) {
        SymbolAgrees(k, l, user, u, rank, rank', s);
      }
    }
  }
}
