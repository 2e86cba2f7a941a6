/** Symbol declarations and what they mean, without any memoising. */
module SymbolTable {
  import opened Tristates
  import opened Exprs
  import opened Options
  import opened Transforming
  import opened Comparing

  /** The property kinds of a configuration without choices and ranges;
      `Definition` is P_SYMBOL, the entry a symbol is defined at. */
  datatype PropertyKind = Prompt | Default | Select | Definition

  datatype Property = Property(kind: PropertyKind, visible: Option<Expr>, expr: Option<Expr>)

  datatype Declaration = Declaration(
    props: seq<Property>,
    dirDep: Option<Expr>,
    revDep: Option<Expr>,
    auto: bool)

  /** `modules` is modules_val, which stays as it is throughout. */
  datatype Kconfig = Kconfig(decls: map<Symbol, Declaration>, modules: Tristate)

  /** def[S_DEF_USER] of the symbols that carry SYMBOL_DEF_USER. */
  datatype UserValue = UserValue(tri: Tristate, val: string)

  type UserValues = map<Symbol, UserValue>

  /** What sym_calc_value leaves in a symbol: curr, visible, dir_dep.tri,
      rev_dep.tri and SYMBOL_WRITE. */
  datatype Outcome = Outcome(
    val: string,
    tri: Tristate,
    visible: Tristate,
    dirDep: Tristate,
    revDep: Tristate,
    write: bool)

  const BLANK := Outcome("", NO, NO, NO, NO, false)

  function DeclarationOf(k: Kconfig, s: Symbol): Declaration {
    if s in k.decls then k.decls[s] else Declaration([], None, None, false)
  }

  /** sym_get_type. */
  function EffectiveType(k: Kconfig, s: Symbol): SymbolType {
    if s.Type() == Tri && k.modules == NO then Boolean else s.Type()
  }

  /** sym_get_string_value. */
  function StringValue(k: Kconfig, s: Symbol, o: Outcome): string {
    if !s.HasTristate() then o.val
    else if o.tri == MOD && k.modules == NO then "n"
    else TristateName(o.tri)
  }

  function EnvOf(k: Kconfig, f: Symbol -> Outcome): Env {
    Env((s: Symbol) => if s.Config? then f(s).tri else ConstantTristate(s),
        (s: Symbol) => if s.Config? then StringValue(k, s, f(s)) else ConstantText(s))
  }

  // One symbol, given the values of the others.

  function PromptVisibility(props: seq<Property>, env: Env): Tristate {
    if props == [] then NO
    else
      var rest := PromptVisibility(props[1..], env);
      if props[0].kind == Prompt then Max(EvalOption(props[0].visible, env), rest) else rest
  }

  /** sym_calc_visibility: the prompts, the direct dependencies, the selects. */
  function Visible(k: Kconfig, s: Symbol, env: Env): Tristate {
    var tri := PromptVisibility(DeclarationOf(k, s).props, env);
    if tri == MOD && (s.Type() != Tri || k.modules == NO) then YES else tri
  }

  function DirDep(k: Kconfig, s: Symbol, env: Env): Tristate {
    var tri := EvalOption(DeclarationOf(k, s).dirDep, env);
    if tri == MOD then YES else tri
  }

  function RevDep(k: Kconfig, s: Symbol, env: Env): Tristate {
    var dep := DeclarationOf(k, s).revDep;
    var tri := if dep.Some? then Eval(dep.value, env) else NO;
    if tri == MOD && EffectiveType(k, s) == Boolean then YES else tri
  }

  /** sym_get_default_prop: the first default whose condition is not n. */
  function DefaultProperty(props: seq<Property>, env: Env): Option<Property> {
    if props == [] then None
    else if props[0].kind == Default && EvalOption(props[0].visible, env) != NO then Some(props[0])
    else DefaultProperty(props[1..], env)
  }

  /** prop_get_symbol. */
  function PropertySymbol(p: Property): Option<Symbol> {
    if p.expr.Some? && p.expr.value.Ref? then Some(p.expr.value.sym) else None
  }

  /** curr.val of another symbol: a bool or tristate one keeps the text n there,
      whatever its value. */
  function RawValue(s: Symbol, env: Env): string {
    if s.HasTristate() then "n" else env.str(s)
  }

  function TristateDefault(k: Kconfig, s: Symbol, env: Env): Tristate {
    var p := DefaultProperty(DeclarationOf(k, s).props, env);
    if p.Some? then Min(EvalOption(p.value.expr, env), EvalOption(p.value.visible, env)) else NO
  }

  function DefaultSymbol(k: Kconfig, s: Symbol, env: Env): Option<Symbol> {
    var p := DefaultProperty(DeclarationOf(k, s).props, env);
    if p.Some? then PropertySymbol(p.value) else None
  }

  function HasDefault(k: Kconfig, s: Symbol, env: Env): bool {
    DefaultProperty(DeclarationOf(k, s).props, env).Some?
  }

  /** A bool symbol is y where a tristate one would be m. */
  function Promote(k: Kconfig, s: Symbol, t: Tristate): Tristate {
    if t == MOD && EffectiveType(k, s) == Boolean then YES else t
  }

  /** sym_calc_value. */
  function OutcomeIn(k: Kconfig, user: UserValues, env: Env, s: Symbol): Outcome {
    if !s.Config? then BLANK.(val := ConstantText(s), tri := ConstantTristate(s))
    else if s.kind == Unknown then BLANK.(val := s.name)
    else
      var visible := Visible(k, s, env);
      var dirDep := DirDep(k, s, env);
      var revDep := RevDep(k, s, env);
      var auto := DeclarationOf(k, s).auto;
      var byUser := visible != NO && s in user;
      if s.HasTristate() then
        var tri := if byUser then Min(user[s].tri, visible) else TristateDefault(k, s, env);
        var write := visible != NO || revDep != NO || HasDefault(k, s, env);
        Outcome("n", Promote(k, s, Max(tri, revDep)), visible, dirDep, revDep, write && !auto)
      else
        var d := DefaultSymbol(k, s, env);
        var val := if byUser then user[s].val else if d.Some? then RawValue(d.value, env) else "";
        Outcome(val, NO, visible, dirDep, revDep, (visible != NO || d.Some?) && !auto)
  }

  function ConstantText(s: Symbol): string
    requires !s.Config?
  {
    match s
    case Yes => "y"
    case Mod => "m"
    case No => "n"
    case Constant(name) => name
  }

  function ConstantTristate(s: Symbol): Tristate
    requires !s.Config?
  {
    if s == Yes then YES else if s == Mod then MOD else NO
  }

  // What a symbol depends on.

  function Mentions(e: Expr): set<Symbol> {
    match e
    case Ref(s) => {s}
    case Not(x) => Mentions(x)
    case Compare(_, a, b) => {a, b}
    case Bin(_, l, r) => Mentions(l) + Mentions(r)
  }

  function MentionsOption(e: Option<Expr>): set<Symbol> {
    if e.Some? then Mentions(e.value) else {}
  }

  /** The edges sym_check_sym_deps follows from one property. */
  function PropertyEdges(p: Property): set<Symbol> {
    if p.kind == Select then {}
    else MentionsOption(p.visible) + (if p.kind == Default then MentionsOption(p.expr) else {})
  }

  function PropertiesEdges(props: seq<Property>): set<Symbol> {
    if props == [] then {} else PropertyEdges(props[0]) + PropertiesEdges(props[1..])
  }

  function Edges(k: Kconfig, s: Symbol): set<Symbol> {
    var d := DeclarationOf(k, s);
    MentionsOption(d.revDep) + PropertiesEdges(d.props)
  }

  const FIXED: set<Symbol> := {Yes, Mod, No}

  // The same, said without recursion.

  /** What prompts show is the greatest of their conditions, n without any. */
  lemma {:induction false} PromptVisibilityExactly(props: seq<Property>, env: Env)
    ensures forall p | p in props && p.kind == Prompt :: EvalOption(p.visible, env) <= PromptVisibility(props, env)
    ensures PromptVisibility(props, env) == NO
            || exists p | p in props && p.kind == Prompt :: EvalOption(p.visible, env) == PromptVisibility(props, env)
  {
    if props != [] {
      PromptVisibilityExactly(props[1..], env);
      if PromptVisibility(props, env) != NO {
        var v := PromptVisibility(props, env);
        if props[0].kind == Prompt && EvalOption(props[0].visible, env) == v {
          assert props[0] in props;
        } else {
          var p :| p in props[1..] && p.kind == Prompt && EvalOption(p.visible, env) == v;
          assert p in props;
        }
      }
    }
  }

  predicate DefaultApplies(p: Property, env: Env) {
    p.kind == Default && EvalOption(p.visible, env) != NO
  }

  predicate IsFirstDefault(props: seq<Property>, i: nat, env: Env) {
    i < |props| && DefaultApplies(props[i], env) && forall j: nat | j < i :: !DefaultApplies(props[j], env)
  }

  /** The default that counts is the first that applies. */
  lemma {:induction false} DefaultExactly(props: seq<Property>, env: Env)
    ensures forall i: nat | IsFirstDefault(props, i, env) :: DefaultProperty(props, env) == Some(props[i])
    ensures (forall i: nat | i < |props| :: !DefaultApplies(props[i], env)) <==> DefaultProperty(props, env) == None
  {
    hide EvalOption;
    if props != [] && DefaultApplies(props[0], env) {
      assert DefaultProperty(props, env) == Some(props[0]);
    } else if props != [] {
      DefaultExactly(props[1..], env);
      FirstDefaultTail(props, env);
    }
  }

  lemma FirstDefaultTail(props: seq<Property>, env: Env)
    requires props != [] && !DefaultApplies(props[0], env)
    ensures forall i: nat | IsFirstDefault(props, i, env) :: i > 0 && IsFirstDefault(props[1..], i - 1, env)
    ensures (forall i: nat | i < |props| :: !DefaultApplies(props[i], env))
            <==> forall i: nat | i < |props| - 1 :: !DefaultApplies(props[1..][i], env)
  {
    hide DefaultApplies;
    assert forall i: nat | 0 < i < |props| :: props[i] == props[1..][i - 1];
    assert forall i: nat | i < |props| - 1 :: props[1..][i] == props[i + 1];
  }

  /** A direct dependency that is m counts as y. */
  lemma DirDepExactly(k: Kconfig, s: Symbol, env: Env)
    ensures DirDep(k, s, env) != MOD
    ensures DirDep(k, s, env) == NO <==> EvalOption(DeclarationOf(k, s).dirDep, env) == NO
  {
  }

  /** A symbol is selected as its selects say, a bool one, or a tristate one without
      modules, also fully where they are m. */
  lemma RevDepExactly(k: Kconfig, s: Symbol, env: Env)
    ensures var dep := DeclarationOf(k, s).revDep;
            && (RevDep(k, s, env) == NO <==> dep.None? || Eval(dep.value, env) == NO)
            && (RevDep(k, s, env) == MOD <==>
                  && dep.Some? && Eval(dep.value, env) == MOD
                  && s.Type() != Boolean && !(s.Type() == Tri && k.modules == NO))
  {
  }

  /** The cycle checker follows what is mentioned in the selects of a symbol, in the
      conditions of its other properties and in the values of its defaults. */
  lemma EdgesExactly(k: Kconfig, s: Symbol, t: Symbol)
    ensures var d := DeclarationOf(k, s);
            t in Edges(k, s) <==>
              || t in MentionsOption(d.revDep)
              || exists p | p in d.props && p.kind != Select ::
                   t in MentionsOption(p.visible) || (p.kind == Default && t in MentionsOption(p.expr))
  {
    hide MentionsOption;
    PropertiesEdgesExactly(DeclarationOf(k, s).props, t);
  }

  lemma {:induction false} PropertiesEdgesExactly(props: seq<Property>, t: Symbol)
    ensures t in PropertiesEdges(props) <==> exists p :: p in props && t in PropertyEdges(p)
  {
    hide PropertyEdges;
    if props != [] {
      PropertiesEdgesExactly(props[1..], t);
      assert props[0] in props;
      if p :| p in props && t in PropertyEdges(p) {
        assert p == props[0] || p in props[1..];
      }
    }
  }

  /** expr_contains_symbol looks for what evaluation reads. */
  lemma {:induction false} ContainsExactly(e: Expr, s: Symbol)
    ensures Contains(e, s) <==> s in Mentions(e)
  {
    match e {
      case Not(x) => ContainsExactly(x, s);
      case Bin(_, l, r) =>
        ContainsExactly(l, s);
        ContainsExactly(r, s);
      case _ =>
    }
  }

  /** menu_finalize gives the definition of a symbol the dependencies it adds to
      dir_dep, so the checker, which never looks at dir_dep, sees them there, but
      for the n that expr_trans_bool takes out. */
  ghost predicate DirDepsCovered(k: Kconfig) {
    forall s | s in k.decls :: MentionsOption(k.decls[s].dirDep) <= Edges(k, s) + FIXED
  }

  /** No symbol but n is lost in expr_trans_bool. */
  lemma {:induction false} TransBoolMentions(e: Expr)
    ensures Mentions(TransBool(e)) <= Mentions(e) <= Mentions(TransBool(e)) + {No}
  {
    match e {
      case Not(x) => TransBoolMentions(x);
      case Bin(_, l, r) =>
        TransBoolMentions(l);
        TransBoolMentions(r);
      case _ =>
    }
  }

  /** `dep` is the alternative of what the definitions of a symbol were given, as
      menu_finalize puts dir_dep together. */
  predicate DefinedBy(props: seq<Property>, dep: Expr) {
    || (exists i | 0 <= i < |props| :: props[i].kind == Definition && props[i].visible in {Some(dep), Some(TransBool(dep))})
    || (dep.Bin? && DefinedBy(props, dep.lhs) && DefinedBy(props, dep.rhs))
  }

  /** Hence the definitions of a symbol cover its direct dependency. */
  lemma {:induction false} DefinitionsCover(props: seq<Property>, dep: Expr)
    requires DefinedBy(props, dep)
    ensures Mentions(dep) <= PropertiesEdges(props) + FIXED
  {
    if i :| 0 <= i < |props| && props[i].kind == Definition && props[i].visible in {Some(dep), Some(TransBool(dep))} {
      TransBoolMentions(dep);
      PropertyInEdges(props, i);
    } else {
      DefinitionsCover(props, dep.lhs);
      DefinitionsCover(props, dep.rhs);
    }
  }

  lemma {:induction false} PropertyInEdges(props: seq<Property>, i: nat)
    requires i < |props|
    ensures PropertyEdges(props[i]) <= PropertiesEdges(props)
  {
    if i > 0 {
      PropertyInEdges(props[1..], i - 1);
    }
  }

  /** Every symbol depends on lower ones only. */
  ghost predicate Ranked(k: Kconfig, rank: Symbol -> nat) {
    forall s, t | s in k.decls && t in Edges(k, s) :: rank(t) < rank(s)
  }

  ghost predicate Acyclic(k: Kconfig) {
    exists rank: Symbol -> nat :: Ranked(k, rank)
  }

  // The recursive meaning.

  /** The value of `s` computed from scratch, all the way down. */
  ghost function Meaning(k: Kconfig, user: UserValues, rank: Symbol -> nat, s: Symbol): Outcome
    decreases rank(s)
  {
    OutcomeIn(k, user, EnvOf(k, t => if rank(t) < rank(s) then Meaning(k, user, rank, t) else BLANK), s)
  }

  ghost function MeaningEnv(k: Kconfig, user: UserValues, rank: Symbol -> nat): Env {
    EnvOf(k, t => Meaning(k, user, rank, t))
  }

  ghost predicate Agree(e1: Env, e2: Env, on: set<Symbol>) {
    forall t | t in on :: e1.tri(t) == e2.tri(t) && e1.str(t) == e2.str(t)
  }

  lemma {:induction false} EvalAgree(e: Expr, e1: Env, e2: Env)
    requires Agree(e1, e2, Mentions(e))
    ensures Eval(e, e1) == Eval(e, e2)
  {
    match e {
      case Not(x) => EvalAgree(x, e1, e2);
      case Bin(_, l, r) =>
        EvalAgree(l, e1, e2);
        EvalAgree(r, e1, e2);
      case _ =>
    }
  }

  lemma EvalOptionAgree(e: Option<Expr>, e1: Env, e2: Env)
    requires Agree(e1, e2, MentionsOption(e))
    ensures EvalOption(e, e1) == EvalOption(e, e2)
  {
    if e.Some? {
      EvalAgree(e.value, e1, e2);
    }
  }

  lemma {:induction false} PropertiesAgree(props: seq<Property>, e1: Env, e2: Env)
    requires Agree(e1, e2, PropertiesEdges(props))
    ensures PromptVisibility(props, e1) == PromptVisibility(props, e2)
    ensures var p := DefaultProperty(props, e1);
            && p == DefaultProperty(props, e2)
            && (p.Some? ==> p.value in props && p.value.kind == Default && PropertyEdges(p.value) <= PropertiesEdges(props))
  {
    if props != [] {
      if props[0].kind != Select {
        EvalOptionAgree(props[0].visible, e1, e2);
      }
      PropertiesAgree(props[1..], e1, e2);
    }
  }

  lemma PartsAgree(k: Kconfig, e1: Env, e2: Env, s: Symbol)
    requires DirDepsCovered(k) && Agree(e1, e2, Edges(k, s) + FIXED)
    ensures Visible(k, s, e1) == Visible(k, s, e2)
    ensures DirDep(k, s, e1) == DirDep(k, s, e2)
    ensures RevDep(k, s, e1) == RevDep(k, s, e2)
    ensures TristateDefault(k, s, e1) == TristateDefault(k, s, e2)
    ensures HasDefault(k, s, e1) == HasDefault(k, s, e2)
    ensures DefaultSymbol(k, s, e1) == DefaultSymbol(k, s, e2)
    ensures DefaultSymbol(k, s, e1).Some? ==> DefaultSymbol(k, s, e1).value in Edges(k, s)
  {
    hide Eval, PromptVisibility, DefaultProperty;
    var d := DeclarationOf(k, s);
    PropertiesAgree(d.props, e1, e2);
    EvalOptionAgree(d.dirDep, e1, e2);
    EvalOptionAgree(d.revDep, e1, e2);
    var p := DefaultProperty(d.props, e1);
    if p.Some? {
      EvalOptionAgree(p.value.expr, e1, e2);
      EvalOptionAgree(p.value.visible, e1, e2);
    }
  }

  /** A symbol's outcome depends on nothing but the symbols it has edges to and y, m, n. */
  lemma OutcomeAgree(k: Kconfig, user: UserValues, e1: Env, e2: Env, s: Symbol)
    requires DirDepsCovered(k) && Agree(e1, e2, Edges(k, s) + FIXED)
    ensures OutcomeIn(k, user, e1, s) == OutcomeIn(k, user, e2, s)
  {
    hide Visible, DirDep, RevDep, TristateDefault, HasDefault, DefaultSymbol, Edges;
    PartsAgree(k, e1, e2, s);
  }

  /** Hence the meaning of every symbol follows from that of all others. */
  lemma MeaningEquation(k: Kconfig, user: UserValues, rank: Symbol -> nat, s: Symbol)
    requires Ranked(k, rank) && DirDepsCovered(k)
    ensures Meaning(k, user, rank, s) == OutcomeIn(k, user, MeaningEnv(k, user, rank), s)
  {
    var below := EnvOf(k, t => if rank(t) < rank(s) then Meaning(k, user, rank, t) else BLANK);
    OutcomeAgree(k, user, below, MeaningEnv(k, user, rank), s);
  }

  /** It does not matter by which order the recursion is justified. */
  lemma {:induction false} MeaningUnique(k: Kconfig, user: UserValues, r1: Symbol -> nat, r2: Symbol -> nat, s: Symbol)
    requires Ranked(k, r1) && Ranked(k, r2) && DirDepsCovered(k)
    ensures Meaning(k, user, r1, s) == Meaning(k, user, r2, s)
    decreases r1(s)
  {
    var e1, e2 := MeaningEnv(k, user, r1), MeaningEnv(k, user, r2);
    forall t | t in Edges(k, s) ensures e1.tri(t) == e2.tri(t) && e1.str(t) == e2.str(t) {
      MeaningUnique(k, user, r1, r2, t);
    }
    MeaningEquation(k, user, r1, s);
    MeaningEquation(k, user, r2, s);
    OutcomeAgree(k, user, e1, e2, s);
  }

  /** The environments that evaluation produces are the well-formed ones for
      which the expression passes were shown to preserve meaning. */
  lemma MeaningEnvWellFormed(k: Kconfig, user: UserValues, rank: Symbol -> nat)
    requires Ranked(k, rank) && DirDepsCovered(k)
    ensures WellFormed(MeaningEnv(k, user, rank))
  {
    hide OutcomeIn, StringValue;
    var env := MeaningEnv(k, user, rank);
    forall s: Symbol
      ensures s.Type() == Boolean ==> env.tri(s) != MOD
      ensures s.HasTristate() ==> env.str(s) == TristateName(env.tri(s))
      ensures !s.Config? ==> env.str(s) == ConstantText(s) && env.tri(s) == ConstantTristate(s)
    {
      MeaningEquation(k, user, rank, s);
      OutcomeWellFormed(k, user, env, s);
    }
  }

  lemma OutcomeWellFormed(k: Kconfig, user: UserValues, env: Env, s: Symbol)
    ensures var o := OutcomeIn(k, user, env, s);
            && (s.Type() == Boolean ==> o.tri != MOD)
            && (s.HasTristate() ==> StringValue(k, s, o) == TristateName(o.tri))
            && (!s.Config? ==> StringValue(k, s, o) == ConstantText(s) && o.tri == ConstantTristate(s))
  {
    hide Visible, DirDep, RevDep, TristateDefault, DefaultSymbol, HasDefault;
  }

  // An example: two tristates, of which one shows with the other.

  /** `t` has a prompt of its own; `s` has the prompt "if t", default y, and may be
      selected by `t`. */
  function ModuleExample(s: Symbol, t: Symbol, revDep: Option<Expr>): Kconfig {
    Kconfig(map[
      t := Declaration([Property(Prompt, None, None)], None, None, false),
      s := Declaration([Property(Prompt, Some(Ref(t)), None), Property(Default, None, Some(Ref(Yes)))],
                       None, revDep, false)], YES)
  }

  lemma TwoProperties(p: Property, d: Property, env: Env)
    requires p.kind == Prompt && d.kind == Default && EvalOption(d.visible, env) != NO
    ensures PromptVisibility([p, d], env) == EvalOption(p.visible, env)
    ensures DefaultProperty([p, d], env) == Some(d)
  {
    assert [p, d][1..] == [d] && [d][1..] == [];
    assert DefaultProperty([d], env) == Some(d) && PromptVisibility([d], env) == NO;
  }

  lemma ModuleExampleDefaults(s: Symbol, t: Symbol, revDep: Option<Expr>, env: Env)
    requires s.Type() == Tri && t.Type() == Tri && s != t && Constants(env)
    ensures var k := ModuleExample(s, t, revDep);
            && TristateDefault(k, s, env) == YES && HasDefault(k, s, env)
            && TristateDefault(k, t, env) == NO
            && PromptVisibility(k.decls[s].props, env) == env.tri(t)
            && PromptVisibility(k.decls[t].props, env) == YES
  {
    var k := ModuleExample(s, t, revDep);
    var p, d := k.decls[s].props[0], k.decls[s].props[1];
    assert k.decls[s].props == [p, d];
    TwoProperties(p, d, env);
    var pt := k.decls[t].props;
    assert pt[1..] == [] && PromptVisibility(pt[1..], env) == NO && DefaultProperty(pt[1..], env) == None;
  }

  lemma ModuleExampleEdges(s: Symbol, t: Symbol, revDep: Option<Expr>)
    requires s != t && revDep in {None, Some(Ref(t))}
    ensures Edges(ModuleExample(s, t, revDep), s) == {t, Yes}
    ensures Edges(ModuleExample(s, t, revDep), t) == {}
    ensures DirDepsCovered(ModuleExample(s, t, revDep))
  {
    var k := ModuleExample(s, t, revDep);
    var ps, pt := k.decls[s].props, k.decls[t].props;
    assert ps[1..][1..] == [] && pt[1..] == [];
    assert PropertiesEdges(ps[1..]) == PropertyEdges(ps[1]) + PropertiesEdges([]);
    assert PropertiesEdges(pt) == PropertyEdges(pt[0]) + PropertiesEdges([]);
  }

  /** The outcomes of both, once the user has set `t` to m. */
  lemma {:induction false} ModuleExampleMeaning(s: Symbol, t: Symbol, revDep: Option<Expr>, user: UserValues, rank: Symbol -> nat)
    requires s.Type() == Tri && t.Type() == Tri && s != t && revDep in {None, Some(Ref(t))}
    requires t in user && user[t].tri == MOD && (s in user ==> user[s].tri != NO)
    requires Ranked(ModuleExample(s, t, revDep), rank)
    ensures var k := ModuleExample(s, t, revDep);
            var o, o' := Meaning(k, user, rank, s), Meaning(k, user, rank, t);
            && o.visible == MOD && o.revDep == (if revDep.Some? then MOD else NO) && o.write
            && o.tri == (if s in user then MOD else YES)
            && o'.visible == YES && o'.revDep == NO && o'.write && o'.tri == MOD
  {
    hide Meaning, Edges, Ranked, PromptVisibility, DefaultProperty, TristateDefault, HasDefault, DirDep;
    var k, env := ModuleExample(s, t, revDep), MeaningEnv(ModuleExample(s, t, revDep), user, rank);
    ModuleExampleEdges(s, t, revDep);
    MeaningEnvWellFormed(k, user, rank);
    MeaningEquation(k, user, rank, t);
    MeaningEquation(k, user, rank, s);
    ModuleExampleDefaults(s, t, revDep, env);
    assert env.tri(t) == MOD;
  }
}
