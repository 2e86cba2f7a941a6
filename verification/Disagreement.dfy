/** A configuration of which the two implementations make different things. */
module Disagreement {
  import opened Tristates
  import opened Exprs
  import opened Options
  import opened Comparing
  import E = KconfiglibExpr
  import C = SymbolTable
  import L = KconfiglibSymbols
  import M = KconfiglibMeaning
  import opened Agreement

  const SWITCH := Config("T", Boolean)
  const TEXT := Config("S", String)
  const NUMBER := Config("N", Int)
  const IMPORTED := Config("E", String)

  function Only(p: C.Property): C.Declaration {
    C.Declaration([p], None, None, false)
  }

  /** A bool T with a prompt, a string S that defaults to T, a number N with the
      defaults "none" and "1", and E from the environment, worth "x", if !T. */
  function Disagreeing(): C.Kconfig {
    C.Kconfig(map[
      SWITCH := Only(C.Property(C.Prompt, None, None)),
      TEXT := Only(C.Property(C.Default, None, Some(Ref(SWITCH)))),
      NUMBER := C.Declaration([C.Property(C.Default, None, Some(Ref(Constant("none")))),
                               C.Property(C.Default, None, Some(Ref(Constant("1"))))], None, None, false),
      IMPORTED := Only(C.Property(C.Default, Some(Not(Ref(SWITCH))), Some(Ref(Constant("x"))))).(auto := true)], NO)
  }

  function TextItem(kind: SymbolType, defaults: L.Defaults, special: Option<string>): L.Item {
    L.Item(kind, [], defaults, E.Leaf(E.Text("n")), [], None, special, true)
  }

  function DisagreeingItems(number: (string, nat) -> Option<int>, shown: (bool, int) -> string): L.Config {
    L.Config.Config(
      map["T" := L.Item(Boolean, [None], [], E.Leaf(E.Text("n")), [], None, None, true),
          "S" := TextItem(String, [(E.Leaf(E.Name("T")), None)], None),
          "N" := TextItem(Int, [(E.Leaf(E.Text("none")), None), (E.Leaf(E.Text("1")), None)], None),
          "E" := TextItem(String, [(E.Leaf(E.Text("x")), Some(E.Neg(E.Leaf(E.Name("T")))))], Some("x"))],
      map[], number, shown)
  }

  function DisagreeingRank(s: Symbol): nat {
    if s.Config? && s != SWITCH then 1 else 0
  }

  function DisagreeingNames(s: string): nat {
    if s == "S" || s == "E" then 1 else 0
  }

  lemma OneProperty(p: C.Property)
    ensures C.PropertiesEdges([p]) == C.PropertyEdges(p)
    ensures PromptsOf([p]) == if p.kind == C.Prompt then [OptionOf(p.visible)] else []
    ensures DefaultsOf([p]) == if p.kind == C.Default && p.expr.Some? then [(TreeOf(p.expr.value), OptionOf(p.visible))] else []
    ensures forall env :: C.PromptVisibility([p], env) == if p.kind == C.Prompt then EvalOption(p.visible, env) else NO
    ensures forall env :: C.DefaultProperty([p], env) ==
                          if p.kind == C.Default && EvalOption(p.visible, env) != NO then Some(p) else None
  {
    var props := [p];
    assert props[1..] == [];
    assert PromptsOf(props[1..]) == [] && DefaultsOf(props[1..]) == [] && C.PropertiesEdges(props[1..]) == {};
    forall env
      ensures C.PromptVisibility(props, env) == if p.kind == C.Prompt then EvalOption(p.visible, env) else NO
      ensures C.DefaultProperty(props, env) == if p.kind == C.Default && EvalOption(p.visible, env) != NO then Some(p) else None
    {
      assert C.PromptVisibility(props[1..], env) == NO && C.DefaultProperty(props[1..], env) == None;
    }
  }

  lemma TwoDefaults(p: C.Property, q: C.Property)
    requires p.kind == q.kind == C.Default && p.expr.Some? && q.expr.Some? && p.visible == q.visible == None
    ensures C.PropertiesEdges([p, q]) == C.PropertyEdges(p) + C.PropertyEdges(q)
    ensures PromptsOf([p, q]) == [] && DefaultsOf([p, q]) == [(TreeOf(p.expr.value), None), (TreeOf(q.expr.value), None)]
    ensures forall env :: C.PromptVisibility([p, q], env) == NO && C.DefaultProperty([p, q], env) == Some(p)
  {
    var props := [p, q];
    assert props[1..] == [q];
    OneProperty(q);
    assert PromptsOf(props) == PromptsOf([q]);
    assert DefaultsOf(props) == [(TreeOf(p.expr.value), None)] + DefaultsOf([q]);
    forall env ensures C.PromptVisibility(props, env) == NO && C.DefaultProperty(props, env) == Some(p) {
      assert C.PromptVisibility(props, env) == C.PromptVisibility([q], env);
    }
  }

  lemma DisagreeingDeclared(k: C.Kconfig)
    requires k == Disagreeing()
    ensures C.Edges(k, SWITCH) == {} && C.Edges(k, TEXT) == {SWITCH}
    ensures C.Edges(k, NUMBER) == {Constant("none"), Constant("1")} && C.Edges(k, IMPORTED) == {SWITCH, Constant("x")}
    ensures C.DirDepsCovered(k)
  {
    hide C.PropertiesEdges;
    assert C.Mentions(Ref(SWITCH)) == {SWITCH};
    OneProperty(k.decls[SWITCH].props[0]);
    OneProperty(k.decls[TEXT].props[0]);
    OneProperty(k.decls[IMPORTED].props[0]);
    TwoDefaults(k.decls[NUMBER].props[0], k.decls[NUMBER].props[1]);
  }

  lemma DisagreeingAcyclic(k: C.Kconfig)
    requires k == Disagreeing()
    ensures C.Ranked(k, DisagreeingRank)
  {
    hide C.Edges, Disagreeing;
    DisagreeingDeclared(k);
    DisagreeingKeys(k);
    forall s, t | s in k.decls && t in C.Edges(k, s) ensures DisagreeingRank(t) < DisagreeingRank(s) {
      assert s == SWITCH || s == TEXT || s == NUMBER || s == IMPORTED;
    }
  }

  lemma DisagreeingKeys(k: C.Kconfig)
    requires k == Disagreeing()
    ensures k.decls.Keys == {SWITCH, TEXT, NUMBER, IMPORTED} && k.modules == NO
    ensures forall s | s in k.decls :: k.decls[s].auto <==> s == IMPORTED
    ensures forall s | s in k.decls :: DefaultsHaveValues(s, k.decls[s].props)
  {
  }

  lemma DisagreeingItemsMirrored(k: C.Kconfig, l: L.Config)
    requires k == Disagreeing() && l == DisagreeingItems(l.number, l.shown)
    ensures ItemFor(k, SWITCH) == l.syms["T"] && ItemFor(k, TEXT) == l.syms["S"]
    ensures ItemFor(k, NUMBER) == l.syms["N"] && ItemFor(k, IMPORTED).(special := Some("x")) == l.syms["E"]
  {
    hide PromptsOf, DefaultsOf;
    OneProperty(k.decls[SWITCH].props[0]);
    OneProperty(k.decls[TEXT].props[0]);
    OneProperty(k.decls[IMPORTED].props[0]);
    TwoDefaults(k.decls[NUMBER].props[0], k.decls[NUMBER].props[1]);
    assert TreeOf(Not(Ref(SWITCH))) == E.Neg(TreeOf(Ref(SWITCH)));
  }

  lemma DisagreeingKnown(k: C.Kconfig, l: L.Config)
    requires k == Disagreeing()
    ensures forall s, t | s in k.decls && t in C.Edges(k, s) :: Known(k, l, t)
  {
    hide C.Edges, Disagreeing;
    DisagreeingDeclared(k);
    DisagreeingKeys(k);
    forall s, t | s in k.decls && t in C.Edges(k, s) ensures Known(k, l, t) {
      assert s == SWITCH || s == TEXT || s == NUMBER || s == IMPORTED;
      assert t in {SWITCH, Constant("none"), Constant("1"), Constant("x")};
      assert t != SWITCH ==> t.name[0] != 'y' && t.name[0] != 'm';
    }
  }

  lemma DisagreeingSame(k: C.Kconfig, l: L.Config, s: Symbol)
    requires k == Disagreeing() && l == DisagreeingItems(l.number, l.shown) && s in k.decls
    ensures s.Config? && s.kind != Unknown && s.name in l.syms
    ensures l.syms[s.name] == ItemFor(k, s).(special := l.syms[s.name].special)
    ensures k.decls[s].auto <==> l.syms[s.name].special.Some?
    ensures k.decls[s].auto ==> s.kind == String
  {
    hide ItemFor, Disagreeing, DisagreeingItems, DefaultsHaveValues, L.Coherent;
    DisagreeingKeys(k);
    DisagreeingItemsMirrored(k, l);
    DisagreeingItemKeys(l);
    assert s == SWITCH || s == TEXT || s == NUMBER || s == IMPORTED;
  }

  lemma DisagreeingMirrored(k: C.Kconfig, l: L.Config)
    requires k == Disagreeing() && l == DisagreeingItems(l.number, l.shown)
    ensures Mirrors(k, l)
  {
    hide C.Edges, ItemFor, Disagreeing, DisagreeingItems, DefaultsHaveValues, Known;
    DisagreeingKeys(k);
    DisagreeingKnown(k, l);
    forall s | s in k.decls
      ensures s.Config? && s.kind != Unknown && s.name in l.syms
      ensures l.syms[s.name] == ItemFor(k, s).(special := l.syms[s.name].special)
      ensures (k.decls[s].auto <==> l.syms[s.name].special.Some?) && (k.decls[s].auto ==> s.kind == String)
    {
      DisagreeingSame(k, l, s);
    }
  }

  lemma DisagreeingRanked(l: L.Config)
    requires l == DisagreeingItems(l.number, l.shown)
    ensures L.Coherent(l) && L.Ranked(l, DisagreeingNames)
  {
    hide L.Reads, L.Sensitive, DisagreeingItems, L.Coherent;
    DisagreeingReads(l);
    DisagreeingItemKeys(l);
    forall s, t | s in l.syms && t in L.Reads(l, s) ensures t in l.syms && DisagreeingNames(t) < DisagreeingNames(s) {
      assert s == "T" || s == "S" || s == "N" || s == "E";
    }
  }

  lemma DisagreeingItemKeys(l: L.Config)
    requires l == DisagreeingItems(l.number, l.shown)
    ensures l.syms.Keys == {"T", "S", "N", "E"}
    ensures forall s | s in l.syms :: l.syms[s].choice.None? && (l.syms[s].special.Some? <==> s == "E")
    ensures L.Coherent(l)
  {
  }

  lemma DisagreeingReads(l: L.Config)
    requires l == DisagreeingItems(l.number, l.shown)
    ensures L.Reads(l, "T") == {} && L.Reads(l, "S") == {"T"} && L.Reads(l, "N") == {} && L.Reads(l, "E") == {"T"}
  {
    var t, s, n, e := l.syms["T"], l.syms["S"], l.syms["N"], l.syms["E"];
    assert t.prompts[1..] == [] && s.defaults[1..] == [] && e.defaults[1..] == [] && n.defaults[1..][1..] == [];
    assert L.PromptNames(t.prompts) == L.OptionNames(t.prompts[0]) + L.PromptNames(t.prompts[1..]);
    assert L.DefaultNames(s.defaults) == L.Names(s.defaults[0].0) + L.OptionNames(s.defaults[0].1) + L.DefaultNames(s.defaults[1..]);
    assert L.DefaultNames(e.defaults) == L.Names(e.defaults[0].0) + L.OptionNames(e.defaults[0].1) + L.DefaultNames(e.defaults[1..]);
    assert L.DefaultNames(n.defaults) == L.DefaultNames(n.defaults[1..]) == {};
    assert L.Names(t.revDep) == {} && L.Names(E.Leaf(E.Name("T"))) == {"T"};
    assert L.Names(E.Neg(E.Leaf(E.Name("T")))) == {"T"};
  }

  lemma DisagreeingParts(k: C.Kconfig, env: Env)
    requires k == Disagreeing()
    ensures C.Visible(k, SWITCH, env) == YES
    ensures C.Visible(k, TEXT, env) == C.Visible(k, NUMBER, env) == C.Visible(k, IMPORTED, env) == NO
    ensures C.DefaultSymbol(k, TEXT, env) == Some(SWITCH) && C.DefaultSymbol(k, NUMBER, env) == Some(Constant("none"))
    ensures env.tri(SWITCH) == YES ==> C.DefaultSymbol(k, IMPORTED, env) == None
  {
    hide C.PromptVisibility, C.DefaultProperty;
    OneProperty(k.decls[SWITCH].props[0]);
    OneProperty(k.decls[TEXT].props[0]);
    OneProperty(k.decls[IMPORTED].props[0]);
    TwoDefaults(k.decls[NUMBER].props[0], k.decls[NUMBER].props[1]);
    assert Eval(Not(Ref(SWITCH)), env) == 2 - env.tri(SWITCH);
  }

  lemma DisagreeingValues(k: C.Kconfig, user: C.UserValues, env: Env)
    requires k == Disagreeing() && user == map[SWITCH := C.UserValue(YES, "")]
    ensures C.OutcomeIn(k, user, env, SWITCH).tri == YES && C.OutcomeIn(k, user, env, TEXT).val == "n"
    ensures C.OutcomeIn(k, user, env, NUMBER).val == env.str(Constant("none"))
    ensures env.tri(SWITCH) == YES ==> C.OutcomeIn(k, user, env, IMPORTED).val == ""
  {
    hide C.Visible, C.DefaultSymbol, C.DirDep, C.TristateDefault, C.HasDefault;
    DisagreeingParts(k, env);
    hide Disagreeing;
  }

  lemma DisagreeingItemValues(l: L.Config, u: L.Users, w: L.View)
    requires l == DisagreeingItems(l.number, l.shown) && u == L.Users(map["T" := "y"], map[], map[])
    requires l.number("none", 10).None? && l.number("1", 10).Some?
    ensures L.OutcomeIn(l, u, w, "T").val == "y" && L.OutcomeIn(l, u, w, "S").val == w.v.str("T")
    ensures L.OutcomeIn(l, u, w, "N").val == "1" && L.OutcomeIn(l, u, w, "E").val == "x"
  {
    var t, n := l.syms["T"], l.syms["N"];
    assert t.prompts[1..] == [];
    assert L.Visible(l, "T", w) == YES;
    assert n.defaults[1..][1..] == [];
    assert L.NumberDefault(l, n.defaults, 10, L.NoRange, w, L.Outcome("", false))
           == L.NumberDefault(l, n.defaults[1..], 10, L.NoRange, w, L.Outcome("none", true));
  }

  /** With T set to y: for C, S is n, N is "none" and E is empty; for kconfiglib, S is
      y, N is "1" and E is "x". */
  lemma DisagreeingMeanings(k: C.Kconfig, l: L.Config)
    requires k == Disagreeing() && l == DisagreeingItems(l.number, l.shown)
    requires l.number("none", 10).None? && l.number("1", 10).Some?
    ensures var user, u := map[SWITCH := C.UserValue(YES, "")], L.Users(map["T" := "y"], map[], map[]);
            var rank, rank' := DisagreeingRank, DisagreeingNames;
            && Paired(k, l, user, u, rank, rank')
            && C.Meaning(k, user, rank, TEXT).val == "n" && L.Meaning(l, u, rank', "S").val == "y"
            && C.Meaning(k, user, rank, NUMBER).val == "none" && L.Meaning(l, u, rank', "N").val == "1"
            && C.Meaning(k, user, rank, IMPORTED).val == "" && L.Meaning(l, u, rank', "E").val == "x"
  {
    hide C.Meaning, L.Meaning, C.Edges, C.OutcomeIn, L.OutcomeIn, L.Full, Mirrors, L.Coherent, L.Ranked, C.Ranked, Disagreeing,
      DisagreeingItems;
    var user, u := map[SWITCH := C.UserValue(YES, "")], L.Users(map["T" := "y"], map[], map[]);
    var rank, rank' := DisagreeingRank, DisagreeingNames;
    DisagreeingShape(k, l, user, u);
    DisagreeingDeclared(k);
    DisagreeingAcyclic(k);
    DisagreeingMirrored(k, l);
    DisagreeingRanked(l);
    M.FullModules(l, u, rank');
    C.MeaningEquation(k, user, rank, SWITCH);
    C.MeaningEquation(k, user, rank, TEXT);
    C.MeaningEquation(k, user, rank, NUMBER);
    C.MeaningEquation(k, user, rank, IMPORTED);
    M.MeaningEquation(l, u, rank', "T");
    M.MeaningEquation(l, u, rank', "S");
    M.MeaningEquation(l, u, rank', "N");
    M.MeaningEquation(l, u, rank', "E");
    M.FullAt(l, u, rank', "T");
    DisagreeingValues(k, user, C.MeaningEnv(k, user, rank));
    DisagreeingItemValues(l, u, L.Full(l, u, rank'));
    ConstantIn(k, user, rank, Constant("none"));
  }

  lemma DisagreeingShape(k: C.Kconfig, l: L.Config, user: C.UserValues, u: L.Users)
    requires k == Disagreeing() && l == DisagreeingItems(l.number, l.shown)
    requires user == map[SWITCH := C.UserValue(YES, "")] && u == L.Users(map["T" := "y"], map[], map[])
    ensures k.modules == NO && L.MODULES !in l.syms
    ensures SameUser(k, user, u) && L.UsersFit(l, u)
  {
  }
}
