/** How menu_finalize hands dependencies down: to the entry, and from the entry to
    its properties. */
module Inheriting {
  import opened Tristates
  import opened Exprs
  import opened Options
  import opened Transforming
  import opened Comparing
  import opened Dups
  import opened SymbolTable

  /** expr_alloc_and. */
  function AllocAnd(a: Option<Expr>, b: Option<Expr>): Option<Expr> {
    if a.None? then b else if b.None? then a else Some(Bin(And, a.value, b.value))
  }

  function Both(a: Option<Expr>, b: Option<Expr>, env: Env): Tristate {
    Min(EvalOption(a, env), EvalOption(b, env))
  }

  predicate NormalOption(e: Option<Expr>) {
    e.Some? ==> Normal(e.value)
  }

  function TransformOption(e: Option<Expr>): Option<Expr> {
    if e.Some? then Some(Transform(e.value)) else None
  }

  function DedupedOption(e: Option<Expr>): Option<Expr> {
    if e.Some? then Some(Deduped(e.value)) else None
  }

  predicate SettledOption(e: Option<Expr>) {
    e.Some? ==> Settled(e.value)
  }

  /** menu->dep, and prop->visible.expr of a tristate symbol: the conjunction with
      what comes from above, exact wherever that is not m. */
  method Inherit(above: Option<Expr>, own: Option<Expr>) returns (r: Option<Expr>)
    ensures forall env | WellFormed(env) && Both(above, own, env) != MOD :: EvalOption(r, env) == Both(above, own, env)
    ensures NormalOption(above) ==> NormalOption(r)
    ensures SettledOption(r) && r == DedupedOption(AllocAnd(above, TransformOption(own)))
    ensures own.None? && SettledOption(above) ==> r == above
  {
    hide Eval, Normal, Settled, Deduped;
    var own' := if own.Some? then Some(Transform(own.value)) else None;
    r := AllocAnd(above, own');
    AllocAndValue(above, own, own');
    if r.Some? {
      var e := EliminateDups(r.value);
      r := Some(e);
    }
  }

  lemma AllocAndValue(above: Option<Expr>, own: Option<Expr>, own': Option<Expr>)
    requires own' == if own.Some? then Some(Transform(own.value)) else None
    ensures forall env | WellFormed(env) :: EvalOption(AllocAnd(above, own'), env) == Both(above, own, env)
    ensures NormalOption(above) ==> NormalOption(AllocAnd(above, own'))
  {
    if own.Some? {
      TransformNormal(own.value);
      forall env | WellFormed(env) ensures EvalOption(AllocAnd(above, own'), env) == Both(above, own, env) {
        TransformValue(own.value, env);
      }
    }
  }

  function TransBoolOption(e: Option<Expr>): Option<Expr> {
    if e.Some? then Some(TransBool(e.value)) else None
  }

  lemma {:induction false} TransBoolNormal(e: Expr)
    requires Normal(e)
    ensures Normal(TransBool(e))
  {
    if e.Bin? {
      TransBoolNormal(e.lhs);
      TransBoolNormal(e.rhs);
    }
  }

  /** The visibility of a property of any other symbol goes through
      expr_trans_bool. That leaves exact where it is n, which is all that counts
      once visibility m has been promoted to y. */
  method InheritVisibility(base: Option<Expr>, visible: Option<Expr>, tristate: bool) returns (r: Option<Expr>)
    requires NormalOption(base)
    ensures forall env | WellFormed(env) && Both(base, visible, env) != MOD ::
              if tristate then EvalOption(r, env) == Both(base, visible, env)
              else EvalOption(r, env) == NO <==> Both(base, visible, env) == NO
    ensures NormalOption(r)
    ensures visible.None? && SettledOption(base) ==> r == if tristate then base else TransBoolOption(base)
  {
    hide Eval, Normal, TransBool, Settled;
    r := Inherit(base, visible);
    if !tristate && r.Some? {
      forall env | WellFormed(env)
        ensures Eval(TransBool(r.value), env) == NO <==> Eval(r.value, env) == NO
      {
        TransBoolKeepsNo(r.value, env);
      }
      TransBoolNormal(r.value);
      r := Some(TransBool(r.value));
    }
  }

  /** expr_alloc_or. */
  function AllocOr(a: Option<Expr>, b: Option<Expr>): Option<Expr> {
    if a.None? then b else if b.None? then a else Some(Bin(Or, a.value, b.value))
  }

  /** One entry at which a symbol is defined, with dependency `own` below `above`:
      its P_SYMBOL property and what sym->dir_dep becomes. The property goes through
      the same steps as any other, on a copy of a dependency that duplicate
      elimination has seen before. So the definitions keep covering dir_dep. */
  method InheritDefinition(
      above: Option<Expr>, own: Option<Expr>, tristate: bool, props: seq<Property>, dirDep: Option<Expr>)
    returns (dep: Option<Expr>, props': seq<Property>, dirDep': Option<Expr>)
    requires NormalOption(above) && (dirDep.Some? ==> DefinedBy(props, dirDep.value))
    ensures forall env | WellFormed(env) && Both(above, own, env) != MOD :: EvalOption(dep, env) == Both(above, own, env)
    ensures props' == props + [Property(Definition, if tristate then dep else TransBoolOption(dep), None)]
    ensures dirDep' == AllocOr(dirDep, dep)
    ensures dirDep'.Some? ==> DefinedBy(props', dirDep'.value)
    ensures MentionsOption(dirDep') <= PropertiesEdges(props') + FIXED
  {
    hide Eval, Normal, TransBool, Settled, DefinedBy, Mentions, PropertiesEdges;
    dep := Inherit(above, own);
    var visible := InheritVisibility(dep, None, tristate);
    props' := props + [Property(Definition, visible, None)];
    dirDep' := AllocOr(dirDep, dep);
    DefinitionAdded(props, dirDep, visible, dep);
    if dirDep'.Some? {
      DefinitionsCover(props', dirDep'.value);
    }
  }

  lemma DefinitionAdded(props: seq<Property>, dirDep: Option<Expr>, visible: Option<Expr>, dep: Option<Expr>)
    requires dirDep.Some? ==> DefinedBy(props, dirDep.value)
    requires visible in {dep, TransBoolOption(dep)}
    ensures var dirDep' := AllocOr(dirDep, dep);
            dirDep'.Some? ==> DefinedBy(props + [Property(Definition, visible, None)], dirDep'.value)
  {
    hide TransBool;
    var p := Property(Definition, visible, None);
    if dirDep.Some? {
      DefinedByMore(props, p, dirDep.value);
    }
    if dep.Some? {
      assert (props + [p])[|props|] == p;
      assert DefinedBy(props + [p], dep.value);
    }
  }

  lemma {:induction false} DefinedByMore(props: seq<Property>, p: Property, dep: Expr)
    requires DefinedBy(props, dep)
    ensures DefinedBy(props + [p], dep)
  {
    hide TransBool;
    if i :| 0 <= i < |props| && props[i].kind == Definition && props[i].visible in {Some(dep), Some(TransBool(dep))} {
      assert (props + [p])[i] == props[i];
    } else {
      DefinedByMore(props, p, dep.lhs);
      DefinedByMore(props, p, dep.rhs);
    }
  }

  /** All conditions of a declaration through expr_trans_bool. */
  function TransBoolProperties(props: seq<Property>): (r: seq<Property>)
    ensures |r| == |props|
  {
    if props == [] then []
    else [props[0].(visible := TransBoolOption(props[0].visible))] + TransBoolProperties(props[1..])
  }

  lemma {:induction false} PromptVisibilityKeepsNo(props: seq<Property>, env: Env)
    requires WellFormed(env) && forall p | p in props :: NormalOption(p.visible)
    ensures PromptVisibility(TransBoolProperties(props), env) == NO <==> PromptVisibility(props, env) == NO
  {
    if props != [] {
      if props[0].visible.Some? {
        TransBoolKeepsNo(props[0].visible.value, env);
      }
      PromptVisibilityKeepsNo(props[1..], env);
      assert TransBoolProperties(props)[1..] == TransBoolProperties(props[1..]);
    }
  }

  /** sym_calc_visibility computes the same for such a symbol with and without
      expr_trans_bool. */
  lemma VisibleUnchanged(k: Kconfig, s: Symbol, env: Env)
    requires WellFormed(env) && s in k.decls && s.Type() != Tri
    requires forall p | p in k.decls[s].props :: NormalOption(p.visible)
    ensures var d := k.decls[s];
            var k' := k.(decls := k.decls[s := d.(props := TransBoolProperties(d.props))]);
            Visible(k', s, env) == Visible(k, s, env)
  {
    hide PromptVisibility, TransBoolProperties;
    PromptVisibilityKeepsNo(k.decls[s].props, env);
  }
}
