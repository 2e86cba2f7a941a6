/** sym_calc_value and what it calls: evaluation that remembers, in each symbol,
    that its value has been computed. */
module SymbolEval {
  import opened Tristates
  import opened Exprs
  import opened Options
  import opened Comparing
  import opened SymbolTable

  /** Symbols with a type have a declaration. */
  predicate Declared(k: Kconfig, s: Symbol) {
    s.Config? && s.kind != Unknown ==> s in k.decls
  }

  predicate AllDeclared(k: Kconfig, on: set<Symbol>) {
    forall t | t in on :: Declared(k, t)
  }

  ghost predicate Closed(k: Kconfig) {
    forall s | s in k.decls :: AllDeclared(k, Edges(k, s)) && AllDeclared(k, MentionsOption(k.decls[s].dirDep))
  }

  lemma MeaningUntyped(k: Kconfig, user: UserValues, rank: Symbol -> nat, s: Symbol)
    requires !s.Config? || s.kind == Unknown
    ensures Meaning(k, user, rank, s) ==
            BLANK.(val := if s.Config? then s.name else ConstantText(s), tri := if s.Config? then NO else ConstantTristate(s))
  {
  }

  lemma RawValueOf(k: Kconfig, user: UserValues, rank: Symbol -> nat, s: Symbol)
    requires Ranked(k, rank) && DirDepsCovered(k)
    ensures Meaning(k, user, rank, s).val == RawValue(s, MeaningEnv(k, user, rank))
  {
    hide Visible, DirDep, RevDep, TristateDefault, DefaultSymbol, HasDefault, Meaning;
    MeaningEquation(k, user, rank, s);
    assert MeaningEnv(k, user, rank).str(s) == StringValue(k, s, Meaning(k, user, rank, s));
  }

  lemma BelowSelf(k: Kconfig, rank: Symbol -> nat, s: Symbol)
    requires s in k.decls
    ensures Ranked(k, rank) ==> forall t | t in Edges(k, s) :: rank(t) < rank(s)
  {
  }

  function Lookup(state: map<Symbol, Outcome>, s: Symbol): Outcome {
    if s in state then state[s] else BLANK
  }

  /** `rank` justifies that there is no cycle, `busy` are the symbols whose
      evaluation has begun and not ended, all of rank `n` and above. Where there
      is a cycle nothing is promised but that evaluation ends. */
  class Evaluator {
    const k: Kconfig
    var user: UserValues
    var valid: set<Symbol>
    var state: map<Symbol, Outcome>

    constructor (k: Kconfig, user: UserValues)
      ensures this.k == k && this.user == user && Intact()
      ensures forall rank: Symbol -> nat :: Done(rank, {})
    {
      this.k := k;
      this.user := user;
      valid := {Yes, Mod, No};
      state := map[
        Yes := BLANK.(val := "y", tri := YES),
        Mod := BLANK.(val := "m", tri := MOD),
        No := BLANK.(val := "n", tri := NO)];
    }

    /** Every symbol marked valid, other than the busy ones, holds its meaning. */
    ghost predicate Done(rank: Symbol -> nat, busy: set<Symbol>)
      reads this
    {
      forall t | t in valid && t !in busy :: Lookup(state, t) == Meaning(k, user, rank, t)
    }

    ghost predicate Ready(rank: Symbol -> nat, n: nat, busy: set<Symbol>, on: set<Symbol>)
      reads this
    {
      && Closed(k) && DirDepsCovered(k) && AllDeclared(k, on)
      && (Ranked(k, rank) ==>
            && Done(rank, busy)
            && (forall b | b in busy :: b.Config? && n <= rank(b))
            && (forall t | t in on && t.Config? :: rank(t) < n))
    }

    /** What evaluation leaves alone: the user values and whatever was valid. */
    ghost predicate Extends(user0: UserValues, valid0: set<Symbol>, state0: map<Symbol, Outcome>)
      reads this
    {
      && user == user0
      && valid0 <= valid
      && forall t | t in valid0 :: Lookup(state, t) == Lookup(state0, t)
    }

    ghost function Env(rank: Symbol -> nat): Env
      reads this
    {
      MeaningEnv(k, user, rank)
    }

    /** expr_calc_value: both operands are evaluated, always. */
    method CalcExpr(e: Expr, ghost rank: Symbol -> nat, ghost n: nat, ghost busy: set<Symbol>) returns (t: Tristate)
      requires Ready(rank, n, busy, Mentions(e))
      modifies this
      ensures Extends(old(user), old(valid), old(state))
      ensures Ranked(k, rank) ==> Done(rank, busy) && t == Eval(e, Env(rank))
      decreases k.decls.Keys - valid, 1, e
    {
      match e
      case Ref(s) =>
        CalcValue(s, rank, n, busy);
        t := Lookup(state, s).tri;
      case Not(x) =>
        var v := CalcExpr(x, rank, n, busy);
        t := 2 - v;
      case Bin(op, l, r) =>
        var v1 := CalcExpr(l, rank, n, busy);
        var v2 := CalcExpr(r, rank, n, busy);
        t := Apply(op, v1, v2);
      case Compare(equal, a, b) =>
        CalcValue(a, rank, n, busy);
        CalcValue(b, rank, n, busy);
        var str1 := StringValue(k, a, Lookup(state, a));
        var str2 := StringValue(k, b, Lookup(state, b));
        t := if (str1 == str2) == equal then YES else NO;
    }

    method CalcOption(e: Option<Expr>, ghost rank: Symbol -> nat, ghost n: nat, ghost busy: set<Symbol>) returns (t: Tristate)
      requires Ready(rank, n, busy, MentionsOption(e))
      modifies this
      ensures Extends(old(user), old(valid), old(state))
      ensures Ranked(k, rank) ==> Done(rank, busy) && t == EvalOption(e, Env(rank))
      decreases k.decls.Keys - valid, 2
    {
      if e.None? {
        t := YES;
      } else {
        t := CalcExpr(e.value, rank, n, busy);
      }
    }

    /** sym_get_default_prop. */
    method GetDefaultProperty(s: Symbol, ghost rank: Symbol -> nat, ghost n: nat, ghost busy: set<Symbol>)
      returns (p: Option<Property>, visible: Tristate)
      requires s in k.decls && Ready(rank, n, busy, Edges(k, s))
      modifies this
      ensures Extends(old(user), old(valid), old(state))
      ensures p.Some? ==> p.value.kind == Default && PropertyEdges(p.value) <= Edges(k, s)
      ensures Ranked(k, rank) ==>
                && Done(rank, busy)
                && p == DefaultProperty(k.decls[s].props, Env(rank))
                && (p.Some? ==> visible == EvalOption(p.value.visible, Env(rank)))
      decreases k.decls.Keys - valid, 3
    {
      var props := k.decls[s].props;
      visible := NO;
      for i := 0 to |props|
        invariant Extends(old(user), old(valid), old(state))
        invariant Ready(rank, n, busy, Edges(k, s))
        invariant Ranked(k, rank) ==> DefaultProperty(props, Env(rank)) == DefaultProperty(props[i..], Env(rank))
      {
        PropertyInEdges(props, i);
        assert props[i..][1..] == props[i + 1..];
        if props[i].kind == Default {
          visible := CalcOption(props[i].visible, rank, n, busy);
          if visible != NO {
            return Some(props[i]), visible;
          }
        }
      }
      p := None;
    }

    /** The loop of sym_calc_visibility over the prompts. */
    method CalcPrompts(s: Symbol, ghost rank: Symbol -> nat, ghost n: nat, ghost busy: set<Symbol>) returns (tri: Tristate)
      requires s in k.decls && Ready(rank, n, busy, Edges(k, s))
      modifies this
      ensures Extends(old(user), old(valid), old(state))
      ensures Ranked(k, rank) ==> Done(rank, busy) && tri == PromptVisibility(k.decls[s].props, Env(rank))
      decreases k.decls.Keys - valid, 3
    {
      var props := k.decls[s].props;
      tri := NO;
      for i := 0 to |props|
        invariant Extends(old(user), old(valid), old(state))
        invariant Ready(rank, n, busy, Edges(k, s))
        invariant Ranked(k, rank) ==> PromptVisibility(props, Env(rank)) == Max(tri, PromptVisibility(props[i..], Env(rank)))
      {
        PropertyInEdges(props, i);
        assert props[i..][1..] == props[i + 1..];
        if props[i].kind == Prompt {
          var v := CalcOption(props[i].visible, rank, n, busy);
          tri := Max(tri, v);
        }
      }
    }

    /** sym_calc_visibility sets three fields of the symbol, one after the other. */
    method CalcVisible(s: Symbol, ghost rank: Symbol -> nat, ghost n: nat, ghost busy: set<Symbol>) returns (tri: Tristate)
      requires s in k.decls && Ready(rank, n, busy, Edges(k, s))
      modifies this
      ensures Extends(old(user), old(valid), old(state))
      ensures Ranked(k, rank) ==> Done(rank, busy) && tri == Visible(k, s, Env(rank))
      decreases k.decls.Keys - valid, 4
    {
      hide PromptVisibility, Ready, Extends, Done, Ranked;
      tri := CalcPrompts(s, rank, n, busy);
      if tri == MOD && (s.Type() != Tri || k.modules == NO) {
        tri := YES;
      }
    }

    method CalcDirDep(s: Symbol, ghost rank: Symbol -> nat, ghost n: nat, ghost busy: set<Symbol>) returns (tri: Tristate)
      requires s in k.decls && Ready(rank, n, busy, Edges(k, s))
      modifies this
      ensures Extends(old(user), old(valid), old(state))
      ensures Ranked(k, rank) ==> Done(rank, busy) && tri == DirDep(k, s, Env(rank))
      decreases k.decls.Keys - valid, 4
    {
      hide EvalOption, Eval, Edges, Mentions;
      assert MentionsOption(k.decls[s].dirDep) <= Edges(k, s) + FIXED;
      tri := CalcOption(k.decls[s].dirDep, rank, n, busy);
      if tri == MOD {
        tri := YES;
      }
    }

    method CalcRevDep(s: Symbol, ghost rank: Symbol -> nat, ghost n: nat, ghost busy: set<Symbol>) returns (tri: Tristate)
      requires s in k.decls && Ready(rank, n, busy, Edges(k, s))
      modifies this
      ensures Extends(old(user), old(valid), old(state))
      ensures Ranked(k, rank) ==> Done(rank, busy) && tri == RevDep(k, s, Env(rank))
      decreases k.decls.Keys - valid, 4
    {
      hide Eval, PropertiesEdges, Mentions;
      tri := NO;
      if k.decls[s].revDep.Some? {
        tri := CalcExpr(k.decls[s].revDep.value, rank, n, busy);
      }
      if tri == MOD && EffectiveType(k, s) == Boolean {
        tri := YES;
      }
    }

    ghost predicate Seen(rank: Symbol -> nat, s: Symbol)
      reads this
    {
      var o := Lookup(state, s);
      && o.visible == Visible(k, s, Env(rank))
      && o.dirDep == DirDep(k, s, Env(rank))
      && o.revDep == RevDep(k, s, Env(rank))
    }

    /** sym_calc_visibility. */
    method CalcVisibility(s: Symbol, ghost rank: Symbol -> nat, ghost n: nat, ghost busy: set<Symbol>)
      requires s in k.decls && s in valid && s in busy && Ready(rank, n, busy, Edges(k, s))
      modifies this
      ensures Extends(old(user), old(valid), old(state)[s := Lookup(state, s)])
      ensures Ranked(k, rank) ==> Done(rank, busy) && Seen(rank, s)
      decreases k.decls.Keys - valid, 5
    {
      hide Visible, DirDep, RevDep, Meaning, MeaningEnv, Edges, Ranked, Closed, DirDepsCovered, AllDeclared;
      var tri := CalcVisible(s, rank, n, busy);
      state := state[s := Lookup(state, s).(visible := tri)];
      tri := CalcDirDep(s, rank, n, busy);
      state := state[s := Lookup(state, s).(dirDep := tri)];
      tri := CalcRevDep(s, rank, n, busy);
      state := state[s := Lookup(state, s).(revDep := tri)];
    }

    /** The value of a bool or tristate symbol and whether it is written. */
    method CalcTristate(s: Symbol, ghost rank: Symbol -> nat, ghost n: nat, ghost busy: set<Symbol>) returns (r: Outcome)
      requires s in k.decls && s in valid && s.Config? && s.HasTristate()
      requires Ready(rank, n, busy, Edges(k, s))
      requires Ranked(k, rank) ==> Seen(rank, s)
      modifies this
      ensures Extends(old(user), old(valid), old(state))
      ensures Ranked(k, rank) ==>
                Done(rank, busy) && Meaning(k, user, rank, s) == r.(write := r.write && !k.decls[s].auto)
      decreases k.decls.Keys - valid, 5
    {
      hide Visible, DirDep, RevDep, DefaultProperty, EvalOption, Eval, Meaning, MeaningEnv, PropertiesEdges, Mentions;
      var o := Lookup(state, s);
      var tri := NO;
      var write := o.visible != NO;
      if o.visible != NO && s in user {
        tri := Min(user[s].tri, o.visible);
      } else {
        if o.revDep != NO {
          write := true;
        }
        var p, visible := GetDefaultProperty(s, rank, n, busy);
        if p.Some? {
          write := true;
          var v := CalcOption(p.value.expr, rank, n, busy);
          tri := Min(v, visible);
        }
      }
      tri := Max(tri, o.revDep);
      if tri == MOD && EffectiveType(k, s) == Boolean {
        tri := YES;
      }
      r := o.(val := "n", tri := tri, write := write);
      if Ranked(k, rank) {
        MeaningEquation(k, user, rank, s);
      }
    }

    /** The value of any other symbol and whether it is written. */
    method CalcString(s: Symbol, ghost rank: Symbol -> nat, ghost n: nat, ghost busy: set<Symbol>) returns (r: Outcome)
      requires s in k.decls && s in valid && s.Config? && s.kind != Unknown && !s.HasTristate()
      requires Ready(rank, n, busy, Edges(k, s))
      requires Ranked(k, rank) ==> Seen(rank, s)
      modifies this
      ensures Extends(old(user), old(valid), old(state))
      ensures Ranked(k, rank) ==>
                Done(rank, busy) && Meaning(k, user, rank, s) == r.(write := r.write && !k.decls[s].auto)
      decreases k.decls.Keys - valid, 5
    {
      hide Visible, DirDep, RevDep, DefaultProperty, EvalOption, Eval, Meaning, PropertiesEdges;
      var o := Lookup(state, s);
      var val := "";
      var write := o.visible != NO;
      if o.visible != NO && s in user {
        val := user[s].val;
      } else {
        var p, visible := GetDefaultProperty(s, rank, n, busy);
        if p.Some? {
          var ds := PropertySymbol(p.value);
          if ds.Some? {
            write := true;
            CalcValue(ds.value, rank, n, busy);
            val := Lookup(state, ds.value).val;
            if Ranked(k, rank) {
              RawValueOf(k, user, rank, ds.value);
            }
          }
        }
      }
      r := o.(val := val, tri := NO, write := write);
      if Ranked(k, rank) {
        MeaningEquation(k, user, rank, s);
      }
    }

    /** sym_calc_value, for a symbol that is no choice and has no range. */
    method CalcValue(s: Symbol, ghost rank: Symbol -> nat, ghost n: nat, ghost busy: set<Symbol>)
      requires Ready(rank, n, busy, {s})
      modifies this
      ensures s in valid
      ensures Extends(old(user), old(valid), old(state))
      ensures Ranked(k, rank) ==> Done(rank, busy)
      decreases k.decls.Keys - valid, 0
    {
      hide Meaning, MeaningEnv, Edges, Mentions, Ranked;
      if s in valid {
        return;
      }
      valid := valid + {s};
      if !s.Config? || s.kind == Unknown {
        state := state[s := BLANK.(val := if s.Config? then s.name else ConstantText(s),
                                   tri := if s.Config? then NO else ConstantTristate(s))];
        MeaningUntyped(k, user, rank, s);
        return;
      }
      state := state[s := Lookup(state, s).(write := false)];
      BelowSelf(k, rank, s);
      CalcTyped(s, rank, busy);
    }

    /** The part of sym_calc_value that deals with symbols of a type. */
    method CalcTyped(s: Symbol, ghost rank: Symbol -> nat, ghost busy: set<Symbol>)
      requires s in k.decls && s in valid && s.Config? && s.kind != Unknown
      requires Ready(rank, rank(s), busy + {s}, Edges(k, s))
      modifies this
      ensures Extends(old(user), old(valid), old(state)[s := Lookup(state, s)])
      ensures Ranked(k, rank) ==> Done(rank, busy)
      decreases k.decls.Keys - valid, 6
    {
      hide Visible, DirDep, RevDep, Meaning, MeaningEnv, Edges, Ranked, Closed, DirDepsCovered, AllDeclared;
      CalcVisibility(s, rank, rank(s), busy + {s});
      // what anything would see that asked for this symbol meanwhile
      state := state[s := Lookup(state, s).(val := if s.HasTristate() then "n" else "", tri := NO)];
      var r;
      if s.HasTristate() {
        r := CalcTristate(s, rank, rank(s), busy + {s});
      } else {
        r := CalcString(s, rank, rank(s), busy + {s});
      }
      state := state[s := r.(write := r.write && !k.decls[s].auto)];
    }

    /** y, m and n are valid from the start and are never cleared. */
    ghost predicate Intact()
      reads this
    {
      forall c | c in {Yes, Mod, No} ::
        c in valid && Lookup(state, c) == BLANK.(val := ConstantText(c), tri := ConstantTristate(c))
    }

    /** Asking for a value from outside. Whatever was asked for before, and in
        whatever order, every symbol asked for holds its meaning. */
    method Ask(s: Symbol, ghost rank: Symbol -> nat)
      requires Closed(k) && DirDepsCovered(k) && Declared(k, s) && Intact()
      requires Ranked(k, rank) ==> Done(rank, {})
      modifies this
      ensures user == old(user) && old(valid) <= valid && s in valid && Intact()
      ensures Ranked(k, rank) ==> Done(rank, {}) && Lookup(state, s) == Meaning(k, user, rank, s)
    {
      CalcValue(s, rank, rank(s) + 1, {});
    }

    /** A new user value, followed by sym_clear_all_valid. */
    method SetUser(s: Symbol, v: UserValue)
      requires Intact()
      modifies this
      ensures user == old(user)[s := v] && valid == {Yes, Mod, No} && state == old(state) && Intact()
      ensures forall rank: Symbol -> nat :: Done(rank, {})
    {
      user := user[s := v];
      valid := {Yes, Mod, No};
      forall rank: Symbol -> nat, t | t in valid ensures Lookup(state, t) == Meaning(k, user, rank, t) {
        MeaningUntyped(k, user, rank, t);
      }
    }
  }
}
