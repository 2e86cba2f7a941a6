/** sym_check_deps: the depth-first search for recursive dependencies. */
module SymbolCheck {
  import opened Exprs
  import opened Options
  import opened SymbolTable

  /** Everything a configuration declares or mentions. */
  ghost function Universe(k: Kconfig): set<Symbol> {
    k.decls.Keys + set s, t | s in k.decls && t in Edges(k, s) :: t
  }

  /** Each symbol on the stack has an edge to the next one. */
  ghost predicate IsPath(k: Kconfig, stack: seq<Symbol>) {
    forall i | 0 <= i < |stack| - 1 :: stack[i] in k.decls && stack[i + 1] in Edges(k, stack[i])
  }

  lemma {:induction false} PathDescends(k: Kconfig, stack: seq<Symbol>, rank: Symbol -> nat, i: nat, j: nat)
    requires IsPath(k, stack) && Ranked(k, rank) && i <= j < |stack|
    ensures rank(stack[j]) <= rank(stack[i])
    decreases j
  {
    if i < j {
      PathDescends(k, stack, rank, i, j - 1);
      assert stack[j - 1 + 1] in Edges(k, stack[j - 1]);
    }
  }

  /** A path that comes back to one of its symbols is a cycle. */
  lemma ClosedPathIsCycle(k: Kconfig, stack: seq<Symbol>, s: Symbol)
    requires IsPath(k, stack) && s in stack
    requires stack[|stack| - 1] in k.decls && s in Edges(k, stack[|stack| - 1])
    ensures !Acyclic(k)
  {
    var i :| 0 <= i < |stack| && stack[i] == s;
    forall rank: Symbol -> nat | Ranked(k, rank) ensures false {
      PathDescends(k, stack, rank, i, |stack| - 1);
    }
  }

  lemma {:induction false} PropertyEdgesIn(props: seq<Property>, i: nat)
    requires i < |props|
    ensures PropertyEdges(props[i]) <= PropertiesEdges(props)
    ensures PropertiesEdges(props[i..]) == PropertyEdges(props[i]) + PropertiesEdges(props[i + 1..])
  {
    assert props[i..][1..] == props[i + 1..];
    if i > 0 {
      PropertyEdgesIn(props[1..], i - 1);
    }
  }

  lemma EdgeInUniverse(k: Kconfig, s: Symbol)
    requires s in k.decls
    ensures Edges(k, s) <= Universe(k) && s in Universe(k)
  {
    hide Edges;
  }

  /** A report has a cycle to show; as long as there is none, all that a symbol
      depends on that is done with was done with before. */
  ghost predicate Consistent(k: Kconfig, check: set<Symbol>, checked: set<Symbol>, stack: seq<Symbol>,
                             reports: nat, finished: map<Symbol, nat>)
  {
    && IsPath(k, stack)
    && (forall s :: s in check <==> s in stack)
    && (reports > 0 ==> !Acyclic(k))
    && (reports == 0 ==>
          && checked == check + finished.Keys && check !! finished.Keys
          && Ordered(k, finished))
  }

  ghost predicate Ordered(k: Kconfig, finished: map<Symbol, nat>) {
    && (forall s, t | s in finished && t in Edges(k, s) :: t in finished && finished[t] < finished[s])
    && (forall s | s in finished :: finished[s] < |finished|)
  }

  /** `s` can follow on the stack. */
  ghost predicate CanFollow(k: Kconfig, stack: seq<Symbol>, s: Symbol) {
    stack != [] ==> stack[|stack| - 1] in k.decls && s in Edges(k, stack[|stack| - 1])
  }

  lemma Enter(k: Kconfig, check: set<Symbol>, checked: set<Symbol>, stack: seq<Symbol>,
              reports: nat, finished: map<Symbol, nat>, s: Symbol)
    requires Consistent(k, check, checked, stack, reports, finished)
    requires s !in check && s !in checked && CanFollow(k, stack, s)
    ensures Consistent(k, check + {s}, checked + {s}, stack + [s], reports, finished)
  {
    hide Edges, Acyclic, Ordered;
  }

  lemma Leave(k: Kconfig, check: set<Symbol>, checked: set<Symbol>, stack: seq<Symbol>,
              reports: nat, finished: map<Symbol, nat>, s: Symbol)
    requires Consistent(k, check, checked, stack + [s], reports, finished)
    requires s !in stack && (reports == 0 ==> Edges(k, s) <= finished.Keys)
    ensures Consistent(k, check - {s}, checked, stack, reports, if reports == 0 then finished[s := |finished|] else finished)
  {
    hide Edges, Acyclic, Ordered;
    var full := stack + [s];
    assert IsPath(k, stack) by {
      assert forall i | 0 <= i < |stack| :: full[i] == stack[i];
    }
    forall t ensures t in check - {s} <==> t in stack {
      assert t in full <==> t in stack || t == s;
    }
    if reports == 0 {
      assert s in full;
      FinishedLater(k, finished, s);
      MovedOver(check, finished.Keys, s);
    }
  }

  lemma MovedOver<T>(a: set<T>, b: set<T>, s: T)
    requires a !! b && s in a
    ensures (a - {s}) + (b + {s}) == a + b && (a - {s}) !! (b + {s})
  {
  }

  lemma FinishedLater(k: Kconfig, finished: map<Symbol, nat>, s: Symbol)
    requires Ordered(k, finished) && s !in finished && Edges(k, s) <= finished.Keys
    ensures var f := finished[s := |finished|];
            f.Keys == finished.Keys + {s} && Ordered(k, f)
  {
    hide Edges;
    var f := finished[s := |finished|];
    assert |f| == |finished| + 1;
  }

  lemma ReportedIsCycle(k: Kconfig, check: set<Symbol>, checked: set<Symbol>, stack: seq<Symbol>,
                        reports: nat, finished: map<Symbol, nat>, s: Symbol)
    requires Consistent(k, check, checked, stack, reports, finished)
    requires s in check && CanFollow(k, stack, s)
    ensures s in stack && Consistent(k, check, checked, stack, reports + 1, finished)
  {
    hide Edges;
    ClosedPathIsCycle(k, stack, s);
  }

  class Checker {
    const k: Kconfig
    /** The symbols flagged SYMBOL_CHECK and SYMBOL_CHECKED. */
    var check: set<Symbol>
    var checked: set<Symbol>
    /** The list that check_top heads, bottom first. */
    var stack: seq<Symbol>
    /** Calls of sym_check_print_recursive. */
    var reports: nat
    /** For the symbols that are done with, when each was. */
    ghost var finished: map<Symbol, nat>

    constructor (k: Kconfig)
      ensures this.k == k && Valid() && stack == [] && reports == 0
    {
      this.k := k;
      check, checked, stack, reports, finished := {}, {}, [], 0, map[];
    }

    ghost predicate Valid()
      reads this
    {
      Consistent(k, check, checked, stack, reports, finished)
    }

    /** Nothing is ever taken back. */
    ghost predicate Grows(checked0: set<Symbol>, finished0: map<Symbol, nat>, reports0: nat)
      reads this
    {
      checked0 <= checked && reports0 <= reports && (reports == 0 ==> finished0.Keys <= finished.Keys)
    }

    /** sym_check_expr_deps. */
    method CheckExpr(e: Expr) returns (r: Option<Symbol>)
      requires Valid() && stack != []
      requires stack[|stack| - 1] in k.decls && Mentions(e) <= Edges(k, stack[|stack| - 1])
      modifies this
      ensures Valid() && stack == old(stack) && Grows(old(checked), old(finished), old(reports))
      ensures r.Some? ==> reports > 0 && r.value in stack
      ensures reports == 0 ==> Mentions(e) <= finished.Keys
      decreases Universe(k) - checked, 1, e
    {
      hide Consistent, Universe, Edges;
      EdgeInUniverse(k, stack[|stack| - 1]);
      match e
      case Ref(s) => r := CheckDeps(s);
      case Not(x) => r := CheckExpr(x);
      case Bin(_, a, b) =>
        r := CheckExpr(a);
        if r.None? {
          r := CheckExpr(b);
        }
      case Compare(_, a, b) =>
        r := CheckDeps(a);
        if r.None? {
          r := CheckDeps(b);
        }
    }

    method CheckOption(e: Option<Expr>) returns (r: Option<Symbol>)
      requires Valid() && stack != []
      requires stack[|stack| - 1] in k.decls && MentionsOption(e) <= Edges(k, stack[|stack| - 1])
      modifies this
      ensures Valid() && stack == old(stack) && Grows(old(checked), old(finished), old(reports))
      ensures r.Some? ==> reports > 0 && r.value in stack
      ensures reports == 0 ==> MentionsOption(e) <= finished.Keys
      decreases Universe(k) - checked, 2
    {
      hide Consistent, Universe, Edges, Mentions;
      if e.None? {
        r := None;
      } else {
        r := CheckExpr(e.value);
      }
    }

    /** sym_check_sym_deps, between the insertion into the stack and the removal. */
    method CheckProperties(s: Symbol) returns (r: Option<Symbol>)
      requires Valid() && stack != [] && s == stack[|stack| - 1] && s in k.decls
      modifies this
      ensures Valid() && stack == old(stack) && Grows(old(checked), old(finished), old(reports))
      ensures r.Some? ==> reports > 0 && r.value in stack
      ensures reports == 0 ==> Edges(k, s) <= finished.Keys
      decreases Universe(k) - checked, 3
    {
      hide Mentions, PropertiesEdges, Consistent, Universe;
      var d := k.decls[s];
      r := CheckOption(d.revDep);
      if r.Some? {
        return;
      }
      var i := 0;
      EdgesOf(k, s);
      while i < |d.props|
        invariant i <= |d.props|
        invariant Valid() && stack == old(stack) && Grows(old(checked), old(finished), old(reports))
        invariant r.None?
        invariant reports == 0 ==> Edges(k, s) <= finished.Keys + PropertiesEdges(d.props[i..])
      {
        PropertyEdgesIn(d.props, i);
        if d.props[i].kind != Select {
          r := CheckOption(d.props[i].visible);
          if r.Some? {
            return;
          }
          if d.props[i].kind == Default {
            r := CheckOption(d.props[i].expr);
            if r.Some? {
              return;
            }
          }
        }
        i := i + 1;
      }
      NoPropertiesNoEdges(d.props, i);
    }

    /** sym_check_deps, for a symbol that has nothing to do with a choice. */
    method CheckDeps(s: Symbol) returns (r: Option<Symbol>)
      requires Valid() && CanFollow(k, stack, s)
      modifies this
      ensures Valid() && stack == old(stack) && Grows(old(checked), old(finished), old(reports))
      ensures r.Some? ==> reports > 0 && r.value in stack
      ensures reports == 0 ==> s in finished
      decreases Universe(k) - checked, 0
    {
      hide Consistent, Edges, Universe, CanFollow;
      OnStack(s);
      if s in check {
        PrintRecursive(s);
        return Some(s);
      }
      if s in checked {
        return None;
      }
      ghost var below := stack;
      Enter(k, check, checked, stack, reports, finished, s);
      check := check + {s};
      checked := checked + {s};
      stack := stack + [s];
      r := None;
      if s in k.decls {
        EdgeInUniverse(k, s);
        r := CheckProperties(s);
      } else {
        UndeclaredHasNoEdges(k, s);
      }
      Leave(k, check, checked, below, reports, finished, s);
      stack := stack[..|stack| - 1];
      assert stack == below;
      check := check - {s};
      if reports == 0 {
        finished := finished[s := |finished|];
      }
      if r == Some(s) {
        r := None;
      }
    }

    lemma OnStack(s: Symbol)
      requires Valid()
      ensures s in check <==> s in stack
      ensures reports == 0 && s in checked && s !in check ==> s in finished
    {
    }

    /** sym_check_print_recursive: what it reports is on the stack, so the message
        about an unexpected dependency never appears. */
    method PrintRecursive(s: Symbol)
      requires Valid() && s in check && CanFollow(k, stack, s)
      modifies this`reports
      ensures Valid() && s in stack && reports == old(reports) + 1
    {
      hide Consistent;
      ReportedIsCycle(k, check, checked, stack, reports, finished, s);
      reports := reports + 1;
    }
  }

  lemma UndeclaredHasNoEdges(k: Kconfig, s: Symbol)
    requires s !in k.decls
    ensures Edges(k, s) == {}
  {
  }

  lemma EdgesOf(k: Kconfig, s: Symbol)
    requires s in k.decls
    ensures Edges(k, s) == MentionsOption(k.decls[s].revDep) + PropertiesEdges(k.decls[s].props[0..])
  {
    assert k.decls[s].props[0..] == k.decls[s].props;
  }

  lemma NoPropertiesNoEdges(props: seq<Property>, i: nat)
    requires i == |props|
    ensures PropertiesEdges(props[i..]) == {}
  {
  }

  /** The loop over all symbols that follows parsing. A recursive dependency is
      reported exactly when there is one. The count of errors is of no use for
      that: called from outside, sym_check_deps never returns a symbol. */
  method CheckAll(k: Kconfig, symbols: seq<Symbol>) returns (reports: nat, errors: nat)
    requires forall s | s in k.decls :: s in symbols
    ensures reports == 0 <==> Acyclic(k)
    ensures errors == 0
  {
    hide Consistent, Edges, Universe;
    var c := new Checker(k);
    errors := 0;
    for i := 0 to |symbols|
      invariant c.k == k && c.Valid() && c.stack == [] && fresh(c)
      invariant errors == 0
      invariant c.reports == 0 ==> forall j | 0 <= j < i :: symbols[j] in c.finished
    {
      var r := c.CheckDeps(symbols[i]);
      errors := errors + if r.Some? then 1 else 0;
    }
    reports := c.reports;
    CheckedMeansAcyclic(k, c.check, c.checked, c.stack, reports, c.finished);
  }

  lemma CheckedMeansAcyclic(k: Kconfig, check: set<Symbol>, checked: set<Symbol>, stack: seq<Symbol>,
                            reports: nat, finished: map<Symbol, nat>)
    requires Consistent(k, check, checked, stack, reports, finished)
    requires reports == 0 ==> forall s | s in k.decls :: s in finished
    ensures reports == 0 <==> Acyclic(k)
  {
    hide Edges;
    if reports == 0 {
      var rank: Symbol -> nat := s => if s in finished then finished[s] else 0;
      assert Ranked(k, rank);
    }
  }
}
