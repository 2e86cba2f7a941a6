/** kconfiglib's expressions: their printer, their recursive-descent parser over
    tokens and their evaluation. */
module KconfiglibExpr {
  import opened Tristates
  import opened Options
  import opened Exprs

  datatype Atom = Name(name: string) | Text(text: string)

  /** Operator tokens; every other keyword or punctuation is an `Other`. */
  datatype Token = AtomToken(atom: Atom) | OpToken(op: Op) | NotToken | Open | Close | RelToken(equal: bool) | Other(id: nat)

  /** Tuples of kconfiglib. The parser takes whatever token follows a relation as
      its right operand, so that operand is a token, or none at the end. */
  datatype Tree =
    | Leaf(atom: Atom)
    | Rel(equal: bool, left: Atom, right: Option<Token>)
    | Neg(arg: Tree)
    | List(op: Op, terms: seq<Tree>)

  /** Operators have operands and relations compare two atoms. */
  predicate Proper(e: Tree)
    decreases e
  {
    match e
    case Leaf(_) => true
    case Rel(_, _, b) => b.Some? && b.value.AtomToken?
    case Neg(x) => Proper(x)
    case List(_, es) => es != [] && AllProper(es)
  }

  predicate AllProper(es: seq<Tree>)
    decreases es
  {
    es != [] ==> Proper(es[0]) && AllProper(es[1..])
  }

  predicate IsList(op: Op, e: Tree) {
    e.List? && e.op == op
  }

  // ----- printing -----

  /** The operand is printed without parentheses inside an `op` list. */
  predicate Bare(op: Op, e: Tree) {
    !e.List? || op == Or || e.op == And
  }

  /** _expr_to_str_rec. */
  function Print(e: Tree): seq<Token>
    decreases e, 0
  {
    match e
    case Leaf(a) => [AtomToken(a)]
    case Rel(equal, a, b) => [AtomToken(a), RelToken(equal)] + if b.Some? then [b.value] else []
    case Neg(x) => [NotToken] + if x.Leaf? then Print(x) else [Open] + Print(x) + [Close]
    case List(op, es) => PrintAll(op, es)
  }

  function PrintOperand(op: Op, e: Tree): seq<Token>
    decreases e, 1
  {
    if Bare(op, e) then Print(e) else [Open] + Print(e) + [Close]
  }

  /** _intersperse. */
  function PrintAll(op: Op, es: seq<Tree>): seq<Token>
    decreases es, 0
  {
    if es == [] then []
    else if |es| == 1 then PrintOperand(op, es[0])
    else PrintOperand(op, es[0]) + [OpToken(op)] + PrintAll(op, es[1..])
  }

  // ----- parsing -----

  datatype Parse<T> = Bad | Good(value: T, rest: seq<Token>)

  function Form(op: Op, ts: seq<Tree>): Tree {
    if |ts| == 1 then ts[0] else List(op, ts)
  }

  function Prepend(ts: seq<Tree>, p: Parse<seq<Tree>>): Parse<seq<Tree>> {
    if p.Bad? then Bad else Good(ts + p.value, p.rest)
  }

  /** Inside a relation the symbol m is the string "m". */
  function Plain(a: Atom): Atom {
    if a == Name("m") then Text("m") else a
  }

  function PlainToken(t: Option<Token>): Option<Token> {
    if t.Some? && t.value.AtomToken? then Some(AtomToken(Plain(t.value.atom))) else t
  }

  /** In a condition, m on its own is rewritten to m && MODULES. */
  function LeafForm(a: Atom, condition: bool): Tree {
    if condition && Plain(a) == Text("m") then List(And, [Leaf(Text("m")), Leaf(Name("MODULES"))]) else Leaf(a)
  }

  predicate StartsWith(ts: seq<Token>, t: Token) {
    ts != [] && ts[0] == t
  }

  /** What _parse_factor makes of the tokens. */
  function Factor(ts: seq<Token>, condition: bool): (r: Parse<Tree>)
    ensures r.Good? ==> |r.rest| < |ts|
    decreases |ts|, 0
  {
    if ts == [] then Bad
    else match ts[0]
      case Open =>
        var p := Terms(Or, ts[1..], condition);
        if p.Bad? || !StartsWith(p.rest, Close) then Bad else Good(Form(Or, p.value), p.rest[1..])
      case NotToken =>
        var p := Factor(ts[1..], condition);
        if p.Bad? then Bad else Good(Neg(p.value), p.rest)
      case AtomToken(a) =>
        if |ts| == 1 || !ts[1].RelToken? then Good(LeafForm(a, condition), ts[1..])
        else if |ts| == 2 then Good(Rel(ts[1].equal, Plain(a), None), [])
        else Good(Rel(ts[1].equal, Plain(a), PlainToken(Some(ts[2]))), ts[3..])
      case _ => Bad
  }

  /** The terms of an `op` list: those _parse_expr_2 collects for OR, those
      _parse_or_term collects for AND. */
  function Terms(op: Op, ts: seq<Token>, condition: bool): (r: Parse<seq<Tree>>)
    ensures r.Good? ==> |r.rest| < |ts|
    decreases |ts|, if op == And then 2 else 4
  {
    var p := Term(op, ts, condition);
    if p.Bad? then Bad else Prepend([p.value], MoreTerms(op, p.rest, condition))
  }

  function Term(op: Op, ts: seq<Token>, condition: bool): (r: Parse<Tree>)
    ensures r.Good? ==> |r.rest| < |ts|
    decreases |ts|, if op == And then 1 else 3
  {
    if op == And then Factor(ts, condition)
    else
      var p := Terms(And, ts, condition);
      if p.Bad? then Bad else Good(Form(And, p.value), p.rest)
  }

  function MoreTerms(op: Op, ts: seq<Token>, condition: bool): (r: Parse<seq<Tree>>)
    ensures r.Good? ==> |r.rest| <= |ts|
    decreases |ts|, 5
  {
    if StartsWith(ts, OpToken(op)) then Terms(op, ts[1..], condition) else Good([], ts)
  }

  /** What _parse_expr_2 makes of the tokens. */
  function ParseTree(ts: seq<Token>, condition: bool): Parse<Tree> {
    var p := Terms(Or, ts, condition);
    if p.Bad? then Bad else Good(Form(Or, p.value), p.rest)
  }

  /** The first term of a list, then the others. */
  lemma Begin(op: Op, ts: seq<Token>, condition: bool)
    ensures var p := Term(op, ts, condition);
            Terms(op, ts, condition) == if p.Bad? then Bad else Prepend([p.value], MoreTerms(op, p.rest, condition))
  {
  }

  /** One more term after those already collected, or the end of the list. */
  lemma Continue(op: Op, had: seq<Tree>, ts: seq<Token>, condition: bool)
    ensures Prepend(had, MoreTerms(op, ts, condition)) ==
            if StartsWith(ts, OpToken(op)) then
              var p := Term(op, ts[1..], condition);
              if p.Bad? then Bad else Prepend(had + [p.value], MoreTerms(op, p.rest, condition))
            else Good(had, ts)
  {
    if StartsWith(ts, OpToken(op)) {
      Begin(op, ts[1..], condition);
      var p := Term(op, ts[1..], condition);
      if p.Good? {
        var q := MoreTerms(op, p.rest, condition);
        assert q.Good? ==> had + ([p.value] + q.value) == had + [p.value] + q.value;
      }
    } else {
      assert had + [] == had;
    }
  }

  lemma TermIs(ts: seq<Token>, condition: bool)
    ensures Term(And, ts, condition) == Factor(ts, condition)
    ensures var p := Terms(And, ts, condition);
            Term(Or, ts, condition) == if p.Bad? then Bad else Good(Form(And, p.value), p.rest)
  {
  }

  /** _Feed and the parser that consumes it; `None` is a parse error. */
  class Parser {
    const items: seq<Token>
    const condition: bool
    var i: nat

    constructor (items: seq<Token>, condition: bool)
      ensures Valid() && this.items == items && this.condition == condition && Left() == items
    {
      this.items, this.condition, i := items, condition, 0;
    }

    ghost predicate Valid()
      reads this
    {
      i <= |items|
    }

    ghost function Left(): seq<Token>
      reads this
      requires Valid()
    {
      items[i..]
    }

    ghost predicate Agrees(r: Option<Tree>, p: Parse<Tree>)
      reads this
      requires Valid()
    {
      if p.Bad? then r == None else r == Some(p.value) && Left() == p.rest
    }

    method GetNext() returns (t: Option<Token>)
      requires Valid()
      modifies this
      ensures Valid() && i >= old(i)
      ensures if old(Left()) == [] then t == None && Left() == [] else t == Some(old(Left())[0]) && Left() == old(Left())[1..]
    {
      if i >= |items| { return None; }
      t := Some(items[i]);
      i := i + 1;
    }

    method Check(t: Token) returns (found: bool)
      requires Valid()
      modifies this
      ensures Valid() && found == StartsWith(old(Left()), t)
      ensures Left() == if found then old(Left())[1..] else old(Left())
      ensures i == if found then old(i) + 1 else old(i)
    {
      if i >= |items| { return false; }
      found := items[i] == t;
      if found { i := i + 1; }
    }

    method ParseExpr() returns (r: Option<Tree>)
      requires Valid()
      modifies this
      ensures Valid() && Agrees(r, ParseTree(old(Left()), condition))
      ensures r.Some? ==> i > old(i)
      decreases |items| - i, 3
    {
      hide Term, Terms, MoreTerms, Prepend;
      ghost var whole := Terms(Or, Left(), condition);
      Begin(Or, Left(), condition);
      var t := ParseOrTerm();
      if t.None? { return None; }
      var terms := [t.value];
      var more := true;
      while more
        invariant Valid() && i > old(i) && terms != []
        invariant whole == if more then Prepend(terms, MoreTerms(Or, Left(), condition)) else Good(terms, Left())
        decreases more, |items| - i
      {
        Continue(Or, terms, Left(), condition);
        more := Check(OpToken(Or));
        if more {
          t := ParseOrTerm();
          if t.None? { return None; }
          terms := terms + [t.value];
        }
      }
      return Some(Form(Or, terms));
    }

    method ParseOrTerm() returns (r: Option<Tree>)
      requires Valid()
      modifies this
      ensures Valid() && Agrees(r, Term(Or, old(Left()), condition))
      ensures r.Some? ==> i > old(i)
      decreases |items| - i, 2
    {
      hide Term, Terms, MoreTerms, Prepend;
      ghost var whole := Terms(And, Left(), condition);
      Begin(And, Left(), condition);
      TermIs(Left(), condition);
      var t := ParseFactor();
      if t.None? { return None; }
      var terms := [t.value];
      var more := true;
      while more
        invariant Valid() && i > old(i) && terms != []
        invariant whole == if more then Prepend(terms, MoreTerms(And, Left(), condition)) else Good(terms, Left())
        decreases more, |items| - i
      {
        Continue(And, terms, Left(), condition);
        more := Check(OpToken(And));
        if more {
          TermIs(Left(), condition);
          t := ParseFactor();
          if t.None? { return None; }
          terms := terms + [t.value];
        }
      }
      return Some(Form(And, terms));
    }

    method ParseFactor() returns (r: Option<Tree>)
      requires Valid()
      modifies this
      ensures Valid() && Agrees(r, Factor(old(Left()), condition))
      ensures r.Some? ==> i > old(i)
      decreases |items| - i, 1
    {
      var open := Check(Open);
      if open {
        r := ParseExpr();
        if r.None? { return; }
        var close := Check(Close);
        return if close then r else None;
      }
      var no := Check(NotToken);
      if no {
        r := ParseFactor();
        return if r.Some? then Some(Neg(r.value)) else None;
      }
      var t := GetNext();
      if t.None? || !t.value.AtomToken? { return None; }
      var a := t.value.atom;
      if i >= |items| || !items[i].RelToken? {
        return Some(LeafForm(a, condition));
      }
      var relation := GetNext();
      var b := GetNext();
      return Some(Rel(relation.value.equal, Plain(a), PlainToken(b)));
    }
  }

  // ----- the round trip -----

  /** What parsing a printed tree gives: the terms of an `op` list made of its
      operands, nested lists of the same operator running into one. */
  function Flatten(op: Op, e: Tree, condition: bool): (ts: seq<Tree>)
    decreases e, if op == And then 0 else 1
  {
    if op == Or then
      if IsList(Or, e) then FlattenAll(Or, e.terms, condition) else [Form(And, Flatten(And, e, condition))]
    else match e
      case Leaf(a) => [LeafForm(a, condition)]
      case Rel(equal, a, b) => [Rel(equal, Plain(a), PlainToken(b))]
      case Neg(x) => [Neg(Flat(x, condition))]
      case List(And, es) => FlattenAll(And, es, condition)
      case List(Or, es) => [Form(Or, FlattenAll(Or, es, condition))]
  }

  function FlattenAll(op: Op, es: seq<Tree>, condition: bool): (ts: seq<Tree>)
    decreases es
  {
    if es == [] then [] else Flatten(op, es[0], condition) + FlattenAll(op, es[1..], condition)
  }

  function Flat(e: Tree, condition: bool): Tree
    decreases e, 2
  {
    Form(Or, Flatten(Or, e, condition))
  }

  /** No token that would extend the last operand, or a list that binds tighter than `op`. */
  predicate Ends(op: Op, rest: seq<Token>) {
    rest != [] ==> !rest[0].RelToken? && (op == Or ==> rest[0] != OpToken(And))
  }

  lemma FlattenSome(op: Op, e: Tree, condition: bool)
    requires Proper(e)
    ensures Flatten(op, e, condition) != []
    decreases e
  {
    if e.List? {
      FlattenSome(And, e.terms[0], condition);
      FlattenSome(Or, e.terms[0], condition);
    }
  }

  lemma {:induction false} Parenthesised(e: Tree, rest: seq<Token>, condition: bool)
    requires Proper(e)
    ensures Factor([Open] + Print(e) + [Close] + rest, condition) == Good(Flat(e, condition), rest)
    decreases e, if IsList(Or, e) then 1 else 3
  {
    var ts := [Open] + Print(e) + [Close] + rest;
    var after := [Close] + rest;
    assert ts[1..] == Print(e) + after;
    assert after[1..] == rest;
    TermsPrint(Or, e, after, condition);
    Continue(Or, Flatten(Or, e, condition), after, condition);
  }

  /** What is not a list prints as a single factor. */
  lemma {:induction false} FactorPrint(e: Tree, rest: seq<Token>, condition: bool)
    requires Proper(e) && !e.List? && Ends(And, rest)
    ensures Factor(Print(e) + rest, condition) == Good(Flatten(And, e, condition)[0], rest)
    decreases e, 0
  {
    hide Terms, FlattenAll, Prepend, PrintAll;
    var ts := Print(e) + rest;
    match e
    case Leaf(a) => assert ts[1..] == rest;
    case Rel(equal, a, b) => assert ts[3..] == rest;
    case Neg(x) =>
      if x.Leaf? {
        FactorPrint(x, rest, condition);
        assert ts[1..] == Print(x) + rest;
        assert Flatten(Or, x, condition) == [LeafForm(x.atom, condition)];
      } else {
        Parenthesised(x, rest, condition);
        assert ts[1..] == [Open] + Print(x) + [Close] + rest;
      }
  }

  /** The operand of an `op` list, followed by `rest`, yields its flattened terms
      and whatever terms follow it. */
  lemma {:induction false} TermsPrint(op: Op, e: Tree, rest: seq<Token>, condition: bool)
    requires Proper(e) && Ends(op, rest)
    ensures Terms(op, PrintOperand(op, e) + rest, condition) ==
            Prepend(Flatten(op, e, condition), MoreTerms(op, rest, condition))
    decreases e, if IsList(Or, e) then (if op == Or then 0 else 2) else (if op == Or then 2 else 1)
  {
    var ts := PrintOperand(op, e) + rest;
    Begin(op, ts, condition);
    TermIs(ts, condition);
    if IsList(op, e) {
      TermsPrintAll(op, e.terms, rest, condition);
    } else if op == Or {
      TermsPrint(And, e, rest, condition);
      Continue(And, Flatten(And, e, condition), rest, condition);
    } else if e.List? {
      Parenthesised(e, rest, condition);
    } else {
      FactorPrint(e, rest, condition);
    }
  }

  lemma {:induction false} TermsPrintAll(op: Op, es: seq<Tree>, rest: seq<Token>, condition: bool)
    requires es != [] && AllProper(es) && Ends(op, rest)
    ensures Terms(op, PrintAll(op, es) + rest, condition) ==
            Prepend(FlattenAll(op, es, condition), MoreTerms(op, rest, condition))
    decreases es
  {
    hide Flatten, Terms, PrintOperand;
    var first := Flatten(op, es[0], condition);
    if |es| == 1 {
      TermsPrint(op, es[0], rest, condition);
      assert FlattenAll(op, es, condition) == first;
    } else {
      var others := PrintAll(op, es[1..]) + rest;
      var after := [OpToken(op)] + others;
      assert PrintAll(op, es) + rest == PrintOperand(op, es[0]) + after;
      assert after[1..] == others;
      TermsPrint(op, es[0], after, condition);
      TermsPrintAll(op, es[1..], rest, condition);
      var m := MoreTerms(op, rest, condition);
      var t := FlattenAll(op, es[1..], condition);
      assert m.Good? ==> first + (t + m.value) == first + t + m.value;
    }
  }

  /** Printing any expression and parsing the tokens back gives the flattened
      expression and leaves what follows it. */
  lemma ParsePrint(e: Tree, rest: seq<Token>, condition: bool)
    requires Proper(e) && Ends(Or, rest) && !StartsWith(rest, OpToken(Or))
    ensures ParseTree(Print(e) + rest, condition) == Good(Flat(e, condition), rest)
  {
    TermsPrint(Or, e, rest, condition);
    Continue(Or, Flatten(Or, e, condition), rest, condition);
  }

  // ----- evaluation -----

  /** The values get_value returns, as tristates (n for the other types) and as
      strings; the symbol m is always m. */
  datatype Values = Values(tri: string -> Tristate, str: string -> string)

  function AtomValue(a: Atom, v: Values): Tristate {
    match a
    case Name(s) => v.tri(s)
    case Text(t) => if t == "y" then YES else if t == "m" then MOD else NO
  }

  function AtomString(a: Atom, v: Values): string {
    match a
    case Name(s) => v.str(s)
    case Text(t) => t
  }

  /** Min or max over the operands; in a condition m counts only with MODULES. */
  function Value(e: Tree, v: Values, condition: bool): Tristate
    requires Proper(e)
    decreases e
  {
    match e
    case Leaf(a) =>
      if condition && Plain(a) == Text("m") then Min(MOD, v.tri("MODULES")) else AtomValue(a, v)
    case Rel(equal, a, b) => if (AtomString(a, v) == AtomString(b.value.atom, v)) == equal then YES else NO
    case Neg(x) => 2 - Value(x, v, condition)
    case List(op, es) => ValueAll(op, es, v, condition)
  }

  function ValueAll(op: Op, es: seq<Tree>, v: Values, condition: bool): Tristate
    requires AllProper(es)
    decreases es
  {
    if es == [] then (if op == And then YES else NO)
    else Apply(op, Value(es[0], v, condition), ValueAll(op, es[1..], v, condition))
  }

  ghost predicate SpecialM(v: Values) {
    v.tri("m") == MOD && v.str("m") == "m"
  }

  lemma {:induction false} ProperAppend(a: seq<Tree>, b: seq<Tree>)
    requires AllProper(a) && AllProper(b)
    ensures AllProper(a + b)
  {
    if a == [] {
      assert a + b == b;
    } else {
      ProperAppend(a[1..], b);
      assert (a + b)[1..] == a[1..] + b;
    }
  }

  lemma {:induction false} ValueAppend(op: Op, a: seq<Tree>, b: seq<Tree>, v: Values)
    requires AllProper(a) && AllProper(b)
    ensures AllProper(a + b)
    ensures ValueAll(op, a + b, v, false) == Apply(op, ValueAll(op, a, v, false), ValueAll(op, b, v, false))
  {
    ProperAppend(a, b);
    if a == [] {
      assert a + b == b;
    } else {
      ValueAppend(op, a[1..], b, v);
      assert (a + b)[1..] == a[1..] + b;
    }
  }

  lemma ValueForm(op: Op, ts: seq<Tree>, v: Values)
    requires ts != [] && AllProper(ts)
    ensures Proper(Form(op, ts)) && Value(Form(op, ts), v, false) == ValueAll(op, ts, v, false)
  {
    assert |ts| == 1 ==> ts[1..] == [];
  }

  lemma {:induction false} FlattenValue(op: Op, e: Tree, v: Values, condition: bool)
    requires Proper(e) && SpecialM(v)
    ensures AllProper(Flatten(op, e, condition))
    ensures ValueAll(op, Flatten(op, e, condition), v, false) == Value(e, v, condition)
    decreases e, if op == And then 0 else 1
  {
    var ts := Flatten(op, e, condition);
    FlattenSome(op, e, condition);
    if IsList(op, e) {
      FlattenAllValue(op, e.terms, v, condition);
    } else {
      assert |ts| == 1 && ts[1..] == [];
      if op == Or {
        FlattenValue(And, e, v, condition);
        FlattenSome(And, e, condition);
        ValueForm(And, Flatten(And, e, condition), v);
      } else if e.List? {
        FlattenAllValue(Or, e.terms, v, condition);
        FlattenSome(Or, e, condition);
        ValueForm(Or, FlattenAll(Or, e.terms, condition), v);
      } else if e.Neg? {
        FlatValue(e.arg, v, condition);
      }
    }
  }

  lemma {:induction false} FlattenAllValue(op: Op, es: seq<Tree>, v: Values, condition: bool)
    requires AllProper(es) && SpecialM(v)
    ensures AllProper(FlattenAll(op, es, condition))
    ensures ValueAll(op, FlattenAll(op, es, condition), v, false) == ValueAll(op, es, v, condition)
    decreases es
  {
    if es != [] {
      FlattenValue(op, es[0], v, condition);
      FlattenAllValue(op, es[1..], v, condition);
      ValueAppend(op, Flatten(op, es[0], condition), FlattenAll(op, es[1..], condition), v);
    }
  }

  /** The tree read back is worth what the printed one is, with m standing for
      m && MODULES when it is read as a condition. */
  lemma FlatValue(e: Tree, v: Values, condition: bool)
    requires Proper(e) && SpecialM(v)
    ensures Proper(Flat(e, condition)) && Value(Flat(e, condition), v, false) == Value(e, v, condition)
    decreases e, 2
  {
    FlattenValue(Or, e, v, condition);
    FlattenSome(Or, e, condition);
    ValueForm(Or, Flatten(Or, e, condition), v);
  }

  // ----- which trees survive unchanged -----

  /** Lists have two operands or more, none of them a list of the same operator,
      and no relation names the symbol m. */
  predicate IsFlat(e: Tree)
    decreases e
  {
    match e
    case Leaf(_) => true
    case Rel(_, a, b) => Plain(a) == a && PlainToken(b) == b
    case Neg(x) => IsFlat(x)
    case List(op, es) => |es| >= 2 && AllFlat(op, es)
  }

  predicate AllFlat(op: Op, es: seq<Tree>)
    decreases es
  {
    es != [] ==> IsFlat(es[0]) && !IsList(op, es[0]) && AllFlat(op, es[1..])
  }

  function Measure(e: Tree): (n: nat)
    decreases e
  {
    match e
    case Leaf(_) => 1
    case Rel(_, a, b) => 1 + (if Plain(a) == a then 0 else 1) + if PlainToken(b) == b then 0 else 1
    case Neg(x) => 1 + Measure(x)
    case List(_, es) => 1 + MeasureAll(es)
  }

  function MeasureAll(es: seq<Tree>): nat
    decreases es
  {
    if es == [] then 0 else Measure(es[0]) + MeasureAll(es[1..])
  }

  lemma {:induction false} MeasureAppend(a: seq<Tree>, b: seq<Tree>)
    ensures MeasureAll(a + b) == MeasureAll(a) + MeasureAll(b)
  {
    if a == [] {
      assert a + b == b;
    } else {
      MeasureAppend(a[1..], b);
      assert (a + b)[1..] == a[1..] + b;
    }
  }

  lemma MeasureForm(op: Op, ts: seq<Tree>)
    requires ts != []
    ensures Measure(Form(op, ts)) == MeasureAll(ts) + if |ts| == 1 then 0 else 1
  {
    assert |ts| == 1 ==> ts[1..] == [];
  }

  /** Flattening never grows a tree, and shrinks every tree that is not flat. */
  lemma {:induction false} FlattenShrinks(op: Op, e: Tree)
    requires Proper(e)
    ensures MeasureAll(Flatten(op, e, false)) + (if IsList(op, e) then 1 else 0) <= Measure(e)
    ensures !IsList(op, e) && MeasureAll(Flatten(op, e, false)) == Measure(e) ==> IsFlat(e)
    ensures !IsList(op, e) ==> |Flatten(op, e, false)| == 1
    decreases e, if op == And then 0 else 1
  {
    var ts := Flatten(op, e, false);
    if IsList(op, e) {
      FlattenAllShrinks(op, e.terms);
    } else {
      assert |ts| == 1 && ts[1..] == [];
      if op == Or {
        FlattenShrinks(And, e);
        FlattenSome(And, e, false);
        MeasureForm(And, Flatten(And, e, false));
        if e.List? { FlattenAllShrinks(And, e.terms); }
      } else if e.List? {
        FlattenAllShrinks(Or, e.terms);
        FlattenSome(Or, e, false);
        MeasureForm(Or, FlattenAll(Or, e.terms, false));
      } else if e.Neg? {
        FlatShrinks(e.arg);
      }
    }
  }

  lemma {:induction false} FlattenAllShrinks(op: Op, es: seq<Tree>)
    requires AllProper(es)
    ensures MeasureAll(FlattenAll(op, es, false)) <= MeasureAll(es)
    ensures MeasureAll(FlattenAll(op, es, false)) == MeasureAll(es) ==>
              AllFlat(op, es) && |FlattenAll(op, es, false)| == |es|
    decreases es
  {
    if es != [] {
      FlattenShrinks(op, es[0]);
      FlattenAllShrinks(op, es[1..]);
      MeasureAppend(Flatten(op, es[0], false), FlattenAll(op, es[1..], false));
    }
  }

  lemma FlatShrinks(e: Tree)
    requires Proper(e)
    ensures Measure(Flat(e, false)) <= Measure(e)
    ensures Flat(e, false) == e ==> IsFlat(e)
    ensures Measure(Flat(e, false)) == Measure(e) ==> IsFlat(e)
    decreases e, 2
  {
    FlattenShrinks(Or, e);
    FlattenSome(Or, e, false);
    MeasureForm(Or, Flatten(Or, e, false));
    if IsList(Or, e) { FlattenAllShrinks(Or, e.terms); }
  }

  lemma {:induction false} FlattenFlat(op: Op, e: Tree)
    requires IsFlat(e)
    ensures Flatten(op, e, false) == if IsList(op, e) then e.terms else [e]
    decreases e, if op == And then 0 else 1
  {
    if e.List? {
      if IsList(op, e) || op == And { FlattenAllFlat(e.op, e.terms); } else { FlattenFlat(And, e); }
    } else if op == Or {
      FlattenFlat(And, e);
    } else if e.Neg? {
      FlattenFlat(Or, e.arg);
    }
  }

  lemma {:induction false} FlattenAllFlat(op: Op, es: seq<Tree>)
    requires AllFlat(op, es)
    ensures FlattenAll(op, es, false) == es
    decreases es
  {
    if es != [] {
      FlattenFlat(op, es[0]);
      FlattenAllFlat(op, es[1..]);
    }
  }

  /** Print then parse: the value is kept in every environment, and the tree itself
      exactly when it is flat. */
  lemma RoundTrip(e: Tree, v: Values)
    requires Proper(e) && SpecialM(v)
    ensures var p := ParseTree(Print(e), false);
            && p.Good? && p.rest == [] && Proper(p.value) && Value(p.value, v, false) == Value(e, v, false)
            && (p.value == e <==> IsFlat(e))
  {
    assert Print(e) + [] == Print(e);
    ParsePrint(e, [], false);
    FlatValue(e, v, false);
    FlatShrinks(e);
    if IsFlat(e) { FlattenFlat(Or, e); }
  }

  lemma TwoTerms(op: Op, x: Tree, y: Tree)
    ensures PrintAll(op, [x, y]) == PrintOperand(op, x) + [OpToken(op)] + PrintOperand(op, y)
    ensures AllProper([x, y]) <==> Proper(x) && Proper(y)
    ensures AllFlat(op, [x, y]) <==> IsFlat(x) && IsFlat(y) && !IsList(op, x) && !IsList(op, y)
  {
    var one, two := [y], [x, y];
    assert two[1..] == one && one[1..] == [];
    assert PrintAll(op, one) == PrintOperand(op, y);
    assert AllProper(one) <==> Proper(y);
    assert AllFlat(op, one) <==> IsFlat(y) && !IsList(op, y);
  }

  /** && binds tighter than ||, and no parentheses are printed for that. */
  lemma Precedence(a: Atom, b: Atom, c: Atom, d: Atom)
    ensures var e := List(Or, [List(And, [Leaf(a), Leaf(b)]), List(And, [Leaf(c), Leaf(d)])]);
            var ts := [AtomToken(a), OpToken(And), AtomToken(b), OpToken(Or), AtomToken(c), OpToken(And), AtomToken(d)];
            Print(e) == ts && ParseTree(ts, false) == Good(e, [])
  {
    var l, r := List(And, [Leaf(a), Leaf(b)]), List(And, [Leaf(c), Leaf(d)]);
    TwoTerms(And, Leaf(a), Leaf(b));
    TwoTerms(And, Leaf(c), Leaf(d));
    TwoTerms(Or, l, r);
    assert Print(l) == [AtomToken(a), OpToken(And), AtomToken(b)];
    assert Print(r) == [AtomToken(c), OpToken(And), AtomToken(d)];
    RoundTrip(List(Or, [l, r]), Values(s => if s == "m" then MOD else NO, s => s));
  }

  /** With no operator of a single operand, what is read back is flat: a second
      round trip changes nothing. */
  predicate Branching(e: Tree)
    decreases e
  {
    match e
    case Leaf(_) => true
    case Rel(_, _, _) => true
    case Neg(x) => Branching(x)
    case List(_, es) => |es| >= 2 && AllBranching(es)
  }

  predicate AllBranching(es: seq<Tree>)
    decreases es
  {
    es != [] ==> Branching(es[0]) && AllBranching(es[1..])
  }

  lemma {:induction false} AllFlatAppend(op: Op, a: seq<Tree>, b: seq<Tree>)
    requires AllFlat(op, a) && AllFlat(op, b)
    ensures AllFlat(op, a + b)
  {
    if a == [] {
      assert a + b == b;
    } else {
      AllFlatAppend(op, a[1..], b);
      assert (a + b)[1..] == a[1..] + b;
    }
  }

  lemma {:induction false} FlattenIsFlat(op: Op, e: Tree)
    requires Proper(e) && Branching(e)
    ensures AllFlat(op, Flatten(op, e, false))
    ensures |Flatten(op, e, false)| >= if IsList(op, e) then 2 else 1
    decreases e, if op == And then 0 else 1
  {
    var ts := Flatten(op, e, false);
    if IsList(op, e) {
      FlattenAllIsFlat(op, e.terms);
    } else {
      assert |ts| == 1 && ts[1..] == [];
      if op == Or {
        FlattenIsFlat(And, e);
      } else if e.List? {
        FlattenAllIsFlat(Or, e.terms);
      } else if e.Neg? {
        FlatIsFlat(e.arg);
      }
    }
  }

  lemma {:induction false} FlattenAllIsFlat(op: Op, es: seq<Tree>)
    requires AllProper(es) && AllBranching(es)
    ensures AllFlat(op, FlattenAll(op, es, false)) && |FlattenAll(op, es, false)| >= |es|
    decreases es
  {
    if es != [] {
      FlattenIsFlat(op, es[0]);
      FlattenAllIsFlat(op, es[1..]);
      AllFlatAppend(op, Flatten(op, es[0], false), FlattenAll(op, es[1..], false));
    }
  }

  lemma FlatIsFlat(e: Tree)
    requires Proper(e) && Branching(e)
    ensures IsFlat(Flat(e, false))
    decreases e, 2
  {
    FlattenIsFlat(Or, e);
  }

  // ----- construction -----

  function ValueOrYes(e: Option<Tree>, v: Values): Tristate
    requires e.Some? ==> Proper(e.value)
  {
    if e.Some? then Value(e.value, v, false) else YES
  }

  /** _make_or and _make_and, told apart by the constant that decides the operator;
      no expression at all counts as y. */
  function Make(op: Op, a: Option<Tree>, b: Option<Tree>): Option<Tree> {
    var y, n := Some(Leaf(Text("y"))), Some(Leaf(Text("n")));
    var unit, zero := if op == And then y else n, if op == And then n else y;
    if (op == Or && (a == None || b == None)) || a == zero || b == zero then zero
    else if a == None || a == unit then b
    else if b == None || b == unit then a
    else if IsList(op, a.value) || !IsList(op, b.value) then
      Some(List(op, Operands(op, a.value) + Operands(op, b.value)))
    else Some(List(op, b.value.terms + [a.value]))
  }

  function Operands(op: Op, e: Tree): seq<Tree> {
    if IsList(op, e) then e.terms else [e]
  }

  /** Two operands other than y and n end up in one list, those that were in a list
      first, and the left ones first otherwise. */
  lemma MakeOrder(op: Op, a: Tree, b: Tree)
    requires a !in {Leaf(Text("y")), Leaf(Text("n"))} && b !in {Leaf(Text("y")), Leaf(Text("n"))}
    ensures var r := Make(op, Some(a), Some(b));
            && r.Some? && IsList(op, r.value)
            && var ts, front := r.value.terms, if IsList(op, b) && !IsList(op, a) then Operands(op, b) else Operands(op, a);
               front <= ts && multiset(ts) == multiset(Operands(op, a)) + multiset(Operands(op, b))
  {
  }

  lemma OperandsValue(op: Op, e: Tree, v: Values)
    requires Proper(e)
    ensures AllProper(Operands(op, e)) && ValueAll(op, Operands(op, e), v, false) == Value(e, v, false)
    ensures IsFlat(e) ==> AllFlat(op, Operands(op, e))
  {
    assert [e][1..] == [];
  }

  /** The merged list holds the operands of both, in one order or the other. */
  lemma Merged(op: Op, a: Tree, b: Tree, v: Values)
    requires Proper(a) && Proper(b)
    ensures forall l | l in {Operands(op, a) + Operands(op, b), Operands(op, b) + Operands(op, a)} ::
              && Proper(List(op, l)) && |l| >= 2
              && Value(List(op, l), v, false) == Apply(op, Value(a, v, false), Value(b, v, false))
              && (IsFlat(a) && IsFlat(b) ==> IsFlat(List(op, l)))
  {
    var ta, tb := Operands(op, a), Operands(op, b);
    OperandsValue(op, a, v);
    OperandsValue(op, b, v);
    ValueAppend(op, ta, tb, v);
    ValueAppend(op, tb, ta, v);
    if IsFlat(a) && IsFlat(b) {
      AllFlatAppend(op, ta, tb);
      AllFlatAppend(op, tb, ta);
    }
  }

  /** Merging argument lists and dropping constants keeps the value, and keeps flat
      expressions flat. */
  lemma MakeValue(op: Op, a: Option<Tree>, b: Option<Tree>, v: Values)
    requires a.Some? ==> Proper(a.value)
    requires b.Some? ==> Proper(b.value)
    ensures Make(op, a, b).Some? ==> Proper(Make(op, a, b).value)
    ensures ValueOrYes(Make(op, a, b), v) == Apply(op, ValueOrYes(a, v), ValueOrYes(b, v))
    ensures (a.Some? ==> IsFlat(a.value)) && (b.Some? ==> IsFlat(b.value)) && Make(op, a, b).Some? ==>
              IsFlat(Make(op, a, b).value)
  {
    if a.Some? && b.Some? {
      hide ValueAll, AllProper, AllFlat;
      Merged(op, a.value, b.value, v);
      var l := if IsList(op, b.value) && !IsList(op, a.value) then Operands(op, b.value) + Operands(op, a.value)
               else Operands(op, a.value) + Operands(op, b.value);
      assert !IsList(op, a.value) && !IsList(op, b.value) ==> l == [a.value, b.value];
      assert Make(op, a, b) == Some(List(op, l)) || Make(op, a, b).value.Leaf? || Make(op, a, b) in {a, b};
    }
  }
}
