/** What kconfiglib's symbols and choices are worth, computed from scratch. */
module KconfiglibSymbols {
  import opened Tristates
  import opened Options
  import opened Exprs
  import opened KconfiglibExpr

  type Sound = e: Tree | Proper(e) witness Leaf(Text("n"))

  /** Conditions of prompts, values and conditions of defaults, bounds and conditions
      of ranges, symbols and conditions of the defaults of choices. */
  type Prompts = seq<Option<Sound>>
  type Defaults = seq<(Sound, Option<Sound>)>
  type Ranges = seq<(Atom, Atom, Option<Sound>)>
  type ChoiceDefaults = seq<(string, Option<Sound>)>

  /** A Symbol after parsing. `choice` is set for actual choice symbols only, `special`
      holds the value of n, m, y and of symbols that come from the environment. */
  datatype Item = Item(
    kind: SymbolType,
    prompts: Prompts,
    defaults: Defaults,
    revDep: Sound,
    ranges: Ranges,
    choice: Option<nat>,
    special: Option<string>,
    defined: bool)

  datatype ChoiceItem = ChoiceItem(
    kind: SymbolType,
    prompts: Prompts,
    defaults: ChoiceDefaults,
    optional: bool,
    actual: seq<string>)

  /** `number` and `shown` are Python's int() with a base, where it succeeds, and
      hex() or str(). */
  datatype Config = Config(
    syms: map<string, Item>,
    choices: map<nat, ChoiceItem>,
    number: (string, nat) -> Option<int>,
    shown: (bool, int) -> string)

  const NOTHING := Item(Unknown, [], [], Leaf(Text("n")), [], None, None, false)
  const NO_CHOICE := ChoiceItem(Unknown, [], [], false, [])
  const MODULES := "MODULES"

  function ItemOf(k: Config, s: string): Item {
    if s in k.syms then k.syms[s] else NOTHING
  }

  function ChoiceOf(k: Config, c: nat): ChoiceItem {
    if c in k.choices then k.choices[c] else NO_CHOICE
  }

  predicate Logical(kind: SymbolType) {
    kind == Boolean || kind == Tri
  }

  function TextValue(t: string): Tristate {
    AtomValue(Text(t), Values(_ => NO, _ => ""))
  }

  /** Choices list their symbols and default to known ones; choice symbols are logical
      and, like what choices default to, never special; only logical symbols default
      to expressions. */
  ghost predicate Coherent(k: Config) {
    && (forall s | s in k.syms ::
          var i := k.syms[s];
          && (i.choice.Some? ==>
                i.choice.value in k.choices && s in k.choices[i.choice.value].actual
                && Logical(i.kind) && i.special.None?)
          && (i.special.Some? && Logical(i.kind) ==> i.special.value in {"n", "m", "y"})
          && (!Logical(i.kind) ==> forall d | d in i.defaults :: d.0.Leaf?))
    && (forall c, s | c in k.choices && s in k.choices[c].actual :: s in k.syms && k.syms[s].choice == Some(c))
    && (forall c, d | c in k.choices && d in k.choices[c].defaults :: d.0 in k.syms && k.syms[d.0].special.None?)
  }

  /** What the user has set: values of symbols, selections and modes of choices. */
  datatype Users = Users(val: map<string, string>, sel: map<nat, string>, mode: map<nat, Tristate>)

  predicate Accepts(k: Config, s: string, v: string) {
    match ItemOf(k, s).kind
    case Boolean => v == "n" || v == "y"
    case Tri => v == "n" || v == "m" || v == "y"
    case String => true
    case Int => k.number(v, 10).Some?
    case Hex => k.number(v, 16).Some?
    case Unknown => false
  }

  /** User values fit their type, selections are symbols of their choice. */
  ghost predicate UsersFit(k: Config, u: Users) {
    && (forall s | s in u.val :: Accepts(k, s, u.val[s]))
    && (forall c | c in u.sel :: u.sel[c] in ChoiceOf(k, c).actual)
    && (forall c | c in u.mode :: ChoiceOf(k, c).actual != [])
  }

  // ----- one symbol or choice, given the values of the others -----

  datatype View = View(v: Values, modules: bool)

  /** _eval_expr: without modules m counts as y. */
  function Promoted(t: Tristate, w: View): Tristate {
    if t == MOD && !w.modules then YES else t
  }

  function Ev(e: Option<Sound>, w: View): Tristate {
    Promoted(if e.Some? then Value(e.value, w.v, false) else YES, w)
  }

  function EvMin(a: Tristate, b: Tristate, w: View): Tristate {
    Min(Promoted(a, w), Promoted(b, w))
  }

  function EvMax(a: Tristate, b: Tristate, w: View): Tristate {
    Max(Promoted(a, w), Promoted(b, w))
  }

  function PromptMax(prompts: Prompts, w: View): Tristate {
    if prompts == [] then NO else Max(Ev(prompts[0], w), PromptMax(prompts[1..], w))
  }

  function Upgrade(t: Tristate, kind: SymbolType): Tristate {
    if t == MOD && kind != Tri then YES else t
  }

  function ChoiceVisible(k: Config, c: nat, w: View): Tristate {
    Upgrade(PromptMax(ChoiceOf(k, c).prompts, w), ChoiceOf(k, c).kind)
  }

  function Visible(k: Config, s: string, w: View): Tristate {
    var i := ItemOf(k, s);
    var vis := PromptMax(i.prompts, w);
    Upgrade(if i.choice.Some? then EvMin(vis, ChoiceVisible(k, i.choice.value, w), w) else vis, i.kind)
  }

  function Mode(k: Config, u: Users, c: nat, w: View): Tristate {
    var i := ChoiceOf(k, c);
    var wanted := if c in u.mode then u.mode[c] else if i.optional then NO else MOD;
    var mode := EvMin(wanted, ChoiceVisible(k, c, w), w);
    if mode == MOD && i.kind == Boolean then YES else mode
  }

  /** The first default whose condition is not n, or else `otherwise`. */
  function DefaultChoice(defaults: ChoiceDefaults, otherwise: string, w: View): string {
    if defaults == [] then otherwise
    else if Ev(defaults[0].1, w) != NO then defaults[0].0
    else DefaultChoice(defaults[1..], otherwise, w)
  }

  function FirstVisible(k: Config, of: seq<string>, w: View): Option<string> {
    if of == [] then None
    else if Visible(k, of[0], w) != NO then Some(of[0])
    else FirstVisible(k, of[1..], w)
  }

  function SelectionFromDefaults(k: Config, c: nat, w: View): Option<string> {
    var i := ChoiceOf(k, c);
    if i.actual == [] then None
    else
      var chosen := DefaultChoice(i.defaults, i.actual[0], w);
      if Visible(k, chosen, w) != NO then Some(chosen) else FirstVisible(k, i.actual, w)
  }

  function Selection(k: Config, u: Users, c: nat, w: View): Option<string> {
    if Mode(k, u, c, w) != YES then None
    else if c in u.sel && Visible(k, u.sel[c], w) == YES then Some(u.sel[c])
    else if ChoiceOf(k, c).optional then None
    else SelectionFromDefaults(k, c, w)
  }

  /** A value and whether it goes into the .config. */
  datatype Outcome = Outcome(val: string, write: bool)

  function ChoiceSymbol(k: Config, u: Users, s: string, c: nat, w: View): (Tristate, bool) {
    if Visible(k, s, w) == NO then (NO, false)
    else
      var mode := Mode(k, u, c, w);
      var tri :=
        if mode == YES then (if Selection(k, u, c, w) == Some(s) then YES else NO)
        else if mode == MOD && s in u.val && (u.val[s] == "m" || u.val[s] == "y") then MOD
        else NO;
      (tri, mode != NO)
  }

  /** The first default that applies, limited by its condition. */
  function LogicalDefault(defaults: Defaults, w: View): Option<Tristate> {
    if defaults == [] then None
    else if Ev(defaults[0].1, w) != NO then Some(EvMin(Ev(Some(defaults[0].0), w), Ev(defaults[0].1, w), w))
    else LogicalDefault(defaults[1..], w)
  }

  function PlainSymbol(k: Config, u: Users, s: string, w: View): (Tristate, bool) {
    var i := ItemOf(k, s);
    var vis := Visible(k, s, w);
    var d := LogicalDefault(i.defaults, w);
    var byUser := vis != NO && s in u.val;
    var tri := if byUser then EvMin(TextValue(u.val[s]), vis, w) else if d.Some? then d.value else NO;
    var rev := Ev(Some(i.revDep), w);
    (if rev != NO then EvMax(tri, rev, w) else tri, vis != NO || (!byUser && d.Some?) || rev != NO)
  }

  function StringOf(e: Sound, w: View): string {
    if e.Leaf? then AtomString(e.atom, w.v) else ""
  }

  function StringDefault(defaults: Defaults, w: View): Option<string> {
    if defaults == [] then None
    else if Ev(defaults[0].1, w) != NO then Some(StringOf(defaults[0].0, w))
    else StringDefault(defaults[1..], w)
  }

  datatype Range = NoRange | Range(low: int, high: int)

  function NumberOr0(k: Config, t: string, base: nat): int {
    var n := k.number(t, base);
    if n.Some? then n.value else 0
  }

  function ActiveRange(k: Config, ranges: Ranges, base: nat, w: View): Range {
    if ranges == [] then NoRange
    else if Ev(ranges[0].2, w) != NO then
      Range(NumberOr0(k, AtomString(ranges[0].0, w.v), base), NumberOr0(k, AtomString(ranges[0].1, w.v), base))
    else ActiveRange(k, ranges[1..], base, w)
  }

  function Clamped(k: Config, t: string, base: nat, r: Range): string
    requires k.number(t, base).Some?
  {
    var n := k.number(t, base).value;
    if r.Range? && n < r.low then k.shown(base == 16, r.low)
    else if r.Range? && n > r.high then k.shown(base == 16, r.high)
    else t
  }

  /** Defaults that are no numbers are taken over but do not end the search; after
      all of them the low end of the range has its turn. */
  function NumberDefault(k: Config, defaults: Defaults, base: nat, r: Range, w: View, so: Outcome): Outcome {
    if defaults == [] then
      if r.Range? && r.low > 0 then Outcome(k.shown(base == 16, r.low), so.write) else so
    else if Ev(defaults[0].1, w) == NO then NumberDefault(k, defaults[1..], base, r, w, so)
    else
      var t := StringOf(defaults[0].0, w);
      if k.number(t, base).Some? then Outcome(Clamped(k, t, base, r), true)
      else NumberDefault(k, defaults[1..], base, r, w, Outcome(t, true))
  }

  function NumberSymbol(k: Config, u: Users, s: string, base: nat, w: View): Outcome {
    var i := ItemOf(k, s);
    var r := ActiveRange(k, i.ranges, base, w);
    var vis := Visible(k, s, w);
    var n := if s in u.val then k.number(u.val[s], base) else None;
    if vis != NO && n.Some? && (r.NoRange? || r.low <= n.value <= r.high) then Outcome(u.val[s], true)
    else NumberDefault(k, i.defaults, base, r, w, Outcome("", vis != NO))
  }

  function StringSymbol(k: Config, u: Users, s: string, w: View): Outcome {
    var vis := Visible(k, s, w);
    if vis != NO && s in u.val then Outcome(u.val[s], true)
    else
      var d := StringDefault(ItemOf(k, s).defaults, w);
      if d.Some? then Outcome(d.value, true) else Outcome("", vis != NO)
  }

  /** Symbol.get_value. */
  function OutcomeIn(k: Config, u: Users, w: View, s: string): Outcome {
    var i := ItemOf(k, s);
    if i.special.Some? then Outcome(i.special.value, false)
    else match i.kind
      case Unknown => Outcome(s, false)
      case String => StringSymbol(k, u, s, w)
      case Int => NumberSymbol(k, u, s, 10, w)
      case Hex => NumberSymbol(k, u, s, 16, w)
      case _ =>
        var (tri, write) := if i.choice.Some? then ChoiceSymbol(k, u, s, i.choice.value, w) else PlainSymbol(k, u, s, w);
        Outcome(TristateName(if tri == MOD && i.kind == Boolean then YES else tri), write)
  }

  // ----- what a symbol depends on -----

  /** _get_expr_syms. */
  function Names(e: Tree): set<string>
    decreases e
  {
    match e
    case Leaf(a) => AtomNames(a)
    case Rel(_, a, b) => AtomNames(a) + if b.Some? && b.value.AtomToken? then AtomNames(b.value.atom) else {}
    case Neg(x) => Names(x)
    case List(_, es) => NamesAll(es)
  }

  function AtomNames(a: Atom): set<string> {
    if a.Name? then {a.name} else {}
  }

  function NamesAll(es: seq<Tree>): set<string>
    decreases es
  {
    if es == [] then {} else Names(es[0]) + NamesAll(es[1..])
  }

  function OptionNames(e: Option<Sound>): set<string> {
    if e.Some? then Names(e.value) else {}
  }

  function PromptNames(prompts: Prompts): set<string> {
    if prompts == [] then {} else OptionNames(prompts[0]) + PromptNames(prompts[1..])
  }

  function DefaultNames(defaults: Defaults): set<string> {
    if defaults == [] then {}
    else Names(defaults[0].0) + OptionNames(defaults[0].1) + DefaultNames(defaults[1..])
  }

  function RangeNames(ranges: Ranges): set<string> {
    if ranges == [] then {}
    else AtomNames(ranges[0].0) + AtomNames(ranges[0].1) + OptionNames(ranges[0].2) + RangeNames(ranges[1..])
  }

  function ChoiceDefaultNames(defaults: ChoiceDefaults): set<string> {
    if defaults == [] then {} else OptionNames(defaults[0].1) + ChoiceDefaultNames(defaults[1..])
  }

  function ChoiceNames(i: ChoiceItem): set<string> {
    PromptNames(i.prompts) + ChoiceDefaultNames(i.defaults)
  }

  /** The symbols _build_dep makes `s` a dependent of. */
  function Direct(k: Config, s: string): set<string> {
    var i := ItemOf(k, s);
    PromptNames(i.prompts) + DefaultNames(i.defaults) + Names(i.revDep) + RangeNames(i.ranges)
    + if i.choice.Some? then ChoiceNames(ChoiceOf(k, i.choice.value)) else {}
  }

  /** The symbols the visibility of `s` depends on. */
  function VisibleNames(k: Config, s: string): set<string> {
    var i := ItemOf(k, s);
    PromptNames(i.prompts) + if i.choice.Some? then PromptNames(ChoiceOf(k, i.choice.value).prompts) else {}
  }

  /** The symbols that the visibility of what a choice defaults to depends on. */
  function DefaultVisibleNames(k: Config, defaults: ChoiceDefaults): set<string> {
    if defaults == [] then {} else VisibleNames(k, defaults[0].0) + DefaultVisibleNames(k, defaults[1..])
  }

  /** All that the evaluation of `s` may ask for. */
  function Reads(k: Config, s: string): set<string> {
    var i := ItemOf(k, s);
    Direct(k, s) + if i.choice.Some? then DefaultVisibleNames(k, ChoiceOf(k, i.choice.value).defaults) else {}
  }

  /** The symbols of the choice `s` belongs to, or `s` alone. */
  function Group(k: Config, s: string): set<string> {
    var i := ItemOf(k, s);
    if i.choice.Some? then (set t | t in ChoiceOf(k, i.choice.value).actual) else {s}
  }

  predicate MayBeM(k: Config, s: string) {
    var i := ItemOf(k, s);
    Logical(i.kind) && if i.special.Some? then i.special.value == "m" else i.kind == Tri
  }

  /** The expression mentions m, or a symbol that can be m. */
  predicate CanBeM(k: Config, e: Tree)
    decreases e
  {
    match e
    case Leaf(a) => if a.Name? then MayBeM(k, a.name) else a.text == "m"
    case Rel(_, _, _) => false
    case Neg(x) => CanBeM(k, x)
    case List(_, es) => AnyCanBeM(k, es)
  }

  predicate AnyCanBeM(k: Config, es: seq<Tree>)
    decreases es
  {
    es != [] && (CanBeM(k, es[0]) || AnyCanBeM(k, es[1..]))
  }

  predicate OptionCanBeM(k: Config, e: Option<Sound>) {
    e.Some? && CanBeM(k, e.value)
  }

  /** Evaluating `s` may ask whether modules are enabled. */
  predicate Sensitive(k: Config, s: string) {
    var i := ItemOf(k, s);
    || i.choice.Some?
    || i.kind == Tri
    || (exists e | e in i.prompts :: OptionCanBeM(k, e))
    || (exists d | d in i.defaults :: CanBeM(k, d.0) || OptionCanBeM(k, d.1))
    || CanBeM(k, i.revDep)
    || (exists r | r in i.ranges :: OptionCanBeM(k, r.2))
  }

  /** No symbol depends on itself, through whatever chain, where the symbols of a
      choice count as one, and where symbols that may ask for modules depend on MODULES. */
  ghost predicate Ranked(k: Config, rank: string -> nat) {
    && (forall s, t | s in k.syms && t in Reads(k, s) :: t in k.syms && rank(t) < rank(s))
    && (forall s, t | s in k.syms && t in Group(k, s) :: rank(t) == rank(s))
    && (forall s | s in k.syms && k.syms[s].special.None? && Sensitive(k, s) && MODULES in k.syms ::
          rank(MODULES) < rank(s))
  }

  // ----- the meaning of a configuration -----

  function ViewOf(k: Config, str: string -> string): View {
    View(Values(s => if Logical(ItemOf(k, s).kind) then TextValue(str(s)) else NO, str),
         MODULES in k.syms && str(MODULES) == "y")
  }

  /** The value of a symbol without any cache. */
  ghost function Meaning(k: Config, u: Users, rank: string -> nat, s: string): Outcome
    decreases rank(s), 1
  {
    OutcomeIn(k, u, Below(k, u, rank, s), s)
  }

  ghost function Below(k: Config, u: Users, rank: string -> nat, s: string): View
    decreases rank(s), 0
  {
    ViewOf(k, t => if rank(t) < rank(s) then Meaning(k, u, rank, t).val else "n")
  }

  ghost function Full(k: Config, u: Users, rank: string -> nat): View {
    ViewOf(k, t => Meaning(k, u, rank, t).val)
  }

  ghost predicate Typed(k: Config, w: View) {
    forall s | !MayBeM(k, s) :: w.v.tri(s) != MOD
  }

  /** The views show the same of the symbols in `on`, and of modules where it matters. */
  ghost predicate Same(k: Config, w1: View, w2: View, on: set<string>, sensitive: bool) {
    && (forall s | s in on :: w1.v.tri(s) == w2.v.tri(s) && w1.v.str(s) == w2.v.str(s))
    && (w1.modules == w2.modules || (!sensitive && Typed(k, w1) && Typed(k, w2)))
  }

  lemma {:induction false} ValueNotM(k: Config, e: Tree, w: View)
    requires Proper(e) && !CanBeM(k, e) && Typed(k, w)
    ensures Value(e, w.v, false) != MOD
    decreases e
  {
    match e
    case Neg(x) => ValueNotM(k, x, w);
    case List(op, es) => ValueAllNotM(k, op, es, w);
    case _ =>
  }

  lemma {:induction false} ValueAllNotM(k: Config, op: Op, es: seq<Tree>, w: View)
    requires AllProper(es) && !AnyCanBeM(k, es) && Typed(k, w)
    ensures ValueAll(op, es, w.v, false) != MOD
    decreases es
  {
    if es != [] {
      ValueNotM(k, es[0], w);
      ValueAllNotM(k, op, es[1..], w);
    }
  }

  lemma {:induction false} ValueSame(k: Config, e: Tree, w1: View, w2: View)
    requires Proper(e) && Same(k, w1, w2, Names(e), CanBeM(k, e))
    ensures Value(e, w1.v, false) == Value(e, w2.v, false)
    decreases e
  {
    match e
    case Neg(x) => ValueSame(k, x, w1, w2);
    case List(op, es) => ValueAllSame(k, op, es, w1, w2);
    case _ =>
  }

  lemma {:induction false} ValueAllSame(k: Config, op: Op, es: seq<Tree>, w1: View, w2: View)
    requires AllProper(es) && Same(k, w1, w2, NamesAll(es), AnyCanBeM(k, es))
    ensures ValueAll(op, es, w1.v, false) == ValueAll(op, es, w2.v, false)
    decreases es
  {
    if es != [] {
      ValueSame(k, es[0], w1, w2);
      ValueAllSame(k, op, es[1..], w1, w2);
    }
  }

  lemma EvSame(k: Config, e: Option<Sound>, w1: View, w2: View)
    requires Same(k, w1, w2, OptionNames(e), OptionCanBeM(k, e))
    ensures Ev(e, w1) == Ev(e, w2)
  {
    if e.Some? {
      ValueSame(k, e.value, w1, w2);
      if w1.modules != w2.modules {
        ValueNotM(k, e.value, w1);
      }
    }
  }
}
