/** What kconfiglib's int and hex symbols are worth, said without the functions that
    compute it: by position among ranges and defaults, and as the nearest number. */
module KconfiglibNumber {
  import opened Tristates
  import opened Options
  import opened Exprs
  import KconfiglibExpr
  import opened KconfiglibSymbols
  import opened KconfiglibMeaning

  /** What Python's hex() and str() write is read back as the same number. */
  ghost predicate ReadsBack(k: Config, base: nat) {
    forall n :: k.number(k.shown(base == 16, n), base) == Some(n)
  }

  function NumberIn(k: Config, t: string, base: nat): int {
    match k.number(t, base)
    case Some(n) => n
    case None => 0
  }

  /** The `i`th range is the first one in force. */
  predicate IsFirstRange(ranges: Ranges, i: nat, w: View) {
    i < |ranges| && Ev(ranges[i].2, w) != NO && forall j | 0 <= j < i :: Ev(ranges[j].2, w) == NO
  }

  predicate NoRangeInForce(ranges: Ranges, w: View) {
    forall j | 0 <= j < |ranges| :: Ev(ranges[j].2, w) == NO
  }

  /** The first range in force applies. */
  lemma {:induction false} RangeExactly(k: Config, ranges: Ranges, base: nat, w: View)
    ensures forall i: nat | IsFirstRange(ranges, i, w) ::
              ActiveRange(k, ranges, base, w)
              == Range(NumberIn(k, AtomStringOf(ranges[i].0, w), base), NumberIn(k, AtomStringOf(ranges[i].1, w), base))
    ensures NoRangeInForce(ranges, w) <==> ActiveRange(k, ranges, base, w) == NoRange
    ensures NoRangeInForce(ranges, w) || exists i: nat :: IsFirstRange(ranges, i, w)
  {
    hide Ev;
    if ranges != [] && Ev(ranges[0].2, w) == NO {
      RangeExactly(k, ranges[1..], base, w);
      forall i: nat | IsFirstRange(ranges, i, w) ensures i > 0 && IsFirstRange(ranges[1..], i - 1, w) {
        assert forall j | 0 <= j < i - 1 :: ranges[1..][j] == ranges[j + 1];
      }
      if i: nat :| IsFirstRange(ranges[1..], i, w) {
        assert IsFirstRange(ranges, i + 1, w);
      } else {
        assert forall j | 0 < j < |ranges| :: ranges[j] == ranges[1..][j - 1];
      }
    } else if ranges != [] {
      assert IsFirstRange(ranges, 0, w);
    }
  }

  function AtomStringOf(a: KconfiglibExpr.Atom, w: View): string {
    KconfiglibExpr.AtomString(a, w.v)
  }

  // ----- the user value -----

  /** The number is within the first range in force, if there is one. */
  ghost predicate InRange(k: Config, ranges: Ranges, base: nat, w: View, n: int) {
    forall i: nat | IsFirstRange(ranges, i, w) ::
      NumberIn(k, AtomStringOf(ranges[i].0, w), base) <= n <= NumberIn(k, AtomStringOf(ranges[i].1, w), base)
  }

  ghost predicate ByUser(k: Config, u: Users, s: string, base: nat, w: View) {
    && Visible(k, s, w) != NO && s in u.val
    && k.number(u.val[s], base).Some? && InRange(k, ItemOf(k, s).ranges, base, w, k.number(u.val[s], base).value)
  }

  lemma InRangeActive(k: Config, ranges: Ranges, base: nat, w: View, n: int)
    ensures var r := ActiveRange(k, ranges, base, w);
            InRange(k, ranges, base, w, n) <==> r.NoRange? || r.low <= n <= r.high
  {
    hide Ev, ActiveRange, IsFirstRange, NoRangeInForce, NumberIn;
    RangeExactly(k, ranges, base, w);
    if NoRangeInForce(ranges, w) { NoFirstRange(ranges, w); }
  }

  lemma NoFirstRange(ranges: Ranges, w: View)
    requires NoRangeInForce(ranges, w)
    ensures forall i: nat :: !IsFirstRange(ranges, i, w)
  {
  }

  /** The user value is taken, as it was written, exactly if the symbol is visible and it
      is a number within the range in force; any other leaves the default. */
  lemma UserNumber(k: Config, u: Users, s: string, base: nat, w: View)
    ensures ByUser(k, u, s, base, w) ==> NumberSymbol(k, u, s, base, w) == Outcome(u.val[s], true)
    ensures !ByUser(k, u, s, base, w) ==>
              NumberSymbol(k, u, s, base, w) == NumberSymbol(k, u.(val := u.val - {s}), s, base, w)
  {
    hide Visible, ActiveRange, InRange, NumberDefault;
    if s in u.val && k.number(u.val[s], base).Some? {
      InRangeActive(k, ItemOf(k, s).ranges, base, w, k.number(u.val[s], base).value);
    }
  }

  // ----- the default -----

  predicate InForce(defaults: Defaults, j: nat, w: View) {
    j < |defaults| && Ev(defaults[j].1, w) != NO
  }

  predicate IsNumeric(k: Config, defaults: Defaults, j: nat, base: nat, w: View)
    requires j < |defaults|
  {
    k.number(StringOf(defaults[j].0, w), base).Some?
  }

  /** The `j`th default is the first one in force that is a number. */
  predicate IsFirstNumber(k: Config, defaults: Defaults, j: nat, base: nat, w: View) {
    && InForce(defaults, j, w) && IsNumeric(k, defaults, j, base, w)
    && forall l: nat | l < j :: !(InForce(defaults, l, w) && IsNumeric(k, defaults, l, base, w))
  }

  predicate NoNumber(k: Config, defaults: Defaults, base: nat, w: View) {
    forall l: nat | l < |defaults| :: !(InForce(defaults, l, w) && IsNumeric(k, defaults, l, base, w))
  }

  /** The `j`th default is the last one in force. */
  predicate IsLastInForce(defaults: Defaults, j: nat, w: View) {
    InForce(defaults, j, w) && forall l: nat | j < l < |defaults| :: !InForce(defaults, l, w)
  }

  predicate NoneInForce(defaults: Defaults, w: View) {
    forall l: nat | l < |defaults| :: !InForce(defaults, l, w)
  }

  function AbsDiff(a: int, b: int): nat {
    if a < b then b - a else a - b
  }

  /** `t` is a number within the range, and of those the nearest to `n`. */
  ghost predicate IsNearest(k: Config, t: string, base: nat, r: Range, n: int)
    requires r.Range?
  {
    var m := k.number(t, base);
    && m.Some? && r.low <= m.value <= r.high
    && forall x | r.low <= x <= r.high :: AbsDiff(m.value, n) <= AbsDiff(x, n)
  }

  lemma ClampedIsNearest(k: Config, t: string, base: nat, r: Range)
    requires k.number(t, base).Some? && ReadsBack(k, base)
    ensures var n := k.number(t, base).value;
            && (r.NoRange? || r.low <= n <= r.high ==> Clamped(k, t, base, r) == t)
            && (r.Range? && r.low <= r.high ==> IsNearest(k, Clamped(k, t, base, r), base, r, n))
            && (r.Range? && r.low > r.high ==> k.number(Clamped(k, t, base, r), base) == Some(if n < r.low then r.low else r.high))
  {
    if r.Range? {
      assert k.number(k.shown(base == 16, r.low), base) == Some(r.low);
      assert k.number(k.shown(base == 16, r.high), base) == Some(r.high);
    }
  }

  /** The first number in force is what counts, brought into the range; without one, the
      low end of the range if above 0, or else the text of the last default in force. */
  lemma {:induction false} DefaultNumber(k: Config, defaults: Defaults, base: nat, r: Range, w: View, so: Outcome)
    requires ReadsBack(k, base)
    ensures var o := NumberDefault(k, defaults, base, r, w, so);
            && (forall j: nat | IsFirstNumber(k, defaults, j, base, w) ::
                  o == Outcome(Clamped(k, StringOf(defaults[j].0, w), base, r), true))
            && (NoNumber(k, defaults, base, w) ==>
                  && (r.Range? && r.low > 0 ==> k.number(o.val, base) == Some(r.low))
                  && (!(r.Range? && r.low > 0) ==>
                        && (forall j: nat | IsLastInForce(defaults, j, w) :: o.val == StringOf(defaults[j].0, w))
                        && (NoneInForce(defaults, w) ==> o.val == so.val))
                  && (o.write <==> so.write || !NoneInForce(defaults, w)))
    decreases defaults
  {
    hide Ev, StringOf, Clamped;
    if defaults != [] {
      var rest := defaults[1..];
      assert forall l: nat | 0 < l < |defaults| :: defaults[l] == rest[l - 1];
      var t := StringOf(defaults[0].0, w);
      DefaultNumber(k, rest, base, r, w, so);
      DefaultNumber(k, rest, base, r, w, Outcome(t, true));
      LaterDefaults(k, defaults, base, w);
    }
  }

  lemma LaterDefaults(k: Config, defaults: Defaults, base: nat, w: View)
    requires defaults != []
    ensures var rest := defaults[1..];
            var first := InForce(defaults, 0, w) && IsNumeric(k, defaults, 0, base, w);
            && (NoNumber(k, defaults, base, w) <==> !first && NoNumber(k, rest, base, w))
            && (NoneInForce(defaults, w) <==> !InForce(defaults, 0, w) && NoneInForce(rest, w))
            && (forall j: nat | IsFirstNumber(k, defaults, j, base, w) ::
                  if first then j == 0 else j > 0 && IsFirstNumber(k, rest, j - 1, base, w))
            && (forall j: nat | IsLastInForce(defaults, j, w) ::
                  if j == 0 then NoneInForce(rest, w) else IsLastInForce(rest, j - 1, w))
  {
    hide Ev, StringOf;
    var rest := defaults[1..];
    assert forall l: nat | l < |rest| ::
      (InForce(rest, l, w) <==> InForce(defaults, l + 1, w)) && (IsNumeric(k, rest, l, base, w) <==> IsNumeric(k, defaults, l + 1, base, w));
    assert forall l: nat | 0 < l < |defaults| :: 
      (InForce(defaults, l, w) <==> InForce(rest, l - 1, w)) && (IsNumeric(k, defaults, l, base, w) <==> IsNumeric(k, rest, l - 1, base, w));
  }

  // ----- the symbol -----

  function BaseOf(k: Config, s: string): nat {
    if ItemOf(k, s).kind == Hex then 16 else 10
  }

  /** Bounds in force. */
  predicate Bounds(k: Config, s: string, w: View, low: int, high: int) {
    var ranges, base := ItemOf(k, s).ranges, BaseOf(k, s);
    exists i: nat | i < |ranges| ::
      && IsFirstRange(ranges, i, w)
      && NumberIn(k, AtomStringOf(ranges[i].0, w), base) == low && NumberIn(k, AtomStringOf(ranges[i].1, w), base) == high
  }

  /** An int or hex symbol that does not take a user value. A default that is a number is
      taken as it stands if within the bounds or without any, and is otherwise brought
      to the nearest number within (to the low bound if below it and to the high one
      if not, should they be the wrong way round); without one, the low bound counts, if above 0. */
  ghost predicate IsDefaultNumber(k: Config, s: string, w: View, t: string) {
    var defaults, base := ItemOf(k, s).defaults, BaseOf(k, s);
    && (forall j: nat | IsFirstNumber(k, defaults, j, base, w) ::
          var d := StringOf(defaults[j].0, w);
          && (NoRangeInForce(ItemOf(k, s).ranges, w) ==> t == d)
          && (forall low, high | Bounds(k, s, w, low, high) ::
                && (low <= NumberIn(k, d, base) <= high ==> t == d)
                && (low <= high ==> IsNearest(k, t, base, Range(low, high), NumberIn(k, d, base)))
                && (low > high ==> k.number(t, base) == Some(if NumberIn(k, d, base) < low then low else high))))
    && (NoNumber(k, defaults, base, w) ==>
          && (forall low, high | Bounds(k, s, w, low, high) && low > 0 :: k.number(t, base) == Some(low))
          && ((forall low, high | Bounds(k, s, w, low, high) :: low <= 0) ==>
                && (forall j: nat | IsLastInForce(defaults, j, w) :: t == StringOf(defaults[j].0, w))
                && (NoneInForce(defaults, w) ==> t == "")))
  }

  lemma BoundsActive(k: Config, s: string, w: View)
    ensures var r := ActiveRange(k, ItemOf(k, s).ranges, BaseOf(k, s), w);
            && (forall low, high :: Bounds(k, s, w, low, high) <==> r == Range(low, high))
            && (NoRangeInForce(ItemOf(k, s).ranges, w) <==> r == NoRange)
  {
    hide Ev, ActiveRange, IsFirstRange, NoRangeInForce, NumberIn;
    var ranges := ItemOf(k, s).ranges;
    RangeExactly(k, ranges, BaseOf(k, s), w);
    if NoRangeInForce(ranges, w) {
      NoFirstRange(ranges, w);
    } else {
      var i: nat :| IsFirstRange(ranges, i, w);
      assert i < |ranges| by { FirstWithin(ranges, i, w); }
    }
  }

  lemma FirstWithin(ranges: Ranges, i: nat, w: View)
    requires IsFirstRange(ranges, i, w)
    ensures i < |ranges|
  {
  }

  lemma DefaultTaken(k: Config, u: Users, s: string, w: View)
    requires ReadsBack(k, BaseOf(k, s)) && !ByUser(k, u, s, BaseOf(k, s), w)
    ensures IsDefaultNumber(k, s, w, NumberSymbol(k, u, s, BaseOf(k, s), w).val)
    ensures NumberSymbol(k, u, s, BaseOf(k, s), w).write <==> Visible(k, s, w) != NO || !NoneInForce(ItemOf(k, s).defaults, w)
  {
    hide Visible, ActiveRange, NumberDefault, ByUser, Bounds, NoRangeInForce, IsFirstNumber, NoNumber, IsLastInForce, NoneInForce,
      StringOf, Clamped, IsNearest, ReadsBack;
    var i, base := ItemOf(k, s), BaseOf(k, s);
    var r := ActiveRange(k, i.ranges, base, w);
    InRangeActiveOrNot(k, u, s, base, w);
    BoundsActive(k, s, w);
    DefaultNumber(k, i.defaults, base, r, w, Outcome("", Visible(k, s, w) != NO));
    FirstNumberFound(k, i.defaults, base, w);
    forall j: nat | IsFirstNumber(k, i.defaults, j, base, w)
      ensures j < |i.defaults| && k.number(StringOf(i.defaults[j].0, w), base).Some? && !NoneInForce(i.defaults, w)
    {
      FirstIsNumber(k, i.defaults, j, base, w);
    }
    forall t: string | k.number(t, base).Some?
      ensures NumberIn(k, t, base) == k.number(t, base).value
      ensures r.NoRange? || r.low <= NumberIn(k, t, base) <= r.high ==> Clamped(k, t, base, r) == t
      ensures r.Range? && r.low <= r.high ==> IsNearest(k, Clamped(k, t, base, r), base, r, NumberIn(k, t, base))
      ensures r.Range? && r.low > r.high ==>
                k.number(Clamped(k, t, base, r), base) == Some(if NumberIn(k, t, base) < r.low then r.low else r.high)
    {
      ClampedIsNearest(k, t, base, r);
    }
  }

  lemma FirstIsNumber(k: Config, defaults: Defaults, j: nat, base: nat, w: View)
    requires IsFirstNumber(k, defaults, j, base, w)
    ensures j < |defaults| && k.number(StringOf(defaults[j].0, w), base).Some? && !NoneInForce(defaults, w)
  {
    hide Ev, StringOf;
  }

  lemma {:induction false} FirstNumberFound(k: Config, defaults: Defaults, base: nat, w: View)
    ensures NoNumber(k, defaults, base, w) || exists j: nat | j < |defaults| :: IsFirstNumber(k, defaults, j, base, w)
  {
    hide Ev, StringOf;
    if !NoNumber(k, defaults, base, w) {
      var j: nat := 0;
      while !(InForce(defaults, j, w) && IsNumeric(k, defaults, j, base, w))
        invariant j < |defaults|
        invariant forall l: nat | l < j :: !(InForce(defaults, l, w) && IsNumeric(k, defaults, l, base, w))
        decreases |defaults| - j
      {
        if j + 1 == |defaults| {
          assert false;
        }
        j := j + 1;
      }
      assert IsFirstNumber(k, defaults, j, base, w);
    }
  }

  lemma InRangeActiveOrNot(k: Config, u: Users, s: string, base: nat, w: View)
    requires !ByUser(k, u, s, base, w)
    ensures NumberSymbol(k, u, s, base, w) ==
            NumberDefault(k, ItemOf(k, s).defaults, base, ActiveRange(k, ItemOf(k, s).ranges, base, w), w,
                          Outcome("", Visible(k, s, w) != NO))
  {
    hide Visible, ActiveRange, InRange, NumberDefault;
    if s in u.val && k.number(u.val[s], base).Some? {
      InRangeActive(k, ItemOf(k, s).ranges, base, w, k.number(u.val[s], base).value);
    }
  }

  /** What an int or hex symbol of a whole configuration is worth, and when it is written. */
  lemma NumberMeaning(k: Config, u: Users, rank: string -> nat, s: string)
    requires Coherent(k) && UsersFit(k, u) && Ranked(k, rank) && ReadsBack(k, BaseOf(k, s))
    requires s in k.syms && k.syms[s].special.None? && (k.syms[s].kind == Int || k.syms[s].kind == Hex)
    ensures var w, o := Full(k, u, rank), Meaning(k, u, rank, s);
            if ByUser(k, u, s, BaseOf(k, s), w) then o == Outcome(u.val[s], true)
            else
              && IsDefaultNumber(k, s, w, o.val)
              && (o.write <==> Visible(k, s, w) != NO || !NoneInForce(k.syms[s].defaults, w))
  {
    hide Coherent, UsersFit, Ranked, ReadsBack, Full, Meaning, ByUser, IsDefaultNumber, Visible, NoneInForce, NumberSymbol;
    var w := Full(k, u, rank);
    MeaningEquation(k, u, rank, s);
    UserNumber(k, u, s, BaseOf(k, s), w);
    if !ByUser(k, u, s, BaseOf(k, s), w) {
      DefaultTaken(k, u, s, w);
    }
  }
}
