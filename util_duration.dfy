/** Duration strings of the bot's utilities (util/__init__.py): the
    `TIME_REGEX` parser behind `time_string_to_timedelta` and
    `time_string_to_seconds`, and the `timedelta_to_string` formatter. */
module UtilDuration {
  import opened Wrappers
  import opened PyText

  // ---------------------------------------------------------------------
  // TIME_REGEX
  // ---------------------------------------------------------------------

  /** The unit letters of `TIME_REGEX`, in the order its groups appear:
      weeks, days, hours, minutes, seconds. */
  const Units: string := "wdhms"

  /** The seconds in one of each unit of `Units`. */
  const UnitSeconds: seq<nat> := [604800, 86400, 3600, 60, 1]

  /** What one optional group `((?P<name>\d+)u)?` takes from the front of
      the text, and what it leaves. */
  datatype Group = Group(amount: nat, rest: string)

  /** One group of `TIME_REGEX`: the longest digit run followed by the unit
      letter, or nothing (amount 0, text untouched). A shorter digit run
      cannot be followed by the letter, so backtracking finds no other
      match. */
  function OptionalUnit(s: string, unit: char): (g: Group)
    ensures |g.rest| <= |s|
  {
    var k := DigitRun(s);
    if 0 < k < |s| && s[k] == unit then
      assert AllDigits(s[..k], 10) by {
        forall i | 0 <= i < k ensures IsDigitIn(s[..k][i], 10) { assert s[..k][i] == s[i]; }
      }
      Group(DigitsValue(s[..k], 10), s[k + 1..])
    else Group(0, s)
  }

  /** The amounts of consecutive optional groups for `units`, 0 for each
      group that did not match. `re.match` anchors only at the start and
      every group is optional, so every text matches. */
  function Amounts(s: string, units: string): (a: seq<nat>)
    ensures |a| == |units|
    decreases |units|
  {
    if units == [] then []
    else
      var g := OptionalUnit(s, units[0]);
      [g.amount] + Amounts(g.rest, units[1..])
  }

  /** `a[0] * w[0] + a[1] * w[1] + ...`. */
  function Weighted(a: seq<nat>, w: seq<nat>): nat
    requires |a| == |w|
  {
    if a == [] then 0 else a[0] * w[0] + Weighted(a[1..], w[1..])
  }

  /** The largest `days` a `timedelta` holds. */
  const MaxDays := 999999999

  /** The seconds of a day, the range of `timedelta.seconds`. */
  type DaySeconds = s: nat | s < 86400

  /** A non-negative `timedelta` without microseconds, normalised as Python
      keeps it: whole days plus the seconds of the last day. */
  datatype Timedelta = Timedelta(days: nat, seconds: DaySeconds)

  /** `td.total_seconds()`. */
  function TotalSeconds(t: Timedelta): nat {
    t.days * 86400 + t.seconds
  }

  /** `timedelta(seconds=total)`, or None for the OverflowError of more than
      `MaxDays` days. */
  function FromSeconds(total: nat): (r: Option<Timedelta>)
    ensures r.Some? <==> total / 86400 <= MaxDays
    ensures r.Some? ==> TotalSeconds(r.value) == total
  {
    if total / 86400 <= MaxDays then Some(Timedelta(total / 86400, total % 86400)) else None
  }

  /** `time_string_to_timedelta`: the groups of `TIME_REGEX`, each unit
      weighed by its seconds. None stands for the OverflowError of a
      `timedelta` beyond `MaxDays` days. */
  function TimeStringToTimedelta(s: string): (r: Option<Timedelta>)
    ensures r.Some? ==> TotalSeconds(r.value) == Weighted(Amounts(s, Units), UnitSeconds)
  {
    FromSeconds(Weighted(Amounts(s, Units), UnitSeconds))
  }

  /** `time_string_to_seconds`: the total seconds of the parsed duration. */
  function TimeStringToSeconds(s: string): (r: Option<nat>)
    ensures r.Some? <==> TimeStringToTimedelta(s).Some?
    ensures r.Some? ==> r.value == TotalSeconds(TimeStringToTimedelta(s).value)
  {
    match TimeStringToTimedelta(s)
    case None => None
    case Some(t) => Some(TotalSeconds(t))
  }

  // ---------------------------------------------------------------------
  // Duration strings in the canonical order
  // ---------------------------------------------------------------------

  /** An amount, or 0 when the unit is absent. */
  function OrZero(v: Option<nat>): nat {
    if v.Some? then v.value else 0
  }

  /** The duration string that writes each present unit as its decimal
      amount followed by its letter, in the order of `units`. */
  function Render(parts: seq<Option<nat>>, units: string): string
    requires |parts| == |units|
  {
    if parts == [] then ""
    else
      (if parts[0].Some? then NatDigits(parts[0].value, 10) + [units[0]] else "")
      + Render(parts[1..], units[1..])
  }

  /** `t` does not start with a digit run followed by one of `units`: no
      group of the pattern can match at its start. */
  predicate NoUnitAhead(t: string, units: string) {
    var k := DigitRun(t);
    k == 0 || k == |t| || t[k] !in units
  }

  /** The letters of `units` are not digits and occur once each. */
  predicate UnitLetters(units: string) {
    (forall i :: 0 <= i < |units| ==> !IsDigitIn(units[i], 10))
    && (forall i, j :: 0 <= i < j < |units| ==> units[i] != units[j])
  }

  lemma UnitsAreUnitLetters()
    ensures UnitLetters(Units)
  {
  }

  /** The amounts of the present units, 0 for the absent ones. */
  function OrZeros(parts: seq<Option<nat>>): (a: seq<nat>)
    ensures |a| == |parts|
  {
    if parts == [] then [] else [OrZero(parts[0])] + OrZeros(parts[1..])
  }

  /** A group whose amount and letter are written matches them. */
  lemma UnitPresent(v: nat, u: char, after: string)
    requires !IsDigitIn(u, 10)
    ensures OptionalUnit(NatDigits(v, 10) + [u] + after, u) == Group(v, after)
  {
    var d := NatDigits(v, 10);
    var s := d + [u] + after;
    assert s == d + ([u] + after);
    DigitRunOfDigits(d, [u] + after);
    assert s[|d|] == u;
    assert s[..|d|] == d && s[|d| + 1..] == after;
    NatDigitsValue(v, 10);
  }

  /** A rendering has no letter `x` ahead when `x` is not one of the
      rendered letters and either some unit is written or the text after it
      has no `x` ahead. */
  lemma {:induction false} NoLetterAhead(parts: seq<Option<nat>>, units: string, tail: string, x: char)
    requires |parts| == |units|
    requires forall i :: 0 <= i < |units| ==> !IsDigitIn(units[i], 10) && units[i] != x
    requires WrittenCount(parts) > 0 || NoUnitAhead(tail, [x])
    ensures NoUnitAhead(Render(parts, units) + tail, [x])
    decreases |parts|
  {
    if parts != [] {
      var rest := Render(parts[1..], units[1..]) + tail;
      if parts[0].Some? {
        RenderPresent(parts, units, tail);
        DigitsThenLetter(NatDigits(parts[0].value, 10), units[0], rest, x);
      } else {
        assert forall i :: 0 <= i < |units| - 1 ==> units[1..][i] == units[i + 1];
        NoLetterAhead(parts[1..], units[1..], tail, x);
        assert Render(parts, units) + tail == rest;
      }
    } else {
      assert Render(parts, units) + tail == tail;
    }
  }

  /** A rendering whose first unit is present starts with its amount and
      letter. */
  lemma RenderPresent(parts: seq<Option<nat>>, units: string, tail: string)
    requires |parts| == |units| > 0 && parts[0].Some?
    ensures Render(parts, units) + tail
            == NatDigits(parts[0].value, 10) + ([units[0]] + (Render(parts[1..], units[1..]) + tail))
  {
  }

  /** Digits followed by a letter other than `x` have no `x` ahead. */
  lemma DigitsThenLetter(d: string, u: char, rest: string, x: char)
    requires AllDigits(d, 10) && !IsDigitIn(u, 10) && u != x
    ensures NoUnitAhead(d + ([u] + rest), [x])
  {
    DigitRunOfDigits(d, [u] + rest);
    assert (d + ([u] + rest))[|d|] == u;
  }

  /** The letters after the first keep their properties. */
  lemma UnitLettersRest(units: string)
    requires |units| > 0 && UnitLetters(units)
    ensures UnitLetters(units[1..])
    ensures units[0] !in units[1..]
  {
    assert forall i :: 0 <= i < |units| - 1 ==> units[1..][i] == units[i + 1];
  }

  /** Text with no group of `units` ahead has none of the later ones and
      not the first one ahead. */
  lemma NoUnitAheadRest(t: string, units: string)
    requires |units| > 0 && NoUnitAhead(t, units)
    ensures NoUnitAhead(t, units[1..]) && NoUnitAhead(t, [units[0]])
  {
    var k := DigitRun(t);
    assert forall j :: 0 <= j < |units| - 1 ==> units[1..][j] == units[j + 1];
  }

  /** A written group is taken by the first pattern group. */
  lemma AmountsPresent(v: nat, units: string, rest: string)
    requires |units| > 0 && !IsDigitIn(units[0], 10)
    ensures Amounts(NatDigits(v, 10) + [units[0]] + rest, units) == [v] + Amounts(rest, units[1..])
  {
    UnitPresent(v, units[0], rest);
  }

  /** Text with no match for the first pattern group leaves it at 0. */
  lemma AmountsAbsent(s: string, units: string)
    requires |units| > 0 && NoUnitAhead(s, [units[0]])
    ensures Amounts(s, units) == [0] + Amounts(s, units[1..])
  {
    assert OptionalUnit(s, units[0]) == Group(0, s);
  }

  /** The number of units up to and including the last one written; 0 when
      none is written. */
  function WrittenCount(parts: seq<Option<nat>>): (n: nat)
    ensures n <= |parts|
    ensures n > 0 ==> parts[n - 1].Some?
    ensures forall i :: n <= i < |parts| ==> parts[i].None?
  {
    if parts == [] then 0
    else if WrittenCount(parts[1..]) > 0 then WrittenCount(parts[1..]) + 1
    else if parts[0].Some? then 1
    else 0
  }

  /** A rendered string gives back each present amount and 0 for each
      absent one, whatever follows it, as long as what follows does not
      start with a group for a unit after the last one written. A group for
      an earlier unit (or the same one) is ignored. */
  lemma {:induction false} RenderParses(parts: seq<Option<nat>>, units: string, tail: string)
    requires |parts| == |units| && UnitLetters(units)
    requires NoUnitAhead(tail, units[WrittenCount(parts)..])
    ensures Amounts(Render(parts, units) + tail, units) == OrZeros(parts)
    decreases |parts|
  {
    if parts == [] {
      assert Render(parts, units) + tail == tail;
    } else {
      TailAfterFirst(parts, units, tail);
      UnitLettersRest(units);
      RenderParses(parts[1..], units[1..], tail);
      RenderParsesStep(parts, units, tail);
    }
  }

  /** What `RenderParses` needs of the tail, one unit further on. */
  lemma TailAfterFirst(parts: seq<Option<nat>>, units: string, tail: string)
    requires |parts| == |units| > 0 && NoUnitAhead(tail, units[WrittenCount(parts)..])
    ensures NoUnitAhead(tail, units[1..][WrittenCount(parts[1..])..])
    ensures parts[0].None? ==> WrittenCount(parts[1..]) > 0 || NoUnitAhead(tail, [units[0]])
  {
    var k := WrittenCount(parts[1..]);
    if k > 0 {
      assert units[k + 1..] == units[1..][k..];
    } else if parts[0].Some? {
      assert units[1..] == units[1..][0..];
    } else {
      assert units == units[0..];
      NoUnitAheadRest(tail, units);
      assert units[1..] == units[1..][0..];
    }
  }

  /** The first unit of a rendering is read back, given the rest is. */
  lemma RenderParsesStep(parts: seq<Option<nat>>, units: string, tail: string)
    requires |parts| == |units| > 0 && UnitLetters(units)
    requires parts[0].None? ==> WrittenCount(parts[1..]) > 0 || NoUnitAhead(tail, [units[0]])
    requires Amounts(Render(parts[1..], units[1..]) + tail, units[1..]) == OrZeros(parts[1..])
    ensures Amounts(Render(parts, units) + tail, units) == OrZeros(parts)
  {
    UnitLettersRest(units);
    if parts[0].Some? {
      StepPresent(parts, units, tail);
    } else {
      NoLetterAhead(parts[1..], units[1..], tail, units[0]);
      StepAbsent(parts, units, tail);
    }
  }

  lemma StepPresent(parts: seq<Option<nat>>, units: string, tail: string)
    requires |parts| == |units| > 0 && !IsDigitIn(units[0], 10) && parts[0].Some?
    requires Amounts(Render(parts[1..], units[1..]) + tail, units[1..]) == OrZeros(parts[1..])
    ensures Amounts(Render(parts, units) + tail, units) == OrZeros(parts)
  {
    var rest := Render(parts[1..], units[1..]) + tail;
    assert Render(parts, units) + tail == NatDigits(parts[0].value, 10) + [units[0]] + rest;
    AmountsPresent(parts[0].value, units, rest);
  }

  lemma StepAbsent(parts: seq<Option<nat>>, units: string, tail: string)
    requires |parts| == |units| > 0 && parts[0].None?
    requires NoUnitAhead(Render(parts[1..], units[1..]) + tail, [units[0]])
    requires Amounts(Render(parts[1..], units[1..]) + tail, units[1..]) == OrZeros(parts[1..])
    ensures Amounts(Render(parts, units) + tail, units) == OrZeros(parts)
  {
    var rest := Render(parts[1..], units[1..]) + tail;
    assert Render(parts, units) + tail == rest;
    AmountsAbsent(rest, units);
  }

  /** A duration string in the order weeks, days, hours, minutes, seconds
      (each unit optional), followed by text that starts with no group for a
      unit after the last one written, parses to 604800 w + 86400 d +
      3600 h + 60 m + s seconds; absent units count as 0, and only more than
      `MaxDays` days fail. */
  lemma CanonicalStringParses(w: Option<nat>, d: Option<nat>, h: Option<nat>, m: Option<nat>, s: Option<nat>, tail: string)
    requires NoUnitAhead(tail, Units[WrittenCount([w, d, h, m, s])..])
    ensures var total := 604800 * OrZero(w) + 86400 * OrZero(d) + 3600 * OrZero(h) + 60 * OrZero(m) + OrZero(s);
            TimeStringToSeconds(Render([w, d, h, m, s], Units) + tail)
            == if total / 86400 <= MaxDays then Some(total) else None
  {
    UnitsAreUnitLetters();
    var parts := [w, d, h, m, s];
    var text := Render(parts, Units) + tail;
    RenderParses(parts, Units, tail);
    OrZerosFive(w, d, h, m, s);
    WeightedFive(OrZeros(parts));
    var total := Weighted(Amounts(text, Units), UnitSeconds);
    assert total == 604800 * OrZero(w) + 86400 * OrZero(d) + 3600 * OrZero(h) + 60 * OrZero(m) + OrZero(s);
    assert TimeStringToTimedelta(text) == FromSeconds(total);
  }

  /** Units out of order: in "<m>m<h>h..." the hours come after the
      minutes group has been passed, so only the minutes are read. */
  lemma OutOfOrderTailIgnored(m: nat, h: nat, rest: string)
    ensures Amounts(NatDigits(m, 10) + "m" + NatDigits(h, 10) + "h" + rest, Units) == [0, 0, 0, m, 0]
  {
    var parts: seq<Option<nat>> := [None, None, None, Some(m), None];
    var md := NatDigits(m, 10);
    var hd := NatDigits(h, 10);
    var tail := hd + ("h" + rest);
    assert md + "m" + hd + "h" + rest == (md + "m") + tail;
    MinutesOnly(m);
    assert NoUnitAhead(tail, Units[WrittenCount(parts)..]) by {
      DigitsThenLetter(hd, 'h', rest, 's');
      assert Units[4..] == ['s'];
    }
    UnitsAreUnitLetters();
    RenderParses(parts, Units, tail);
    OrZerosFive(None, None, None, Some(m), None);
  }

  /** Only the minutes written: the last unit written is the fourth. */
  lemma MinutesOnly(m: nat)
    ensures WrittenCount([None, None, None, Some(m), None]) == 4
    ensures Render([None, None, None, Some(m), None], Units) == NatDigits(m, 10) + "m"
  {
    var parts: seq<Option<nat>> := [None, None, None, Some(m), None];
    assert parts[3].Some? && parts[4].None?;
    assert parts[3..] == [Some(m), None] && Units[3..] == "ms";
    calc {
      Render(parts, Units);
      Render(parts[1..], Units[1..]);
      { assert parts[1..][1..] == parts[2..] && Units[1..][1..] == Units[2..]; }
      Render(parts[2..], Units[2..]);
      { assert parts[2..][1..] == parts[3..] && Units[2..][1..] == Units[3..]; }
      Render(parts[3..], Units[3..]);
      NatDigits(m, 10) + "m" + Render([None], "s");
    }
  }

  lemma OrZerosStep(parts: seq<Option<nat>>, i: nat)
    requires i < |parts|
    ensures OrZeros(parts[i..]) == [OrZero(parts[i])] + OrZeros(parts[i + 1..])
  {
    assert parts[i..][1..] == parts[i + 1..];
  }

  lemma OrZerosFive(w: Option<nat>, d: Option<nat>, h: Option<nat>, m: Option<nat>, s: Option<nat>)
    ensures OrZeros([w, d, h, m, s]) == [OrZero(w), OrZero(d), OrZero(h), OrZero(m), OrZero(s)]
  {
    var parts := [w, d, h, m, s];
    OrZerosStep(parts, 0);
    OrZerosStep(parts, 1);
    OrZerosStep(parts, 2);
    OrZerosStep(parts, 3);
    OrZerosStep(parts, 4);
    assert parts[5..] == [] && parts[0..] == parts;
  }

  lemma WeightedStep(a: seq<nat>, w: seq<nat>, i: nat)
    requires |a| == |w| && i < |a|
    ensures Weighted(a[i..], w[i..]) == a[i] * w[i] + Weighted(a[i + 1..], w[i + 1..])
  {
    assert a[i..][1..] == a[i + 1..] && w[i..][1..] == w[i + 1..];
  }

  lemma WeightedFive(a: seq<nat>)
    requires |a| == 5
    ensures Weighted(a, UnitSeconds) == 604800 * a[0] + 86400 * a[1] + 3600 * a[2] + 60 * a[3] + a[4]
  {
    var w := UnitSeconds;
    WeightedStep(a, w, 0);
    WeightedStep(a, w, 1);
    WeightedStep(a, w, 2);
    WeightedStep(a, w, 3);
    WeightedStep(a, w, 4);
    assert a[5..] == [] && a[0..] == a && w[0..] == w;
  }

  /** Text that does not start with a digit run and a unit letter parses
      without error to a zero duration. */
  lemma UnrecognisedIsZero(text: string)
    requires NoUnitAhead(text, Units)
    ensures TimeStringToSeconds(text) == Some(0)
  {
    NoGroupMatches(text, Units);
    var a := Amounts(text, Units);
    WeightedFive(a);
    assert Weighted(a, UnitSeconds) == 0;
    assert TimeStringToTimedelta(text) == FromSeconds(0);
    assert FromSeconds(0) == Some(Timedelta(0, 0));
  }

  /** Text with no group ahead leaves every group at 0. */
  lemma {:induction false} NoGroupMatches(text: string, units: string)
    requires NoUnitAhead(text, units)
    ensures forall i :: 0 <= i < |units| ==> Amounts(text, units)[i] == 0
    decreases |units|
  {
    if units != [] {
      NoUnitAheadRest(text, units);
      AmountsAbsent(text, units);
      NoGroupMatches(text, units[1..]);
    }
  }

  // ---------------------------------------------------------------------
  // timedelta_to_string
  // ---------------------------------------------------------------------

  /** The units the formatter prints. */
  datatype Unit = Weeks | Days | Hours | Minutes | Seconds

  /** One amount of a unit, as the formatter prints it. */
  datatype Component = Component(amount: nat, unit: Unit)

  /** The seconds in one of a unit. */
  function UnitWeight(u: Unit): nat {
    match u
    case Weeks => 604800
    case Days => 86400
    case Hours => 3600
    case Minutes => 60
    case Seconds => 1
  }

  function UnitName(u: Unit): string {
    match u
    case Weeks => "weeks"
    case Days => "days"
    case Hours => "hours"
    case Minutes => "minutes"
    case Seconds => "seconds"
  }

  /** Optional component: present only when the condition holds. */
  function When(b: bool, c: Component): seq<Component> {
    if b then [c] else []
  }

  /** Weeks and leftover days, printed only when there is more than one
      day, each only when not zero. */
  function DayComponents(days: nat): (cs: seq<Component>)
    ensures days <= 1 ==> cs == []
    ensures forall i :: 0 <= i < |cs| ==> cs[i].unit == Weeks || (cs[i].unit == Days && cs[i].amount < 7)
  {
    When(days > 1 && days / 7 >= 1, Component(days / 7, Weeks))
    + When(days > 1 && days % 7 != 0, Component(days % 7, Days))
  }

  /** Hours, minutes and seconds of the day's seconds, each only when at
      least 1. */
  function ClockComponents(secs: DaySeconds): (cs: seq<Component>)
    ensures forall i :: 0 <= i < |cs| ==>
      (cs[i].unit == Hours && cs[i].amount < 24) || (cs[i].unit in {Minutes, Seconds} && cs[i].amount < 60)
  {
    var minutesLeft := secs % 3600;
    When(secs / 3600 >= 1, Component(secs / 3600, Hours))
    + When(minutesLeft / 60 >= 1, Component(minutesLeft / 60, Minutes))
    + When(minutesLeft % 60 >= 1, Component(minutesLeft % 60, Seconds))
  }

  /** The components `timedelta_to_string` prints, in order. */
  function Components(t: Timedelta): (cs: seq<Component>)
    ensures forall i :: 0 <= i < |cs| ==> cs[i].amount >= 1
    ensures cs == [] <==> t.days <= 1 && t.seconds == 0
  {
    DayComponentsShape(t.days);
    ClockComponentsShape(t.seconds);
    CountedAppend(DayComponents(t.days), ClockComponents(t.seconds));
    DayComponents(t.days) + ClockComponents(t.seconds)
  }

  /** The day part prints positive amounts, and nothing only for at most
      one day. */
  lemma DayComponentsShape(days: nat)
    ensures forall i :: 0 <= i < |DayComponents(days)| ==> DayComponents(days)[i].amount >= 1
    ensures DayComponents(days) == [] <==> days <= 1
  {
    if days > 1 {
      assert days / 7 >= 1 || days % 7 != 0;
    }
  }

  /** The clock part prints positive amounts, and nothing only for zero
      seconds. */
  lemma ClockComponentsShape(secs: DaySeconds)
    ensures forall i :: 0 <= i < |ClockComponents(secs)| ==> ClockComponents(secs)[i].amount >= 1
    ensures ClockComponents(secs) == [] <==> secs == 0
  {
    var m := secs % 3600;
    if secs > 0 {
      assert secs / 3600 >= 1 || m / 60 >= 1 || m % 60 >= 1;
    }
  }

  lemma CountedAppend(a: seq<Component>, b: seq<Component>)
    requires forall i :: 0 <= i < |a| ==> a[i].amount >= 1
    requires forall i :: 0 <= i < |b| ==> b[i].amount >= 1
    ensures forall i :: 0 <= i < |a + b| ==> (a + b)[i].amount >= 1
  {
  }

  /** The seconds the printed components stand for. */
  function ComponentSeconds(cs: seq<Component>): nat {
    if cs == [] then 0 else cs[0].amount * UnitWeight(cs[0].unit) + ComponentSeconds(cs[1..])
  }

  lemma {:induction false} ComponentSecondsAppend(a: seq<Component>, b: seq<Component>)
    ensures ComponentSeconds(a + b) == ComponentSeconds(a) + ComponentSeconds(b)
    decreases |a|
  {
    if a != [] {
      assert (a + b)[1..] == a[1..] + b;
      ComponentSecondsAppend(a[1..], b);
    } else {
      assert a + b == b;
    }
  }

  lemma WhenSeconds(b: bool, c: Component)
    ensures ComponentSeconds(When(b, c)) == if b then c.amount * UnitWeight(c.unit) else 0
  {
    if b {
      assert When(b, c)[1..] == [];
    }
  }

  lemma DaySecondsTotal(days: nat)
    ensures ComponentSeconds(DayComponents(days)) == if days > 1 then days * 86400 else 0
  {
    var q, r := days / 7, days % 7;
    ComponentSecondsAppend(When(days > 1 && q >= 1, Component(q, Weeks)), When(days > 1 && r != 0, Component(r, Days)));
    WhenSeconds(days > 1 && q >= 1, Component(q, Weeks));
    WhenSeconds(days > 1 && r != 0, Component(r, Days));
  }

  lemma ClockSecondsTotal(secs: DaySeconds)
    ensures ComponentSeconds(ClockComponents(secs)) == secs
  {
    var hours, m := secs / 3600, secs % 3600;
    var minutes, seconds := m / 60, m % 60;
    var h := When(hours >= 1, Component(hours, Hours));
    var mi := When(minutes >= 1, Component(minutes, Minutes));
    var s := When(seconds >= 1, Component(seconds, Seconds));
    ComponentSecondsAppend(h, mi);
    ComponentSecondsAppend(h + mi, s);
    AmountSeconds(hours, Hours);
    AmountSeconds(minutes, Minutes);
    AmountSeconds(seconds, Seconds);
    ClockArithmetic(secs);
  }

  /** An optional component present exactly when its amount is at least 1
      stands for the amount times the unit's weight. */
  lemma AmountSeconds(a: nat, u: Unit)
    ensures ComponentSeconds(When(a >= 1, Component(a, u))) == a * UnitWeight(u)
  {
    WhenSeconds(a >= 1, Component(a, u));
  }

  /** `divmod` by 3600 and then by 60 splits the seconds without loss. */
  lemma ClockArithmetic(secs: nat)
    ensures (secs / 3600) * 3600 + ((secs % 3600) / 60) * 60 + (secs % 3600) % 60 == secs
  {
  }

  /** The printed components add up to the whole duration, except that a
      duration of one day and some seconds prints no day at all. */
  lemma ComponentsTotal(t: Timedelta)
    ensures ComponentSeconds(Components(t)) == if t.days == 1 then t.seconds else TotalSeconds(t)
  {
    assert Components(t) == DayComponents(t.days) + ClockComponents(t.seconds);
    ComponentSecondsAppend(DayComponents(t.days), ClockComponents(t.seconds));
    DaySecondsTotal(t.days);
    ClockSecondsTotal(t.seconds);
  }

  /** What the formatter writes after an amount: the unit name, with a
      trailing space after weeks, days and hours only. */
  function SuffixAsWritten(u: Unit): (s: string)
    ensures |s| > |UnitName(u)| && s[..|UnitName(u)| + 1] == " " + UnitName(u)
    ensures s[|s| - 1] == ' ' <==> u in {Weeks, Days, Hours}
  {
    match u
    case Weeks => " weeks "
    case Days => " days "
    case Hours => " hours "
    case Minutes => " minutes"
    case Seconds => " seconds"
  }

  function PieceAsWritten(c: Component): string {
    IntToString(c.amount) + SuffixAsWritten(c.unit)
  }

  function TextAsWritten(cs: seq<Component>): (text: string)
    ensures text == "" <==> cs == []
  {
    if cs == [] then "" else PieceAsWritten(cs[0]) + TextAsWritten(cs[1..])
  }

  lemma {:induction false} TextAsWrittenAppend(cs: seq<Component>, c: Component)
    ensures TextAsWritten(cs + [c]) == TextAsWritten(cs) + PieceAsWritten(c)
    decreases |cs|
  {
    if cs != [] {
      assert (cs + [c])[1..] == cs[1..] + [c];
      TextAsWrittenAppend(cs[1..], c);
    } else {
      assert cs + [c] == [c];
    }
  }

  /** One optional `+=` of the formatter: when `b` holds, the text grows by
      the piece of `c`, and the printed components by `c`. */
  lemma AppendWhen(text: string, cs: seq<Component>, b: bool, c: Component, next: string)
    requires text == TextAsWritten(cs)
    requires next == if b then text + IntToString(c.amount) + SuffixAsWritten(c.unit) else text
    ensures next == TextAsWritten(cs + When(b, c))
  {
    if b {
      TextAsWrittenAppend(cs, c);
    } else {
      assert cs + [] == cs;
    }
  }

  /** `timedelta_to_string`: the text is built up piece by piece, one piece
      per printed component. */
  method TimedeltaToString(t: Timedelta) returns (text: string)
    ensures text == TextAsWritten(Components(t))
  {
    ghost var cs: seq<Component> := [];
    ghost var before: string;
    text := "";
    if t.days > 1 {
      var weeks := t.days / 7;
      before := text;
      if weeks >= 1 {
        text := text + IntToString(weeks) + " weeks ";
      }
      AppendWhen(before, cs, t.days > 1 && weeks >= 1, Component(weeks, Weeks), text);
      cs := cs + When(t.days > 1 && weeks >= 1, Component(weeks, Weeks));
      var days := t.days % 7;
      before := text;
      if days != 0 {
        text := text + IntToString(days) + " days ";
      }
      AppendWhen(before, cs, t.days > 1 && days != 0, Component(days, Days), text);
      cs := cs + When(t.days > 1 && days != 0, Component(days, Days));
      DayPartAssembly(t.days, cs);
    }
    text := AppendClock(text, cs, t.seconds);
    assert Components(t) == cs + ClockComponents(t.seconds);
  }

  /** The second half of `timedelta_to_string`: hours, minutes and seconds
      of `divmod`, each appended when at least 1. */
  method AppendClock(text0: string, ghost cs0: seq<Component>, secs: DaySeconds) returns (text: string)
    requires text0 == TextAsWritten(cs0)
    ensures text == TextAsWritten(cs0 + ClockComponents(secs))
  {
    ghost var cs := cs0;
    ghost var before: string;
    text := text0;
    var hours, remainder := secs / 3600, secs % 3600;
    var minutes, seconds := remainder / 60, remainder % 60;
    before := text;
    if hours >= 1 {
      text := text + IntToString(hours) + " hours ";
    }
    AppendWhen(before, cs, hours >= 1, Component(hours, Hours), text);
    cs := cs + When(hours >= 1, Component(hours, Hours));
    before := text;
    if minutes >= 1 {
      text := text + IntToString(minutes) + " minutes";
    }
    AppendWhen(before, cs, minutes >= 1, Component(minutes, Minutes), text);
    cs := cs + When(minutes >= 1, Component(minutes, Minutes));
    before := text;
    if seconds >= 1 {
      text := text + IntToString(seconds) + " seconds";
    }
    AppendWhen(before, cs, seconds >= 1, Component(seconds, Seconds), text);
    cs := cs + When(seconds >= 1, Component(seconds, Seconds));
    ClockAssembly(cs0, secs, cs);
  }

  /** The two optional day components, appended to nothing, are the day
      part. */
  lemma DayPartAssembly(days: nat, cs: seq<Component>)
    requires cs == [] + When(days > 1 && days / 7 >= 1, Component(days / 7, Weeks))
                 + When(days > 1 && days % 7 != 0, Component(days % 7, Days))
    ensures cs == DayComponents(days)
  {
  }

  /** The components appended after the day part are the clock part. */
  lemma ClockAssembly(dayPart: seq<Component>, secs: DaySeconds, cs: seq<Component>)
    requires var m := secs % 3600;
             cs == dayPart + When(secs / 3600 >= 1, Component(secs / 3600, Hours))
                   + When(m / 60 >= 1, Component(m / 60, Minutes))
                   + When(m % 60 >= 1, Component(m % 60, Seconds))
    ensures cs == dayPart + ClockComponents(secs)
  {
  }

  /** A zero duration prints as the empty string. */
  lemma ZeroPrintsEmpty()
    ensures TextAsWritten(Components(Timedelta(0, 0))) == ""
  {
  }

  /** As written, one day prints as if it were no time at all. */
  lemma OneDayPrintsNothing()
    ensures TextAsWritten(Components(Timedelta(1, 0))) == ""
    ensures TotalSeconds(Timedelta(1, 0)) == 86400
  {
  }

  lemma SixtyFiveSeconds()
    ensures Components(Timedelta(0, 65)) == [Component(1, Minutes), Component(5, Seconds)]
  {
    assert DayComponents(0) == [];
    assert ClockComponents(65) == [Component(1, Minutes), Component(5, Seconds)];
  }

  lemma OneAndFive()
    ensures IntToString(1) == "1" && IntToString(5) == "5"
  {
  }

  /** As written, minutes run into seconds: 65 seconds print as
      "1 minutes5 seconds". */
  lemma MinutesRunIntoSeconds()
    ensures TextAsWritten(Components(Timedelta(0, 65))) == "1 minutes5 seconds"
  {
    var text := "1 minutes5 seconds";
    assert "1" + " minutes" + ("5" + " seconds" + "") == text;
    SixtyFiveSeconds();
    OneAndFive();
    var cs := [Component(1, Minutes), Component(5, Seconds)];
    assert TextAsWritten(cs) == "1" + " minutes" + ("5" + " seconds" + "");
  }

  /** The first two words of a text made of two spaced-out words and more. */
  lemma FirstTwoWords(a: string, b: string, rest: string)
    requires ' ' !in a && ' ' !in b
    ensures |Split(a + " " + b + " " + rest, ' ')| >= 2
    ensures Split(a + " " + b + " " + rest, ' ')[..2] == [a, b]
  {
    SplitFirst(b, ' ', rest);
    assert a + " " + b + " " + rest == a + [' '] + (b + [' '] + rest);
    SplitFirst(a, ' ', b + [' '] + rest);
  }

  /** In that text "minutes5" is one word. */
  lemma MinutesRunIntoSecondsWords()
    ensures |Split(TextAsWritten(Components(Timedelta(0, 65))), ' ')| >= 2
    ensures Split(TextAsWritten(Components(Timedelta(0, 65))), ' ')[..2] == ["1", "minutes5"]
  {
    RunTogetherSpelling();
    MinutesRunIntoSeconds();
    FirstTwoWords("1", "minutes5", "seconds");
  }

  lemma RunTogetherSpelling()
    ensures "1" + " " + "minutes5" + " " + "seconds" == "1 minutes5 seconds"
    ensures ' ' !in "1" && ' ' !in "minutes5"
  {
  }

  /** The separated text of 65 seconds. */
  lemma SeparatedMinutesAndSeconds()
    ensures DurationText(Timedelta(0, 65)) == "1 minutes 5 seconds"
  {
    SixtyFiveSeconds();
    SixtyFiveSecondsWords();
    SeparatedSpelling();
  }

  lemma SixtyFiveSecondsWords()
    ensures Words([Component(1, Minutes), Component(5, Seconds)]) == ["1", "minutes", "5", "seconds"]
  {
    OneAndFive();
    var cs := [Component(1, Minutes), Component(5, Seconds)];
    assert cs[1..][1..] == [];
  }

  lemma SeparatedSpelling()
    ensures Join(["1", "minutes", "5", "seconds"], " ") == "1 minutes 5 seconds"
  {
    var ws := ["1", "minutes", "5", "seconds"];
    assert ws[1..] == ["minutes", "5", "seconds"] && ws[1..][1..] == ["5", "seconds"] && ws[1..][1..][1..] == ["seconds"];
    assert "1" + " " + ("minutes" + " " + ("5" + " " + "seconds")) == "1 minutes 5 seconds";
  }


  // ---------------------------------------------------------------------
  // The formatter with every component separated
  // ---------------------------------------------------------------------

  /** The words of the components: amount, unit, amount, unit, ... */
  function Words(cs: seq<Component>): (ws: seq<string>)
    ensures |ws| == 2 * |cs|
  {
    if cs == [] then [] else [IntToString(cs[0].amount), UnitName(cs[0].unit)] + Words(cs[1..])
  }

  /** The duration text with every component separated by one space, as the
      trailing spaces after weeks, days and hours intend: "1 minutes 5
      seconds". */
  function DurationText(t: Timedelta): string {
    Join(Words(Components(t)), " ")
  }

  lemma {:induction false} WordsUnspaced(cs: seq<Component>)
    ensures forall k :: 0 <= k < |Words(cs)| ==> ' ' !in Words(cs)[k]
    decreases |cs|
  {
    if cs != [] {
      WordsUnspaced(cs[1..]);
      var d := NatDigits(cs[0].amount, 10);
      forall i | 0 <= i < |d| ensures d[i] != ' ' {
        assert IsDigitIn(d[i], 10);
      }
      assert IntToString(cs[0].amount) == d;
      forall k | 0 <= k < |Words(cs)| ensures ' ' !in Words(cs)[k] {
        if k >= 2 { assert Words(cs)[k] == Words(cs[1..])[k - 2]; }
      }
    }
  }

  /** Every amount and every unit name of the separated text is a word of
      its own: splitting on spaces gives amount, unit, amount, unit, ... */
  lemma DurationTextWords(t: Timedelta)
    requires Components(t) != []
    ensures Split(DurationText(t), ' ') == Words(Components(t))
  {
    WordsUnspaced(Components(t));
    JoinSplit(Words(Components(t)), ' ');
  }


}
