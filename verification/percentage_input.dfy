/**
  One amount field of the converter: a text box bounded by `min` and
  `max`, whose committed amounts are rounded to multiples of `step`, with
  four quick-pick buttons at 25, 50, 75 and 100 percent of `max` whose
  fill shows how far the current amount reaches into each quarter.

  The field keeps the text the user sees (`inputValue`) apart from the
  amount its owner holds (`value`): an edit may leave the text in an
  intermediate state ("12.") that stands for no amount yet.
*/
module PercentageInput {
  import opened Decimals

  /** The quick-pick buckets, in percent of `max`. */
  const Percentages: seq<int> := [25, 50, 75, 100]

  /** Horizontal offset of the currency label, per character of the text. */
  const CharWidth: nat := 24

  // ---------------------------------------------------------------------
  // Step rounding

  /** `Math.round`: the nearest integer, halves rounded upward. */
  function Round(x: real): (n: int)
    ensures x - 0.5 < n as real <= x + 0.5
  {
    (x + 0.5).Floor
  }

  /** `x` is a whole multiple of `s`. */
  predicate OnGrid(x: real, s: real)
    requires s != 0.0
  {
    (x / s).Floor as real == x / s
  }

  lemma ScaleValue(k: int, d: Decimal)
    ensures Decimal(k * d.mantissa, d.places).Value() == k as real * d.Value()
  {
    assert (k * d.mantissa) as real == k as real * d.mantissa as real;
  }

  /** Dividing by a positive number keeps the order. */
  lemma DivideKeepsOrder(a: real, b: real, s: real)
    requires s > 0.0
    ensures a <= b <==> a / s <= b / s
    ensures a < b <==> a / s < b / s
  {
    if a / s <= b / s {
      assert (a / s) * s <= (b / s) * s;
    }
    if a / s < b / s {
      assert (a / s) * s < (b / s) * s;
    }
  }

  /**
    The multiple of `step` nearest to `v` (ties go to the larger one):
    measured in steps, it lies within half a step of `v`, strictly less
    than half a step below it.
  */
  function RoundToStep(v: Decimal, step: Decimal): (r: Decimal)
    requires step.Value() != 0.0
    ensures OnGrid(r.Value(), step.Value())
    ensures v.Value() / step.Value() - 0.5 < r.Value() / step.Value() <= v.Value() / step.Value() + 0.5
  {
    var k := Round(v.Value() / step.Value());
    ScaledRound(v, step, k);
    Decimal(k * step.mantissa, step.places)
  }

  lemma ScaledRound(v: Decimal, step: Decimal, k: int)
    requires step.Value() != 0.0 && k == Round(v.Value() / step.Value())
    ensures OnGrid(Decimal(k * step.mantissa, step.places).Value(), step.Value())
    ensures v.Value() / step.Value() - 0.5 < Decimal(k * step.mantissa, step.places).Value() / step.Value()
                                         <= v.Value() / step.Value() + 0.5
  {
    ScaleValue(k, step);
    RoundedStep(v.Value(), step.Value(), k, Decimal(k * step.mantissa, step.places).Value());
  }

  lemma RoundedStep(x: real, s: real, k: int, r: real)
    requires s != 0.0 && k == Round(x / s) && r == k as real * s
    ensures OnGrid(r, s)
    ensures x / s - 0.5 < r / s <= x / s + 0.5
  {
    assert r / s == k as real;
  }

  /** The same bound in the amount's own units: within step/2 of `v`. */
  lemma RoundToStepWithinHalfStep(v: Decimal, step: Decimal)
    requires step.Value() > 0.0
    ensures v.Value() - step.Value() / 2.0 < RoundToStep(v, step).Value() <= v.Value() + step.Value() / 2.0
  {
    HalfStepBounds(v.Value(), step.Value(), RoundToStep(v, step).Value());
  }

  lemma HalfStepBounds(x: real, s: real, r: real)
    requires s > 0.0 && x / s - 0.5 < r / s <= x / s + 0.5
    ensures x - s / 2.0 < r <= x + s / 2.0
  {
    var p, q := x / s, r / s;
    assert p * s == x && q * s == r;
    QuotientBounds(p, q, s, x, r);
  }

  /** The half-step bounds, with the two quotients named so that no division is left. */
  lemma QuotientBounds(p: real, q: real, s: real, x: real, r: real)
    requires s > 0.0 && p * s == x && q * s == r && p - 0.5 < q <= p + 0.5
    ensures x - s / 2.0 < r <= x + s / 2.0
  {
    var below, above := q - p + 0.5, p + 0.5 - q;
    PositiveProduct(below, s);
    NonNegativeProduct(above, s);
    assert below * s == r - x + s / 2.0;
    assert above * s == x + s / 2.0 - r;
  }

  lemma PositiveProduct(a: real, b: real)
    requires a > 0.0 && b > 0.0
    ensures a * b > 0.0
  {
  }

  lemma NonNegativeProduct(a: real, b: real)
    requires a >= 0.0 && b > 0.0
    ensures a * b >= 0.0
  {
  }

  /** A multiple of `s` is its quotient times `s`. */
  lemma QuotientTimes(x: real, s: real, k: int)
    requires s != 0.0 && k as real == x / s
    ensures k as real * s == x
  {
  }

  /** Rounding an amount that already is a multiple of `step` keeps it. */
  lemma RoundOnGrid(v: Decimal, step: Decimal)
    requires step.Value() != 0.0 && OnGrid(v.Value(), step.Value())
    ensures RoundToStep(v, step).Value() == v.Value()
  {
    var s, x := step.Value(), v.Value();
    var k := (x / s).Floor;
    assert Round(x / s) == k;
    ScaleValue(k, step);
    QuotientTimes(x, s, k);
  }

  /** Rounding never leaves an interval whose ends are multiples of `step`. */
  lemma RoundBetweenGridPoints(v: Decimal, step: Decimal, lo: real, hi: real)
    requires step.Value() > 0.0 && OnGrid(lo, step.Value()) && OnGrid(hi, step.Value())
    requires lo <= v.Value() <= hi
    ensures lo <= RoundToStep(v, step).Value() <= hi
  {
    GridPointBetween(v.Value(), step.Value(), lo, hi, RoundToStep(v, step).Value());
  }

  /**
    A multiple `r` of `s` within half a step of `x` stays between any two
    multiples of `s` that enclose `x`.
  */
  lemma GridPointBetween(x: real, s: real, lo: real, hi: real, r: real)
    requires s > 0.0 && OnGrid(lo, s) && OnGrid(hi, s) && OnGrid(r, s)
    requires lo <= x <= hi && x / s - 0.5 < r / s <= x / s + 0.5
    ensures lo <= r <= hi
  {
    DivideKeepsOrder(lo, x, s);
    DivideKeepsOrder(x, hi, s);
    var a, b, k := (lo / s).Floor, (hi / s).Floor, (r / s).Floor;
    assert a <= k <= b;
    DivideKeepsOrder(lo, r, s);
    DivideKeepsOrder(r, hi, s);
  }

  // ---------------------------------------------------------------------
  // Edits

  /** What one text edit does to the field. */
  datatype Edit =
    | Ignored                       // text outside ^\d*\.?\d*$ : nothing changes
    | Intermediate(text: string)    // ends in its only '.': shown as typed, no amount
    | Committed(amount: Decimal)    // amount reported to the owner and shown as text

  /**
    The decision `handleInputChange` makes for the edit `text`: reject it,
    keep it as intermediate text, commit `min` for text without digits,
    clamp to `min` or `max`, or commit the amount rounded to `step` (which
    is not clamped again afterwards).
  */
  function EditOf(text: string, min: Decimal, max: Decimal, step: Decimal): (e: Edit)
    requires step.Value() != 0.0
    ensures e.Ignored? <==> !Accepted(text)
    ensures e.Intermediate? ==> e.text == text && text != [] && text[|text| - 1] == '.'
  {
    if !Accepted(text) then Ignored
    else if DotCount(text) == 1 && text[|text| - 1] == '.' then Intermediate(text)
    else match Parse(text)
      case None => Committed(min)
      case Some(v) =>
        if v.Value() < min.Value() then Committed(min)
        else if v.Value() > max.Value() then Committed(max)
        else Committed(RoundToStep(v, step))
  }

  lemma {:induction false} AllDigitsDotCount(s: string)
    requires AllDigits(s)
    ensures DotCount(s) == 0
  {
    if s != [] {
      AllDigitsDotCount(s[1..]);
    }
  }

  /** Accepted text holds one '.' when it has a fraction part and none otherwise. */
  lemma {:induction false} AcceptedDotCount(s: string)
    requires Accepted(s)
    ensures DotCount(s) == if DotIndex(s) < |s| then 1 else 0
  {
    if s == [] {
    } else if s[0] == '.' {
      assert FractionPart(s) == s[1..];
      AllDigitsDotCount(s[1..]);
    } else {
      var t := s[1..];
      assert DotIndex(s) == 1 + DotIndex(t);
      assert WholePart(t) == WholePart(s)[1..];
      assert FractionPart(t) == FractionPart(s);
      AcceptedDotCount(t);
    }
  }

  /** Text outside the accepted language, and only such text, is ignored. */
  lemma IgnoredExactlyWhenRejected(text: string, min: Decimal, max: Decimal, step: Decimal)
    requires step.Value() != 0.0
    ensures EditOf(text, min, max, step) == Ignored <==> !Accepted(text)
  {
  }

  /** Accepted text is kept as intermediate text exactly when it ends in '.'. */
  lemma IntermediateExactlyAtTrailingDot(text: string, min: Decimal, max: Decimal, step: Decimal)
    requires step.Value() != 0.0 && Accepted(text)
    ensures EditOf(text, min, max, step) == Intermediate(text) <==> text != [] && text[|text| - 1] == '.'
    ensures EditOf(text, min, max, step).Intermediate? ==> EditOf(text, min, max, step).text == text
  {
    AcceptedDotCount(text);
    if text != [] && text[|text| - 1] == '.' {
      assert DotIndex(text) < |text|;
    }
  }

  /** Emptying the field commits `min`. */
  lemma EmptyEditCommitsMin(min: Decimal, max: Decimal, step: Decimal)
    requires step.Value() != 0.0
    ensures EditOf("", min, max, step) == Committed(min)
  {
  }

  /**
    An amount below `min` commits exactly `min` and one above `max` exactly
    `max`; no rounding applies to either.
  */
  lemma OutOfRangeClamps(text: string, min: Decimal, max: Decimal, step: Decimal)
    requires step.Value() != 0.0 && Accepted(text) && !(text != [] && text[|text| - 1] == '.')
    requires Parse(text).Some?
    ensures Parse(text).value.Value() < min.Value() ==> EditOf(text, min, max, step) == Committed(min)
    ensures min.Value() <= Parse(text).value.Value() && Parse(text).value.Value() > max.Value() ==>
      EditOf(text, min, max, step) == Committed(max)
  {
    IntermediateExactlyAtTrailingDot(text, min, max, step);
  }

  /**
    An amount within [min, max] commits the nearest multiple of `step`,
    which lies within half a step of what was typed.
  */
  lemma InRangeRounds(text: string, min: Decimal, max: Decimal, step: Decimal)
    requires step.Value() > 0.0 && Accepted(text) && !(text != [] && text[|text| - 1] == '.')
    requires Parse(text).Some? && min.Value() <= Parse(text).value.Value() <= max.Value()
    ensures EditOf(text, min, max, step).Committed?
    ensures var typed, r := Parse(text).value.Value(), EditOf(text, min, max, step).amount.Value();
      typed - step.Value() / 2.0 < r <= typed + step.Value() / 2.0 && OnGrid(r, step.Value())
  {
    IntermediateExactlyAtTrailingDot(text, min, max, step);
    RoundToStepWithinHalfStep(Parse(text).value, step);
  }

  /**
    When `min` and `max` are multiples of `step`, every committed amount
    lies in [min, max].
  */
  lemma CommittedWithinLimits(text: string, min: Decimal, max: Decimal, step: Decimal)
    requires step.Value() > 0.0 && min.Value() <= max.Value()
    requires OnGrid(min.Value(), step.Value()) && OnGrid(max.Value(), step.Value())
    requires EditOf(text, min, max, step).Committed?
    ensures min.Value() <= EditOf(text, min, max, step).amount.Value() <= max.Value()
  {
    var p := Parse(text);
    if p.Some? && min.Value() <= p.value.Value() <= max.Value() {
      RoundBetweenGridPoints(p.value, step, min.Value(), max.Value());
    }
  }

  /**
    Without that condition rounding may step past `max`: with limits 0 and
    150 and step 100, typing "150" commits 200.
  */
  lemma RoundingMayPassMax()
    ensures EditOf("150", FromInt(0), FromInt(150), FromInt(100)) == Committed(FromInt(200))
  {
    var t := "150";
    assert DigitsValue(t) == 150 by {
      assert "1"[..0] == [] && DigitsValue("1") == 1;
      assert "15"[..1] == "1" && DigitsValue("15") == 15;
      assert t[..2] == "15";
    }
    DigitsEdit(t, FromInt(0), FromInt(150), FromInt(100));
    assert Round(150.0 / 100.0) == 2;
    assert RoundToStep(Decimal(150, 0), FromInt(100)) == Decimal(200, 0);
  }

  /** Typing only digits clamps the whole number they spell to the limits or rounds it to `step`. */
  lemma DigitsEdit(text: string, min: Decimal, max: Decimal, step: Decimal)
    requires step.Value() != 0.0 && text != [] && AllDigits(text)
    ensures var n := DigitsValue(text);
      EditOf(text, min, max, step) ==
        if (n as real) < min.Value() then Committed(min)
        else if n as real > max.Value() then Committed(max)
        else Committed(RoundToStep(Decimal(n, 0), step))
  {
    ParseDigits(text);
  }

  /** Typing "75" into a field over [0, 100] with step 1 reports 75 and shows "75". */
  lemma TypingSeventyFive()
    ensures EditOf("75", FromInt(0), FromInt(100), FromInt(1)) == Committed(FromInt(75))
    ensures ToString(FromInt(75)) == "75"
  {
    assert NatToDigits(75) == "75";
    NatToDigitsValue(75);
    DigitsEdit("75", FromInt(0), FromInt(100), FromInt(1));
    assert Round(75.0 / 1.0) == 75;
  }

  /**
    Typing "12345" into the left field of the page (limits 10000 and
    70000000, step 100) commits 12300.
  */
  lemma TypingIntoLeftField()
    ensures EditOf("12345", FromInt(10000), FromInt(70000000), FromInt(100)) == Committed(FromInt(12300))
  {
    ReadFiveDigits();
    DigitsEdit("12345", FromInt(10000), FromInt(70000000), FromInt(100));
    RoundToHundred();
  }

  lemma ReadFiveDigits()
    ensures DigitsValue("12345") == 12345
  {
    assert "1"[..0] == [] && DigitsValue("1") == 1;
    assert "12"[..1] == "1" && DigitsValue("12") == 12;
    assert "123"[..2] == "12" && DigitsValue("123") == 123;
    assert "1234"[..3] == "123" && DigitsValue("1234") == 1234;
    assert "12345"[..4] == "1234";
  }

  lemma RoundToHundred()
    ensures RoundToStep(Decimal(12345, 0), FromInt(100)) == FromInt(12300)
  {
    assert Decimal(12345, 0).Value() == 12345.0;
    assert Round(12345.0 / 100.0) == 123;
  }

  /**
    Typing back the text the field shows for an amount it could have
    committed (non-negative, within the limits, a multiple of `step`)
    commits that same amount again.
  */
  lemma RetypingDisplayedAmountKeepsIt(r: Decimal, min: Decimal, max: Decimal, step: Decimal)
    requires step.Value() != 0.0 && r.mantissa >= 0
    requires min.Value() <= r.Value() <= max.Value() && OnGrid(r.Value(), step.Value())
    ensures EditOf(ToString(r), min, max, step).Committed?
    ensures EditOf(ToString(r), min, max, step).amount.Value() == r.Value()
  {
    var text := ToString(r);
    ToStringRoundTrip(r);
    IntermediateExactlyAtTrailingDot(text, min, max, step);
    RoundOnGrid(Normalize(r), step);
  }

  // ---------------------------------------------------------------------
  // Quick-pick fill and label offset

  /**
    How much of the button for `bucket` percent is filled, in percent:
    full once the amount reaches `bucket` percent of `max`, empty up to 25
    points below that, and linear in between. For `max` zero the ratio is
    infinite (full) for a positive amount and undefined (empty) otherwise.
  */
  function FillWidth(value: real, max: real, bucket: real): (w: real)
    ensures 0.0 <= w <= 100.0
    ensures max != 0.0 ==> (w == 100.0 <==> value / max * 100.0 >= bucket)
    ensures max != 0.0 ==> (w == 0.0 <==> value / max * 100.0 <= bucket - 25.0)
    ensures max == 0.0 ==> (w == 100.0 <==> value > 0.0) && (w == 0.0 <==> value <= 0.0)
  {
    if max == 0.0 then (if value > 0.0 then 100.0 else 0.0)
    else
      var p := value / max * 100.0;
      if p >= bucket then 100.0
      else if p > bucket - 25.0 && p < bucket then (p - (bucket - 25.0)) / 25.0 * 100.0
      else 0.0
  }

  /** The fills of the four quick-pick buttons, in order; a lower button is never less full than a higher one. */
  function Fills(value: real, max: real): (ws: seq<real>)
    ensures |ws| == |Percentages|
    ensures forall i :: 0 <= i < |ws| ==> ws[i] == FillWidth(value, max, Percentages[i] as real)
    ensures forall i, j :: 0 <= i <= j < |ws| ==> ws[i] >= ws[j]
  {
    seq(|Percentages|, i requires 0 <= i < |Percentages| => FillWidth(value, max, Percentages[i] as real))
  }

  /** For a positive `max`, a larger amount never fills a button less. */
  lemma FillWidthMonotone(v1: real, v2: real, max: real, bucket: real)
    requires max > 0.0 && v1 <= v2
    ensures FillWidth(v1, max, bucket) <= FillWidth(v2, max, bucket)
  {
    var p1, p2 := v1 / max * 100.0, v2 / max * 100.0;
    assert v1 / max <= v2 / max;
    assert p1 <= p2;
    if bucket - 25.0 < p1 < bucket && bucket - 25.0 < p2 < bucket {
      assert p1 - (bucket - 25.0) <= p2 - (bucket - 25.0);
    }
  }

  /**
    The amount quick-pick reports for `bucket` percent of a non-zero `max`
    fills that bucket's button completely, every button at or below it
    completely, and leaves the buttons above it empty.
  */
  lemma QuickPickFills(max: real, bucket: int)
    requires max != 0.0 && bucket in Percentages
    ensures FillWidth(max * bucket as real / 100.0, max, bucket as real) == 100.0
    ensures forall i :: 0 <= i < |Percentages| ==>
      Fills(max * bucket as real / 100.0, max)[i] == if Percentages[i] <= bucket then 100.0 else 0.0
  {
    var v := max * bucket as real / 100.0;
    QuickPickRatio(max, bucket as real);
    forall i | 0 <= i < |Percentages|
      ensures Fills(v, max)[i] == if Percentages[i] <= bucket then 100.0 else 0.0
    {
      assert Fills(v, max)[i] == FillWidth(v, max, Percentages[i] as real);
    }
  }

  /** Quick-pick's amount, measured against `max`, is the bucket again. */
  lemma QuickPickRatio(m: real, b: real)
    requires m != 0.0
    ensures m * b / 100.0 / m * 100.0 == b
  {
    assert m * b / 100.0 / m == b / 100.0;
  }

  /** The widths the button tests expect for amount 30 of maximum 100. */
  lemma FillWidthExamples()
    ensures FillWidth(30.0, 100.0, 25.0) == 100.0
    ensures FillWidth(30.0, 100.0, 50.0) == 20.0
    ensures Fills(50.0, 100.0) == [100.0, 100.0, 0.0, 0.0]
  {
  }

  /** Offset of the currency label after the text `inputValue`. */
  function CurrencyOffsetX(inputValue: string): nat {
    CharWidth * |inputValue|
  }

  /**
    The label moves one character width per digit: a whole amount of `k`
    digits puts it at `k` character widths.
  */
  lemma OffsetOfWholeAmount(n: nat, k: nat)
    requires k >= 1 && n < Pow10(k) && (k == 1 || Pow10(k - 1) <= n)
    ensures CurrencyOffsetX(ToString(FromInt(n))) == CharWidth * k
  {
    assert ToString(FromInt(n)) == NatToDigits(n);
    NatToDigitsLength(n, k);
  }

  /** The label follows the shown text: 1234 is shown as "1234", offset 96. */
  lemma CurrencyOffsetExample()
    ensures ToString(FromInt(1234)) == "1234"
    ensures CurrencyOffsetX(ToString(FromInt(1234))) == 96
  {
    assert NatToDigits(1234) == NatToDigits(123) + ['4'];
    assert NatToDigits(123) == NatToDigits(12) + ['3'];
    assert NatToDigits(12) == NatToDigits(1) + ['2'];
  }

  // ---------------------------------------------------------------------
  // The component

  /** A mounted field: its limits, the amount its owner holds and the text it shows. */
  class PercentageInput {
    const min: Decimal
    const max: Decimal
    const step: Decimal
    var value: Decimal
    var inputValue: string

    ghost predicate Valid() {
      step.Value() != 0.0
    }

    /** Mounting shows the owner's amount as text. */
    constructor (min: Decimal, max: Decimal, step: Decimal, value: Decimal)
      requires step.Value() != 0.0
      ensures Valid()
      ensures this.min == min && this.max == max && this.step == step
      ensures this.value == value && inputValue == ToString(value)
    {
      this.min, this.max, this.step := min, max, step;
      this.value := value;
      inputValue := ToString(value);
    }

    /**
      `handleInputChange`: applies one edit of the text box and returns the
      amount reported to the owner, if any.
    */
    method HandleInputChange(text: string) returns (reported: Option<Decimal>)
      requires Valid()
      modifies this`inputValue
      ensures match EditOf(text, min, max, step)
        case Ignored => reported == None && inputValue == old(inputValue)
        case Intermediate(t) => reported == None && inputValue == t
        case Committed(v) => reported == Some(v) && inputValue == ToString(v)
    {
      reported := None;
      if !Accepted(text) {
        return;
      }
      if DotCount(text) == 1 && text[|text| - 1] == '.' {
        inputValue := text;
        return;
      }
      var parsed := Parse(text);
      if parsed.None? {
        reported := Some(min);
        inputValue := ToString(min);
        return;
      }
      var amount := parsed.value;
      if amount.Value() < min.Value() {
        reported := Some(min);
        inputValue := ToString(min);
        return;
      }
      if amount.Value() > max.Value() {
        reported := Some(max);
        inputValue := ToString(max);
        return;
      }
      var rounded := RoundToStep(amount, step);
      reported := Some(rounded);
      inputValue := ToString(rounded);
    }

    /** `handlePercentageClick`: reports `percentage` percent of `max`, unrounded. */
    method HandlePercentageClick(percentage: int) returns (reported: Decimal)
      ensures reported.Value() == max.Value() * percentage as real / 100.0
    {
      reported := Decimal(max.mantissa * percentage, max.places + 2);
      ScaleValue(percentage, Decimal(max.mantissa, max.places + 2));
      assert Pow10(max.places + 2) as real == 100.0 * Pow10(max.places) as real;
    }

    /**
      The owner passes a new amount: when it differs from the previous one
      the text is reset to it; an equal amount leaves the text as it is.
    */
    method ReceiveValue(v: Decimal)
      modifies this`value, this`inputValue
      ensures value == v
      ensures inputValue == if v.Value() != old(value.Value()) then ToString(v) else old(inputValue)
    {
      if v.Value() != value.Value() {
        inputValue := ToString(v);
      }
      value := v;
    }

    /** `calculateWidth` for the current amount. */
    function Width(bucket: int): (w: real)
      reads this
      ensures 0.0 <= w <= 100.0
    {
      FillWidth(value.Value(), max.Value(), bucket as real)
    }

  }
}
