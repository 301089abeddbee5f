/**
  Exact decimal numbers, the text form the input field accepts, and the
  two conversions between them that the converter relies on: reading an
  accepted edit as a number (what `parseFloat` does on such text) and
  writing a number back as display text (what `toString` does).

  A number is a finite decimal `mantissa / 10^places`. Every amount the
  converter handles (field limits, steps, typed input, quick-pick values,
  quoted amounts) is such a number, so arithmetic on them is exact.
*/
module Decimals {

  datatype Option<T> = None | Some(value: T)

  function Pow10(n: nat): (p: nat)
    ensures p >= 1
  {
    if n == 0 then 1 else 10 * Pow10(n - 1)
  }

  /** The number `mantissa / 10^places`. */
  datatype Decimal = Decimal(mantissa: int, places: nat) {
    function Value(): real {
      mantissa as real / Pow10(places) as real
    }
  }

  function FromInt(n: int): (d: Decimal)
    ensures d.Value() == n as real
  {
    Decimal(n, 0)
  }

  // ---------------------------------------------------------------------
  // Digit strings

  predicate IsDigit(c: char) {
    '0' <= c <= '9'
  }

  predicate AllDigits(s: string) {
    forall i :: 0 <= i < |s| ==> IsDigit(s[i])
  }

  /**
    The number a string of decimal digits denotes, leading zeros allowed
    (on other characters it is not meaningful).
  */
  function DigitsValue(s: string): int {
    if s == [] then 0
    else 10 * DigitsValue(s[..|s| - 1]) + (s[|s| - 1] as int - '0' as int)
  }

  function DigitChar(d: nat): (c: char)
    requires d < 10
    ensures IsDigit(c) && c as int - '0' as int == d
  {
    ('0' as int + d) as char
  }

  /** The shortest digit string of `n` (no leading zeros, "0" for zero). */
  function NatToDigits(n: nat): (s: string)
    ensures AllDigits(s) && |s| >= 1
  {
    if n < 10 then [DigitChar(n)] else NatToDigits(n / 10) + [DigitChar(n % 10)]
  }

  function Zeros(k: nat): (s: string)
    ensures |s| == k && AllDigits(s)
  {
    if k == 0 then [] else Zeros(k - 1) + ['0']
  }

  /** `s` with zeros in front, up to `width` characters. */
  function PadLeft(s: string, width: nat): string {
    if |s| < width then Zeros(width - |s|) + s else s
  }

  lemma {:induction false} DigitsValueNonNegative(s: string)
    requires AllDigits(s)
    ensures DigitsValue(s) >= 0
  {
    if s != [] {
      DigitsValueNonNegative(s[..|s| - 1]);
    }
  }

  lemma {:induction false} NatToDigitsValue(n: nat)
    ensures DigitsValue(NatToDigits(n)) == n
  {
    if n >= 10 {
      var s := NatToDigits(n);
      assert s[..|s| - 1] == NatToDigits(n / 10);
      NatToDigitsValue(n / 10);
    }
  }

  /** Reading a concatenation: the left part is shifted by the length of the right part. */
  lemma {:induction false} DigitsValueAppend(a: string, b: string)
    ensures DigitsValue(a + b) == DigitsValue(a) * Pow10(|b|) + DigitsValue(b)
  {
    if b != [] {
      var b' := b[..|b| - 1];
      var last := b[|b| - 1] as int - '0' as int;
      assert (a + b)[..|a + b| - 1] == a + b';
      assert (a + b)[|a + b| - 1] == b[|b| - 1];
      DigitsValueAppend(a, b');
      ShiftDigit(DigitsValue(a), Pow10(|b'|), DigitsValue(b'), last);
    } else {
      assert a + b == a;
    }
  }

  lemma ShiftDigit(A: int, P: nat, B: int, last: int)
    ensures 10 * (A * P + B) + last == A * (10 * P) + (10 * B + last)
  {
  }

  lemma {:induction false} ZerosValue(k: nat)
    ensures DigitsValue(Zeros(k)) == 0
  {
    if k > 0 {
      assert Zeros(k)[..k - 1] == Zeros(k - 1);
      ZerosValue(k - 1);
    }
  }

  lemma AllDigitsConcat(a: string, b: string)
    requires AllDigits(a) && AllDigits(b)
    ensures AllDigits(a + b)
  {
    forall i | 0 <= i < |a + b| ensures IsDigit((a + b)[i]) {
      if i < |a| { assert (a + b)[i] == a[i]; } else { assert (a + b)[i] == b[i - |a|]; }
    }
  }

  /** Leading zeros do not change the number. */
  lemma ZerosPrefixValue(k: nat, s: string)
    ensures DigitsValue(Zeros(k) + s) == DigitsValue(s)
  {
    DigitsValueAppend(Zeros(k), s);
    ZerosValue(k);
    ZeroTimes(DigitsValue(Zeros(k)), Pow10(|s|));
  }

  lemma ZeroTimes(x: int, y: int)
    requires x == 0
    ensures x * y == 0
  {
  }

  lemma PadLeftValue(s: string, width: nat)
    requires AllDigits(s)
    ensures AllDigits(PadLeft(s, width))
    ensures |PadLeft(s, width)| == if |s| < width then width else |s|
    ensures DigitsValue(PadLeft(s, width)) == DigitsValue(s)
  {
    if |s| < width {
      AllDigitsConcat(Zeros(width - |s|), s);
      ZerosPrefixValue(width - |s|, s);
    }
  }

  // ---------------------------------------------------------------------
  // The accepted input language  ^\d*\.?\d*$

  /** Index of the first '.' in `s`, or |s| when there is none. */
  function DotIndex(s: string): (k: nat)
    ensures k <= |s|
    ensures k < |s| ==> s[k] == '.'
    ensures forall i :: 0 <= i < k ==> s[i] != '.'
  {
    if s == [] then 0
    else if s[0] == '.' then 0
    else 1 + DotIndex(s[1..])
  }

  /** Number of '.' characters in `s` (the source's `split(".").length - 1`). */
  function DotCount(s: string): (n: nat)
    ensures n == 0 <==> DotIndex(s) == |s|
  {
    if s == [] then 0
    else (if s[0] == '.' then 1 else 0) + DotCount(s[1..])
  }

  /** The digits before the first '.', or all of `s` when it has none. */
  function WholePart(s: string): string {
    s[..DotIndex(s)]
  }

  /** The characters after the first '.', or nothing when `s` has none. */
  function FractionPart(s: string): string {
    var k := DotIndex(s);
    if k < |s| then s[k + 1..] else []
  }

  /** Text matching ^\d*\.?\d*$ : digits, at most one '.', digits. */
  predicate Accepted(s: string) {
    AllDigits(WholePart(s)) && AllDigits(FractionPart(s))
  }

  /**
    What `parseFloat` yields on accepted text: None (NaN) when the text has
    no digit at all, otherwise the exact decimal it spells, whose mantissa
    is read from all its digits and whose places are the digits after '.'.
  */
  function Parse(s: string): (r: Option<Decimal>)
    requires Accepted(s)
    ensures r.Some? ==> r.value.places == |FractionPart(s)| && r.value.mantissa >= 0
  {
    var whole, frac := WholePart(s), FractionPart(s);
    if |whole| + |frac| == 0 then None
    else
      assert AllDigits(whole + frac);
      DigitsValueNonNegative(whole + frac);
      Some(Decimal(DigitsValue(whole + frac), |frac|))
  }

  /** The only accepted texts `parseFloat` turns into NaN are "" and ".". */
  lemma ParseFailsOnlyWithoutDigits(s: string)
    requires Accepted(s)
    ensures Parse(s).None? <==> s == [] || s == "."
  {
    if |WholePart(s)| + |FractionPart(s)| == 0 && s != [] {
      assert s == [s[0]];
    }
  }

  /** The number read from accepted text is its whole part plus its fraction digits over 10^places. */
  lemma ParseValue(s: string)
    requires Accepted(s) && Parse(s).Some?
    ensures Parse(s).value.Value() ==
      DigitsValue(WholePart(s)) as real + DigitsValue(FractionPart(s)) as real / Pow10(|FractionPart(s)|) as real
  {
    var whole, frac := WholePart(s), FractionPart(s);
    DigitsValueAppend(whole, frac);
    ScaledSum(DigitsValue(whole), Pow10(|frac|), DigitsValue(frac));
  }

  lemma ScaledSum(W: int, P: nat, F: int)
    requires P >= 1
    ensures (W * P + F) as real / P as real == W as real + F as real / P as real
  {
    assert (W * P + F) as real == W as real * P as real + F as real;
  }

  // ---------------------------------------------------------------------
  // Display text (`toString`)

  /** The same number with trailing zeros of the fraction removed. */
  function Normalize(d: Decimal): (n: Decimal)
    ensures n.Value() == d.Value()
    ensures (n.mantissa >= 0) == (d.mantissa >= 0)
    ensures n.places == 0 || n.mantissa % 10 != 0
    decreases d.places
  {
    if d.places > 0 && d.mantissa % 10 == 0 then
      var q := d.mantissa / 10;
      assert d.mantissa as real == 10.0 * q as real;
      assert Pow10(d.places) as real == 10.0 * Pow10(d.places - 1) as real;
      Normalize(Decimal(q, d.places - 1))
    else
      d
  }

  /**
    Plain decimal notation of `d`: a '-' for negative numbers, the whole
    part without leading zeros, and when the number is not whole a '.'
    followed by the fraction without trailing zeros.
  */
  function ToString(d: Decimal): (r: string)
    ensures r != [] && (r[0] == '-' <==> d.mantissa < 0)
  {
    var n := Normalize(d);
    if n.mantissa < 0 then "-" + Unsigned(-n.mantissa, n.places)
    else Unsigned(n.mantissa, n.places)
  }

  /**
    Plain notation of `a / 10^places` for a natural `a`: the digits of `a`,
    with zeros in front when it has no more digits than `places`, and a '.'
    before the last `places` of them.
  */
  function Unsigned(a: nat, places: nat): (r: string)
    ensures r != [] && IsDigit(r[0])
  {
    if places == 0 then NatToDigits(a)
    else InsertDot(PadLeft(NatToDigits(a), places + 1), places)
  }

  /** `t` with a '.' before its last `places` characters. */
  function InsertDot(t: string, places: nat): string
    requires places <= |t|
  {
    t[..|t| - places] + "." + t[|t| - places..]
  }

  lemma {:induction false} Pow10Add(a: nat, b: nat)
    ensures Pow10(a + b) == Pow10(a) * Pow10(b)
  {
    if a > 0 {
      Pow10Add(a - 1, b);
      assert Pow10(a + b) == 10 * Pow10(a - 1 + b);
      TenTimes(Pow10(a - 1), Pow10(b));
    }
  }

  lemma TenTimes(x: int, y: int)
    ensures 10 * (x * y) == (10 * x) * y
  {
  }

  /** Shifting left by at least one place leaves a trailing zero. */
  lemma ShiftedEndsInZero(m: int, d: nat)
    ensures d > 0 ==> (m * Pow10(d)) % 10 == 0
  {
    if d > 0 {
      var k := m * Pow10(d - 1);
      TimesTenInside(m, Pow10(d - 1));
      assert m * Pow10(d) == 10 * k;
      TimesTenMod(k);
    }
  }

  lemma TimesTenInside(m: int, y: int)
    ensures m * (10 * y) == 10 * (m * y)
  {
  }

  lemma TimesTenMod(k: int)
    ensures (10 * k) % 10 == 0
  {
  }

  lemma CrossMultiply(m1: int, p1: nat, m2: int, p2: nat)
    requires p1 >= 1 && p2 >= 1
    requires m1 as real / p1 as real == m2 as real / p2 as real
    ensures m1 * p2 == m2 * p1
  {
    var r := m1 as real / p1 as real;
    assert m1 as real == r * p1 as real;
    assert m2 as real == r * p2 as real;
    assert (m1 * p2) as real == m1 as real * p2 as real == r * p1 as real * p2 as real;
    assert (m2 * p1) as real == m2 as real * p1 as real == r * p2 as real * p1 as real;
  }

  /** Two decimals without trailing fraction zeros that denote the same number are identical. */
  lemma NormalFormUnique(x: Decimal, y: Decimal)
    requires x.places == 0 || x.mantissa % 10 != 0
    requires y.places == 0 || y.mantissa % 10 != 0
    requires x.places <= y.places && x.Value() == y.Value()
    ensures x == y
  {
    var d := y.places - x.places;
    var P, Q := Pow10(x.places), Pow10(d);
    Pow10Add(x.places, d);
    CrossMultiply(x.mantissa, P, y.mantissa, Pow10(y.places));
    CancelCommonFactor(x.mantissa, y.mantissa, P, Q);
    ShiftedEndsInZero(x.mantissa, d);
  }

  lemma CancelCommonFactor(a: int, b: int, p: nat, q: nat)
    requires p >= 1 && a * (p * q) == b * p
    ensures a * q == b
  {
    assert (a * q - b) * p == 0;
  }

  /** `toString` depends on the number alone, not on how it is written as a decimal. */
  lemma ToStringOfEqualNumbers(x: Decimal, y: Decimal)
    requires x.Value() == y.Value()
    ensures ToString(x) == ToString(y)
  {
    var nx, ny := Normalize(x), Normalize(y);
    if nx.places <= ny.places {
      NormalFormUnique(nx, ny);
    } else {
      NormalFormUnique(ny, nx);
    }
  }

  lemma AllDigitsNoDot(s: string)
    requires AllDigits(s)
    ensures DotIndex(s) == |s|
  {
  }

  /** Text made of digits, a '.', and more text splits at that '.'. */
  lemma SplitAtDot(a: string, b: string)
    requires AllDigits(a)
    ensures WholePart(a + "." + b) == a
    ensures FractionPart(a + "." + b) == b
  {
    var s := a + "." + b;
    assert s[|a|] == '.';
    assert DotIndex(s) == |a|;
    assert s[..|a|] == a;
    assert s[|a| + 1..] == b;
  }

  lemma UnsignedRoundTrip(a: nat, places: nat)
    ensures Accepted(Unsigned(a, places))
    ensures Unsigned(a, places)[|Unsigned(a, places)| - 1] != '.'
    ensures Parse(Unsigned(a, places)) == Some(Decimal(a, places))
  {
    if places == 0 {
      WholeRoundTrip(a);
    } else {
      FractionRoundTrip(a, places);
    }
  }

  lemma WholeRoundTrip(a: nat)
    ensures Accepted(Unsigned(a, 0))
    ensures Unsigned(a, 0)[|Unsigned(a, 0)| - 1] != '.'
    ensures Parse(Unsigned(a, 0)) == Some(Decimal(a, 0))
  {
    NatToDigitsValue(a);
    ParseDigits(NatToDigits(a));
  }

  /** Text made only of digits reads as the whole number they spell. */
  lemma ParseDigits(s: string)
    requires AllDigits(s) && s != []
    ensures Accepted(s) && s[|s| - 1] != '.'
    ensures Parse(s) == Some(Decimal(DigitsValue(s), 0))
  {
    AllDigitsNoDot(s);
    assert WholePart(s) == s && FractionPart(s) == [];
    assert WholePart(s) + FractionPart(s) == s;
    assert IsDigit(s[|s| - 1]);
  }

  lemma PaddedDigits(a: nat, width: nat)
    ensures AllDigits(PadLeft(NatToDigits(a), width))
    ensures |PadLeft(NatToDigits(a), width)| >= width
    ensures DigitsValue(PadLeft(NatToDigits(a), width)) == a
  {
    NatToDigitsValue(a);
    PadLeftValue(NatToDigits(a), width);
  }

  lemma FractionRoundTrip(a: nat, places: nat)
    requires places > 0
    ensures Accepted(Unsigned(a, places))
    ensures Unsigned(a, places)[|Unsigned(a, places)| - 1] != '.'
    ensures Parse(Unsigned(a, places)) == Some(Decimal(a, places))
  {
    PaddedDigits(a, places + 1);
    DotInsertedRoundTrip(PadLeft(NatToDigits(a), places + 1), places);
  }

  /** Putting a '.' before the last `places` digits of `t` and reading it back. */
  lemma DotInsertedRoundTrip(t: string, places: nat)
    requires AllDigits(t) && 0 < places < |t|
    ensures Accepted(InsertDot(t, places))
    ensures InsertDot(t, places)[|t|] != '.'
    ensures Parse(InsertDot(t, places)) == Some(Decimal(DigitsValue(t), places))
  {
    DottedRoundTrip(t[..|t| - places], t[|t| - places..], t);
    DotInsertedLastDigit(t, places);
  }

  lemma DotInsertedLastDigit(t: string, places: nat)
    requires AllDigits(t) && 0 < places < |t|
    ensures InsertDot(t, places)[|t|] != '.'
  {
    assert InsertDot(t, places)[|t|] == t[|t| - 1];
  }

  /** Digits, a '.', and digits read back as all the digits over 10^(digits after the '.'). */
  lemma DottedRoundTrip(w: string, f: string, t: string)
    requires AllDigits(t) && w + f == t && f != []
    ensures Accepted(w + "." + f)
    ensures Parse(w + "." + f) == Some(Decimal(DigitsValue(t), |f|))
  {
    assert AllDigits(w) by {
      forall i | 0 <= i < |w| ensures IsDigit(w[i]) { assert w[i] == t[i]; }
    }
    assert AllDigits(f) by {
      forall i | 0 <= i < |f| ensures IsDigit(f[i]) { assert f[i] == t[|w| + i]; }
    }
    SplitAtDot(w, f);
  }

  /**
    Writing a non-negative number and reading the text back gives the same
    number, and the text is accepted input that does not end in '.'.
  */
  lemma ToStringRoundTrip(d: Decimal)
    requires d.mantissa >= 0
    ensures Accepted(ToString(d))
    ensures ToString(d)[|ToString(d)| - 1] != '.'
    ensures Parse(ToString(d)) == Some(Normalize(d))
    ensures Parse(ToString(d)).value.Value() == d.Value()
  {
    var n := Normalize(d);
    UnsignedRoundTrip(n.mantissa, n.places);
  }

  /** The accepted text is exactly the text whose characters are all digits except its first '.'. */
  lemma AcceptedCharacters(s: string)
    ensures Accepted(s) <==> forall i :: 0 <= i < |s| ==> IsDigit(s[i]) || i == DotIndex(s)
  {
    if Accepted(s) {
      AcceptedOnlyDigitsAndDot(s);
    } else if forall i :: 0 <= i < |s| ==> IsDigit(s[i]) || i == DotIndex(s) {
      DigitsAndDotAccepted(s);
    }
  }

  lemma AcceptedOnlyDigitsAndDot(s: string)
    requires Accepted(s)
    ensures forall i :: 0 <= i < |s| ==> IsDigit(s[i]) || i == DotIndex(s)
  {
    var k := DotIndex(s);
    var w, f := WholePart(s), FractionPart(s);
    assert w == s[..k];
    forall i | 0 <= i < |s| && i != k ensures IsDigit(s[i]) {
      if i < k {
        assert s[i] == w[i];
      } else {
        assert f == s[k + 1..];
        assert s[i] == f[i - k - 1];
      }
    }
  }

  lemma DigitsAndDotAccepted(s: string)
    requires forall i :: 0 <= i < |s| ==> IsDigit(s[i]) || i == DotIndex(s)
    ensures Accepted(s)
  {
    var k := DotIndex(s);
    var w, f := WholePart(s), FractionPart(s);
    assert w == s[..k];
    forall i | 0 <= i < |w| ensures IsDigit(w[i]) {
      assert w[i] == s[i];
    }
    if k < |s| {
      assert f == s[k + 1..];
      forall i | 0 <= i < |f| ensures IsDigit(f[i]) {
        assert f[i] == s[k + 1 + i];
      }
    }
  }

  // ---------------------------------------------------------------------
  // The shape of the display text

  /** The digits of a whole number start with '0' only for zero itself. */
  lemma {:induction false} NatToDigitsFirst(n: nat)
    ensures NatToDigits(n)[0] == '0' ==> n == 0
  {
    if n >= 10 {
      NatToDigitsFirst(n / 10);
      assert NatToDigits(n)[0] == NatToDigits(n / 10)[0];
    }
  }

  /** The last digit written is the number's last decimal digit. */
  lemma NatToDigitsLast(n: nat)
    ensures NatToDigits(n)[|NatToDigits(n)| - 1] == DigitChar(n % 10)
  {
  }

  /** A whole number of k digits (10^(k-1) <= n < 10^k, or 0 for k = 1) is written with k characters. */
  lemma {:induction false} NatToDigitsLength(n: nat, k: nat)
    requires k >= 1 && n < Pow10(k) && (k == 1 || Pow10(k - 1) <= n)
    ensures |NatToDigits(n)| == k
  {
    if n >= 10 {
      if k == 1 {
        assert false;
      }
      assert Pow10(k) == 10 * Pow10(k - 1);
      DivideByTen(n, Pow10(k - 1));
      if k > 2 {
        assert Pow10(k - 1) == 10 * Pow10(k - 2);
        DivideByTen(n, Pow10(k - 2));
      }
      NatToDigitsLength(n / 10, k - 1);
    }
  }

  lemma DivideByTen(n: nat, p: nat)
    ensures n < 10 * p ==> n / 10 < p
    ensures 10 * p <= n ==> p <= n / 10
  {
  }

  /** A decimal without trailing fraction zeros is whole exactly when it has no places. */
  lemma WholeExactlyWithoutPlaces(n: Decimal)
    requires n.places == 0 || n.mantissa % 10 != 0
    ensures n.places == 0 <==> n.Value().Floor as real == n.Value()
  {
    if n.places == 0 {
      assert n.Value() == n.mantissa as real;
    } else {
      FractionNotWhole(n.mantissa, n.places, n.Value());
    }
  }

  lemma FractionNotWhole(m: int, places: nat, v: real)
    requires places > 0 && m % 10 != 0 && v == m as real / Pow10(places) as real
    ensures v.Floor as real != v
  {
    if v.Floor as real == v {
      var k := v.Floor;
      assert k as real / 1 as real == v;
      CrossMultiply(m, Pow10(places), k, 1);
      ShiftedEndsInZero(k, places);
      assert false;
    }
  }

  /**
    The plain notation of a non-negative number: it is not empty; it starts
    with '0' only when its whole part is 0 ("0" itself or "0." followed by
    the fraction); it holds a '.' exactly when the number is not whole; and
    then its last digit is not '0'.
  */
  lemma ToStringShape(d: Decimal)
    requires d.mantissa >= 0
    ensures var t := ToString(d);
      t != [] &&
      (t[0] == '0' ==> |t| == 1 || t[1] == '.') &&
      (DotIndex(t) < |t| <==> d.Value().Floor as real != d.Value()) &&
      (d.Value().Floor as real != d.Value() ==> t[|t| - 1] != '0')
  {
    var n := Normalize(d);
    WholeExactlyWithoutPlaces(n);
    if n.places == 0 {
      WholeShape(n.mantissa);
    } else {
      FractionShape(n.mantissa, n.places);
    }
  }

  lemma WholeShape(a: nat)
    ensures var t := Unsigned(a, 0);
      t != [] && (t[0] == '0' ==> |t| == 1) && DotIndex(t) == |t|
  {
    NatToDigitsFirst(a);
    AllDigitsNoDot(NatToDigits(a));
  }

  lemma FractionShape(a: nat, places: nat)
    requires places > 0 && a % 10 != 0
    ensures var t := Unsigned(a, places);
      t != [] && (t[0] == '0' ==> t[1] == '.') && DotIndex(t) < |t| && t[|t| - 1] != '0'
  {
    var digits := NatToDigits(a);
    var padded := PadLeft(digits, places + 1);
    PaddedDigits(a, places + 1);
    var t := InsertDot(padded, places);
    assert t[|padded| - places] == '.';
    assert t[|t| - 1] == padded[|padded| - 1];
    PadLeftLast(digits, places + 1);
    NatToDigitsLast(a);
    if |digits| >= places + 1 {
      NatToDigitsFirst(a);
      assert t[0] == digits[0];
    } else {
      assert |padded| - places == 1;
    }
  }

  /** Padding keeps the last character. */
  lemma PadLeftLast(s: string, width: nat)
    requires s != []
    ensures PadLeft(s, width)[|PadLeft(s, width)| - 1] == s[|s| - 1]
  {
  }
}
