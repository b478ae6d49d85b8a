/** When a set of identifiers is exactly one prefix followed by every fixed-width number of an interval. */
module DenseCoverage {
  import opened GoText
  import opened JsonText

  const MIN_VALUES := 2
  const MAX_DIGITS := 18

  /** Where the run of digits that ends a value starts. */
  function TailStart(value: string, end: nat): (i: nat)
    requires end <= |value|
    ensures i <= end && (i > 0 ==> !IsDigit(value[i - 1]) || i < end || end == i)
    decreases end
  {
    if end > 0 && IsDigit(value[end - 1]) then TailStart(value, end - 1) else end
  }

  lemma {:induction false} TailIsDigits(value: string, end: nat)
    requires end <= |value|
    ensures var i := TailStart(value, end);
            (forall k | i <= k < end :: IsDigit(value[k])) && (i > 0 ==> !IsDigit(value[i - 1]))
    decreases end
  {
    if end > 0 && IsDigit(value[end - 1]) { TailIsDigits(value, end - 1); }
  }

  function Prefix(value: string): string {
    value[..TailStart(value, |value|)]
  }

  function Digits(value: string): string {
    value[TailStart(value, |value|)..]
  }

  function NumberOf(value: string): nat {
    TailIsDigits(value, |value|);
    DecimalValue(Digits(value))
  }

  /** The number with leading zeros up to a width. */
  function Pad(n: nat, width: nat): (s: string)
    ensures |s| == width && forall k | 0 <= k < width :: IsDigit(s[k])
  {
    if width == 0 then "" else Pad(n / 10, width - 1) + [('0' as int + n % 10) as char]
  }

  lemma {:induction false} PadRestores(digits: string)
    requires forall k | 0 <= k < |digits| :: '0' <= digits[k] <= '9'
    ensures Pad(DecimalValue(digits), |digits|) == digits
    decreases |digits|
  {
    if digits != "" {
      var d, rest := digits[|digits| - 1] as int - '0' as int, digits[..|digits| - 1];
      PadRestores(rest);
      var n := DecimalValue(rest);
      assert (n * 10 + d) / 10 == n && (n * 10 + d) % 10 == d;
      assert digits == rest + [digits[|digits| - 1]];
    }
  }

  /** A value is its prefix and its number at its width. */
  lemma ValueIsPadded(value: string)
    ensures value == Prefix(value) + Pad(NumberOf(value), |Digits(value)|)
  {
    TailIsDigits(value, |value|);
    PadRestores(Digits(value));
  }

  /** One prefix and one width for all values. */
  predicate IsShaped(values: set<string>, prefix: string, width: nat) {
    forall v | v in values :: Prefix(v) == prefix && |Digits(v)| == width
  }

  /** Every number of an interval under one prefix at one width. */
  function Run(prefix: string, width: nat, low: nat, high: nat): set<string> {
    set n | low <= n <= high :: prefix + Pad(n, width)
  }

  lemma ShapedAreNumbered(values: set<string>, prefix: string, width: nat, a: string, b: string)
    requires IsShaped(values, prefix, width) && a in values && b in values && NumberOf(a) == NumberOf(b)
    ensures a == b
  {
    ValueIsPadded(a);
    ValueIsPadded(b);
  }

  function Numbers(values: set<string>): set<nat> {
    set v | v in values :: NumberOf(v)
  }

  /** Numbers tell shaped values apart, so there are as many numbers as values. */
  lemma {:induction false} AsManyNumbers(values: set<string>, prefix: string, width: nat)
    requires IsShaped(values, prefix, width)
    ensures |Numbers(values)| == |values|
    decreases |values|
  {
    hide NumberOf, Prefix, Digits;
    if values != {} {
      var v :| v in values;
      var rest := values - {v};
      AsManyNumbers(rest, prefix, width);
      assert NumberOf(v) !in Numbers(rest) by {
        forall w | w in rest ensures NumberOf(w) != NumberOf(v) {
          if NumberOf(w) == NumberOf(v) { ShapedAreNumbered(values, prefix, width, w, v); }
        }
      }
      assert Numbers(values) == Numbers(rest) + {NumberOf(v)};
    }
  }

  function Interval(low: int, high: int): set<int>
    decreases high - low + 1
  {
    if low > high then {} else Interval(low, high - 1) + {high}
  }

  lemma {:induction false} IntervalHas(low: int, high: int, n: int)
    ensures n in Interval(low, high) <==> low <= n <= high
    decreases high - low + 1
  {
    if low <= high { IntervalHas(low, high - 1, n); }
  }

  lemma {:induction false} IntervalSize(low: int, high: int)
    requires low <= high + 1
    ensures |Interval(low, high)| == high - low + 1
    decreases high - low + 1
  {
    if low <= high {
      IntervalSize(low, high - 1);
      IntervalHas(low, high - 1, high);
    }
  }

  lemma SubsetOfSameSize(a: set<int>, b: set<int>)
    requires a <= b && |a| == |b|
    ensures a == b
  {
    assert b == a + (b - a);
    assert |b| == |a| + |b - a|;
  }

  /** By pigeonhole: as many shaped values as the interval between their extremes has numbers are all of them. */
  lemma NoRoomForGaps(values: set<string>, prefix: string, width: nat, low: nat, high: nat)
    requires IsShaped(values, prefix, width) && low <= high && |values| == high - low + 1
    requires forall v | v in values :: low <= NumberOf(v) <= high
    ensures values == Run(prefix, width, low, high)
  {
    hide NumberOf, Prefix, Digits, Pad, Interval;
    AsManyNumbers(values, prefix, width);
    IntervalSize(low, high);
    var numbers: set<int> := set v | v in values :: NumberOf(v);
    assert numbers == Numbers(values);
    forall n | n in numbers ensures n in Interval(low, high) { IntervalHas(low, high, n); }
    SubsetOfSameSize(numbers, Interval(low, high));
    forall n: nat | low <= n <= high ensures prefix + Pad(n, width) in values {
      IntervalHas(low, high, n);
      assert n in Interval(low, high) && n in numbers;
      var v :| v in values && NumberOf(v) == n;
      ValueIsPadded(v);
    }
    forall v | v in values ensures v in Run(prefix, width, low, high) {
      ValueIsPadded(v);
      assert v == prefix + Pad(NumberOf(v), width);
    }
  }

  /* ---- The other direction ---- */

  function Power10(w: nat): (n: nat)
    ensures n > 0
  {
    if w == 0 then 1 else 10 * Power10(w - 1)
  }

  lemma {:induction false} PadReads(n: nat, width: nat)
    requires n < Power10(width)
    ensures DecimalValue(Pad(n, width)) == n
    decreases width
  {
    if width > 0 {
      PadReads(n / 10, width - 1);
      var s := Pad(n, width);
      assert s[..width - 1] == Pad(n / 10, width - 1);
    }
  }

  lemma {:induction false} TailStops(value: string, end: nat, i: nat)
    requires i <= end <= |value| && (forall k | i <= k < end :: IsDigit(value[k])) && (i > 0 ==> !IsDigit(value[i - 1]))
    ensures TailStart(value, end) == i
    decreases end
  {
    if end > i { TailStops(value, end - 1, i); }
  }

  /** Under a prefix that does not end in a digit, the padded numbers have that prefix, that width and that number. */
  lemma PaddedIsShaped(prefix: string, width: nat, n: nat)
    requires n < Power10(width) && (prefix != "" ==> !IsDigit(prefix[|prefix| - 1]))
    ensures var v := prefix + Pad(n, width); Prefix(v) == prefix && |Digits(v)| == width && NumberOf(v) == n
  {
    var v := prefix + Pad(n, width);
    assert forall k | |prefix| <= k < |v| :: v[k] == Pad(n, width)[k - |prefix|];
    TailStops(v, |v|, |prefix|);
    PadReads(n, width);
    assert Digits(v) == Pad(n, width);
  }

  /** A dense set: at least two values that are exactly one run. */
  ghost predicate IsDense(values: set<string>, prefix: string, width: nat, low: nat, high: nat) {
    0 < width <= MAX_DIGITS && low < high < Power10(width) && (prefix != "" ==> !IsDigit(prefix[|prefix| - 1])) &&
    values == Run(prefix, width, low, high)
  }

  /** A dense set is shaped, has as many values as its interval, and lies within it. */
  lemma DenseIsShaped(values: set<string>, prefix: string, width: nat, low: nat, high: nat)
    requires IsDense(values, prefix, width, low, high)
    ensures IsShaped(values, prefix, width) && |values| == high - low + 1
    ensures forall v | v in values :: low <= NumberOf(v) <= high
    ensures prefix + Pad(low, width) in values && prefix + Pad(high, width) in values
  {
    hide NumberOf, Prefix, Digits, Pad, Power10, Interval;
    forall v | v in values ensures Prefix(v) == prefix && |Digits(v)| == width && low <= NumberOf(v) <= high {
      var n: nat :| low <= n <= high && v == prefix + Pad(n, width);
      PaddedIsShaped(prefix, width, n);
    }
    AsManyNumbers(values, prefix, width);
    forall n: nat | low <= n <= high ensures n in Numbers(values) {
      PaddedIsShaped(prefix, width, n);
      assert prefix + Pad(n, width) in values;
    }
    IntervalSize(low, high);
    var numbers: set<int> := set v | v in values :: NumberOf(v);
    assert numbers == Numbers(values);
    forall n ensures n in numbers <==> n in Interval(low, high) {
      IntervalHas(low, high, n);
      if low <= n <= high {
        var m: nat := n;
        assert m in Numbers(values);
      }
    }
    assert numbers == Interval(low, high);
  }

  lemma {:induction false} DecimalBelowPower(s: string)
    requires forall k | 0 <= k < |s| :: '0' <= s[k] <= '9'
    ensures DecimalValue(s) < Power10(|s|)
    decreases |s|
  {
    if s != "" { DecimalBelowPower(s[..|s| - 1]); }
  }

  /** Values below and above all others, as the loop keeps them. */
  predicate IsExtreme(values: set<string>, low: string, high: string) {
    low in values && high in values && forall v | v in values :: NumberOf(low) <= NumberOf(v) <= NumberOf(high)
  }

  lemma NumberFits(value: string)
    ensures NumberOf(value) < Power10(|Digits(value)|)
  {
    TailIsDigits(value, |value|);
    DecimalBelowPower(Digits(value));
  }

  lemma NoTrailingDigit(value: string)
    ensures Prefix(value) != "" ==> !IsDigit(Prefix(value)[|Prefix(value)| - 1])
  {
    TailIsDigits(value, |value|);
  }

  lemma AcceptedIsDense(values: set<string>, prefix: string, width: nat, low: string, high: string)
    requires IsShaped(values, prefix, width) && 0 < width <= MAX_DIGITS && |values| >= MIN_VALUES
    requires IsExtreme(values, low, high) && |values| == NumberOf(high) - NumberOf(low) + 1
    ensures IsDense(values, prefix, width, NumberOf(low), NumberOf(high))
    ensures low == prefix + Pad(NumberOf(low), width) && high == prefix + Pad(NumberOf(high), width)
  {
    NumberFits(high);
    NoTrailingDigit(low);
    hide NumberOf, Pad, Power10, Prefix, Digits, Run;
    NoRoomForGaps(values, prefix, width, NumberOf(low), NumberOf(high));
    ValueIsPadded(low);
    ValueIsPadded(high);
  }

  lemma DenseFillsSpan(values: set<string>, p: string, w: nat, a: nat, b: nat, low: string, high: string)
    requires IsDense(values, p, w, a, b) && IsExtreme(values, low, high)
    ensures |values| == NumberOf(high) - NumberOf(low) + 1
  {
    hide NumberOf, Pad, Power10, IsShaped;
    DenseIsShaped(values, p, w, a, b);
    PaddedIsShaped(p, w, a);
    PaddedIsShaped(p, w, b);
  }

  lemma RejectedIsNotDense(values: set<string>, low: string, high: string)
    requires IsExtreme(values, low, high) && |values| != NumberOf(high) - NumberOf(low) + 1
    ensures !exists p, w: nat, a: nat, b: nat :: IsDense(values, p, w, a, b)
  {
    hide NumberOf, IsDense, IsExtreme;
    forall p, w: nat, a: nat, b: nat | IsDense(values, p, w, a, b) ensures false {
      DenseFillsSpan(values, p, w, a, b, low, high);
    }
  }

  lemma MisshapenIsNotDense(values: set<string>, v: string, w: string)
    requires v in values && w in values
    requires |Digits(v)| == 0 || |Digits(v)| > MAX_DIGITS || Prefix(v) != Prefix(w) || |Digits(v)| != |Digits(w)|
    ensures !exists p, width: nat, a: nat, b: nat :: IsDense(values, p, width, a, b)
  {
    hide Pad, Power10, Prefix, Digits;
    forall p, width: nat, a: nat, b: nat | IsDense(values, p, width, a, b) ensures false {
      DenseIsShaped(values, p, width, a, b);
    }
  }

  /** Looks at every value once, in any order, and accepts exactly the dense sets, with their two ends. */
  method FindDense(values: set<string>) returns (low: string, high: string, dense: bool)
    ensures dense <==> |values| >= MIN_VALUES && exists p, w: nat, a: nat, b: nat :: IsDense(values, p, w, a, b)
    ensures dense ==>
            exists p, w: nat, a: nat, b: nat ::
              IsDense(values, p, w, a, b) && low == p + Pad(a, w) && high == p + Pad(b, w)
  {
    hide Prefix, Digits, NumberOf, Pad, IsDense;
    low, high, dense := "", "", false;
    if |values| < MIN_VALUES { return; }
    var first :| first in values;
    var prefix, width := Prefix(first), |Digits(first)|;
    if width == 0 || width > MAX_DIGITS {
      MisshapenIsNotDense(values, first, first);
      return;
    }
    low, high := first, first;
    var rest := values - {first};
    while rest != {}
      invariant rest <= values && first in values - rest
      invariant IsShaped(values - rest, prefix, width) && IsExtreme(values - rest, low, high)
      decreases rest
    {
      var value :| value in rest;
      if |Digits(value)| == 0 || |Digits(value)| > MAX_DIGITS || Prefix(value) != prefix || |Digits(value)| != width {
        MisshapenIsNotDense(values, value, first);
        return "", "", false;
      }
      var n := NumberOf(value);
      if n < NumberOf(low) { low := value; } else if n > NumberOf(high) { high := value; }
      rest := rest - {value};
    }
    assert values - rest == values;
    if NumberOf(high) - NumberOf(low) + 1 != |values| {
      RejectedIsNotDense(values, low, high);
      return "", "", false;
    }
    AcceptedIsDense(values, prefix, width, low, high);
    dense := true;
  }
}
