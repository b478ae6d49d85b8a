/**
 What a marker may state about the units it replaced. Every fact is defined by the units alone, so that a reader can
 hold it against them. Which values are numbers, and which names look like secrets, are inputs.
 */
module ElisionFacts {
  import opened GoText
  import opened DenseCoverage

  datatype Field = Field(name: string, value: string)

  type Unit = seq<Field>

  /** How values read as numbers, and which names are withheld. */
  datatype Rules = Rules(number: string -> Option<real>, secret: string -> bool)

  const MAX_VALUE_BYTES := 40
  const MAX_NAME_BYTES := 32
  const MAX_TRACKED := 48
  const MAX_ENUM_VALUES := 5
  const MAX_ENUM_VALUE_BYTES := 24
  const MAX_COVERAGE_VALUES := 4096
  const MAX_COVERAGE_ENTRIES := 2
  const ABSENT := "absent"

  /* ---- Values of a field over a run ---- */

  /** A repeated key within one unit: the first occurrence stands. */
  function FirstValue(unit: Unit, name: string): Option<string> {
    if unit == [] then None
    else if FirstValue(unit[..|unit| - 1], name).Some? then FirstValue(unit[..|unit| - 1], name)
    else if unit[|unit| - 1].name == name then Some(unit[|unit| - 1].value)
    else None
  }

  /** The values of a field, unit by unit, where it is there. */
  function Values(units: seq<Unit>, name: string): seq<string> {
    if units == [] then []
    else
      var last := FirstValue(units[|units| - 1], name);
      Values(units[..|units| - 1], name) + if last.Some? then [last.value] else []
  }

  /** How many units have this value, and how many lack the field. */
  function UnitsWith(units: seq<Unit>, name: string, value: Option<string>): nat {
    if units == [] then 0
    else UnitsWith(units[..|units| - 1], name, value) + if FirstValue(units[|units| - 1], name) == value then 1 else 0
  }

  function Occurrences(values: seq<string>, v: string): nat {
    if values == [] then 0 else Occurrences(values[..|values| - 1], v) + if values[|values| - 1] == v then 1 else 0
  }

  /** Values in the order in which they first appear. */
  function DistinctValues(values: seq<string>): seq<string> {
    if values == [] then []
    else
      var before, v := DistinctValues(values[..|values| - 1]), values[|values| - 1];
      if v in before then before else before + [v]
  }

  function ToSet(values: seq<string>): set<string> {
    set v | v in values
  }

  lemma {:induction false} ValuesCount(units: seq<Unit>, name: string, v: string)
    ensures Occurrences(Values(units, name), v) == UnitsWith(units, name, Some(v))
    ensures |units| == |Values(units, name)| + UnitsWith(units, name, None)
    decreases |units|
  {
    hide FirstValue;
    if units != [] {
      var init, last := units[..|units| - 1], FirstValue(units[|units| - 1], name);
      ValuesCount(init, name, v);
      var values := Values(init, name);
      if last.Some? {
        assert (values + [last.value])[..|values|] == values;
      } else {
        assert values + [] == values;
      }
    }
  }

  /** A value that occurs is some unit's value, and every unit that has the field contributes its value. */
  lemma {:induction false} ValuesAreUnits(units: seq<Unit>, name: string, v: string)
    ensures v in Values(units, name) <==> exists u | 0 <= u < |units| :: FirstValue(units[u], name) == Some(v)
    decreases |units|
  {
    hide FirstValue;
    if units != [] {
      var init, last := units[..|units| - 1], units[|units| - 1];
      ValuesAreUnits(init, name, v);
      if exists u | 0 <= u < |units| :: FirstValue(units[u], name) == Some(v) {
        var u :| 0 <= u < |units| && FirstValue(units[u], name) == Some(v);
        if u < |init| { assert FirstValue(init[u], name) == Some(v); }
      }
      if v in Values(init, name) {
        var u :| 0 <= u < |init| && FirstValue(init[u], name) == Some(v);
        assert FirstValue(units[u], name) == Some(v);
      } else if v in Values(units, name) {
        assert FirstValue(units[|units| - 1], name) == Some(v);
      }
    }
  }

  /** When a field has as many values as there are units, every unit has it. */
  lemma {:induction false} FullIsEveryUnit(units: seq<Unit>, name: string)
    requires |Values(units, name)| == |units|
    ensures forall u | 0 <= u < |units| :: FirstValue(units[u], name) == Some(Values(units, name)[u])
    decreases |units|
  {
    hide FirstValue;
    if units != [] {
      var init := units[..|units| - 1];
      ValuesCount(init, name, "");
      FullIsEveryUnit(init, name);
      forall u | 0 <= u < |units| ensures FirstValue(units[u], name) == Some(Values(units, name)[u]) {
        if u < |init| { assert init[u] == units[u]; }
      }
    }
  }

  /* ---- Which values may be printed ---- */

  predicate IsControl(c: char) {
    (c as int) < 0x20 || 0x7F <= c as int <= 0x9F
  }

  predicate IsUsable(value: string) {
    value != "" && ByteLength(value) <= MAX_VALUE_BYTES && !Contains(value, "caveman") && !Contains(value, ELLIPSIS) &&
    forall k | 0 <= k < |value| :: !IsControl(value[k])
  }

  predicate IsEnumUsable(value: string) {
    IsUsable(value) && ByteLength(value) <= MAX_ENUM_VALUE_BYTES && ' ' !in value && '\t' !in value
  }

  /** Values of at most 40 bytes, and of at most 24 in a list, that hold no control character, no trace of a marker and,
      in a list, no white space that parts words. */
  lemma PrintableExactly(v: string)
    ensures IsUsable(v) <==>
            (1 <= ByteLength(v) <= 40 && !Contains(v, "caveman") && !Contains(v, "\U{2026}") &&
             forall c | c in v :: ' ' <= c <= '~' || c as int >= 160)
    ensures IsEnumUsable(v) <==> IsUsable(v) && ByteLength(v) <= 24 && ' ' !in v && '\t' !in v
  {
    hide Contains;
    BytesBound(v);
    forall k | 0 <= k < |v| ensures IsControl(v[k]) <==> !(' ' <= v[k] <= '~' || v[k] as int >= 160) {}
    if forall k | 0 <= k < |v| :: !IsControl(v[k]) {
      forall c | c in v ensures ' ' <= c <= '~' || c as int >= 160 {
        var k :| 0 <= k < |v| && v[k] == c;
        assert !IsControl(v[k]);
      }
    }
    if forall c | c in v :: ' ' <= c <= '~' || c as int >= 160 {
      forall k | 0 <= k < |v| ensures !IsControl(v[k]) { assert v[k] in v; }
    }
  }

  /* ---- Facts ---- */

  datatype Bucket = Bucket(value: string, count: nat)

  datatype Fact =
    | Constant(name: string, value: string)
    | Range(name: string, low: string, high: string)
    | Enumeration(name: string, buckets: seq<Bucket>, absent: nat, weak: bool)
    | Dense(name: string, low: string, high: string, distinct: nat)
    | Bounded(name: string, low: string, high: string, distinct: nat, absent: nat)

  function Sum(buckets: seq<Bucket>): nat {
    if buckets == [] then 0 else buckets[0].count + Sum(buckets[1..])
  }

  /** Two values in Go's string order. */
  predicate AtMost(a: string, b: string) {
    a == b || Less(a, b)
  }

  /** What each fact claims about the units. */
  ghost predicate Holds(f: Fact, units: seq<Unit>, rules: Rules) {
    match f
    case Constant(name, value) => forall u | 0 <= u < |units| :: FirstValue(units[u], name) == Some(value)
    case Range(name, low, high) =>
      rules.number(low).Some? && rules.number(high).Some? &&
      (exists u | 0 <= u < |units| :: FirstValue(units[u], name) == Some(low)) &&
      (exists u | 0 <= u < |units| :: FirstValue(units[u], name) == Some(high)) &&
      forall u | 0 <= u < |units| :: IsWithin(FirstValue(units[u], name), low, high, rules)
    case Enumeration(name, buckets, absent, _) =>
      absent == UnitsWith(units, name, None) && Sum(buckets) + absent == |units| &&
      (forall i | 0 <= i < |buckets| :: buckets[i].count == UnitsWith(units, name, Some(buckets[i].value)) > 0) &&
      (forall i, j | 0 <= i < j < |buckets| :: buckets[i].value != buckets[j].value) &&
      forall u | 0 <= u < |units| :: IsBucketed(FirstValue(units[u], name), buckets)
    case Dense(name, low, high, distinct) =>
      UnitsWith(units, name, None) == 0 && |ToSet(Values(units, name))| == distinct &&
      exists p, w: nat, a: nat, b: nat ::
        IsDense(ToSet(Values(units, name)), p, w, a, b) && low == p + Pad(a, w) && high == p + Pad(b, w)
    case Bounded(name, low, high, distinct, absent) =>
      absent == UnitsWith(units, name, None) && |ToSet(Values(units, name))| == distinct &&
      low in Values(units, name) && high in Values(units, name) &&
      forall v | v in Values(units, name) :: AtMost(low, v) && AtMost(v, high)
  }

  predicate IsWithin(value: Option<string>, low: string, high: string, rules: Rules) {
    value.Some? && rules.number(value.value).Some? && rules.number(low).Some? && rules.number(high).Some? &&
    rules.number(low).value <= rules.number(value.value).value <= rules.number(high).value
  }

  predicate IsBucketed(value: Option<string>, buckets: seq<Bucket>) {
    value.Some? ==> exists i | 0 <= i < |buckets| :: buckets[i].value == value.value
  }

  /* ---- The fact of one field ---- */

  predicate AllEqual(values: seq<string>) {
    forall i | 0 <= i < |values| :: values[i] == values[0]
  }

  predicate AllNumbers(values: seq<string>, rules: Rules) {
    forall i | 0 <= i < |values| :: rules.number(values[i]).Some?
  }

  /** The first of the smallest, and the first of the largest. */
  function Smallest(values: seq<string>, rules: Rules): (m: string)
    requires values != [] && AllNumbers(values, rules)
    ensures m in values
  {
    if |values| == 1 then values[0]
    else
      var m, v := Smallest(values[..|values| - 1], rules), values[|values| - 1];
      if rules.number(v).value < rules.number(m).value then v else m
  }

  function Largest(values: seq<string>, rules: Rules): (m: string)
    requires values != [] && AllNumbers(values, rules)
    ensures m in values
  {
    if |values| == 1 then values[0]
    else
      var m, v := Largest(values[..|values| - 1], rules), values[|values| - 1];
      if rules.number(v).value > rules.number(m).value then v else m
  }

  /** The smallest and the largest as strings. */
  function FirstInOrder(values: seq<string>): (m: string)
    requires values != []
    ensures m in values
  {
    if |values| == 1 then values[0]
    else
      var m, v := FirstInOrder(values[..|values| - 1]), values[|values| - 1];
      if Less(v, m) then v else m
  }

  function LastInOrder(values: seq<string>): (m: string)
    requires values != []
    ensures m in values
  {
    if |values| == 1 then values[0]
    else
      var m, v := LastInOrder(values[..|values| - 1]), values[|values| - 1];
      if Less(m, v) then v else m
  }

  /** Puts a bucket in its place: larger counts first, ties as they came. */
  function InsertBucket(b: Bucket, buckets: seq<Bucket>): seq<Bucket> {
    if buckets != [] && buckets[0].count >= b.count then [buckets[0]] + InsertBucket(b, buckets[1..]) else [b] + buckets
  }

  function SortBuckets(buckets: seq<Bucket>): seq<Bucket> {
    if buckets == [] then [] else InsertBucket(buckets[|buckets| - 1], SortBuckets(buckets[..|buckets| - 1]))
  }

  function BucketsOf(values: seq<string>): (buckets: seq<Bucket>)
    ensures |buckets| == |DistinctValues(values)|
  {
    var distinct := DistinctValues(values);
    seq(|distinct|, i requires 0 <= i < |distinct| => Bucket(distinct[i], Occurrences(values, distinct[i])))
  }

  predicate AllSingle(buckets: seq<Bucket>, absent: nat) {
    absent <= 1 && forall i | 0 <= i < |buckets| :: buckets[i].count == 1
  }

  /** All values with their counts, or nothing: too many, one that may not be printed, or a different one in every
      unit. */
  function Enumerate(name: string, values: seq<string>, absent: nat): Option<Fact> {
    var buckets := SortBuckets(BucketsOf(values));
    var n := |buckets| + if absent > 0 then 1 else 0;
    if values == [] || |DistinctValues(values)| > MAX_ENUM_VALUES || n > MAX_ENUM_VALUES ||
       (exists v | v in values :: v == ABSENT || !IsEnumUsable(v)) || AllSingle(buckets, absent)
    then None
    else Some(Enumeration(name, buckets, absent, 2 * n >= Sum(buckets) + absent))
  }

  /** Whether the distinct values can be counted and bounded. */
  predicate IsCountable(values: seq<string>) {
    values == [] ||
    var init, v := values[..|values| - 1], values[|values| - 1];
    (IsCountable(init) && IsEnumUsable(v) && v != ABSENT && |ToSet(init)| < MAX_COVERAGE_VALUES)
  }

  ghost function DenseEnds(values: set<string>): Option<(string, string)> {
    if exists p, w: nat, a: nat, b: nat :: IsDense(values, p, w, a, b) then
      var p, w: nat, a: nat, b: nat :| IsDense(values, p, w, a, b);
      Some((p + Pad(a, w), p + Pad(b, w)))
    else None
  }

  ghost function Cover(name: string, values: seq<string>, absent: nat): Option<Fact> {
    var distinct := ToSet(values);
    if values == [] || |distinct| < MIN_VALUES then None
    else if absent == 0 && DenseEnds(distinct).Some? then
      Some(Dense(name, DenseEnds(distinct).value.0, DenseEnds(distinct).value.1, |distinct|))
    else Some(Bounded(name, FirstInOrder(values), LastInOrder(values), |distinct|, absent))
  }

  predicate IsNameable(name: string, rules: Rules) {
    name != "" && ByteLength(name) <= MAX_NAME_BYTES && !rules.secret(name)
  }

  /** The one fact a field gives, when coverage may still be stated. */
  ghost function FactOf(units: seq<Unit>, name: string, rules: Rules, mayCover: bool): Option<Fact> {
    var values := Values(units, name);
    var absent := UnitsWith(units, name, None);
    if !IsNameable(name, rules) || values == [] then None
    else if absent == 0 && AllEqual(values) then
      if IsUsable(values[0]) then Some(Constant(name, values[0])) else None
    else if absent == 0 && AllNumbers(values, rules) && Smallest(values, rules) != Largest(values, rules) then
      if IsUsable(Smallest(values, rules)) && IsUsable(Largest(values, rules))
      then Some(Range(name, Smallest(values, rules), Largest(values, rules))) else None
    else if Enumerate(name, values, absent).Some? then Enumerate(name, values, absent)
    else if mayCover && IsCountable(values) then Cover(name, values, absent)
    else None
  }

  /* ---- Every fact holds ---- */

  lemma {:induction false} SmallestIsLeast(values: seq<string>, rules: Rules)
    requires values != [] && AllNumbers(values, rules)
    ensures forall i | 0 <= i < |values| ::
              rules.number(Smallest(values, rules)).value <= rules.number(values[i]).value &&
              rules.number(values[i]).value <= rules.number(Largest(values, rules)).value
    decreases |values|
  {
    if |values| > 1 {
      var init := values[..|values| - 1];
      SmallestIsLeast(init, rules);
      forall i | 0 <= i < |init| ensures values[i] == init[i] {}
    }
  }

  lemma ConstantHolds(units: seq<Unit>, name: string, rules: Rules)
    requires UnitsWith(units, name, None) == 0 && Values(units, name) != [] && AllEqual(Values(units, name))
    ensures Holds(Constant(name, Values(units, name)[0]), units, rules)
  {
    hide FirstValue, Values;
    ValuesCount(units, name, "");
    FullIsEveryUnit(units, name);
  }

  lemma RangeHolds(units: seq<Unit>, name: string, rules: Rules)
    requires UnitsWith(units, name, None) == 0 && Values(units, name) != [] && AllNumbers(Values(units, name), rules)
    ensures Holds(Range(name, Smallest(Values(units, name), rules), Largest(Values(units, name), rules)), units, rules)
  {
    hide FirstValue, Values, Smallest, Largest;
    var values := Values(units, name);
    ValuesCount(units, name, "");
    FullIsEveryUnit(units, name);
    SmallestIsLeast(values, rules);
    ValuesAreUnits(units, name, Smallest(values, rules));
    ValuesAreUnits(units, name, Largest(values, rules));
    AllNumbersIn(values, rules, Smallest(values, rules));
    AllNumbersIn(values, rules, Largest(values, rules));
    forall u | 0 <= u < |units|
      ensures IsWithin(FirstValue(units[u], name), Smallest(values, rules), Largest(values, rules), rules)
    {
      assert FirstValue(units[u], name) == Some(values[u]);
    }
  }

  lemma AllNumbersIn(values: seq<string>, rules: Rules, v: string)
    requires AllNumbers(values, rules) && v in values
    ensures rules.number(v).Some?
  {
  }

  predicate AreDistinct(values: seq<string>) {
    forall i, j | 0 <= i < j < |values| :: values[i] != values[j]
  }

  lemma {:induction false} DistinctAreValues(values: seq<string>)
    ensures forall v :: v in DistinctValues(values) <==> v in values
    ensures AreDistinct(DistinctValues(values))
    decreases |values|
  {
    if values != [] {
      var init := values[..|values| - 1];
      DistinctAreValues(init);
      assert values == init + [values[|values| - 1]];
      var d := DistinctValues(values);
      forall i, j | 0 <= i < j < |d| ensures d[i] != d[j] {
        assert d[i] in DistinctValues(init);
      }
    }
  }

  lemma {:induction false} OccursIfIn(values: seq<string>, v: string)
    ensures Occurrences(values, v) > 0 <==> v in values
    decreases |values|
  {
    if values != [] {
      OccursIfIn(values[..|values| - 1], v);
      assert values == values[..|values| - 1] + [values[|values| - 1]];
    }
  }

  lemma {:induction false} InsertKeeps(b: Bucket, buckets: seq<Bucket>)
    ensures Sum(InsertBucket(b, buckets)) == b.count + Sum(buckets)
    ensures multiset(InsertBucket(b, buckets)) == multiset(buckets) + multiset{b}
    decreases |buckets|
  {
    if buckets != [] && buckets[0].count >= b.count {
      InsertKeeps(b, buckets[1..]);
      assert buckets == [buckets[0]] + buckets[1..];
    }
  }

  lemma {:induction false} SortKeeps(buckets: seq<Bucket>)
    ensures multiset(SortBuckets(buckets)) == multiset(buckets) && |SortBuckets(buckets)| == |buckets|
    decreases |buckets|
  {
    hide InsertBucket;
    if buckets != [] {
      var init := buckets[..|buckets| - 1];
      SortKeeps(init);
      InsertKeeps(buckets[|buckets| - 1], SortBuckets(init));
      assert buckets == init + [buckets[|buckets| - 1]];
      assert |multiset(SortBuckets(buckets))| == |SortBuckets(buckets)| && |multiset(buckets)| == |buckets|;
    }
  }

  lemma {:induction false} SumAppend(a: seq<Bucket>, b: seq<Bucket>)
    ensures Sum(a + b) == Sum(a) + Sum(b)
    decreases |a|
  {
    if a == [] {
      assert a + b == b;
    } else {
      SumAppend(a[1..], b);
      assert (a + b)[1..] == a[1..] + b;
    }
  }

  lemma {:induction false} SortSum(buckets: seq<Bucket>)
    ensures Sum(SortBuckets(buckets)) == Sum(buckets)
    decreases |buckets|
  {
    hide InsertBucket;
    if buckets != [] {
      var init, last := buckets[..|buckets| - 1], buckets[|buckets| - 1];
      SortSum(init);
      InsertKeeps(last, SortBuckets(init));
      assert buckets == init + [last] && [last][1..] == [];
      SumAppend(init, [last]);
    }
  }

  /** The counts of distinct values add up to the number of values. */
  lemma {:induction false} CountsAddUp(values: seq<string>, distinct: seq<string>)
    requires (forall v | v in values :: v in distinct) && AreDistinct(distinct)
    ensures CountOf(values, distinct) == |values|
    decreases |values|
  {
    if values == [] {
      NothingCounted(distinct);
    } else {
      var init, v := values[..|values| - 1], values[|values| - 1];
      CountsAddUp(init, distinct);
      OneMoreCounted(init, v, distinct);
      assert values == init + [v] && v in values;
    }
  }

  function CountOf(values: seq<string>, distinct: seq<string>): nat {
    if distinct == [] then 0
    else CountOf(values, distinct[..|distinct| - 1]) + Occurrences(values, distinct[|distinct| - 1])
  }

  lemma {:induction false} NothingCounted(distinct: seq<string>)
    ensures CountOf([], distinct) == 0
    decreases |distinct|
  {
    if distinct != [] { NothingCounted(distinct[..|distinct| - 1]); }
  }

  lemma {:induction false} OneMoreCounted(values: seq<string>, v: string, distinct: seq<string>)
    requires AreDistinct(distinct)
    ensures CountOf(values + [v], distinct) == CountOf(values, distinct) + if v in distinct then 1 else 0
    decreases |distinct|
  {
    if distinct != [] {
      var init, d := distinct[..|distinct| - 1], distinct[|distinct| - 1];
      OneMoreCounted(values, v, init);
      assert (values + [v])[..|values|] == values;
      assert distinct == init + [d];
      assert d !in init;
    }
  }

  lemma {:induction false} BucketsSum(values: seq<string>, distinct: seq<string>, n: nat)
    requires n <= |distinct|
    ensures Sum(seq(n, i requires 0 <= i < n => Bucket(distinct[i], Occurrences(values, distinct[i])))) ==
            CountOf(values, distinct[..n])
    decreases n
  {
    var buckets := seq(n, i requires 0 <= i < n => Bucket(distinct[i], Occurrences(values, distinct[i])));
    if n > 0 {
      BucketsSum(values, distinct, n - 1);
      var init := seq(n - 1, i requires 0 <= i < n - 1 => Bucket(distinct[i], Occurrences(values, distinct[i])));
      var last := buckets[n - 1];
      assert buckets == init + [last] && [last][1..] == [];
      SumAppend(init, [last]);
      assert distinct[..n][..n - 1] == distinct[..n - 1];
    }
  }

  lemma EnumerationHolds(units: seq<Unit>, name: string, rules: Rules)
    requires Enumerate(name, Values(units, name), UnitsWith(units, name, None)).Some?
    ensures Holds(Enumerate(name, Values(units, name), UnitsWith(units, name, None)).value, units, rules)
  {
    hide FirstValue, Values, UnitsWith, Occurrences, DistinctValues, SortBuckets, IsEnumUsable;
    var values, absent := Values(units, name), UnitsWith(units, name, None);
    var distinct, raw := DistinctValues(values), BucketsOf(values);
    var buckets := SortBuckets(raw);
    DistinctAreValues(values);
    SortKeeps(raw);
    SortSum(raw);
    BucketsSum(values, distinct, |distinct|);
    assert distinct[..|distinct|] == distinct;
    CountsAddUp(values, distinct);
    ValuesCount(units, name, "");
    forall i | 0 <= i < |buckets| ensures buckets[i].count == UnitsWith(units, name, Some(buckets[i].value)) > 0 {
      BucketIsExact(values, buckets, i);
      ValuesCount(units, name, buckets[i].value);
    }
    forall u | 0 <= u < |units| ensures IsBucketed(FirstValue(units[u], name), buckets) {
      var v := FirstValue(units[u], name);
      if v.Some? {
        ValuesAreUnits(units, name, v.value);
        ValueHasBucket(values, buckets, v.value);
      }
    }
    BucketsDiffer(values, buckets);
  }

  lemma BucketIsExact(values: seq<string>, buckets: seq<Bucket>, i: nat)
    requires multiset(buckets) == multiset(BucketsOf(values)) && i < |buckets|
    ensures buckets[i].count == Occurrences(values, buckets[i].value) > 0
  {
    hide Occurrences, DistinctValues;
    assert buckets[i] in multiset(buckets) && buckets[i] in multiset(BucketsOf(values));
    var j :| 0 <= j < |BucketsOf(values)| && BucketsOf(values)[j] == buckets[i];
    DistinctAreValues(values);
    assert DistinctValues(values)[j] in DistinctValues(values);
    OccursIfIn(values, buckets[i].value);
  }

  lemma ValueHasBucket(values: seq<string>, buckets: seq<Bucket>, v: string)
    requires multiset(buckets) == multiset(BucketsOf(values)) && v in values
    ensures exists i | 0 <= i < |buckets| :: buckets[i].value == v
  {
    hide Occurrences, DistinctValues;
    DistinctAreValues(values);
    var j :| 0 <= j < |DistinctValues(values)| && DistinctValues(values)[j] == v;
    var b := BucketsOf(values)[j];
    assert b in multiset(BucketsOf(values)) && b in multiset(buckets);
    var i :| 0 <= i < |buckets| && buckets[i] == b;
  }

  lemma RawBucketsDiffer(values: seq<string>)
    ensures var raw := BucketsOf(values); forall i, j | 0 <= i < j < |raw| :: raw[i].value != raw[j].value
  {
    hide Occurrences, DistinctValues;
    DistinctAreValues(values);
    var d, raw := DistinctValues(values), BucketsOf(values);
    forall i, j | 0 <= i < j < |raw| ensures raw[i].value != raw[j].value {
      assert raw[i].value == d[i] && raw[j].value == d[j];
      assert d[i] != d[j];
    }
  }

  lemma BucketsDiffer(values: seq<string>, buckets: seq<Bucket>)
    requires multiset(buckets) == multiset(BucketsOf(values))
    ensures forall i, j | 0 <= i < j < |buckets| :: buckets[i].value != buckets[j].value
  {
    hide Occurrences, DistinctValues;
    DistinctAreValues(values);
    var raw := BucketsOf(values);
    forall i, j | 0 <= i < j < |buckets| ensures buckets[i].value != buckets[j].value {
      if buckets[i].value == buckets[j].value {
        BucketIsExact(values, buckets, i);
        BucketIsExact(values, buckets, j);
        assert buckets[i] == buckets[j];
        TwiceInSeq(buckets, i, j);
        RawBucketsDiffer(values);
        OnceInSeq(raw, buckets[i]);
      }
    }
  }

  lemma TwiceInSeq(s: seq<Bucket>, i: nat, j: nat)
    requires i < j < |s| && s[i] == s[j]
    ensures multiset(s)[s[i]] >= 2
  {
    assert s == s[..i] + [s[i]] + s[i + 1..j] + [s[j]] + s[j + 1..];
  }

  lemma {:induction false} OnceInSeq(s: seq<Bucket>, b: Bucket)
    requires forall i, j | 0 <= i < j < |s| :: s[i].value != s[j].value
    ensures multiset(s)[b] <= 1
    decreases |s|
  {
    if s != [] {
      OnceInSeq(s[1..], b);
      assert s == [s[0]] + s[1..];
      if s[0] == b { assert b !in s[1..]; }
    }
  }

  lemma {:induction false} OrderBounds(values: seq<string>)
    requires values != []
    ensures forall v | v in values :: AtMost(FirstInOrder(values), v) && AtMost(v, LastInOrder(values))
    decreases |values|
  {
    hide Less;
    if |values| > 1 {
      var init, last := values[..|values| - 1], values[|values| - 1];
      OrderBounds(init);
      LessTotal(last, FirstInOrder(init));
      LessTotal(LastInOrder(init), last);
      forall v | v in values ensures AtMost(FirstInOrder(values), v) && AtMost(v, LastInOrder(values)) {
        if v in init {
          AtMostChains(FirstInOrder(values), FirstInOrder(init), v);
          AtMostChains(v, LastInOrder(init), LastInOrder(values));
        }
      }
    }
  }

  lemma AtMostChains(a: string, b: string, c: string)
    requires AtMost(a, b) && AtMost(b, c)
    ensures AtMost(a, c)
  {
    hide Less;
    if a != b && b != c { LessTransitive(a, b, c); }
  }

  lemma CoverHolds(units: seq<Unit>, name: string, rules: Rules)
    requires Cover(name, Values(units, name), UnitsWith(units, name, None)).Some?
    ensures Holds(Cover(name, Values(units, name), UnitsWith(units, name, None)).value, units, rules)
  {
    hide Values, UnitsWith, IsDense, Pad, FirstInOrder, LastInOrder, AtMost;
    OrderBounds(Values(units, name));
  }

  /** Whatever a field is stated to be, it is that in every unit of the run. */
  lemma FactHolds(units: seq<Unit>, name: string, rules: Rules, mayCover: bool)
    requires FactOf(units, name, rules, mayCover).Some?
    ensures Holds(FactOf(units, name, rules, mayCover).value, units, rules)
  {
    hide Values, UnitsWith, Enumerate, Cover, Holds, Smallest, Largest, AllEqual, AllNumbers, IsUsable;
    var values, absent := Values(units, name), UnitsWith(units, name, None);
    if absent == 0 && AllEqual(values) { ConstantHolds(units, name, rules); }
    else if absent == 0 && AllNumbers(values, rules) && Smallest(values, rules) != Largest(values, rules) {
      RangeHolds(units, name, rules);
    } else if Enumerate(name, values, absent).Some? { EnumerationHolds(units, name, rules); }
    else { CoverHolds(units, name, rules); }
  }

  /* ---- Which fields are stated ---- */

  /** Names of at most 32 bytes that are not withheld. */
  predicate MayStand(name: string, rules: Rules) {
    name != "" && ByteLength(name) <= 32 && !rules.secret(name)
  }

  predicate IsEverywhere(units: seq<Unit>, name: string, v: string) {
    units != [] && forall u | 0 <= u < |units| :: FirstValue(units[u], name) == Some(v)
  }

  predicate IsNumberIn(unit: Unit, name: string, rules: Rules) {
    FirstValue(unit, name).Some? && rules.number(FirstValue(unit, name).value).Some?
  }

  function NumberIn(unit: Unit, name: string, rules: Rules): real
    requires IsNumberIn(unit, name, rules)
  {
    rules.number(FirstValue(unit, name).value).value
  }

  /** The unit `u` holds the least number, and no unit before it holds the same. */
  predicate IsFirstLeast(units: seq<Unit>, name: string, rules: Rules, u: nat)
    requires forall w | 0 <= w < |units| :: IsNumberIn(units[w], name, rules)
  {
    u < |units| &&
    (forall w | 0 <= w < |units| :: NumberIn(units[u], name, rules) <= NumberIn(units[w], name, rules)) &&
    (forall w | 0 <= w < u :: NumberIn(units[u], name, rules) < NumberIn(units[w], name, rules))
  }

  predicate IsFirstLargest(units: seq<Unit>, name: string, rules: Rules, u: nat)
    requires forall w | 0 <= w < |units| :: IsNumberIn(units[w], name, rules)
  {
    u < |units| &&
    (forall w | 0 <= w < |units| :: NumberIn(units[u], name, rules) >= NumberIn(units[w], name, rules)) &&
    (forall w | 0 <= w < u :: NumberIn(units[u], name, rules) > NumberIn(units[w], name, rules))
  }

  lemma {:induction false} NoneIsWith(units: seq<Unit>, name: string, v: Option<string>)
    ensures UnitsWith(units, name, v) == 0 <==> forall u | 0 <= u < |units| :: FirstValue(units[u], name) != v
    decreases |units|
  {
    hide FirstValue;
    if units != [] {
      var init := units[..|units| - 1];
      NoneIsWith(init, name, v);
      forall u | 0 <= u < |init| ensures init[u] == units[u] {}
    }
  }

  /** A field is stated as a constant exactly when every unit has that value and name and value may be printed. */
  lemma ConstantExactly(units: seq<Unit>, name: string, rules: Rules, mayCover: bool, v: string)
    ensures FactOf(units, name, rules, mayCover) == Some(Constant(name, v)) <==>
            MayStand(name, rules) && IsEverywhere(units, name, v) && IsUsable(v)
  {
    hide FirstValue, Values, UnitsWith, Enumerate, Cover, IsUsable, AllNumbers, IsCountable, ByteLength;
    var values, absent := Values(units, name), UnitsWith(units, name, None);
    NoneIsWith(units, name, None);
    ValuesCount(units, name, "");
    if absent == 0 { FullIsEveryUnit(units, name); }
    NeverConstant(name, values, absent);
    if IsEverywhere(units, name, v) {
      assert |values| == |units|;
      forall i | 0 <= i < |values| ensures values[i] == v { assert FirstValue(units[i], name) == Some(v); }
    }
  }

  lemma NeverConstant(name: string, values: seq<string>, absent: nat)
    ensures Enumerate(name, values, absent).Some? ==> Enumerate(name, values, absent).value.Enumeration?
    ensures Cover(name, values, absent).Some? ==>
              Cover(name, values, absent).value.Dense? || Cover(name, values, absent).value.Bounded?
  {
    hide SortBuckets, BucketsOf, DistinctValues, IsEnumUsable, FirstInOrder, LastInOrder, DenseEnds, AllSingle;
  }

  lemma {:induction false} SmallestFirst(values: seq<string>, rules: Rules) returns (i: nat)
    requires values != [] && AllNumbers(values, rules)
    ensures i < |values| && values[i] == Smallest(values, rules)
    ensures forall k | 0 <= k < i :: rules.number(values[i]).value < rules.number(values[k]).value
    decreases |values|
  {
    i := 0;
    if |values| > 1 {
      var init := values[..|values| - 1];
      SmallestIsLeast(init, rules);
      i := SmallestFirst(init, rules);
      if Smallest(values, rules) != Smallest(init, rules) { i := |values| - 1; }
    }
  }

  lemma {:induction false} LargestFirst(values: seq<string>, rules: Rules) returns (i: nat)
    requires values != [] && AllNumbers(values, rules)
    ensures i < |values| && values[i] == Largest(values, rules)
    ensures forall k | 0 <= k < i :: rules.number(values[i]).value > rules.number(values[k]).value
    decreases |values|
  {
    i := 0;
    if |values| > 1 {
      var init := values[..|values| - 1];
      SmallestIsLeast(init, rules);
      i := LargestFirst(init, rules);
      if Largest(values, rules) != Largest(init, rules) { i := |values| - 1; }
    }
  }

  predicate AreNumbers(units: seq<Unit>, name: string, rules: Rules) {
    units != [] && forall w | 0 <= w < |units| :: IsNumberIn(units[w], name, rules)
  }

  /** The first unit with the least number and the first with the largest, which differ, and their values. */
  predicate AreEnds(units: seq<Unit>, name: string, rules: Rules, u: nat, w: nat, low: string, high: string)
    requires AreNumbers(units, name, rules)
  {
    IsFirstLeast(units, name, rules, u) && IsFirstLargest(units, name, rules, w) &&
    NumberIn(units[u], name, rules) < NumberIn(units[w], name, rules) &&
    FirstValue(units[u], name) == Some(low) && FirstValue(units[w], name) == Some(high)
  }

  /** The values of a field that is in every unit, and its numbers. */
  lemma FullValues(units: seq<Unit>, name: string, rules: Rules)
    requires UnitsWith(units, name, None) == 0
    ensures |Values(units, name)| == |units|
    ensures forall u | 0 <= u < |units| :: FirstValue(units[u], name) == Some(Values(units, name)[u])
    ensures units != [] ==> (AllNumbers(Values(units, name), rules) <==> AreNumbers(units, name, rules))
  {
    hide FirstValue, Values, UnitsWith;
    ValuesCount(units, name, "");
    FullIsEveryUnit(units, name);
    forall u | 0 <= u < |units| ensures FirstValue(units[u], name) == Some(Values(units, name)[u]) {}
    if AllNumbers(Values(units, name), rules) {
      forall w | 0 <= w < |units| ensures IsNumberIn(units[w], name, rules) {
        assert FirstValue(units[w], name) == Some(Values(units, name)[w]);
      }
    }
    if AreNumbers(units, name, rules) {
      forall w | 0 <= w < |units| ensures rules.number(Values(units, name)[w]).Some? {
        assert IsNumberIn(units[w], name, rules);
      }
    }
  }

  lemma EndsAreEnds(units: seq<Unit>, name: string, rules: Rules) returns (i: nat, j: nat)
    requires UnitsWith(units, name, None) == 0 && AreNumbers(units, name, rules)
    ensures AllNumbers(Values(units, name), rules) && Values(units, name) != []
    ensures i < |units| && j < |units|
    ensures IsFirstLeast(units, name, rules, i) && IsFirstLargest(units, name, rules, j)
    ensures FirstValue(units[i], name) == Some(Smallest(Values(units, name), rules))
    ensures FirstValue(units[j], name) == Some(Largest(Values(units, name), rules))
    ensures Smallest(Values(units, name), rules) != Largest(Values(units, name), rules) <==>
            NumberIn(units[i], name, rules) < NumberIn(units[j], name, rules)
  {
    hide FirstValue, Values, UnitsWith, Smallest, Largest;
    var values := Values(units, name);
    FullValues(units, name, rules);
    SmallestIsLeast(values, rules);
    i := SmallestFirst(values, rules);
    j := LargestFirst(values, rules);
    forall w | 0 <= w < |units| ensures NumberIn(units[w], name, rules) == rules.number(values[w]).value {
      assert FirstValue(units[w], name) == Some(values[w]);
    }
    if NumberIn(units[i], name, rules) == NumberIn(units[j], name, rules) {
      assert rules.number(values[i]).value == rules.number(values[0]).value == rules.number(values[j]).value;
      assert i == 0 && j == 0;
    }
  }

  /** A field is stated as a range exactly when every unit has a number, the numbers are not all equal, and the ends,
      the first of the least and the first of the largest, may be printed. */
  lemma RangeExactly(units: seq<Unit>, name: string, rules: Rules, mayCover: bool, low: string, high: string)
    ensures FactOf(units, name, rules, mayCover) == Some(Range(name, low, high)) <==>
            MayStand(name, rules) && AreNumbers(units, name, rules) &&
            (exists u: nat, w: nat :: AreEnds(units, name, rules, u, w, low, high)) && IsUsable(low) && IsUsable(high)
  {
    hide FirstValue, Values, UnitsWith, Enumerate, Cover, IsUsable, IsCountable, ByteLength, Smallest, Largest;
    var values, absent := Values(units, name), UnitsWith(units, name, None);
    NoneIsWith(units, name, None);
    ValuesCount(units, name, "");
    NeverConstant(name, values, absent);
    if AreNumbers(units, name, rules) {
      assert absent == 0 by {
        forall u | 0 <= u < |units| ensures FirstValue(units[u], name) != None {
          assert IsNumberIn(units[u], name, rules);
        }
      }
      FullValues(units, name, rules);
      var i, j := EndsAreEnds(units, name, rules);
      if Smallest(values, rules) != Largest(values, rules) {
        assert AreEnds(units, name, rules, i, j, Smallest(values, rules), Largest(values, rules));
        assert !AllEqual(values) by { assert values[i] != values[j]; }
      }
      if u: nat, w: nat :| AreEnds(units, name, rules, u, w, low, high) {
        assert u == i && w == j;
      }
    } else if absent == 0 && values != [] {
      FullValues(units, name, rules);
    }
  }

  /** Whether any value of the field, or its absence, is shared by two units. */
  ghost predicate HasClass(units: seq<Unit>, name: string) {
    exists v: Option<string> :: UnitsWith(units, name, v) >= 2
  }

  ghost predicate IsListable(units: seq<Unit>, name: string) {
    var values := ToSet(Values(units, name));
    values != {} && |values| + (if UnitsWith(units, name, None) > 0 then 1 else 0) <= 5 &&
    (forall v | v in values :: IsEnumUsable(v) && v != "absent") && HasClass(units, name)
  }

  lemma {:induction false} DistinctAsSet(values: seq<string>)
    ensures |DistinctValues(values)| == |ToSet(values)| && ToSet(DistinctValues(values)) == ToSet(values)
    decreases |values|
  {
    if values != [] {
      var init, v := values[..|values| - 1], values[|values| - 1];
      DistinctAsSet(init);
      assert values == init + [v];
      if v in DistinctValues(init) {
        assert v in ToSet(DistinctValues(init));
        assert ToSet(values) == ToSet(init);
      } else {
        assert v !in ToSet(DistinctValues(init));
        assert ToSet(values) == ToSet(init) + {v};
        assert ToSet(DistinctValues(values)) == ToSet(DistinctValues(init)) + {v};
      }
    }
  }

  lemma SingleExactly(units: seq<Unit>, name: string)
    requires Values(units, name) != []
    ensures AllSingle(SortBuckets(BucketsOf(Values(units, name))), UnitsWith(units, name, None)) <==>
            !HasClass(units, name)
  {
    hide Values, UnitsWith, Occurrences, DistinctValues, SortBuckets, BucketsOf;
    var values := Values(units, name);
    var buckets := SortBuckets(BucketsOf(values));
    SortKeeps(BucketsOf(values));
    if v: Option<string> :| UnitsWith(units, name, v) >= 2 {
      if v.Some? {
        ValuesCount(units, name, v.value);
        OccursIfIn(values, v.value);
        ValueHasBucket(values, buckets, v.value);
        var i :| 0 <= i < |buckets| && buckets[i].value == v.value;
        BucketIsExact(values, buckets, i);
      }
    }
    if i :| 0 <= i < |buckets| && buckets[i].count != 1 {
      BucketIsExact(values, buckets, i);
      ValuesCount(units, name, buckets[i].value);
      assert UnitsWith(units, name, Some(buckets[i].value)) >= 2;
    }
  }

  lemma ListableExactly(units: seq<Unit>, name: string)
    ensures Enumerate(name, Values(units, name), UnitsWith(units, name, None)).Some? <==> IsListable(units, name)
  {
    hide Values, UnitsWith, Occurrences, DistinctValues, SortBuckets, BucketsOf, IsEnumUsable, AllSingle, HasClass;
    var values := Values(units, name);
    DistinctAsSet(values);
    SortKeeps(BucketsOf(values));
    if values != [] {
      assert values[0] in ToSet(values);
      SingleExactly(units, name);
    }
    forall v ensures v in ToSet(values) <==> v in values {}
  }

  lemma EverywhereExactly(units: seq<Unit>, name: string)
    ensures (exists v :: IsEverywhere(units, name, v)) <==>
            UnitsWith(units, name, None) == 0 && Values(units, name) != [] && AllEqual(Values(units, name))
  {
    hide FirstValue, Values, UnitsWith;
    var values := Values(units, name);
    NoneIsWith(units, name, None);
    ValuesCount(units, name, "");
    if UnitsWith(units, name, None) == 0 {
      FullIsEveryUnit(units, name);
      if values != [] && AllEqual(values) { assert IsEverywhere(units, name, values[0]); }
      if v :| IsEverywhere(units, name, v) {
        forall i | 0 <= i < |values| ensures values[i] == v { assert FirstValue(units[i], name) == Some(v); }
      }
    }
  }

  /** Every unit has a number, and two of them differ. */
  predicate NumbersDiffer(units: seq<Unit>, name: string, rules: Rules) {
    AreNumbers(units, name, rules) &&
    exists u, w | 0 <= u < |units| && 0 <= w < |units| ::
      NumberIn(units[u], name, rules) < NumberIn(units[w], name, rules)
  }

  lemma DifferExactly(units: seq<Unit>, name: string, rules: Rules)
    ensures NumbersDiffer(units, name, rules) <==>
            (UnitsWith(units, name, None) == 0 && Values(units, name) != [] && AllNumbers(Values(units, name), rules) &&
            Smallest(Values(units, name), rules) != Largest(Values(units, name), rules))
  {
    hide FirstValue, Values, UnitsWith, Smallest, Largest;
    NoneIsWith(units, name, None);
    ValuesCount(units, name, "");
    if AreNumbers(units, name, rules) {
      assert UnitsWith(units, name, None) == 0 by {
        forall u | 0 <= u < |units| ensures FirstValue(units[u], name) != None {
          assert IsNumberIn(units[u], name, rules);
        }
      }
      FullValues(units, name, rules);
      var i, j := EndsAreEnds(units, name, rules);
    } else if UnitsWith(units, name, None) == 0 {
      FullValues(units, name, rules);
    }
  }

  /** A field is stated as an enumeration exactly when it is neither one value everywhere nor numbers that differ, has
      with the absent bucket at most five buckets, all printable, and some two units share one. */
  lemma EnumerationExactly(units: seq<Unit>, name: string, rules: Rules, mayCover: bool)
    ensures var f := FactOf(units, name, rules, mayCover);
            (f.Some? && f.value.Enumeration?) <==>
            MayStand(name, rules) && IsListable(units, name) && !(exists v :: IsEverywhere(units, name, v)) &&
            !NumbersDiffer(units, name, rules)
  {
    var values, absent := Values(units, name), UnitsWith(units, name, None);
    NeverConstant(name, values, absent);
    ListableExactly(units, name);
    EverywhereExactly(units, name);
    DifferExactly(units, name, rules);
    if IsListable(units, name) { assert values != []; }
    hide FirstValue, Values, UnitsWith, Enumerate, Cover, IsUsable, IsCountable, ByteLength, Smallest, Largest,
      IsListable, IsEverywhere, NumbersDiffer, AllEqual, AllNumbers;
  }

  /* ---- The order of buckets ---- */

  predicate AreOrdered(buckets: seq<Bucket>, at: Bucket -> int) {
    forall i, j | 0 <= i < j < |buckets| :: IsAfter(buckets[i], buckets[j], at)
  }

  lemma {:induction false} InsertOrders(b: Bucket, buckets: seq<Bucket>, at: Bucket -> int)
    requires AreOrdered(buckets, at) && forall c | c in buckets :: at(c) < at(b)
    ensures AreOrdered(InsertBucket(b, buckets), at)
    decreases |buckets|
  {
    if buckets != [] && buckets[0].count >= b.count {
      var rest := buckets[1..];
      assert forall c | c in rest :: c in buckets;
      InsertOrders(b, rest, at);
      var inserted := InsertBucket(b, rest);
      forall c | c in inserted ensures IsAfter(buckets[0], c, at) {
        InsertedIs(b, rest, c);
        if c != b {
          var k :| 0 <= k < |rest| && rest[k] == c;
          assert buckets[k + 1] == c;
        }
      }
      FirstOrders(buckets[0], inserted, at);
    }
  }

  predicate IsAfter(a: Bucket, b: Bucket, at: Bucket -> int) {
    a.count > b.count || (a.count == b.count && at(a) < at(b))
  }

  lemma InsertedIs(b: Bucket, buckets: seq<Bucket>, c: Bucket)
    requires c in InsertBucket(b, buckets)
    ensures c == b || c in buckets
  {
    InsertKeeps(b, buckets);
    assert c in multiset(InsertBucket(b, buckets));
  }

  lemma FirstOrders(a: Bucket, buckets: seq<Bucket>, at: Bucket -> int)
    requires AreOrdered(buckets, at) && forall c | c in buckets :: IsAfter(a, c, at)
    ensures AreOrdered([a] + buckets, at)
  {
    var all := [a] + buckets;
    forall i, j | 0 <= i < j < |all| ensures IsAfter(all[i], all[j], at) {
      if i == 0 { assert all[j] in buckets; } else { assert all[i] == buckets[i - 1] && all[j] == buckets[j - 1]; }
    }
  }

  lemma {:induction false} SortOrders(buckets: seq<Bucket>, at: Bucket -> int)
    requires forall i | 0 <= i < |buckets| :: at(buckets[i]) == i
    ensures AreOrdered(SortBuckets(buckets), at)
    decreases |buckets|
  {
    hide InsertBucket;
    if buckets != [] {
      var init, b := buckets[..|buckets| - 1], buckets[|buckets| - 1];
      SortOrders(init, at);
      SortKeeps(init);
      forall c | c in SortBuckets(init) ensures at(c) < at(b) {
        assert c in multiset(SortBuckets(init)) && c in multiset(init) && c in init;
        var i :| 0 <= i < |init| && init[i] == c;
        assert buckets[i] == c;
      }
      InsertOrders(b, SortBuckets(init), at);
    }
  }

  function PlaceOf(b: Bucket, buckets: seq<Bucket>): (k: nat)
    ensures k < |buckets| ==> buckets[k] == b
    ensures b in buckets ==> k < |buckets|
  {
    if buckets == [] || buckets[0] == b then 0 else 1 + PlaceOf(b, buckets[1..])
  }

  /** The value `v` appears, and `w` not before it. */
  predicate AppearsFirst(values: seq<string>, v: string, w: string) {
    exists k | 0 <= k < |values| :: values[k] == v && w !in values[..k + 1]
  }

  lemma {:induction false} DistinctByAppearance(values: seq<string>, i: nat, j: nat)
    requires i < j < |DistinctValues(values)|
    ensures AppearsFirst(values, DistinctValues(values)[i], DistinctValues(values)[j])
    decreases |values|
  {
    var d, init := DistinctValues(values), values[..|values| - 1];
    DistinctAreValues(init);
    if j < |DistinctValues(init)| {
      DistinctByAppearance(init, i, j);
      var k :| 0 <= k < |init| && init[k] == d[i] && d[j] !in init[..k + 1];
      assert values[k] == d[i] && values[..k + 1] == init[..k + 1];
    } else {
      assert d[i] in DistinctValues(init) && d[j] !in DistinctValues(init);
      var k :| 0 <= k < |init| && init[k] == d[i];
      assert d[j] !in init && forall x | x in values[..k + 1] :: x in init;
    }
  }

  /** Buckets stand in descending order of their counts, and equal counts in the order in which the values appear. */
  lemma BucketsDescend(name: string, values: seq<string>, absent: nat)
    requires Enumerate(name, values, absent).Some?
    ensures var b := Enumerate(name, values, absent).value.buckets;
            forall i, j | 0 <= i < j < |b| ::
              b[i].count > b[j].count || (b[i].count == b[j].count && AppearsFirst(values, b[i].value, b[j].value))
  {
    hide Occurrences, DistinctValues, SortBuckets, IsEnumUsable, AppearsFirst;
    var raw, d := BucketsOf(values), DistinctValues(values);
    var buckets := SortBuckets(raw);
    RawBucketsDiffer(values);
    SortKeeps(raw);
    var at: Bucket -> int := (b: Bucket) => PlaceOf(b, raw);
    forall i | 0 <= i < |raw| ensures at(raw[i]) == i {
      var k := PlaceOf(raw[i], raw);
      assert raw[k] == raw[i];
    }
    SortOrders(raw, at);
    forall i, j | 0 <= i < j < |buckets| && buckets[i].count == buckets[j].count
      ensures AppearsFirst(values, buckets[i].value, buckets[j].value)
    {
      assert buckets[i] in multiset(buckets) && buckets[i] in multiset(raw) && buckets[i] in raw;
      assert buckets[j] in multiset(buckets) && buckets[j] in multiset(raw) && buckets[j] in raw;
      DistinctByAppearance(values, at(buckets[i]), at(buckets[j]));
    }
  }
}
