/** The accumulator the summary keeps per field, which sees each value once and in order. */
module FieldTally {
  import opened GoText
  import opened ElisionFacts

  /** Whether all values are the first one, and the numeric track while every value is a number. */
  datatype Spread = Spread(seen: nat, constant: bool, first: string, numeric: bool, minStr: string, maxStr: string,
                           minVal: real, maxVal: real)

  /** The enumeration track, which stops at a sixth value. */
  datatype Counts = Counts(counts: map<string, nat>, valueOrder: seq<string>, tooWide: bool)

  /** The coverage track, while every value may be printed and there are not too many. */
  datatype Coverage = Coverage(values: set<string>, min: string, max: string, usable: bool)

  datatype Tally = Tally(spread: Spread, counts: Counts, coverage: Coverage)

  function Fresh(v: string, rules: Rules): Tally {
    var n := rules.number(v);
    var x := if n.Some? then n.value else 0.0;
    Tally(Spread(0, true, v, n.Some?, v, v, x, x), Counts(map[], [], false), Coverage({}, "", "", true))
  }

  function AddSpread(s: Spread, v: string, rules: Rules): Spread {
    var t := s.(seen := s.seen + 1, constant := s.constant && v == s.first);
    if !t.numeric then t
    else
      var n := rules.number(v);
      if n.None? then t.(numeric := false)
      else
        var u := if n.value < t.minVal then t.(minVal := n.value, minStr := v) else t;
        if n.value > u.maxVal then u.(maxVal := n.value, maxStr := v) else u
  }

  function AddCount(c: Counts, v: string): Counts {
    if c.tooWide then c
    else if v in c.counts then c.(counts := c.counts[v := c.counts[v] + 1])
    else if |c.counts| >= MAX_ENUM_VALUES then c.(tooWide := true)
    else Counts(c.counts[v := 1], c.valueOrder + [v], false)
  }

  function AddCover(c: Coverage, v: string): Coverage {
    if !c.usable then c
    else if !IsEnumUsable(v) || v == ABSENT || |c.values| >= MAX_COVERAGE_VALUES then c.(usable := false)
    else if v in c.values then c
    else if c.values == {} then Coverage({v}, v, v, true)
    else Coverage(c.values + {v}, if Less(v, c.min) then v else c.min, if Less(c.max, v) then v else c.max, true)
  }

  function Add(t: Tally, v: string, rules: Rules): Tally {
    Tally(AddSpread(t.spread, v, rules), AddCount(t.counts, v), AddCover(t.coverage, v))
  }

  function TallyOf(values: seq<string>, rules: Rules): Tally
    requires values != []
  {
    var v := values[|values| - 1];
    if |values| == 1 then Add(Fresh(v, rules), v, rules) else Add(TallyOf(values[..|values| - 1], rules), v, rules)
  }

  /* ---- What the accumulator knows ---- */

  predicate SpreadKnown(s: Spread, values: seq<string>, rules: Rules) {
    values != [] && s.seen == |values| && s.first == values[0] && (s.constant <==> AllEqual(values)) &&
    (s.numeric <==> AllNumbers(values, rules)) &&
    (s.numeric ==> s.minStr == Smallest(values, rules) && s.maxStr == Largest(values, rules) &&
                   rules.number(s.minStr) == Some(s.minVal) && rules.number(s.maxStr) == Some(s.maxVal))
  }

  predicate CountsKnown(c: Counts, values: seq<string>) {
    (c.tooWide <==> |DistinctValues(values)| > MAX_ENUM_VALUES) &&
    (!c.tooWide ==> c.valueOrder == DistinctValues(values) && |c.counts| == |c.valueOrder| &&
                    (forall v | v in c.valueOrder :: v in c.counts) &&
                    forall v | v in c.counts :: v in c.valueOrder && c.counts[v] == Occurrences(values, v))
  }

  predicate CoverKnown(c: Coverage, values: seq<string>) {
    values != [] && (c.usable <==> IsCountable(values)) &&
    (c.usable ==> c.values == ToSet(values) && c.min == FirstInOrder(values) && c.max == LastInOrder(values))
  }

  lemma AllAppend(init: seq<string>, v: string, rules: Rules)
    requires init != []
    ensures AllEqual(init + [v]) <==> AllEqual(init) && v == init[0]
    ensures AllNumbers(init + [v], rules) <==> AllNumbers(init, rules) && rules.number(v).Some?
  {
    var values := init + [v];
    assert values[|init|] == v && forall i | 0 <= i < |init| :: values[i] == init[i];
    if AllEqual(values) { forall i | 0 <= i < |init| ensures init[i] == init[0] { assert values[i] == values[0]; } }
    if AllNumbers(values, rules) {
      forall i | 0 <= i < |init| ensures rules.number(init[i]).Some? { assert rules.number(values[i]).Some?; }
    }
  }

  lemma AddKnowsSpread(s: Spread, init: seq<string>, v: string, rules: Rules)
    requires SpreadKnown(s, init, rules)
    ensures SpreadKnown(AddSpread(s, v, rules), init + [v], rules)
  {
    hide AllEqual, AllNumbers;
    var values := init + [v];
    assert values[..|values| - 1] == init && values[0] == init[0] && values[|values| - 1] == v;
    AllAppend(init, v, rules);
  }

  /** One more value, as the definitions see it. */
  lemma DistinctAppend(init: seq<string>, v: string, w: string)
    ensures DistinctValues(init + [v]) == if v in DistinctValues(init) then DistinctValues(init)
            else DistinctValues(init) + [v]
    ensures Occurrences(init + [v], w) == Occurrences(init, w) + if v == w then 1 else 0
  {
    var values := init + [v];
    assert values[..|values| - 1] == init && values[|values| - 1] == v;
  }

  lemma AddKnowsCounts(c: Counts, init: seq<string>, v: string)
    requires CountsKnown(c, init)
    ensures CountsKnown(AddCount(c, v), init + [v])
  {
    hide DistinctValues, Occurrences;
    var u, values := AddCount(c, v), init + [v];
    DistinctAppend(init, v, v);
    if !c.tooWide {
      if v !in c.counts { NewIsNone(init, v); }
      forall w | w in u.counts && !u.tooWide ensures w in u.valueOrder && u.counts[w] == Occurrences(values, w) {
        DistinctAppend(init, v, w);
      }
    }
  }

  lemma NewIsNone(values: seq<string>, v: string)
    requires v !in DistinctValues(values)
    ensures Occurrences(values, v) == 0
  {
    DistinctAreValues(values);
    OccursIfIn(values, v);
  }

  lemma CoverAppend(init: seq<string>, v: string)
    requires init != []
    ensures ToSet(init + [v]) == ToSet(init) + {v} && ToSet(init) != {}
    ensures IsCountable(init + [v]) <==>
              IsCountable(init) && IsEnumUsable(v) && v != ABSENT && |ToSet(init)| < MAX_COVERAGE_VALUES
    ensures FirstInOrder(init + [v]) == if Less(v, FirstInOrder(init)) then v else FirstInOrder(init)
    ensures LastInOrder(init + [v]) == if Less(LastInOrder(init), v) then v else LastInOrder(init)
  {
    hide IsEnumUsable, Less;
    var values := init + [v];
    assert values[..|values| - 1] == init && values[|values| - 1] == v;
    assert init[0] in ToSet(init);
  }

  /** A value that was there before moves no bound. */
  lemma KnownMovesNothing(init: seq<string>, v: string)
    requires v in init
    ensures !Less(v, FirstInOrder(init)) && !Less(LastInOrder(init), v)
  {
    hide Less, FirstInOrder, LastInOrder;
    OrderBounds(init);
    NotBeyond(FirstInOrder(init), v);
    NotBeyond(v, LastInOrder(init));
  }

  lemma AddKnowsCover(c: Coverage, init: seq<string>, v: string)
    requires CoverKnown(c, init)
    ensures CoverKnown(AddCover(c, v), init + [v])
  {
    CoverAppend(init, v);
    if v in init { KnownMovesNothing(init, v); }
    assert v in ToSet(init) <==> v in init;
    assert v in init ==> ToSet(init) + {v} == ToSet(init);
    hide IsEnumUsable, Less, IsCountable, FirstInOrder, LastInOrder, ToSet;
  }

  lemma NotBeyond(a: string, b: string)
    requires AtMost(a, b)
    ensures !Less(b, a)
  {
    if a != b { LessAsymmetric(a, b); } else { LessIrreflexive(a); }
  }

  lemma FirstSpread(v: string, rules: Rules)
    ensures SpreadKnown(AddSpread(Fresh(v, rules).spread, v, rules), [v], rules)
  {
    assert AllEqual([v]) && (AllNumbers([v], rules) <==> rules.number([v][0]).Some?);
    hide AllEqual, AllNumbers;
  }

  lemma FirstCounts(v: string)
    ensures CountsKnown(AddCount(Counts(map[], [], false), v), [v])
  {
    assert DistinctValues([]) == [] && Occurrences([], v) == 0;
    DistinctAppend([], v, v);
    assert [] + [v] == [v];
  }

  lemma FirstCover(v: string)
    ensures CoverKnown(AddCover(Coverage({}, "", "", true), v), [v])
  {
    hide IsEnumUsable, Less;
    assert [v][..0] == [] && IsCountable([]) && ToSet([]) == {} && ToSet([v]) == {v};
  }

  /** The accumulator of these values knows what the values say. */
  ghost predicate Knows(t: Tally, values: seq<string>, rules: Rules) {
    SpreadKnown(t.spread, values, rules) && CountsKnown(t.counts, values) && CoverKnown(t.coverage, values)
  }

  /** After each value the accumulator is what the values say: it never has to look at them again. */
  lemma {:induction false} TallyKnows(values: seq<string>, rules: Rules)
    requires values != []
    ensures Knows(TallyOf(values, rules), values, rules)
    decreases |values|
  {
    hide AddSpread, AddCount, AddCover, SpreadKnown, CountsKnown, CoverKnown;
    var v := values[|values| - 1];
    if |values| == 1 {
      FirstSpread(v, rules);
      FirstCounts(v);
      FirstCover(v);
      assert values == [v];
    } else {
      var init := values[..|values| - 1];
      var t := TallyOf(init, rules);
      TallyKnows(init, rules);
      AddKnowsSpread(t.spread, init, v, rules);
      AddKnowsCounts(t.counts, init, v);
      AddKnowsCover(t.coverage, init, v);
      assert values == init + [v];
    }
  }
}
