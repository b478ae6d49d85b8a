/** The summary as it is computed: one pass over the units with an accumulator per field, then the shedding loop. */
module SummaryWriter {
  import opened GoText
  import opened DenseCoverage
  import opened ElisionFacts
  import opened FieldTally
  import opened ElisionSummary
  import opened SummaryReader

  /* ---- One pass over the units ---- */

  type Tallies = map<string, Tally>

  /** The accumulators after these units: one for each tracked name, of exactly the values seen. */
  ghost predicate IsTallied(aggs: Tallies, order: seq<string>, units: seq<Unit>, rules: Rules) {
    order == Tracked(units) && aggs.Keys == ToSet(order) &&
    forall n | n in order :: n in aggs && IsTallyOf(aggs[n], Values(units, n), rules)
  }

  ghost predicate IsTallyOf(t: Tally, values: seq<string>, rules: Rules) {
    values != [] && t == TallyOf(values, rules)
  }

  lemma FirstValueAppend(unit: Unit, f: Field, name: string)
    ensures FirstValue(unit + [f], name) ==
            if FirstValue(unit, name).Some? then FirstValue(unit, name) else if f.name == name then Some(f.value)
              else None
  {
    var all := unit + [f];
    assert all[..|all| - 1] == unit && all[|all| - 1] == f;
  }

  lemma ValuesLast(units: seq<Unit>, unit: Unit, name: string)
    ensures Values(units + [unit], name) ==
            Values(units, name) + if FirstValue(unit, name).Some? then [FirstValue(unit, name).value] else []
  {
    hide FirstValue;
    var all := units + [unit];
    assert all[..|all| - 1] == units && all[|all| - 1] == unit;
  }

  lemma NamesLast(units: seq<Unit>, unit: Unit, f: Field)
    ensures NamesOf(units + [[]]) == NamesOf(units)
    ensures NamesOf(units + [unit + [f]]) == AddName(NamesOf(units + [unit]), f.name)
  {
    var empty, all, less := units + [[]], units + [unit + [f]], units + [unit];
    assert empty[..|empty| - 1] == units && all[..|all| - 1] == units && less[..|less| - 1] == units;
    assert (unit + [f])[..|unit|] == unit;
  }

  /** A name that never appeared has no values. */
  lemma {:induction false} UnnamedHasNoValues(units: seq<Unit>, name: string)
    ensures name !in NamesOf(units) ==> Values(units, name) == []
    decreases |units|
  {
    hide AddNames, FirstValue;
    if units != [] {
      var init := units[..|units| - 1];
      UnnamedHasNoValues(init, name);
      AddNamesHas(NamesOf(init), units[|units| - 1], name);
    }
  }

  lemma {:induction false} AddNamesHas(names: seq<string>, unit: Unit, name: string)
    ensures name in names || FirstValue(unit, name).Some? ==> name in AddNames(names, unit)
    decreases |unit|
  {
    if unit != [] { AddNamesHas(names, unit[..|unit| - 1], name); }
  }

  /** A repeated key of a unit changes nothing. */
  lemma RepeatedKey(aggs: Tallies, order: seq<string>, prior: seq<Unit>, unit: Unit, f: Field, rules: Rules)
    requires IsTallied(aggs, order, prior + [unit], rules) && FirstValue(unit, f.name).Some?
    ensures IsTallied(aggs, order, prior + [unit + [f]], rules)
  {
    hide FirstValue, Values, NamesOf, TallyOf;
    NamesLast(prior, unit, f);
    NameOfUnit(prior, unit, f.name);
    forall n ensures Values(prior + [unit + [f]], n) == Values(prior + [unit], n) {
      ValuesLast(prior, unit, n);
      ValuesLast(prior, unit + [f], n);
      FirstValueAppend(unit, f, n);
    }
  }

  lemma NameOfUnit(prior: seq<Unit>, unit: Unit, name: string)
    requires FirstValue(unit, name).Some?
    ensures name in NamesOf(prior + [unit])
  {
    var all := prior + [unit];
    assert all[..|all| - 1] == prior && all[|all| - 1] == unit;
    AddNamesHas(NamesOf(prior), unit, name);
  }

  /** A first occurrence in its unit is one more value of its name, and of no other. */
  lemma NewValue(prior: seq<Unit>, unit: Unit, f: Field, n: string)
    requires FirstValue(unit, f.name).None?
    ensures Values(prior + [unit + [f]], n) == Values(prior + [unit], n) + if n == f.name then [f.value] else []
  {
    hide FirstValue, Values;
    ValuesLast(prior, unit, n);
    ValuesLast(prior, unit + [f], n);
    FirstValueAppend(unit, f, n);
    assert Values(prior + [unit], n) + [] == Values(prior + [unit], n);
  }

  lemma TallyGrows(values: seq<string>, v: string, t: Tally, rules: Rules)
    requires IsTallyOf(t, values, rules)
    ensures IsTallyOf(Add(t, v, rules), values + [v], rules)
  {
    hide Add;
    var all := values + [v];
    assert all[..|all| - 1] == values && all[|all| - 1] == v;
  }

  lemma TallyStarts(v: string, rules: Rules)
    ensures IsTallyOf(Add(Fresh(v, rules), v, rules), [v], rules)
  {
    hide Add, Fresh;
  }

  /** A known name takes its next value. */
  lemma KnownName(aggs: Tallies, order: seq<string>, prior: seq<Unit>, unit: Unit, f: Field, rules: Rules)
    requires IsTallied(aggs, order, prior + [unit], rules) && FirstValue(unit, f.name).None? && f.name in aggs
    ensures IsTallied(aggs[f.name := Add(aggs[f.name], f.value, rules)], order, prior + [unit + [f]], rules)
  {
    hide FirstValue, Values, NamesOf, Add, IsTallyOf;
    var aggs' := aggs[f.name := Add(aggs[f.name], f.value, rules)];
    NamesLast(prior, unit, f);
    assert f.name in ToSet(order) && f.name in NamesOf(prior + [unit]);
    forall n | n in order ensures n in aggs' && IsTallyOf(aggs'[n], Values(prior + [unit + [f]], n), rules) {
      NewValue(prior, unit, f, n);
      assert n in aggs && IsTallyOf(aggs[n], Values(prior + [unit], n), rules);
      if n == f.name { TallyGrows(Values(prior + [unit], n), f.value, aggs[n], rules); }
      assert Values(prior + [unit], n) + [] == Values(prior + [unit], n);
    }
    assert aggs'.Keys == aggs.Keys;
  }

  /** A new name is tracked while there is room, and ignored from then on. */
  lemma NewName(aggs: Tallies, order: seq<string>, prior: seq<Unit>, unit: Unit, f: Field, rules: Rules)
    requires IsTallied(aggs, order, prior + [unit], rules) && FirstValue(unit, f.name).None? && f.name !in aggs
    ensures |order| >= MAX_TRACKED ==> IsTallied(aggs, order, prior + [unit + [f]], rules)
    ensures |order| < MAX_TRACKED ==>
              IsTallied(aggs[f.name := Add(Fresh(f.value, rules), f.value, rules)], order + [f.name],
                        prior + [unit + [f]], rules)
  {
    hide FirstValue, Values, NamesOf, Add, Fresh, IsTallyOf;
    NamesLast(prior, unit, f);
    assert f.name !in order by { assert f.name !in ToSet(order); }
    forall n | n in order ensures Values(prior + [unit + [f]], n) == Values(prior + [unit], n) {
      NewValue(prior, unit, f, n);
      assert Values(prior + [unit], n) + [] == Values(prior + [unit], n);
    }
    if |order| < MAX_TRACKED {
      UnnamedHasNoValues(prior + [unit], f.name);
      NewValue(prior, unit, f, f.name);
      assert [] + [f.value] == [f.value];
      TallyStarts(f.value, rules);
      assert ToSet(order + [f.name]) == ToSet(order) + {f.name};
    } else {
      TrackedStays(NamesOf(prior + [unit]), f.name);
    }
  }

  lemma TrackedStays(names: seq<string>, name: string)
    requires |names| >= MAX_TRACKED
    ensures AddName(names, name)[..MAX_TRACKED] == names[..MAX_TRACKED]
  {
  }

  lemma UnitStarts(aggs: Tallies, order: seq<string>, prior: seq<Unit>, rules: Rules)
    requires IsTallied(aggs, order, prior, rules)
    ensures IsTallied(aggs, order, prior + [[]], rules)
  {
    hide Values, NamesOf, IsTallyOf;
    NamesLast(prior, [], Field("", ""));
    forall n | n in order ensures Values(prior + [[]], n) == Values(prior, n) {
      ValuesLast(prior, [], n);
      assert Values(prior, n) + [] == Values(prior, n);
    }
  }

  lemma NoFirstValue()
    ensures forall n :: FirstValue([], n) == None
  {
  }

  /** The fields of one unit, each name once. */
  method TallyUnit(aggs: Tallies, order: seq<string>, unit: Unit, rules: Rules, ghost prior: seq<Unit>)
    returns (aggs': Tallies, order': seq<string>)
    requires IsTallied(aggs, order, prior, rules)
    ensures IsTallied(aggs', order', prior + [unit], rules)
  {
    hide IsTallied, FirstValue, Add, Fresh;
    aggs', order' := aggs, order;
    var seenHere: set<string> := {};
    UnitStarts(aggs, order, prior, rules);
    assert unit[..0] == [];
    NoFirstValue();
    for k := 0 to |unit|
      invariant IsTallied(aggs', order', prior + [unit[..k]], rules)
      invariant forall n :: n in seenHere <==> FirstValue(unit[..k], n).Some?
    {
      var f := unit[k];
      assert unit[..k + 1] == unit[..k] + [f];
      forall n ensures FirstValue(unit[..k + 1], n) ==
                       if FirstValue(unit[..k], n).Some? then FirstValue(unit[..k], n)
                       else if f.name == n then Some(f.value) else None
      {
        FirstValueAppend(unit[..k], f, n);
      }
      if f.name in seenHere {
        RepeatedKey(aggs', order', prior, unit[..k], f, rules);
        continue;
      }
      seenHere := seenHere + {f.name};
      if f.name !in aggs' {
        NewName(aggs', order', prior, unit[..k], f, rules);
        if |order'| >= MAX_TRACKED { continue; }
        aggs', order' := aggs'[f.name := Add(Fresh(f.value, rules), f.value, rules)], order' + [f.name];
      } else {
        KnownName(aggs', order', prior, unit[..k], f, rules);
        aggs' := aggs'[f.name := Add(aggs'[f.name], f.value, rules)];
      }
    }
    assert unit[..|unit|] == unit;
  }

  /** All units, unless one cannot be read. */
  method TallyUnits(units: seq<Unit>, rules: Rules) returns (aggs: Tallies, order: seq<string>, readable: bool)
    ensures readable <==> [] !in units
    ensures readable ==> IsTallied(aggs, order, units, rules)
  {
    hide IsTallied;
    aggs, order := map[], [];
    NothingTallied(rules);
    assert units[..0] == [];
    for u := 0 to |units|
      invariant [] !in units[..u] && IsTallied(aggs, order, units[..u], rules)
    {
      if units[u] == [] { return map[], [], false; }
      assert units[..u + 1] == units[..u] + [units[u]];
      aggs, order := TallyUnit(aggs, order, units[u], rules, units[..u]);
    }
    assert units[..|units|] == units;
    readable := true;
  }

  lemma NothingTallied(rules: Rules)
    ensures IsTallied(map[], [], [], rules)
  {
  }

  /* ---- The entry of one field ---- */

  /** One bucket for each value, in order of appearance, unless a value may not be printed. */
  method RawBuckets(c: Counts, ghost values: seq<string>) returns (raw: seq<Bucket>, printable: bool)
    requires CountsKnown(c, values) && !c.tooWide
    ensures printable <==> !exists v | v in values :: v == ABSENT || !IsEnumUsable(v)
    ensures printable ==> raw == BucketsOf(values)
  {
    hide DistinctValues, Occurrences, IsEnumUsable;
    DistinctAreValues(values);
    raw := [];
    for i := 0 to |c.valueOrder|
      invariant forall j | 0 <= j < i :: c.valueOrder[j] != ABSENT && IsEnumUsable(c.valueOrder[j])
      invariant |raw| == i && forall j | 0 <= j < i ::
                raw[j] == Bucket(c.valueOrder[j], Occurrences(values, c.valueOrder[j]))
    {
      var value := c.valueOrder[i];
      assert value in c.valueOrder;
      if value == ABSENT || !IsEnumUsable(value) { return [], false; }
      raw := raw + [Bucket(value, c.counts[value])];
    }
    assert raw == BucketsOf(values);
    printable := true;
  }

  /** How many units the buckets hold, and how many of them hold one. */
  method CountBuckets(buckets: seq<Bucket>) returns (units: nat, singletons: nat)
    ensures units == Sum(buckets) && singletons <= |buckets|
    ensures singletons == |buckets| <==> AllSingle(buckets, 0)
  {
    hide Sum;
    units, singletons := 0, 0;
    assert buckets[0..] == buckets;
    for i := 0 to |buckets|
      invariant Sum(buckets) == units + Sum(buckets[i..])
      invariant singletons <= i && (singletons == i <==> forall j | 0 <= j < i :: buckets[j].count == 1)
    {
      SumFirst(buckets, i);
      units := units + buckets[i].count;
      if buckets[i].count == 1 { singletons := singletons + 1; }
    }
    SumNothing();
    assert buckets[|buckets|..] == [];
  }

  method EnumerateField(name: string, c: Counts, absent: nat, ghost values: seq<string>) returns (f: Option<Fact>)
    requires CountsKnown(c, values) && values != []
    ensures f == Enumerate(name, values, absent)
  {
    hide Occurrences, IsEnumUsable, SortBuckets, Sum, BucketsOf, CountsKnown;
    CountsAreWide(c, values);
    hide DistinctValues;
    if c.tooWide { return None; }
    var raw, printable := RawBuckets(c, values);
    if !printable { return None; }
    SortKeeps(raw);
    var buckets := SortBuckets(raw);
    var n := |raw| + if absent > 0 then 1 else 0;
    if n > MAX_ENUM_VALUES { return None; }
    var units, singletons := CountBuckets(buckets);
    if absent > 0 {
      units := units + absent;
      if absent == 1 { singletons := singletons + 1; }
    }
    if singletons == n { return None; }
    f := Some(Enumeration(name, buckets, absent, 2 * n >= units));
  }

  lemma CountsAreWide(c: Counts, values: seq<string>)
    requires CountsKnown(c, values)
    ensures c.tooWide <==> |DistinctValues(values)| > MAX_ENUM_VALUES
  {
  }

  lemma SumFirst(buckets: seq<Bucket>, i: nat)
    requires i < |buckets|
    ensures Sum(buckets[i..]) == buckets[i].count + Sum(buckets[i + 1..])
  {
    assert buckets[i..][1..] == buckets[i + 1..];
  }

  lemma SumNothing()
    ensures Sum([]) == 0
  {
  }

  /** The two ends of a dense set are its own: they do not depend on how it was found to be dense. */
  lemma DenseEndsUnique(values: set<string>, p: string, w: nat, a: nat, b: nat)
    requires IsDense(values, p, w, a, b)
    ensures DenseEnds(values) == Some((p + Pad(a, w), p + Pad(b, w)))
  {
    hide IsDense, Pad, NumberOf;
    assert exists p', w': nat, a': nat, b': nat :: IsDense(values, p', w', a', b');
    var p', w': nat, a': nat, b': nat :| IsDense(values, p', w', a', b') &&
      DenseEnds(values) == Some((p' + Pad(a', w'), p' + Pad(b', w')));
    SameEnds(values, p, w, a, b, p', w', a', b');
  }

  lemma SameEnds(values: set<string>, p: string, w: nat, a: nat, b: nat, p': string, w': nat, a': nat, b': nat)
    requires IsDense(values, p, w, a, b) && IsDense(values, p', w', a', b')
    ensures p + Pad(a, w) == p' + Pad(a', w') && p + Pad(b, w) == p' + Pad(b', w')
  {
    hide Pad, NumberOf, Prefix, Digits, Power10, Run;
    DenseIsShaped(values, p, w, a, b);
    DenseIsShaped(values, p', w', a', b');
    PaddedIsShaped(p, w, a);
    PaddedIsShaped(p, w, b);
    PaddedIsShaped(p', w', a');
    PaddedIsShaped(p', w', b');
  }

  method CoverageEntry(name: string, c: Coverage, absent: nat, ghost values: seq<string>) returns (f: Option<Fact>)
    requires CoverKnown(c, values) && c.usable
    ensures f == Cover(name, values, absent)
  {
    hide IsDense, Pad, FirstInOrder, LastInOrder, IsCountable, DenseEnds;
    var distinct := |c.values|;
    if distinct < MIN_VALUES { return None; }
    if absent == 0 {
      var low, high, dense := FindDense(c.values);
      if dense {
        ghost var p, w: nat, a: nat, b: nat :|
          IsDense(c.values, p, w, a, b) && low == p + Pad(a, w) && high == p + Pad(b, w);
        DenseEndsUnique(c.values, p, w, a, b);
        return Some(Dense(name, low, high, distinct));
      }
      NotDense(c.values);
    }
    f := Some(Bounded(name, c.min, c.max, distinct, absent));
  }

  lemma NotDense(values: set<string>)
    requires !exists p, w: nat, a: nat, b: nat :: IsDense(values, p, w, a, b)
    ensures DenseEnds(values).None?
  {
    hide IsDense;
  }

  method FieldEntry(name: string, t: Tally, units: nat, rules: Rules, mayCover: bool, ghost run: seq<Unit>)
    returns (f: Option<Fact>)
    requires units == |run| && IsTallyOf(t, Values(run, name), rules)
    ensures f == FactOf(run, name, rules, mayCover)
  {
    hide Values, UnitsWith, TallyOf, CountsKnown, CoverKnown, Enumerate, Cover, IsUsable, Smallest, Largest, AllEqual,
         AllNumbers, IsCountable;
    ghost var values := Values(run, name);
    TallyKnows(values, rules);
    ValuesCount(run, name, "");
    var absent := units - t.spread.seen;
    if name == "" || ByteLength(name) > MAX_NAME_BYTES || rules.secret(name) { return None; }
    if t.spread.seen == units && t.spread.constant {
      f := if IsUsable(t.spread.first) then Some(Constant(name, t.spread.first)) else None;
      return;
    }
    if t.spread.seen == units && t.spread.numeric && t.spread.minStr != t.spread.maxStr {
      f := if IsUsable(t.spread.minStr) && IsUsable(t.spread.maxStr)
        then Some(Range(name, t.spread.minStr, t.spread.maxStr)) else None;
      return;
    }
    f := EnumerateField(name, t.counts, absent, values);
    if f.Some? { return; }
    CountableKnown(t.coverage, values);
    if t.coverage.usable && mayCover { f := CoverageEntry(name, t.coverage, absent, values); }
  }

  lemma CountableKnown(c: Coverage, values: seq<string>)
    requires CoverKnown(c, values)
    ensures c.usable <==> IsCountable(values)
  {
    hide IsCountable;
  }

  /* ---- The whole summary ---- */

  lemma FactsStep(done: seq<Fact>, units: seq<Unit>, order: seq<string>, i: nat, rules: Rules, coverages: nat)
    requires i < |order|
    ensures var f := FactOf(units, order[i], rules, coverages < MAX_COVERAGE_ENTRIES);
            done + FactsFrom(units, order[i..], rules, coverages) ==
            if f.None? then done + FactsFrom(units, order[i + 1..], rules, coverages)
            else (done + [f.value]) + FactsFrom(units, order[i + 1..], rules, coverages + Covers(f.value))
  {
    hide FactOf;
    var f := FactOf(units, order[i], rules, coverages < MAX_COVERAGE_ENTRIES);
    assert order[i..][0] == order[i] && order[i..][1..] == order[i + 1..];
    if f.Some? {
      var rest := FactsFrom(units, order[i + 1..], rules, coverages + Covers(f.value));
      assert done + ([f.value] + rest) == (done + [f.value]) + rest;
    }
  }

  lemma TalliedAt(aggs: Tallies, order: seq<string>, units: seq<Unit>, rules: Rules, name: string)
    requires IsTallied(aggs, order, units, rules) && name in order
    ensures name in aggs && IsTallyOf(aggs[name], Values(units, name), rules)
  {
    hide IsTallyOf, Values, Tracked;
  }

  method CollectFacts(units: seq<Unit>, aggs: Tallies, order: seq<string>, rules: Rules) returns (facts: seq<Fact>)
    requires IsTallied(aggs, order, units, rules)
    ensures facts == FactsFrom(units, order, rules, 0)
  {
    hide FactOf, FactsFrom, IsTallyOf, IsTallied;
    facts := [];
    var coverages: nat := 0;
    assert order[0..] == order;
    assert [] + FactsFrom(units, order, rules, 0) == FactsFrom(units, order, rules, 0);
    for i := 0 to |order|
      invariant FactsFrom(units, order, rules, 0) == facts + FactsFrom(units, order[i..], rules, coverages)
    {
      var name := order[i];
      TalliedAt(aggs, order, units, rules, name);
      FactsStep(facts, units, order, i, rules, coverages);
      var f := FieldEntry(name, aggs[name], |units|, rules, coverages < MAX_COVERAGE_ENTRIES, units);
      if f.Some? { facts, coverages := facts + [f.value], coverages + Covers(f.value); }
    }
    NoMoreFacts(units, rules, coverages);
    assert order[|order|..] == [] && facts + [] == facts;
  }

  lemma NoMoreFacts(units: seq<Unit>, rules: Rules, coverages: nat)
    ensures FactsFrom(units, [], rules, coverages) == []
  {
  }

  /** The summary of a run, or nothing. */
  method SummarizeElided(units: seq<Unit>, elidedBytes: int, rules: Rules) returns (text: string)
    ensures text == Summary(units, elidedBytes, rules).text
    ensures text == "" || exists selected :: Tells(text, Facts(units, rules), selected, units, rules)
    ensures ByteLength(text) <= 160 && (elidedBytes > 0 ==> 2 * ByteLength(text) <= elidedBytes)
  {
    SummaryTells(units, elidedBytes, rules);
    SummaryIsSound(units, elidedBytes, rules);
    NothingIsShort();
    hide FactsFrom, Shed, IsTallied, Render, ByteLength, Tells, Holds, IsShedInOrder;
    if |units| < MIN_UNITS { return ""; }
    var aggs, order, readable := TallyUnits(units, rules);
    if !readable { return ""; }
    var facts := CollectFacts(units, aggs, order, rules);
    assert order == Tracked(units) by { OrderIsTracked(aggs, order, units, rules); }
    if facts == [] { return ""; }
    text := ShedLoop(facts, SummaryBudget(elidedBytes));
  }

  lemma OrderIsTracked(aggs: Tallies, order: seq<string>, units: seq<Unit>, rules: Rules)
    requires IsTallied(aggs, order, units, rules)
    ensures order == Tracked(units)
  {
  }

  /** Renders, and while the text is too long drops one fact more. */
  method ShedLoop(facts: seq<Fact>, budget: int) returns (text: string)
    ensures text == Shed(facts, AllSelected(|facts|), 0, budget).text
  {
    hide Shed, Render, Victim, ByteLength;
    var selected, omitted := AllSelected(|facts|), 0;
    while true
      invariant |selected| == |facts|
      invariant Shed(facts, AllSelected(|facts|), 0, budget) == Shed(facts, selected, omitted, budget)
      decreases CountSelected(selected)
    {
      ShedStep(facts, selected, omitted, budget);
      text := Render(facts, selected, omitted);
      if ByteLength(text) <= budget { return; }
      var victim := Victim(facts, selected, 0);
      if victim.None? { return ""; }
      CountDrops(selected, victim.value);
      selected, omitted := selected[victim.value := false], omitted + 1;
    }
  }

  lemma ShedStep(facts: seq<Fact>, selected: seq<bool>, omitted: nat, budget: int)
    requires |selected| == |facts|
    ensures var text, victim := Render(facts, selected, omitted), Victim(facts, selected, 0);
            Shed(facts, selected, omitted, budget) ==
            if ByteLength(text) <= budget then Selection(text, selected, omitted)
            else if victim.None? then Selection("", selected, omitted)
            else Shed(facts, selected[victim.value := false], omitted + 1, budget)
  {
    hide Render, Victim, ByteLength;
  }
}
