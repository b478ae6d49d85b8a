/** The summary a marker carries: one fact per field, in order, shed by importance until they fit the budget. */
module ElisionSummary {
  import opened GoText
  import opened DenseCoverage
  import opened ElisionFacts

  const MIN_UNITS := 2
  const MAX_BYTES := 160
  const MAX_SHARE := 4
  const MIN_BUDGET := 96
  const TIMES := "\U{D7}"

  /* ---- Which fields, in which order ---- */

  function AddName(names: seq<string>, name: string): seq<string> {
    if name in names then names else names + [name]
  }

  function AddNames(names: seq<string>, unit: Unit): seq<string> {
    if unit == [] then names else AddName(AddNames(names, unit[..|unit| - 1]), unit[|unit| - 1].name)
  }

  /** Field names in the order in which they first appear. */
  function NamesOf(units: seq<Unit>): seq<string> {
    if units == [] then [] else AddNames(NamesOf(units[..|units| - 1]), units[|units| - 1])
  }

  function Tracked(units: seq<Unit>): seq<string> {
    var names := NamesOf(units);
    if |names| <= MAX_TRACKED then names else names[..MAX_TRACKED]
  }

  function Covers(f: Fact): nat {
    if f.Dense? || f.Bounded? then 1 else 0
  }

  ghost function FactsFrom(units: seq<Unit>, names: seq<string>, rules: Rules, coverages: nat): seq<Fact>
    decreases |names|
  {
    if names == [] then []
    else
      var f := FactOf(units, names[0], rules, coverages < MAX_COVERAGE_ENTRIES);
      if f.None? then FactsFrom(units, names[1..], rules, coverages)
      else [f.value] + FactsFrom(units, names[1..], rules, coverages + Covers(f.value))
  }

  /** The facts of a run, before any is shed. A unit that cannot be read leaves nothing to claim. */
  ghost function Facts(units: seq<Unit>, rules: Rules): seq<Fact> {
    if |units| < MIN_UNITS || [] in units then [] else FactsFrom(units, Tracked(units), rules, 0)
  }

  lemma {:induction false} FactsFromHold(units: seq<Unit>, names: seq<string>, rules: Rules, coverages: nat)
    ensures forall f | f in FactsFrom(units, names, rules, coverages) :: Holds(f, units, rules)
    decreases |names|
  {
    hide FactOf, Holds;
    if names != [] {
      var f := FactOf(units, names[0], rules, coverages < MAX_COVERAGE_ENTRIES);
      if f.Some? { FactHolds(units, names[0], rules, coverages < MAX_COVERAGE_ENTRIES); }
      FactsFromHold(units, names[1..], rules, if f.None? then coverages else coverages + Covers(f.value));
    }
  }

  lemma MoreMayStand(units: seq<Unit>, name: string, rules: Rules, mayCover: bool)
    requires FactOf(units, name, rules, false).Some?
    ensures FactOf(units, name, rules, mayCover) == FactOf(units, name, rules, false)
    ensures !FactOf(units, name, rules, false).value.Dense? && !FactOf(units, name, rules, false).value.Bounded?
  {
    NeverConstant(name, Values(units, name), UnitsWith(units, name, None));
    hide Values, UnitsWith, Enumerate, Cover, IsUsable, IsCountable, ByteLength, Smallest, Largest, AllEqual,
         AllNumbers;
  }

  lemma CoversLast(units: seq<Unit>, name: string, rules: Rules)
    requires FactOf(units, name, rules, false).Some?
    ensures Covers(FactOf(units, name, rules, false).value) == 0
  {
    MoreMayStand(units, name, rules, false);
    hide FactOf;
  }

  lemma {:induction false} FieldsAreStated(units: seq<Unit>, names: seq<string>, rules: Rules, coverages: nat,
                                           name: string)
    requires name in names && FactOf(units, name, rules, false).Some?
    ensures FactOf(units, name, rules, false).value in FactsFrom(units, names, rules, coverages)
    decreases |names|
  {
    hide FactOf;
    var f := FactOf(units, names[0], rules, coverages < MAX_COVERAGE_ENTRIES);
    if names[0] == name {
      MoreMayStand(units, name, rules, coverages < MAX_COVERAGE_ENTRIES);
    } else {
      FieldsAreStated(units, names[1..], rules, if f.None? then coverages else coverages + Covers(f.value), name);
    }
  }

  /** Unless it is shed, whatever can be stated of a tracked field as a constant, a range or an enumeration is
      stated. */
  lemma FieldIsStated(units: seq<Unit>, name: string, rules: Rules)
    requires |units| >= 2 && [] !in units && name in Tracked(units) && FactOf(units, name, rules, false).Some?
    ensures FactOf(units, name, rules, false).value in Facts(units, rules)
  {
    FieldsAreStated(units, Tracked(units), rules, 0, name);
  }

  lemma {:induction false} NamesAppear(units: seq<Unit>, n: nat)
    requires n <= |units|
    ensures forall name :: name in NamesOf(units[..n]) <==> exists u | 0 <= u < n :: FirstValue(units[u], name).Some?
    decreases n
  {
    hide FirstValue;
    if n > 0 {
      NamesAppear(units, n - 1);
      assert units[..n][..n - 1] == units[..n - 1];
      NamesAdded(NamesOf(units[..n - 1]), units[n - 1]);
    }
  }

  lemma {:induction false} NamesAdded(names: seq<string>, unit: Unit)
    ensures forall name :: name in AddNames(names, unit) <==> name in names || FirstValue(unit, name).Some?
    decreases |unit|
  {
    if unit != [] { NamesAdded(names, unit[..|unit| - 1]); }
  }

  /** While there are at most forty-eight names, every field of every unit is tracked. */
  lemma FewNamesAreTracked(units: seq<Unit>, name: string, u: nat)
    requires |NamesOf(units)| <= 48 && u < |units| && FirstValue(units[u], name).Some?
    ensures name in Tracked(units)
  {
    NamesAppear(units, |units|);
    assert units[..|units|] == units;
  }

  lemma {:induction false} FewCoverages(units: seq<Unit>, names: seq<string>, rules: Rules, coverages: nat)
    requires coverages <= 2
    ensures coverages + CoverCount(FactsFrom(units, names, rules, coverages)) <= 2
    decreases |names|
  {
    if names != [] {
      hide FactOf;
      var f := FactOf(units, names[0], rules, coverages < MAX_COVERAGE_ENTRIES);
      if coverages == 2 && f.Some? { CoversLast(units, names[0], rules); }
      FewCoverages(units, names[1..], rules, if f.None? then coverages else coverages + Covers(f.value));
    }
  }

  /** At most two fields are stated by how many values they have. */
  lemma AtMostTwoCoverages(units: seq<Unit>, rules: Rules)
    ensures CoverCount(Facts(units, rules)) <= 2
  {
    hide FactsFrom, Tracked;
    if |units| >= MIN_UNITS && [] !in units { FewCoverages(units, Tracked(units), rules, 0); }
  }

  function CoverCount(facts: seq<Fact>): nat {
    if facts == [] then 0 else (if facts[0].Dense? || facts[0].Bounded? then 1 else 0) + CoverCount(facts[1..])
  }

  /* ---- Rendering ---- */

  function BucketTexts(buckets: seq<Bucket>): string {
    if buckets == [] then "" else " " + buckets[0].value + TIMES + Itoa(buckets[0].count) + BucketTexts(buckets[1..])
  }

  function Text(f: Fact): string {
    match f
    case Constant(name, value) => name + "=" + value
    case Range(name, low, high) => name + "=" + low + ".." + high
    case Enumeration(name, buckets, absent, _) =>
      name + ":" + BucketTexts(if absent > 0 then buckets + [Bucket(ABSENT, absent)] else buckets)
    case Dense(name, low, high, distinct) => name + ": " + low + ".." + high + " all " + Itoa(distinct) + " present"
    case Bounded(name, low, high, distinct, absent) =>
      name + ": " + Itoa(distinct) + " distinct, " + low + ".." + high +
      if absent > 0 then ", " + ABSENT + TIMES + Itoa(absent) else ""
  }

  function Together(parts: seq<string>, sep: string): string {
    if parts == [] then "" else if |parts| == 1 then parts[0] else parts[0] + sep + Together(parts[1..], sep)
  }

  /** The texts of the selected facts of one group, in order. */
  function Texts(facts: seq<Fact>, selected: seq<bool>, group: Fact -> bool): seq<string>
    requires |selected| == |facts|
  {
    if facts == [] then []
    else (if selected[0] && group(facts[0]) then [Text(facts[0])] else []) + Texts(facts[1..], selected[1..], group)
  }

  /** Constants in one section, every enumeration and coverage in its own, ranges in one, and what was left out. */
  function Render(facts: seq<Fact>, selected: seq<bool>, omitted: nat): string
    requires |selected| == |facts|
  {
    var constants := Texts(facts, selected, (f: Fact) => f.Constant?);
    var own := Texts(facts, selected, (f: Fact) => !f.Constant? && !f.Range?);
    var ranges := Texts(facts, selected, (f: Fact) => f.Range?);
    var sections := (if constants != [] then ["all " + Together(constants, " ")] else []) + own +
                    (if ranges != [] then ["range " + Together(ranges, " ")] else []);
    if sections == [] then ""
      else Together(sections + if omitted > 0 then ["+" + Itoa(omitted) + " omitted"] else [], "; ")
  }

  /* ---- Shedding ---- */

  /** The most that is within a cap, half of the replaced bytes, and the larger of a floor and a quarter of them. */
  function SummaryBudget(elidedBytes: int): (budget: int)
    ensures elidedBytes <= 0 ==> budget == 160
    ensures elidedBytes > 0 ==> IsAffordable(budget, elidedBytes) && !IsAffordable(budget + 1, elidedBytes)
  {
    if elidedBytes <= 0 then MAX_BYTES
    else
      var share := if elidedBytes / MAX_SHARE < MIN_BUDGET then MIN_BUDGET else elidedBytes / MAX_SHARE;
      var halved := if share > elidedBytes / 2 then elidedBytes / 2 else share;
      if halved > MAX_BYTES then MAX_BYTES else halved
  }

  predicate IsAffordable(bytes: int, elidedBytes: int) {
    0 <= bytes <= 160 && 2 * bytes <= elidedBytes && (4 * bytes <= elidedBytes || bytes <= 96)
  }

  /** What goes first: identifier-like enumerations, ranges, bounds, constants, dense coverage, class enumerations. */
  function Rank(f: Fact): (rank: nat)
    ensures rank <= 5
  {
    match f
    case Enumeration(_, _, _, weak) => if weak then 0 else 5
    case Range(_, _, _) => 1
    case Bounded(_, _, _, _, _) => 2
    case Constant(_, _) => 3
    case Dense(_, _, _, _) => 4
  }

  function CountSelected(selected: seq<bool>): nat {
    if selected == [] then 0 else CountSelected(selected[..|selected| - 1]) + if selected[|selected| - 1] then 1 else 0
  }

  /** The last selected fact of a rank among the first `n`. */
  function LastOf(facts: seq<Fact>, selected: seq<bool>, rank: nat, n: nat): (i: Option<nat>)
    requires |selected| == |facts| && n <= |facts|
    ensures i.Some? ==> i.value < n && selected[i.value] && Rank(facts[i.value]) == rank
  {
    if n == 0 then None
    else if selected[n - 1] && Rank(facts[n - 1]) == rank then Some(n - 1)
    else LastOf(facts, selected, rank, n - 1)
  }

  function Victim(facts: seq<Fact>, selected: seq<bool>, rank: nat): (i: Option<nat>)
    requires |selected| == |facts| && rank <= 6
    ensures i.Some? ==> i.value < |facts| && selected[i.value]
    decreases 6 - rank
  {
    if rank == 6 then None
    else if LastOf(facts, selected, rank, |facts|).Some? then LastOf(facts, selected, rank, |facts|)
    else Victim(facts, selected, rank + 1)
  }

  lemma {:induction false} CountDrops(selected: seq<bool>, i: nat)
    requires i < |selected| && selected[i]
    ensures CountSelected(selected[i := false]) == CountSelected(selected) - 1
    decreases |selected|
  {
    var n := |selected| - 1;
    if i < n {
      CountDrops(selected[..n], i);
      assert selected[i := false][..n] == selected[..n][i := false];
    } else {
      assert selected[i := false][..n] == selected[..n];
    }
  }

  datatype Selection = Selection(text: string, selected: seq<bool>, omitted: nat)

  /** Drops one fact after the other until the text fits. */
  function Shed(facts: seq<Fact>, selected: seq<bool>, omitted: nat, budget: int): (r: Selection)
    requires |selected| == |facts|
    ensures |r.selected| == |facts|
    decreases CountSelected(selected)
  {
    var text := Render(facts, selected, omitted);
    if ByteLength(text) <= budget then Selection(text, selected, omitted)
    else
      var victim := Victim(facts, selected, 0);
      if victim.None? then Selection("", selected, omitted)
      else
        CountDrops(selected, victim.value);
        Shed(facts, selected[victim.value := false], omitted + 1, budget)
  }

  function AllSelected(n: nat): (s: seq<bool>)
    ensures |s| == n
  {
    seq(n, _ => true)
  }

  ghost function Summary(units: seq<Unit>, elidedBytes: int, rules: Rules): Selection {
    var facts := Facts(units, rules);
    if facts == [] then Selection("", [], 0) else Shed(facts, AllSelected(|facts|), 0, SummaryBudget(elidedBytes))
  }

  /* ---- What the summary promises ---- */

  /** Whatever was shed matters less than whatever stays, and among equals stands later. */
  predicate IsShedInOrder(facts: seq<Fact>, selected: seq<bool>)
    requires |selected| == |facts|
  {
    forall i, j | 0 <= i < |facts| && 0 <= j < |facts| && !selected[i] && selected[j] ::
      Rank(facts[i]) < Rank(facts[j]) || (Rank(facts[i]) == Rank(facts[j]) && j < i)
  }

  /** Identifier-like enumerations go before all else, then ranges, bounds, constants and dense coverage, and class
      enumerations go last. */
  lemma KindsStay(facts: seq<Fact>, selected: seq<bool>, i: nat, j: nat)
    requires |selected| == |facts| && IsShedInOrder(facts, selected)
    requires i < |facts| && j < |facts| && !selected[i] && selected[j]
    ensures facts[j].Enumeration? && facts[j].weak ==> facts[i].Enumeration? && facts[i].weak && j < i
    ensures facts[j].Range? ==> (facts[i].Enumeration? && facts[i].weak) || (facts[i].Range? && j < i)
    ensures facts[j].Bounded? ==>
              (facts[i].Enumeration? && facts[i].weak) || facts[i].Range? || (facts[i].Bounded? && j < i)
    ensures facts[j].Constant? ==>
              (facts[i].Enumeration? && facts[i].weak) || facts[i].Range? || facts[i].Bounded? ||
              (facts[i].Constant? && j < i)
    ensures facts[j].Dense? ==> (facts[i].Enumeration? ==> facts[i].weak) && (facts[i].Dense? ==> j < i)
    ensures facts[i].Enumeration? && !facts[i].weak ==> facts[j].Enumeration? && !facts[j].weak && j < i
  {
  }

  lemma {:induction false} LastOfIsLast(facts: seq<Fact>, selected: seq<bool>, rank: nat, n: nat, j: nat)
    requires |selected| == |facts| && j < n <= |facts| && selected[j] && Rank(facts[j]) == rank
    ensures LastOf(facts, selected, rank, n).Some? && j <= LastOf(facts, selected, rank, n).value
    decreases n
  {
    hide Rank;
    if j < n - 1 && !(selected[n - 1] && Rank(facts[n - 1]) == rank) { LastOfIsLast(facts, selected, rank, n - 1, j); }
  }

  /** The victim is the last of the least important facts that are still there. */
  lemma {:induction false} VictimIsLeast(facts: seq<Fact>, selected: seq<bool>, rank: nat, j: nat)
    requires |selected| == |facts| && rank <= 6 && j < |facts| && selected[j] && rank <= Rank(facts[j])
    ensures var v := Victim(facts, selected, rank);
            v.Some? && (Rank(facts[v.value]) < Rank(facts[j]) ||
              (Rank(facts[v.value]) == Rank(facts[j]) && j <= v.value))
    decreases 6 - rank
  {
    hide LastOf;
    if Rank(facts[j]) == rank { LastOfIsLast(facts, selected, rank, |facts|, j); }
    if rank < 6 && LastOf(facts, selected, rank, |facts|).None? { VictimIsLeast(facts, selected, rank + 1, j); }
  }

  lemma {:induction false} ShedIsFair(facts: seq<Fact>, selected: seq<bool>, omitted: nat, budget: int)
    requires |selected| == |facts| && budget >= 0 && IsShedInOrder(facts, selected)
    requires omitted + CountSelected(selected) == |facts|
    ensures var r := Shed(facts, selected, omitted, budget);
            ByteLength(r.text) <= budget && IsShedInOrder(facts, r.selected) &&
            r.omitted + CountSelected(r.selected) == |facts| &&
            (r.text == Render(facts, r.selected, r.omitted) ||
              (r.text == "" && forall i | 0 <= i < |facts| :: !r.selected[i]))
    decreases CountSelected(selected)
  {
    hide Render, Victim, Rank, ByteLength;
    if ByteLength(Render(facts, selected, omitted)) > budget {
      var victim := Victim(facts, selected, 0);
      forall j | 0 <= j < |facts| && selected[j] ensures victim.Some? { VictimIsLeast(facts, selected, 0, j); }
      if victim.Some? {
        var next := selected[victim.value := false];
        CountDrops(selected, victim.value);
        forall i, j | 0 <= i < |facts| && 0 <= j < |facts| && !next[i] && next[j]
          ensures Rank(facts[i]) < Rank(facts[j]) || (Rank(facts[i]) == Rank(facts[j]) && j < i)
        {
          if i == victim.value { VictimIsLeast(facts, selected, 0, j); }
        }
        ShedIsFair(facts, next, omitted + 1, budget);
      } else {
        NothingIsShort();
      }
    }
  }

  lemma NothingIsShort()
    ensures ByteLength("") == 0
  {
  }

  lemma {:induction false} AllAreSelected(n: nat)
    ensures CountSelected(AllSelected(n)) == n && forall i | 0 <= i < n :: AllSelected(n)[i]
    decreases n
  {
    if n > 0 {
      AllAreSelected(n - 1);
      assert AllSelected(n)[..n - 1] == AllSelected(n - 1);
    }
  }

  /** A summary states only facts that hold for every unit of the run; it fits its budget, and so never costs more than
      half of what it replaced; the omitted count is exactly the number of facts shed; and what was shed matters less
      than all that stayed. */
  lemma SummaryIsSound(units: seq<Unit>, elidedBytes: int, rules: Rules)
    ensures var facts, r := Facts(units, rules), Summary(units, elidedBytes, rules);
            (forall f | f in facts :: Holds(f, units, rules)) && |r.selected| == |facts| &&
            r.omitted + CountSelected(r.selected) == |facts| && IsShedInOrder(facts, r.selected) &&
            ByteLength(r.text) <= SummaryBudget(elidedBytes) &&
            (r.text == "" || r.text == Render(facts, r.selected, r.omitted))
  {
    hide FactsFrom, Holds, Shed, Render, ByteLength, Rank, Tracked;
    var facts := Facts(units, rules);
    if |units| >= MIN_UNITS && [] !in units { FactsFromHold(units, Tracked(units), rules, 0); }
    AllAreSelected(|facts|);
    if facts == [] {
      NothingIsShort();
    } else {
      ShedIsFair(facts, AllSelected(|facts|), 0, SummaryBudget(elidedBytes));
    }
  }
}
