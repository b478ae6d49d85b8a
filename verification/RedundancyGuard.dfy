/**
 The guard before every elision: a unit may be dropped only when a surviving unit already carries nine tenths of its
 vocabulary. What the vocabulary of a unit is, with its digits masked or not, is an input.
 */
module RedundancyGuard {

  datatype Profile = Profile(vocab: set<string>, masked: bool)

  const MAX_CLASSES := 64
  const MAX_PROMOTIONS := 128

  /** `int(0.9 * n + 0.999999)`: how many of `n` words one class must have in common. */
  function Need(n: nat): nat {
    (900000 * n + 999999) / 1000000
  }

  /** The least number that is nine tenths or more. */
  lemma NeedIsNineTenths(n: nat)
    ensures 9 * n <= 10 * Need(n) < 9 * n + 10 && Need(n) <= n && (n > 0 ==> Need(n) > 0)
  {
  }

  /** One class covers a unit: the same kind of profile with enough words in common. */
  predicate Covers(known: Profile, unit: Profile) {
    known.masked == unit.masked && |unit.vocab * known.vocab| >= Need(|unit.vocab|)
  }

  /** What the guard promises about a dropped unit. */
  predicate CarriesNineTenths(survivor: Profile, unit: Profile) {
    survivor.masked == unit.masked && 10 * |unit.vocab * survivor.vocab| >= 9 * |unit.vocab|
  }

  lemma CoversExactly(known: Profile, unit: Profile)
    ensures Covers(known, unit) <==> CarriesNineTenths(known, unit)
  {
    NeedIsNineTenths(|unit.vocab|);
    hide Need;
  }

  predicate IsRepresented(unit: Profile, classes: seq<Profile>) {
    unit.vocab == {} || exists k | 0 <= k < |classes| :: Covers(classes[k], unit)
  }

  /* ---- The seed ---- */

  /** The profiles of the kept units from `i` on. */
  function KeptFrom(profiles: seq<Profile>, keep: seq<bool>, i: nat): seq<Profile>
    requires |profiles| == |keep| && i <= |keep|
    decreases |keep| - i
  {
    if i == |keep| then [] else (if keep[i] then [profiles[i]] else []) + KeptFrom(profiles, keep, i + 1)
  }

  /** An evenly spread sample, bounded in size. */
  function Sample(kept: seq<Profile>, n: nat, step: nat, room: nat): seq<Profile>
    requires step > 0
    decreases room
  {
    if n >= |kept| || room == 0 then [] else [kept[n]] + Sample(kept, n + step, step, room - 1)
  }

  function StepOf(n: nat): (step: nat)
    ensures step > 0
  {
    if n > MAX_CLASSES then n / MAX_CLASSES else 1
  }

  function Seed(profiles: seq<Profile>, keep: seq<bool>): seq<Profile>
    requires |profiles| == |keep|
  {
    var kept := KeptFrom(profiles, keep, 0);
    Sample(kept, 0, StepOf(|kept|), MAX_CLASSES)
  }

  /** A profile of some unit that stays. */
  predicate IsShown(profiles: seq<Profile>, r: seq<bool>, p: Profile)
    requires |profiles| == |r|
  {
    exists c | 0 <= c < |r| :: r[c] && profiles[c] == p
  }

  lemma {:induction false} KeptAreShown(profiles: seq<Profile>, keep: seq<bool>, i: nat)
    requires |profiles| == |keep| && i <= |keep|
    ensures forall p | p in KeptFrom(profiles, keep, i) :: IsShown(profiles, keep, p)
    decreases |keep| - i
  {
    if i < |keep| {
      KeptAreShown(profiles, keep, i + 1);
      if keep[i] { assert IsShown(profiles, keep, profiles[i]); }
    }
  }

  lemma {:induction false} SampleIsKept(kept: seq<Profile>, n: nat, step: nat, room: nat)
    requires step > 0
    ensures |Sample(kept, n, step, room)| <= room && forall p | p in Sample(kept, n, step, room) :: p in kept
    decreases room
  {
    if n < |kept| && room > 0 { SampleIsKept(kept, n + step, step, room - 1); }
  }

  lemma SeedIsShown(profiles: seq<Profile>, keep: seq<bool>)
    requires |profiles| == |keep|
    ensures |Seed(profiles, keep)| <= MAX_CLASSES && forall p | p in Seed(profiles, keep) :: IsShown(profiles, keep, p)
  {
    var kept := KeptFrom(profiles, keep, 0);
    KeptAreShown(profiles, keep, 0);
    SampleIsKept(kept, 0, StepOf(|kept|), MAX_CLASSES);
  }

  /* ---- The guard ---- */

  /** The decisions from unit `i` on. */
  function Decide(profiles: seq<Profile>, keep: seq<bool>, i: nat, classes: seq<Profile>,
                  promotions: nat): (r: seq<bool>)
    requires |profiles| == |keep| && i <= |keep|
    ensures |r| == |keep| - i
    decreases |keep| - i
  {
    if i == |keep| then []
    else if keep[i] || promotions >= MAX_PROMOTIONS then [true] + Decide(profiles, keep, i + 1, classes, promotions)
    else if IsRepresented(profiles[i], classes) then [false] + Decide(profiles, keep, i + 1, classes, promotions)
    else [true] + Decide(profiles, keep, i + 1, classes + [profiles[i]], promotions + 1)
  }

  function Guarded(profiles: seq<Profile>, keep: seq<bool>): (r: seq<bool>)
    requires |profiles| == |keep|
    ensures |r| == |keep|
  {
    Decide(profiles, keep, 0, Seed(profiles, keep), 0)
  }

  /** The survivor of unit `j` is a class from before or a unit kept on the way. */
  predicate HasSurvivor(profiles: seq<Profile>, r: seq<bool>, i: nat, classes: seq<Profile>, j: nat)
    requires i + |r| == |profiles| && i <= j < |profiles|
  {
    (exists p | p in classes :: CarriesNineTenths(p, profiles[j])) ||
    exists c | i <= c < j :: r[c - i] && CarriesNineTenths(profiles[c], profiles[j])
  }

  lemma RepresentedIsCarried(unit: Profile, classes: seq<Profile>)
    requires IsRepresented(unit, classes) && unit.vocab != {}
    ensures exists p | p in classes :: CarriesNineTenths(p, unit)
  {
    var k :| 0 <= k < |classes| && Covers(classes[k], unit);
    NeedIsNineTenths(|unit.vocab|);
    assert classes[k] in classes && CarriesNineTenths(classes[k], unit);
  }

  /** A survivor found from the next unit on is one from this unit on. */
  lemma SurvivorFrom(profiles: seq<Profile>, r: seq<bool>, i: nat, classes: seq<Profile>, classes': seq<Profile>,
                     j: nat)
    requires i + |r| == |profiles| && i < j < |profiles| && HasSurvivor(profiles, r[1..], i + 1, classes', j)
    requires classes' == classes || (r[0] && classes' == classes + [profiles[i]])
    ensures HasSurvivor(profiles, r, i, classes, j)
  {
    hide CarriesNineTenths;
    if exists p | p in classes' :: CarriesNineTenths(p, profiles[j]) {
      var p :| p in classes' && CarriesNineTenths(p, profiles[j]);
      if p !in classes { assert r[i - i] && CarriesNineTenths(profiles[i], profiles[j]); }
    } else {
      var c :| i + 1 <= c < j && r[1..][c - (i + 1)] && CarriesNineTenths(profiles[c], profiles[j]);
      assert r[c - i];
    }
  }

  lemma {:induction false} DecideIsSafe(profiles: seq<Profile>, keep: seq<bool>, i: nat, classes: seq<Profile>,
                                        promotions: nat, j: nat)
    requires |profiles| == |keep| && i <= j < |keep|
    ensures var r := Decide(profiles, keep, i, classes, promotions);
            (keep[j] ==> r[j - i]) && (!r[j - i] && profiles[j].vocab != {} ==> HasSurvivor(profiles, r, i, classes, j))
    decreases |keep| - i
  {
    hide IsRepresented, HasSurvivor;
    var r := Decide(profiles, keep, i, classes, promotions);
    if i == j {
      if !r[0] && profiles[j].vocab != {} {
        RepresentedIsCarried(profiles[j], classes);
        CarriedByClass(profiles, r, i, classes);
      }
    } else {
      var promoted := !keep[i] && promotions < MAX_PROMOTIONS && !IsRepresented(profiles[i], classes);
      var classes' := if promoted then classes + [profiles[i]] else classes;
      var promotions' := if promoted then promotions + 1 else promotions;
      DecideIsSafe(profiles, keep, i + 1, classes', promotions', j);
      assert r[1..] == Decide(profiles, keep, i + 1, classes', promotions');
      assert r[j - i] == r[1..][j - i - 1];
      if !r[j - i] && profiles[j].vocab != {} { SurvivorFrom(profiles, r, i, classes, classes', j); }
    }
  }

  lemma CarriedByClass(profiles: seq<Profile>, r: seq<bool>, j: nat, classes: seq<Profile>)
    requires j + |r| == |profiles| && j < |profiles| && exists p | p in classes :: CarriesNineTenths(p, profiles[j])
    ensures HasSurvivor(profiles, r, j, classes, j)
  {
  }

  /** No keep is cleared, and every unit that is still dropped and has a vocabulary is represented by a unit that
      survives, of the same masking, which holds at least nine tenths of that vocabulary. */
  lemma DroppedUnitsAreRepresented(profiles: seq<Profile>, keep: seq<bool>)
    requires |profiles| == |keep|
    ensures var r := Guarded(profiles, keep);
            (forall j | 0 <= j < |keep| && keep[j] :: r[j]) &&
            forall j | 0 <= j < |keep| && !r[j] && profiles[j].vocab != {} ::
              exists c | 0 <= c < |keep| :: r[c] && CarriesNineTenths(profiles[c], profiles[j])
  {
    hide CarriesNineTenths, Seed, Decide;
    var r, seed := Guarded(profiles, keep), Seed(profiles, keep);
    SeedIsShown(profiles, keep);
    forall j | 0 <= j < |keep| && keep[j] ensures r[j] { DecideIsSafe(profiles, keep, 0, seed, 0, j); }
    forall j | 0 <= j < |keep| && !r[j] && profiles[j].vocab != {}
      ensures exists c | 0 <= c < |keep| :: r[c] && CarriesNineTenths(profiles[c], profiles[j])
    {
      DecideIsSafe(profiles, keep, 0, seed, 0, j);
      if exists p | p in seed :: CarriesNineTenths(p, profiles[j]) {
        var p :| p in seed && CarriesNineTenths(p, profiles[j]);
        assert IsShown(profiles, keep, p);
        var c :| 0 <= c < |keep| && keep[c] && profiles[c] == p;
        assert r[c];
      }
    }
  }

  /** Once the number of promotions shows that the payload is a document, nothing more is dropped. */
  lemma {:induction false} DocumentIsKept(profiles: seq<Profile>, keep: seq<bool>, i: nat, classes: seq<Profile>,
                                          promotions: nat)
    requires |profiles| == |keep| && i <= |keep| && promotions >= MAX_PROMOTIONS
    ensures forall b | b in Decide(profiles, keep, i, classes, promotions) :: b
    decreases |keep| - i
  {
    if i < |keep| { DocumentIsKept(profiles, keep, i + 1, classes, promotions); }
  }

  /** Where no unit is covered by an earlier one, a payload of distinct records, nothing is dropped. */
  lemma {:induction false} DistinctUnitsStay(profiles: seq<Profile>, keep: seq<bool>, i: nat, classes: seq<Profile>,
                                             promotions: nat)
    requires |profiles| == |keep| && i <= |keep|
    requires forall j | i <= j < |keep| :: profiles[j].vocab != {} && !IsRepresented(profiles[j], classes)
    requires forall c, j | i <= c < j < |keep| :: !Covers(profiles[c], profiles[j])
    ensures forall b | b in Decide(profiles, keep, i, classes, promotions) :: b
    decreases |keep| - i
  {
    hide Covers;
    if i < |keep| {
      var more := classes + [profiles[i]];
      forall j | i < j < |keep| ensures !IsRepresented(profiles[j], more) {
        forall k | 0 <= k < |more| ensures !Covers(more[k], profiles[j]) {}
      }
      DistinctUnitsStay(profiles, keep, i + 1, classes, promotions);
      DistinctUnitsStay(profiles, keep, i + 1, more, promotions + 1);
    }
  }

  /* ---- Exactly what is dropped ---- */

  function KeptBetween(keep: seq<bool>, i: nat, c: nat): (ks: set<nat>)
    requires c <= |keep|
  {
    set k: nat | i <= k < c && keep[k]
  }

  /** One of at most sixty-four kept units, evenly spread over all of them. */
  predicate IsSeedAt(keep: seq<bool>, c: nat)
    requires c < |keep|
  {
    var all, rank := |KeptBetween(keep, 0, |keep|)|, |KeptBetween(keep, 0, c)|;
    keep[c] && IsTimesFew(rank, if all > 64 then all / 64 else 1)
  }

  predicate IsTimesFew(n: nat, step: nat) {
    exists m: nat | m < 64 :: IsTimes(n, m, step)
  }

  predicate IsTimes(n: nat, m: nat, step: nat) {
    n == m * step
  }

  /** The units before `j` that were to be dropped and stay. */
  function PromotedBetween(keep: seq<bool>, r: seq<bool>, i: nat, j: nat): (ks: set<nat>)
    requires i + |r| == |keep| && j <= |keep|
  {
    set k: nat | i <= k < j && !keep[k] && r[k - i]
  }

  /** Whether a unit that was to be dropped stays: nothing that certainly stays carries nine tenths of its words. */
  predicate IsNovel(profiles: seq<Profile>, keep: seq<bool>, r: seq<bool>, i: nat, classes: seq<Profile>, j: nat)
    requires |profiles| == |keep| == i + |r| && j < |keep|
  {
    profiles[j].vocab != {} && (forall p | p in classes :: !CarriesNineTenths(p, profiles[j])) &&
    forall k | k in PromotedBetween(keep, r, i, j) :: !CarriesNineTenths(profiles[k], profiles[j])
  }

  lemma RepresentedExactly(unit: Profile, classes: seq<Profile>)
    ensures IsRepresented(unit, classes) <==> unit.vocab == {} || exists p | p in classes :: CarriesNineTenths(p, unit)
  {
    hide Covers, CarriesNineTenths;
    forall k | 0 <= k < |classes| ensures Covers(classes[k], unit) <==> CarriesNineTenths(classes[k], unit) {
      CoversExactly(classes[k], unit);
    }
    if p :| p in classes && CarriesNineTenths(p, unit) {
      var k :| 0 <= k < |classes| && classes[k] == p;
      assert Covers(classes[k], unit);
    }
  }

  lemma PromotedNext(keep: seq<bool>, r: seq<bool>, i: nat, j: nat)
    requires i + |r| == |keep| && i < j < |keep|
    ensures var rest := PromotedBetween(keep, r[1..], i + 1, j);
            i !in rest && PromotedBetween(keep, r, i, j) == if !keep[i] && r[0] then rest + {i} else rest
  {
    var rest, all := PromotedBetween(keep, r[1..], i + 1, j), PromotedBetween(keep, r, i, j);
    forall k: nat ensures k in all <==> k in rest || (k == i && !keep[i] && r[0]) {
      if i < k < j { assert r[1..][k - (i + 1)] == r[k - i]; }
    }
  }

  /** What is novel from here on is novel from the next unit on, when this one joins the classes or is no promotion. */
  lemma NovelNext(profiles: seq<Profile>, keep: seq<bool>, r: seq<bool>, i: nat, classes: seq<Profile>,
                  classes': seq<Profile>, j: nat)
    requires |profiles| == |keep| == i + |r| && i < j < |keep|
    requires classes' == if !keep[i] && r[0] then classes + [profiles[i]] else classes
    ensures IsNovel(profiles, keep, r, i, classes, j) <==> IsNovel(profiles, keep, r[1..], i + 1, classes', j)
  {
    hide CarriesNineTenths, PromotedBetween;
    PromotedNext(keep, r, i, j);
    var rest := PromotedBetween(keep, r[1..], i + 1, j);
    if !keep[i] && r[0] {
      assert classes'[|classes|] == profiles[i];
      forall p ensures p in classes' <==> p in classes || p == profiles[i] {}
    }
  }

  lemma PromotedCount(keep: seq<bool>, r: seq<bool>, i: nat, j: nat)
    requires i + |r| == |keep| && i < j < |keep|
    ensures |PromotedBetween(keep, r, i, j)| ==
            |PromotedBetween(keep, r[1..], i + 1, j)| + if !keep[i] && r[0] then 1 else 0
  {
    hide PromotedBetween;
    PromotedNext(keep, r, i, j);
  }

  lemma {:induction false} DecidesExactly(profiles: seq<Profile>, keep: seq<bool>, i: nat, classes: seq<Profile>,
                                          promotions: nat, j: nat)
    requires |profiles| == |keep| && i <= j < |keep|
    ensures var r := Decide(profiles, keep, i, classes, promotions);
            r[j - i] <==> keep[j] || promotions + |PromotedBetween(keep, r, i, j)| >= 128 ||
                          IsNovel(profiles, keep, r, i, classes, j)
    decreases |keep| - i
  {
    RepresentedExactly(profiles[i], classes);
    DecideStep(profiles, keep, i, classes, promotions);
    hide IsRepresented, CarriesNineTenths, Decide;
    var r := Decide(profiles, keep, i, classes, promotions);
    if i == j {
      assert PromotedBetween(keep, r, i, i) == {};
    } else {
      hide PromotedBetween, IsNovel;
      var promoted := !keep[i] && promotions < MAX_PROMOTIONS && !IsRepresented(profiles[i], classes);
      var classes' := if promoted then classes + [profiles[i]] else classes;
      var promotions' := if promoted then promotions + 1 else promotions;
      var rest := Decide(profiles, keep, i + 1, classes', promotions');
      assert r == [r[0]] + rest && r[1..] == rest;
      DecidesExactly(profiles, keep, i + 1, classes', promotions', j);
      PromotedCount(keep, r, i, j);
      if promotions < MAX_PROMOTIONS { NovelNext(profiles, keep, r, i, classes, classes', j); }
      assert r[j - i] == rest[j - i - 1];
    }
  }

  lemma {:induction false} KeptRank(profiles: seq<Profile>, keep: seq<bool>, i: nat)
    requires |profiles| == |keep| && i <= |keep|
    ensures |KeptFrom(profiles, keep, i)| == |KeptBetween(keep, i, |keep|)|
    decreases |keep| - i
  {
    if i < |keep| {
      KeptRank(profiles, keep, i + 1);
      KeptNext(keep, i, |keep|);
    } else {
      assert KeptBetween(keep, i, |keep|) == {};
    }
  }

  lemma KeptNext(keep: seq<bool>, i: nat, c: nat)
    requires i < c <= |keep|
    ensures KeptBetween(keep, i, c) == KeptBetween(keep, i + 1, c) + (if keep[i] then {i} else {})
    ensures |KeptBetween(keep, i, c)| == |KeptBetween(keep, i + 1, c)| + if keep[i] then 1 else 0
  {
    assert KeptBetween(keep, i, c) == KeptBetween(keep, i + 1, c) + (if keep[i] then {i} else {});
  }

  /** A kept unit stands among the kept ones at the number of kept units before it. */
  lemma {:induction false} KeptAt(profiles: seq<Profile>, keep: seq<bool>, i: nat, c: nat)
    requires |profiles| == |keep| && i <= c < |keep| && keep[c]
    ensures var n := |KeptBetween(keep, i, c)|;
            n < |KeptFrom(profiles, keep, i)| && KeptFrom(profiles, keep, i)[n] == profiles[c]
    decreases c - i
  {
    if i < c {
      KeptAt(profiles, keep, i + 1, c);
      KeptNext(keep, i, c);
    } else {
      assert KeptBetween(keep, i, c) == {};
    }
  }

  /** And every place among the kept ones is that of such a unit. */
  lemma {:induction false} KeptPlace(profiles: seq<Profile>, keep: seq<bool>, i: nat, n: nat) returns (c: nat)
    requires |profiles| == |keep| && i <= |keep| && n < |KeptFrom(profiles, keep, i)|
    ensures i <= c < |keep| && keep[c] && |KeptBetween(keep, i, c)| == n
    decreases |keep| - i
  {
    if keep[i] && n == 0 {
      c := i;
      assert KeptBetween(keep, i, i) == {};
    } else {
      c := KeptPlace(profiles, keep, i + 1, if keep[i] then n - 1 else n);
      KeptNext(keep, i, c);
    }
  }

  lemma {:induction false} SampleAt(kept: seq<Profile>, n: nat, step: nat, room: nat, m: nat)
    requires step > 0
    ensures m < |Sample(kept, n, step, room)| <==> m < room && n + m * step < |kept|
    ensures m < |Sample(kept, n, step, room)| ==> Sample(kept, n, step, room)[m] == kept[n + m * step]
    decreases room
  {
    if n < |kept| && room > 0 {
      if m > 0 {
        SampleAt(kept, n + step, step, room - 1, m - 1);
        assert n + step + (m - 1) * step == n + m * step;
      }
    } else {
      assert n + m * step >= n;
    }
  }

  lemma SeedAt(keep: seq<bool>, c: nat, m: nat, all: nat)
    requires c < |keep| && keep[c] && all == |KeptBetween(keep, 0, |keep|)| && m < 64
    requires |KeptBetween(keep, 0, c)| == m * StepOf(all)
    ensures IsSeedAt(keep, c)
  {
    hide KeptBetween;
    assert IsTimes(|KeptBetween(keep, 0, c)|, m, StepOf(all));
  }

  lemma SeedHas(keep: seq<bool>, c: nat, all: nat) returns (m: nat)
    requires c < |keep| && IsSeedAt(keep, c) && all == |KeptBetween(keep, 0, |keep|)|
    ensures m < 64 && |KeptBetween(keep, 0, c)| == m * StepOf(all)
  {
    hide KeptBetween;
    m :| m < 64 && IsTimes(|KeptBetween(keep, 0, c)|, m, StepOf(all));
  }

  lemma SeedIsSpread(profiles: seq<Profile>, keep: seq<bool>, p: Profile) returns (c: nat)
    requires |profiles| == |keep| && p in Seed(profiles, keep)
    ensures c < |keep| && IsSeedAt(keep, c) && profiles[c] == p
  {
    hide KeptBetween, KeptFrom, Sample, StepOf, IsSeedAt;
    var kept, seed := KeptFrom(profiles, keep, 0), Seed(profiles, keep);
    KeptRank(profiles, keep, 0);
    var m :| 0 <= m < |seed| && seed[m] == p;
    SampleAt(kept, 0, StepOf(|kept|), MAX_CLASSES, m);
    c := KeptPlace(profiles, keep, 0, m * StepOf(|kept|));
    KeptAt(profiles, keep, 0, c);
    SeedAt(keep, c, m, |kept|);
  }

  lemma SpreadIsSeed(profiles: seq<Profile>, keep: seq<bool>, c: nat)
    requires |profiles| == |keep| && c < |keep| && IsSeedAt(keep, c)
    ensures profiles[c] in Seed(profiles, keep)
  {
    var kept := KeptFrom(profiles, keep, 0);
    KeptRank(profiles, keep, 0);
    var m := SeedHas(keep, c, |kept|);
    assert keep[c];
    hide KeptBetween, KeptFrom, Sample, StepOf, IsSeedAt;
    KeptAt(profiles, keep, 0, c);
    SampleAt(kept, 0, StepOf(|kept|), MAX_CLASSES, m);
  }

  /** A unit that was to be dropped stays exactly when a hundred and twenty-eight before it stayed, or it has words and
      neither a kept unit of the seed nor one of those that stayed before it carries nine tenths of them. */
  lemma StaysExactly(profiles: seq<Profile>, keep: seq<bool>, j: nat)
    requires |profiles| == |keep| && j < |keep| && !keep[j]
    ensures var r := Guarded(profiles, keep);
            var stayed := PromotedBetween(keep, r, 0, j);
            r[j] <==> (|stayed| >= 128 ||
                       (profiles[j].vocab != {} &&
                        (forall c: nat | c < |keep| && IsSeedAt(keep, c) ::
                           !CarriesNineTenths(profiles[c], profiles[j])) &&
                        forall k | k in stayed :: !CarriesNineTenths(profiles[k], profiles[j])))
  {
    hide Decide, Seed, CarriesNineTenths, IsSeedAt, PromotedBetween;
    var seed := Seed(profiles, keep);
    DecidesExactly(profiles, keep, 0, seed, 0, j);
    forall c: nat | c < |keep| && IsSeedAt(keep, c) ensures profiles[c] in seed { SpreadIsSeed(profiles, keep, c); }
    forall p | p in seed ensures exists c: nat :: c < |keep| && IsSeedAt(keep, c) && profiles[c] == p {
      var c := SeedIsSpread(profiles, keep, p);
    }
  }

  /* ---- The guard as it runs ---- */

  /** Counts words in common until there are enough. */
  method HasEnough(unit: Profile, known: Profile, need: nat) returns (yes: bool)
    requires need > 0
    ensures yes <==> |unit.vocab * known.vocab| >= need
  {
    var hit := 0;
    var rest := unit.vocab;
    while rest != {}
      invariant rest <= unit.vocab && hit == |(unit.vocab - rest) * known.vocab| && hit < need
      decreases rest
    {
      var token :| token in rest;
      var before := (unit.vocab - rest) * known.vocab;
      rest := rest - {token};
      var after := (unit.vocab - rest) * known.vocab;
      if token in known.vocab {
        assert after == before + {token};
        hit := hit + 1;
        if hit >= need {
          MoreInCommon(after, unit.vocab * known.vocab);
          return true;
        }
      } else {
        assert after == before;
      }
    }
    assert (unit.vocab - rest) * known.vocab == unit.vocab * known.vocab;
    yes := false;
  }

  lemma MoreInCommon(a: set<string>, b: set<string>)
    requires a <= b
    ensures |a| <= |b|
  {
    assert b == a + (b - a);
  }

  /** Class by class, and stops at the first one with enough words in common. */
  method RepresentedBy(unit: Profile, classes: seq<Profile>) returns (yes: bool)
    ensures yes <==> IsRepresented(unit, classes)
  {
    if |unit.vocab| == 0 { return true; }
    var need := Need(|unit.vocab|);
    NeedIsNineTenths(|unit.vocab|);
    hide Need;
    for k := 0 to |classes|
      invariant forall j | 0 <= j < k :: !Covers(classes[j], unit)
    {
      if classes[k].masked != unit.masked { continue; }
      var enough := HasEnough(unit, classes[k], need);
      if enough { return true; }
    }
    yes := false;
  }

  lemma SampleStep(kept: seq<Profile>, n: nat, step: nat, room: nat)
    requires step > 0
    ensures Sample(kept, n, step, room) ==
            if n >= |kept| || room == 0 then [] else [kept[n]] + Sample(kept, n + step, step, room - 1)
  {
  }

  /** Every `step`-th kept unit, as many as there may be classes. */
  method SeedClasses(kept: seq<Profile>, max: nat) returns (classes: seq<Profile>)
    ensures classes == Sample(kept, 0, StepOf(|kept|), max)
  {
    hide Sample;
    classes := [];
    var step := StepOf(|kept|);
    var n: nat := 0;
    while n < |kept| && |classes| < max
      invariant |classes| <= max
      invariant Sample(kept, 0, step, max) == classes + Sample(kept, n, step, max - |classes|)
      decreases max - |classes|
    {
      SampleStep(kept, n, step, max - |classes|);
      classes, n := classes + [kept[n]], n + step;
    }
    SampleStep(kept, n, step, max - |classes|);
    assert classes + [] == classes;
  }

  /** The guard, in place on the keep decisions. */
  method KeepNonRedundant(profiles: seq<Profile>, keep: array<bool>)
    modifies keep
    ensures |profiles| != keep.Length ==> keep[..] == old(keep[..])
    ensures |profiles| == keep.Length ==> keep[..] == Guarded(profiles, old(keep[..]))
  {
    hide IsRepresented, Decide, Sample;
    if |profiles| != keep.Length { return; }
    ghost var was := keep[..];
    var kept: seq<Profile> := [];
    for i := 0 to keep.Length
      invariant keep[..] == was && KeptFrom(profiles, was, 0) == kept + KeptFrom(profiles, was, i)
    {
      if keep[i] { kept := kept + [profiles[i]]; }
    }
    assert kept + [] == kept;
    var classes := SeedClasses(kept, MAX_CLASSES);
    assert Seed(profiles, was) == classes;
    DecideLoop(profiles, keep, classes);
  }

  lemma OneMore(head: seq<bool>, b: bool, rest: seq<bool>)
    ensures head + ([b] + rest) == head + [b] + rest
  {
  }

  /** One pass over the units, with the classes as they grow. */
  method DecideLoop(profiles: seq<Profile>, keep: array<bool>, seed: seq<Profile>)
    requires |profiles| == keep.Length
    modifies keep
    ensures keep[..] == Decide(profiles, old(keep[..]), 0, seed, 0)
  {
    hide IsRepresented, Decide;
    ghost var was := keep[..];
    var classes, promotions := seed, 0;
    for i := 0 to keep.Length
      invariant Decide(profiles, was, 0, seed, 0) == keep[..i] + Decide(profiles, was, i, classes, promotions)
      invariant forall k | i <= k < keep.Length :: keep[k] == was[k]
    {
      DecideStep(profiles, was, i, classes, promotions);
      ghost var head := keep[..i];
      if keep[i] {
        OneMore(head, true, Decide(profiles, was, i + 1, classes, promotions));
        assert keep[..i + 1] == head + [true];
        continue;
      }
      if promotions >= MAX_PROMOTIONS {
        keep[i] := true;
        OneMore(head, true, Decide(profiles, was, i + 1, classes, promotions));
        assert keep[..i + 1] == head + [true];
        continue;
      }
      var represented := RepresentedBy(profiles[i], classes);
      if represented {
        OneMore(head, false, Decide(profiles, was, i + 1, classes, promotions));
        assert keep[..i + 1] == head + [false];
        continue;
      }
      keep[i] := true;
      promotions := promotions + 1;
      classes := classes + [profiles[i]];
      OneMore(head, true, Decide(profiles, was, i + 1, classes, promotions));
      assert keep[..i + 1] == head + [true];
    }
    assert keep[..keep.Length] == keep[..] && Decide(profiles, was, keep.Length, classes, promotions) == [];
  }

  lemma DecideStep(profiles: seq<Profile>, keep: seq<bool>, i: nat, classes: seq<Profile>, promotions: nat)
    requires |profiles| == |keep| && i < |keep|
    ensures Decide(profiles, keep, i, classes, promotions) ==
            if keep[i] || promotions >= MAX_PROMOTIONS then [true] + Decide(profiles, keep, i + 1, classes, promotions)
            else if IsRepresented(profiles[i], classes) then
              [false] + Decide(profiles, keep, i + 1, classes, promotions)
            else [true] + Decide(profiles, keep, i + 1, classes + [profiles[i]], promotions + 1)
  {
    hide IsRepresented;
  }
}
