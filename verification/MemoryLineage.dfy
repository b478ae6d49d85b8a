/**
 The version chains of the memory table: what a row is, what each operation does to the
 table, and what every table reached by any run of operations satisfies.

 Identifiers are "mem_" and a digest of a text. The digest is a parameter: nothing about
 the lineage needs it to be free of collisions.
 */
module MemoryLineage {
  import opened GoText

  type Id = string
  type Time = int

  /** A table row; `None` is SQL's NULL. */
  datatype Row = Row(text: string, createdAt: Time, validFrom: Time, validUntil: Option<Time>,
                     supersedes: Option<Id>, supersededBy: Option<Id>)

  type Table = map<Id, Row>

  type Digest = string -> string

  const VERSION_MARK := "\0supersedes:"

  function MemId(digest: Digest, text: string): Id {
    "mem_" + digest(text)
  }

  function MemVersionId(digest: Digest, text: string, past: Id): Id {
    MemId(digest, text + VERSION_MARK + past)
  }

  predicate IsCurrent(rows: Table, id: Id) {
    id in rows && rows[id].validUntil.None?
  }

  ghost function Currents(rows: Table): set<Id> {
    set id | id in rows && rows[id].validUntil.None?
  }

  /* ---- The operations on the table ---- */

  function RememberRows(rows: Table, id: Id, text: string, now: Time): Table {
    if id in rows then rows else rows[id := Row(text, now, now, None, None, None)]
  }

  /** The id a replacement text gets: its own, or one derived from the replaced row when its own
      names an expired row. */
  function ReplacementId(digest: Digest, rows: Table, past: Id, text: string): Id {
    var id := MemId(digest, text);
    if id in rows && rows[id].validUntil.Some? then MemVersionId(digest, text, past) else id
  }

  predicate CanSupersede(digest: Digest, rows: Table, past: Id, text: string) {
    !IsBlank(past) && !IsBlank(text) && IsCurrent(rows, past) && rows[past].text != text &&
    ReplacementId(digest, rows, past, text) !in rows
  }

  function SupersedeRows(rows: Table, past: Id, id: Id, text: string, now: Time): Table
    requires past in rows
  {
    rows[id := Row(text, now, now, None, Some(past), None)]
        [past := rows[past].(validUntil := Some(now), supersededBy := Some(id))]
  }

  function SetSupersededBy(rows: Table, id: Option<Id>, to: Option<Id>): Table {
    if id.Some? && id.value in rows then rows[id.value := rows[id.value].(supersededBy := to)] else rows
  }

  function SetSupersedes(rows: Table, id: Option<Id>, to: Option<Id>): Table {
    if id.Some? && id.value in rows then rows[id.value := rows[id.value].(supersedes := to)] else rows
  }

  function ForgetRows(rows: Table, id: Id): Table
    requires id in rows
  {
    var pred, succ := rows[id].supersedes, rows[id].supersededBy;
    SetSupersedes(SetSupersededBy(rows, pred, succ), succ, pred) - {id}
  }

  datatype Op = Remember(text: string, now: Time) | Supersede(past: Id, text: string, now: Time) | Forget(id: Id)

  /** One operation; a refused one leaves the table as it is. */
  function Step(digest: Digest, rows: Table, op: Op): Table {
    match op
    case Remember(text, now) => if IsBlank(text) then rows else RememberRows(rows, MemId(digest, text), text, now)
    case Supersede(past, text, now) =>
      if CanSupersede(digest, rows, past, text) then
        SupersedeRows(rows, past, ReplacementId(digest, rows, past, text), text, now)
      else rows
    case Forget(id) => if id in rows then ForgetRows(rows, id) else rows
  }

  function Run(digest: Digest, rows: Table, ops: seq<Op>): Table
    decreases |ops|
  {
    if ops == [] then rows else Run(digest, Step(digest, rows, ops[0]), ops[1..])
  }

  /* ---- The lineage invariant ---- */

  /** Successor and predecessor links are inverses of each other, and nothing dangles. */
  ghost predicate Linked(rows: Table) {
    forall id | id in rows ::
      && (rows[id].supersedes.Some? ==>
            rows[id].supersedes.value in rows && rows[rows[id].supersedes.value].supersededBy == Some(id))
      && (rows[id].supersededBy.Some? ==>
            rows[id].supersededBy.value in rows && rows[rows[id].supersededBy.value].supersedes == Some(id))
  }

  /** A row that has been replaced is expired. */
  ghost predicate ReplacedExpired(rows: Table) {
    forall id | id in rows :: rows[id].supersededBy.Some? ==> rows[id].validUntil.Some?
  }

  /** Numbers below a bound that grow along every link: there is no cycle. */
  ghost predicate Ranks(rows: Table, rank: map<Id, nat>, bound: nat) {
    forall id | id in rows ::
      id in rank && rank[id] < bound &&
      (rows[id].supersedes.Some? && rows[id].supersedes.value in rows ==>
         rows[id].supersedes.value in rank && rank[rows[id].supersedes.value] < rank[id])
  }

  ghost predicate Acyclic(rows: Table) {
    exists rank, bound :: Ranks(rows, rank, bound)
  }

  ghost predicate Named(rows: Table) {
    forall id | id in rows :: !IsBlank(id)
  }

  ghost predicate Lineage(rows: Table) {
    Linked(rows) && ReplacedExpired(rows) && Acyclic(rows) && Named(rows)
  }

  lemma MemIdNamed(digest: Digest, text: string)
    ensures !IsBlank(MemId(digest, text))
  {
    assert !IsSpace(MemId(digest, text)[0]);
  }

  lemma RememberKeepsLineage(rows: Table, id: Id, text: string, now: Time)
    requires Lineage(rows) && !IsBlank(id)
    ensures Lineage(RememberRows(rows, id, text, now))
  {
    var rank: map<Id, nat>, bound: nat :| Ranks(rows, rank, bound);
    assert Ranks(RememberRows(rows, id, text, now), if id in rows then rank else rank[id := 0], bound + 1);
  }

  lemma SupersedeKeepsLineage(rows: Table, past: Id, id: Id, text: string, now: Time)
    requires Lineage(rows) && IsCurrent(rows, past) && id !in rows && !IsBlank(id)
    ensures Lineage(SupersedeRows(rows, past, id, text, now))
  {
    var rows' := SupersedeRows(rows, past, id, text, now);
    var rank: map<Id, nat>, bound: nat :| Ranks(rows, rank, bound);
    assert Ranks(rows', rank[id := bound], bound + 1);
  }

  /** A row that stays after `id` is forgotten: its links skip over `id`. */
  function Relinked(row: Row, id: Id, gone: Row): Row {
    row.(supersedes := if row.supersedes == Some(id) then gone.supersedes else row.supersedes,
         supersededBy := if row.supersededBy == Some(id) then gone.supersededBy else row.supersededBy)
  }

  lemma ForgetAt(rows: Table, id: Id)
    requires Linked(rows) && id in rows
    ensures ForgetRows(rows, id).Keys == rows.Keys - {id}
    ensures forall k | k in rows && k != id :: ForgetRows(rows, id)[k] == Relinked(rows[k], id, rows[id])
  {
  }

  lemma ForgetKeepsLinks(rows: Table, id: Id)
    requires Linked(rows) && ReplacedExpired(rows) && id in rows && rows[id].supersedes != Some(id)
    ensures Linked(ForgetRows(rows, id)) && ReplacedExpired(ForgetRows(rows, id))
  {
    hide ForgetRows;
    ForgetAt(rows, id);
  }

  lemma ForgetKeepsNames(rows: Table, id: Id)
    requires Linked(rows) && Named(rows) && id in rows
    ensures Named(ForgetRows(rows, id))
  {
    hide ForgetRows, IsBlank;
    ForgetAt(rows, id);
  }

  lemma ForgetKeepsRanks(rows: Table, id: Id, rank: map<Id, nat>, bound: nat)
    requires Linked(rows) && Ranks(rows, rank, bound) && id in rows
    ensures Ranks(ForgetRows(rows, id), rank, bound)
  {
    hide ForgetRows;
    ForgetAt(rows, id);
  }

  lemma ForgetKeepsLineage(rows: Table, id: Id)
    requires Lineage(rows) && id in rows
    ensures Lineage(ForgetRows(rows, id))
  {
    hide ForgetRows, ReplacedExpired, Named;
    var rank: map<Id, nat>, bound: nat :| Ranks(rows, rank, bound);
    var rows' := ForgetRows(rows, id);
    ForgetKeepsLinks(rows, id);
    ForgetAt(rows, id);
    ForgetKeepsRanks(rows, id, rank, bound);
    assert Named(rows') by { ForgetKeepsNames(rows, id); }
  }

  lemma {:induction false} RunKeepsLineage(digest: Digest, rows: Table, ops: seq<Op>)
    requires Lineage(rows)
    ensures Lineage(Run(digest, rows, ops))
    decreases |ops|
  {
    if ops != [] {
      var op := ops[0];
      match op {
        case Remember(text, now) =>
          MemIdNamed(digest, text);
          RememberKeepsLineage(rows, MemId(digest, text), text, now);
        case Supersede(past, text, now) =>
          MemIdNamed(digest, text);
          MemIdNamed(digest, text + VERSION_MARK + past);
          if CanSupersede(digest, rows, past, text) {
            SupersedeKeepsLineage(rows, past, ReplacementId(digest, rows, past, text), text, now);
          }
        case Forget(id) =>
          if id in rows { ForgetKeepsLineage(rows, id); }
      }
      RunKeepsLineage(digest, Step(digest, rows, op), ops[1..]);
    }
  }

  /** Every table a store can reach from an empty one is a lineage. */
  lemma ReachableIsLineage(digest: Digest, ops: seq<Op>)
    ensures Lineage(Run(digest, map[], ops))
  {
    assert Ranks(map[], map[], 0);
    RunKeepsLineage(digest, map[], ops);
  }

  /* ---- Chains ---- */

  function Before(c: seq<Id>, i: nat): Option<Id>
    requires i < |c|
  {
    if i == 0 then None else Some(c[i - 1])
  }

  function Behind(c: seq<Id>, i: nat): Option<Id>
    requires i < |c|
  {
    if i == |c| - 1 then None else Some(c[i + 1])
  }

  /** A whole version chain, oldest first. */
  ghost predicate IsChain(rows: Table, c: seq<Id>) {
    c != [] &&
    forall i | 0 <= i < |c| ::
      c[i] in rows && rows[c[i]].supersedes == Before(c, i) && rows[c[i]].supersededBy == Behind(c, i)
  }

  lemma {:induction false} ChainsMeetAtOneIndex(rows: Table, c: seq<Id>, d: seq<Id>, i: nat, j: nat)
    requires IsChain(rows, c) && IsChain(rows, d) && i < |c| && j < |d| && c[i] == d[j]
    ensures i == j
    decreases i
  {
    if i > 0 && j > 0 { ChainsMeetAtOneIndex(rows, c, d, i - 1, j - 1); }
  }

  lemma {:induction false} ChainsShareTheRest(rows: Table, c: seq<Id>, d: seq<Id>, i: nat)
    requires IsChain(rows, c) && IsChain(rows, d) && i < |c| && i < |d| && c[i] == d[i]
    ensures |c| == |d| && c[i..] == d[i..]
    decreases |c| - i
  {
    if i + 1 < |c| {
      ChainsShareTheRest(rows, c, d, i + 1);
      assert c[i..] == [c[i]] + c[i + 1..] && d[i..] == [d[i]] + d[i + 1..];
    }
  }

  lemma {:induction false} ChainsShareTheStart(rows: Table, c: seq<Id>, d: seq<Id>, i: nat)
    requires IsChain(rows, c) && IsChain(rows, d) && i < |c| && i < |d| && c[i] == d[i]
    ensures c[0] == d[0]
    decreases i
  {
    if i > 0 { ChainsShareTheStart(rows, c, d, i - 1); }
  }

  /** A row lies on one chain only, so every member of a chain has the same history. */
  lemma ChainUnique(rows: Table, c: seq<Id>, d: seq<Id>, id: Id)
    requires IsChain(rows, c) && IsChain(rows, d) && id in c && id in d
    ensures c == d
  {
    var i: nat :| i < |c| && c[i] == id;
    var j: nat :| j < |d| && d[j] == id;
    ChainsMeetAtOneIndex(rows, c, d, i, j);
    ChainsShareTheStart(rows, c, d, i);
    ChainsShareTheRest(rows, c, d, 0);
  }

  /** Only the tail of a chain can be current. */
  lemma OnlyTailIsCurrent(rows: Table, c: seq<Id>, id: Id)
    requires Lineage(rows) && IsChain(rows, c) && id in c && IsCurrent(rows, id)
    ensures id == c[|c| - 1]
  {
    var i: nat :| i < |c| && c[i] == id;
    assert Behind(c, i).None?;
  }

  /** The replaced row was a tail; the new row becomes the tail behind it, and no other chain changes. */
  lemma SupersedeExtendsChain(rows: Table, past: Id, id: Id, text: string, now: Time, c: seq<Id>)
    requires Lineage(rows) && IsCurrent(rows, past) && id !in rows && IsChain(rows, c)
    ensures IsChain(SupersedeRows(rows, past, id, text, now), if past in c then c + [id] else c)
  {
    hide Lineage;
    var rows', d := SupersedeRows(rows, past, id, text, now), if past in c then c + [id] else c;
    if past in c { OnlyTailIsCurrent(rows, c, past); }
    forall i | 0 <= i < |d|
      ensures d[i] in rows' && rows'[d[i]].supersedes == Before(d, i) && rows'[d[i]].supersededBy == Behind(d, i)
    {
      if i < |c| {
        assert d[i] == c[i] && c[i] in rows;
        if c[i] == past { ChainsMeetAtOneIndex(rows, c, c, i, |c| - 1); }
      }
    }
  }

  lemma RememberAddsChain(rows: Table, id: Id, text: string, now: Time, c: seq<Id>)
    requires Lineage(rows)
    ensures IsChain(rows, c) ==> IsChain(RememberRows(rows, id, text, now), c)
    ensures id !in rows ==> IsChain(RememberRows(rows, id, text, now), [id])
  {
  }

  lemma LineageLinks(rows: Table)
    requires Lineage(rows)
    ensures Linked(rows)
  {
  }

  /** Only the neighbours of `c[k]` point at it. */
  lemma OneNeighbour(rows: Table, c: seq<Id>, k: nat, j: nat)
    requires IsChain(rows, c) && k < |c| && j < |c| && j != k
    ensures rows[c[j]].supersedes == Some(c[k]) <==> j == k + 1
    ensures rows[c[j]].supersededBy == Some(c[k]) <==> j + 1 == k
  {
    NoRepeats(rows, c, k);
  }

  lemma NoRepeats(rows: Table, c: seq<Id>, k: nat)
    requires IsChain(rows, c) && k < |c|
    ensures forall i | 0 <= i < |c| :: c[i] == c[k] ==> i == k
  {
    forall i | 0 <= i < |c| && c[i] == c[k] ensures i == k {
      ChainsMeetAtOneIndex(rows, c, c, i, k);
    }
  }

  function Without(c: seq<Id>, k: nat): seq<Id>
    requires k < |c|
  {
    c[..k] + c[k + 1..]
  }

  /** Forgetting a row takes it out of its chain and closes the gap; no other chain changes. */
  lemma ForgetShortensChain(rows: Table, id: Id, c: seq<Id>, k: nat)
    requires Lineage(rows) && IsChain(rows, c) && k < |c| && c[k] == id && |c| > 1
    ensures IsChain(ForgetRows(rows, id), Without(c, k))
  {
    hide ForgetRows, Lineage, Relinked, Without;
    var d, rows' := Without(c, k), ForgetRows(rows, id);
    assert Linked(rows) by { LineageLinks(rows); }
    ForgetAt(rows, id);
    forall i | 0 <= i < |c| - 1
      ensures |d| == |c| - 1
      ensures d[i] in rows' && rows'[d[i]].supersedes == Before(d, i) && rows'[d[i]].supersededBy == Behind(d, i)
    {
      GapClosed(rows, c, k, i);
    }
    assert |d| == |c| - 1 by { GapClosed(rows, c, k, 0); }
  }

  /** The row at `i` behind the gap, relinked, points at its neighbours in the shortened chain. */
  lemma GapClosed(rows: Table, c: seq<Id>, k: nat, i: nat)
    requires IsChain(rows, c) && k < |c| && i < |c| - 1
    ensures var d := Without(c, k);
            |d| == |c| - 1 && d[i] != c[k] && d[i] in rows &&
            var row := Relinked(rows[d[i]], c[k], rows[c[k]]);
            row.supersedes == Before(d, i) && row.supersededBy == Behind(d, i)
  {
    var j := if i < k then i else i + 1;
    assert Without(c, k)[i] == c[j] && c[j] in rows && c[k] in rows;
    NoRepeats(rows, c, k);
    OneNeighbour(rows, c, k, j);
  }

  lemma ForgetKeepsOtherChains(rows: Table, id: Id, c: seq<Id>)
    requires Lineage(rows) && id in rows && IsChain(rows, c) && id !in c
    ensures IsChain(ForgetRows(rows, id), c)
  {
    hide ForgetRows;
    ForgetAt(rows, id);
    assert forall i | 0 <= i < |c| :: Before(c, i) != Some(id) && Behind(c, i) != Some(id);
  }

  /* ---- Which rows are current ---- */

  lemma SupersedeSwapsOneCurrent(rows: Table, past: Id, id: Id, text: string, now: Time)
    requires IsCurrent(rows, past) && id !in rows
    ensures Currents(SupersedeRows(rows, past, id, text, now)) == Currents(rows) - {past} + {id}
  {
  }

  lemma ForgetRevivesNothing(rows: Table, id: Id)
    requires Linked(rows) && id in rows
    ensures Currents(ForgetRows(rows, id)) == Currents(rows) - {id}
  {
    ForgetAt(rows, id);
  }

  /** One step never changes the text of a row it keeps, and never makes an expired row current. */
  lemma StepNeverRevives(digest: Digest, rows: Table, op: Op, id: Id)
    requires Lineage(rows) && id in rows && id in Step(digest, rows, op)
    ensures Step(digest, rows, op)[id].text == rows[id].text
    ensures rows[id].validUntil.Some? ==> Step(digest, rows, op)[id].validUntil == rows[id].validUntil
  {
    hide ForgetRows;
    if op.Forget? && op.id in rows { ForgetAt(rows, op.id); }
  }

  /* ---- When a version is valid ---- */

  predicate IsValidAt(row: Row, t: Time) {
    row.validFrom <= t && (row.validUntil.Some? ==> t < row.validUntil.value)
  }

  /** The clock does not run backwards from one operation to the next. */
  predicate InOrder(ops: seq<Op>, now: Time)
    decreases |ops|
  {
    ops == [] || if ops[0].Forget? then InOrder(ops[1..], now) else now <= ops[0].now && InOrder(ops[1..], ops[0].now)
  }

  function LastTime(ops: seq<Op>, now: Time): Time
    decreases |ops|
  {
    if ops == [] then now else LastTime(ops[1..], if ops[0].Forget? then now else ops[0].now)
  }

  /** A version is valid from its creation, ends no earlier, and ends before the one that replaced it begins. */
  ghost predicate Timed(rows: Table, now: Time) {
    forall id | id in rows ::
      rows[id].createdAt == rows[id].validFrom <= now &&
      (rows[id].validUntil.Some? ==> rows[id].validFrom <= rows[id].validUntil.value <= now) &&
      (rows[id].supersededBy.Some? && rows[id].supersededBy.value in rows ==>
         rows[id].validUntil.Some? && rows[id].validUntil.value <= rows[rows[id].supersededBy.value].validFrom)
  }

  /** Nothing between two versions: each ends when the one that replaced it begins, and only a replaced one has ended.
      */
  ghost predicate Abutting(rows: Table) {
    forall id | id in rows ::
      (rows[id].validUntil.Some? ==> rows[id].supersededBy.Some?) &&
      (rows[id].supersededBy.Some? && rows[id].supersededBy.value in rows ==>
         rows[id].validUntil == Some(rows[rows[id].supersededBy.value].validFrom))
  }

  lemma ForgetKeepsTimes(rows: Table, id: Id, now: Time)
    requires Lineage(rows) && Timed(rows, now) && id in rows
    ensures Timed(ForgetRows(rows, id), now)
  {
    hide ForgetRows, Acyclic, Named;
    ForgetAt(rows, id);
  }

  lemma RememberKeepsTimes(rows: Table, id: Id, text: string, from: Time, now: Time)
    requires Linked(rows) && Timed(rows, from) && from <= now
    ensures Timed(RememberRows(rows, id, text, now), now)
    ensures Abutting(rows) ==> Abutting(RememberRows(rows, id, text, now))
  {
  }

  lemma SupersedeKeepsTimes(rows: Table, past: Id, id: Id, text: string, from: Time, now: Time)
    requires Linked(rows) && ReplacedExpired(rows) && Timed(rows, from) && from <= now
    requires IsCurrent(rows, past) && id !in rows
    ensures Timed(SupersedeRows(rows, past, id, text, now), now)
    ensures Abutting(rows) ==> Abutting(SupersedeRows(rows, past, id, text, now))
  {
  }

  lemma LaterIsTimed(rows: Table, from: Time, now: Time)
    requires Timed(rows, from) && from <= now
    ensures Timed(rows, now)
  {
  }

  lemma StepKeepsTimes(digest: Digest, rows: Table, op: Op, now: Time)
    requires Lineage(rows) && Timed(rows, now) && InOrder([op], now)
    ensures Timed(Step(digest, rows, op), LastTime([op], now))
    ensures Abutting(rows) && !op.Forget? ==> Abutting(Step(digest, rows, op))
  {
    assert [op][1..] == [];
    hide ForgetRows, SupersedeRows, RememberRows, Timed, Abutting, IsBlank, MemId, Acyclic, Named, Linked,
         ReplacedExpired;
    match op
    case Remember(text, at) =>
      RememberKeepsTimes(rows, MemId(digest, text), text, now, at);
      LaterIsTimed(rows, now, at);
    case Supersede(past, text, at) =>
      LaterIsTimed(rows, now, at);
      if CanSupersede(digest, rows, past, text) {
        SupersedeKeepsTimes(rows, past, ReplacementId(digest, rows, past, text), text, now, at);
      }
    case Forget(id) => if id in rows { ForgetKeepsTimes(rows, id, now); }
  }

  lemma StepKeepsLineage(digest: Digest, rows: Table, op: Op)
    requires Lineage(rows)
    ensures Lineage(Step(digest, rows, op))
  {
    hide Lineage, Step;
    RunKeepsLineage(digest, rows, [op]);
    assert [op][1..] == [];
    assert Run(digest, Step(digest, rows, op), []) == Step(digest, rows, op);
  }

  lemma {:induction false} RunKeepsTimes(digest: Digest, rows: Table, ops: seq<Op>, now: Time)
    requires Lineage(rows) && Timed(rows, now) && InOrder(ops, now)
    ensures Timed(Run(digest, rows, ops), LastTime(ops, now))
    ensures Abutting(rows) && (forall op | op in ops :: !op.Forget?) ==> Abutting(Run(digest, rows, ops))
    decreases |ops|
  {
    hide Lineage, Step, Timed, Abutting;
    if ops != [] {
      assert [ops[0]][1..] == [];
      StepKeepsTimes(digest, rows, ops[0], now);
      StepKeepsLineage(digest, rows, ops[0]);
      RunKeepsTimes(digest, Step(digest, rows, ops[0]), ops[1..], if ops[0].Forget? then now else ops[0].now);
    }
  }

  lemma NextBegins(rows: Table, now: Time, c: seq<Id>, i: nat)
    requires Timed(rows, now) && IsChain(rows, c) && i + 1 < |c|
    ensures c[i] in rows && c[i + 1] in rows && rows[c[i]].validUntil.Some?
    ensures rows[c[i]].validUntil.value <= rows[c[i + 1]].validFrom
    ensures rows[c[i + 1]].validUntil.Some? ==> rows[c[i + 1]].validFrom <= rows[c[i + 1]].validUntil.value
  {
    assert rows[c[i]].supersededBy == Behind(c, i) == Some(c[i + 1]);
    assert c[i + 1] in rows;
  }

  lemma {:induction false} EarlierEnds(rows: Table, now: Time, c: seq<Id>, i: nat, j: nat)
    requires Timed(rows, now) && IsChain(rows, c) && i < j < |c|
    ensures c[i] in rows && c[j] in rows
    ensures rows[c[i]].validUntil.Some? && rows[c[i]].validUntil.value <= rows[c[j]].validFrom
    decreases j - i
  {
    hide Timed, IsChain;
    NextBegins(rows, now, c, i);
    if i + 1 < j { EarlierEnds(rows, now, c, i + 1, j); }
  }

  /** While the clock does not run backwards, no two versions of a chain are ever valid at the same time. */
  lemma OneVersionAtATime(digest: Digest, ops: seq<Op>, start: Time, c: seq<Id>, i: nat, j: nat, t: Time)
    requires InOrder(ops, start) && IsChain(Run(digest, map[], ops), c) && i < j < |c|
    ensures var rows := Run(digest, map[], ops); !(IsValidAt(rows[c[i]], t) && IsValidAt(rows[c[j]], t))
  {
    hide Lineage, Run, Timed;
    ReachableIsLineage(digest, []);
    NothingIsTimed(digest, start);
    RunKeepsTimes(digest, map[], ops, start);
    EarlierEnds(Run(digest, map[], ops), LastTime(ops, start), c, i, j);
  }

  lemma NothingIsTimed(digest: Digest, start: Time)
    ensures Run(digest, map[], []) == map[] && Timed(map[], start) && Abutting(map[])
  {
  }

  lemma {:induction false} SomeVersionValid(rows: Table, c: seq<Id>, i: nat, t: Time) returns (k: nat)
    requires Abutting(rows) && IsChain(rows, c) && i < |c| && rows[c[i]].validFrom <= t
    ensures i <= k < |c| && IsValidAt(rows[c[k]], t)
    decreases |c| - i
  {
    k := i;
    if rows[c[i]].validUntil.Some? && rows[c[i]].validUntil.value <= t {
      assert Behind(c, i).Some?;
      k := SomeVersionValid(rows, c, i + 1, t);
    }
  }

  /** And until something is forgotten, exactly one version of a chain is valid at every time from its first one on. */
  lemma ExactlyOneVersionAtATime(digest: Digest, ops: seq<Op>, start: Time, c: seq<Id>, t: Time)
    requires InOrder(ops, start) && (forall op | op in ops :: !op.Forget?) && IsChain(Run(digest, map[], ops), c)
    requires Run(digest, map[], ops)[c[0]].validFrom <= t
    ensures var rows := Run(digest, map[], ops);
            exists k :: 0 <= k < |c| && IsValidAt(rows[c[k]], t) &&
              forall i | 0 <= i < |c| :: IsValidAt(rows[c[i]], t) ==> i == k
  {
    hide Lineage, Run, Timed, Abutting, IsValidAt;
    ReachableIsLineage(digest, []);
    NothingIsTimed(digest, start);
    RunKeepsTimes(digest, map[], ops, start);
    var rows := Run(digest, map[], ops);
    var k := SomeVersionValid(rows, c, 0, t);
    forall i | 0 <= i < |c| && IsValidAt(rows[c[i]], t) ensures i == k {
      if i < k { OneVersionAtATime(digest, ops, start, c, i, k, t); }
      if k < i { OneVersionAtATime(digest, ops, start, c, k, i, t); }
    }
  }

  /* ---- Whose text an id names ---- */

  ghost predicate Injective(digest: Digest) {
    forall s, t :: digest(s) == digest(t) ==> s == t
  }

  /** A version id spells out the text it stands for and the id that was replaced, which belongs to another text. */
  ghost predicate IsVersionOf(digest: Digest, id: Id, text: string, x: string) {
    !IsBlank(x) && x != text && MemId(digest, x) != id && id == MemVersionId(digest, text, MemId(digest, x))
  }

  /** An id is minted from the row's own text, or from that text and the id of the row it replaced. */
  ghost predicate IsMinted(digest: Digest, id: Id, text: string) {
    !IsBlank(text) && (id == MemId(digest, text) || exists x :: IsVersionOf(digest, id, text, x))
  }

  ghost predicate Minted(digest: Digest, rows: Table) {
    forall id | id in rows :: IsMinted(digest, id, rows[id].text)
  }

  /** Whatever is minted is minted from a text that is not blank. */
  lemma MintedFrom(digest: Digest, id: Id, text: string) returns (x: string)
    requires IsMinted(digest, id, text)
    ensures id == MemId(digest, x) && !IsBlank(x)
  {
    if id == MemId(digest, text) { return text; }
    var y :| IsVersionOf(digest, id, text, y);
    x := text + VERSION_MARK + MemId(digest, y);
    var k: nat :| k < |text| && !IsSpace(text[k]);
    assert x[k] == text[k];
  }

  /** A replacement gets the id of its text, or a version id that names another text than the one it stands for. */
  lemma ReplacementIsMinted(digest: Digest, rows: Table, past: Id, text: string)
    requires Minted(digest, rows) && CanSupersede(digest, rows, past, text)
    ensures IsMinted(digest, ReplacementId(digest, rows, past, text), text)
  {
    var id := ReplacementId(digest, rows, past, text);
    assert IsMinted(digest, past, rows[past].text);
    var x := MintedFrom(digest, past, rows[past].text);
    if id != MemId(digest, text) { assert IsVersionOf(digest, id, text, x); }
  }

  lemma {:induction false} RunKeepsMinted(digest: Digest, rows: Table, ops: seq<Op>)
    requires Lineage(rows) && Minted(digest, rows)
    ensures Minted(digest, Run(digest, rows, ops))
    decreases |ops|
  {
    hide ForgetRows, Lineage, IsMinted, IsBlank;
    if ops != [] {
      var op, rows' := ops[0], Step(digest, rows, ops[0]);
      RunKeepsLineage(digest, rows, [op]);
      assert Run(digest, rows, [op]) == rows' by { assert [op][1..] == []; }
      forall id | id in rows' ensures IsMinted(digest, id, rows'[id].text) {
        if id in rows { StepNeverRevives(digest, rows, op, id); }
        else if op.Remember? { OwnIdIsMinted(digest, op.text); }
        else if op.Supersede? { ReplacementIsMinted(digest, rows, op.past, op.text); }
        else if op.Forget? && op.id in rows { LineageLinks(rows); ForgetAt(rows, op.id); }
      }
      RunKeepsMinted(digest, rows', ops[1..]);
    }
  }

  lemma OwnIdIsMinted(digest: Digest, text: string)
    requires !IsBlank(text)
    ensures IsMinted(digest, MemId(digest, text), text)
  {
  }

  lemma SameIdSameText(digest: Digest, s: string, t: string)
    requires Injective(digest) && MemId(digest, s) == MemId(digest, t)
    ensures s == t
  {
    assert MemId(digest, s)[4..] == digest(s) && MemId(digest, t)[4..] == digest(t);
  }

  /** After the run, the id of the text names a row that holds another text. */
  ghost predicate NamesOther(digest: Digest, text: string, ops: seq<Op>) {
    var rows, id := Run(digest, map[], ops), MemId(digest, text);
    id in rows && rows[id].text != text
  }

  /** The text spells out how reverting from `x` to `t` derives an id. */
  ghost predicate SpellsOut(digest: Digest, text: string, t: string, x: string) {
    text == t + VERSION_MARK + MemId(digest, x) && t != x && x != text && !IsBlank(t) && !IsBlank(x)
  }

  /** With a digest free of collisions, some run makes the id of a text name another text exactly when the text spells
      out a version id. */
  lemma IdNamesOtherExactly(digest: Digest, text: string)
    requires Injective(digest)
    ensures (exists ops :: NamesOther(digest, text, ops)) <==> (exists t, x :: SpellsOut(digest, text, t, x))
  {
    if ops :| NamesOther(digest, text, ops) { var t, x := OtherIsSpeltOut(digest, text, ops); }
    if t, x :| SpellsOut(digest, text, t, x) { RevertNamesOther(digest, text, t, x); }
  }

  /** The text that an id names instead is the one that the id's own text spells out. */
  lemma OtherIsSpeltOut(digest: Digest, text: string, ops: seq<Op>) returns (t: string, x: string)
    requires Injective(digest) && NamesOther(digest, text, ops)
    ensures SpellsOut(digest, text, t, x) && Run(digest, map[], ops)[MemId(digest, text)].text == t
  {
    hide Lineage, IsBlank;
    ReachableIsLineage(digest, []);
    RunKeepsMinted(digest, map[], ops);
    var rows, id := Run(digest, map[], ops), MemId(digest, text);
    t := rows[id].text;
    assert IsMinted(digest, id, t);
    if id == MemId(digest, t) { SameIdSameText(digest, text, t); }
    x :| IsVersionOf(digest, id, t, x);
    SameIdSameText(digest, text, t + VERSION_MARK + MemId(digest, x));
  }

  function Revert(digest: Digest, t: string, x: string): seq<Op> {
    [Op.Remember(t, 0), Op.Supersede(MemId(digest, t), x, 1), Op.Supersede(MemId(digest, x), t, 2)]
  }

  /** Going from `t` to `x` and back to `t` is such a run, and the row it leaves is current. */
  lemma RevertNamesOther(digest: Digest, text: string, t: string, x: string)
    requires Injective(digest) && SpellsOut(digest, text, t, x)
    ensures NamesOther(digest, text, Revert(digest, t, x))
    ensures var rows := Run(digest, map[], Revert(digest, t, x));
            IsCurrent(rows, MemId(digest, text)) && rows[MemId(digest, text)].text == t
  {
    var a, b, c := MemId(digest, t), MemId(digest, x), MemId(digest, text);
    if a == b { SameIdSameText(digest, t, x); }
    if a == c { SameIdSameText(digest, t, text); }
    if b == c { SameIdSameText(digest, x, text); }
    MemIdNamed(digest, t);
    MemIdNamed(digest, x);
    hide MemId, IsBlank;
    var ops := Revert(digest, t, x);
    var r1 := Step(digest, map[], ops[0]);
    var r2 := Step(digest, r1, ops[1]);
    var r3 := Step(digest, r2, ops[2]);
    assert r1 == map[a := Row(t, 0, 0, None, None, None)];
    assert ReplacementId(digest, r1, a, x) == b;
    assert r2[b] == Row(x, 1, 1, None, Some(a), None) && r2.Keys == {a, b} && r2[a].validUntil == Some(1);
    assert ReplacementId(digest, r2, b, t) == c;
    assert r3[c].text == t && r3[c].validUntil.None?;
    assert ops[1..][1..] == [ops[2]] && [ops[2]][1..] == [];
    assert Run(digest, r2, [ops[2]]) == r3;
    assert Run(digest, r1, ops[1..]) == r3;
  }

  /** So the id of an ordinary text names a row that holds that text. */
  lemma IdNamesText(digest: Digest, ops: seq<Op>, text: string)
    requires Injective(digest) && !Contains(text, VERSION_MARK)
    requires MemId(digest, text) in Run(digest, map[], ops)
    ensures Run(digest, map[], ops)[MemId(digest, text)].text == text
  {
    if NamesOther(digest, text, ops) {
      var t, x := OtherIsSpeltOut(digest, text, ops);
      ContainsMiddle(t, VERSION_MARK, MemId(digest, x));
    }
  }

  /** And after "a" was replaced by "b" and then restored, remembering the text that spells this out finds a row
      holding "a". */
  lemma IdMayNameOtherText(digest: Digest)
    requires Injective(digest)
    ensures var past := MemId(digest, "b");
            var ops := [Remember("a", 0), Supersede(MemId(digest, "a"), "b", 1), Supersede(past, "a", 2)];
            var text := "a" + VERSION_MARK + past;
            var rows := Run(digest, map[], ops);
            IsCurrent(rows, MemId(digest, text)) && rows[MemId(digest, text)].text == "a" != text
  {
    var text := "a" + VERSION_MARK + MemId(digest, "b");
    assert !IsSpace("a"[0]) && !IsSpace("b"[0]) && "a"[0] != "b"[0] && text[0] == "a"[0];
    RevertNamesOther(digest, text, "a", "b");
  }
}
