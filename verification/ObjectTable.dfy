/**
 The table of typed objects with deduplication: a repository map whose content is already stored becomes a
 reference to the row that holds the bytes. The plain map from id to object is what readers should see.
 */
module ObjectTable {
  import opened GoText
  import opened RecoveryObjects

  /** A row stores its own bytes, or names the row that does. */
  datatype Row = Row(obj: Object, ref: string)

  type Table = map<string, Row>

  type Plain = map<string, Object>

  function Listed(ids: seq<string>): set<string> {
    set id | id in ids
  }

  predicate IsDistinct(ids: seq<string>) {
    forall i, j | 0 <= i < j < |ids| :: ids[i] != ids[j]
  }

  /* ---- Order of rows ---- */

  /** `ORDER BY created_at ASC, object_id ASC` */
  predicate Before(t: Table, a: string, b: string)
    requires a in t && b in t
  {
    t[a].obj.created < t[b].obj.created || (t[a].obj.created == t[b].obj.created && (a == b || Less(a, b)))
  }

  predicate IsOldest(t: Table, ids: set<string>, id: string)
    requires ids <= t.Keys
  {
    id in ids && forall other | other in ids :: Before(t, id, other)
  }

  lemma OldestUnique(t: Table, ids: set<string>, a: string, b: string)
    requires ids <= t.Keys && IsOldest(t, ids, a) && IsOldest(t, ids, b)
    ensures a == b
  {
    hide Less;
    assert Before(t, a, b) && Before(t, b, a);
    if a != b { LessAsymmetric(a, b); }
  }

  /** A loop over the ids that keeps the oldest. */
  method FindOldest(t: Table, ids: set<string>) returns (id: string)
    requires ids != {} && ids <= t.Keys
    ensures IsOldest(t, ids, id)
  {
    hide Less;
    id :| id in ids;
    var rest := ids - {id};
    while rest != {}
      invariant rest <= ids && id in ids
      invariant forall other | other in ids - rest :: Before(t, id, other)
      decreases rest
    {
      var next :| next in rest;
      if !Before(t, id, next) {
        LessTotal(id, next);
        forall other | other in ids - rest ensures Before(t, next, other) { BeforeTransitive(t, next, id, other); }
        id := next;
      }
      rest := rest - {next};
    }
  }

  lemma BeforeTransitive(t: Table, a: string, b: string, c: string)
    requires a in t && b in t && c in t && Before(t, a, b) && Before(t, b, c)
    ensures Before(t, a, c)
  {
    hide Less;
    if a != b && b != c && t[a].obj.created == t[c].obj.created { LessTransitive(a, b, c); }
  }

  /** Some row is the oldest, by taking the older of one row and the oldest of the rest. */
  lemma {:induction false} OldestExists(t: Table, ids: set<string>)
    requires ids != {} && ids <= t.Keys
    ensures exists id :: IsOldest(t, ids, id)
    decreases |ids|
  {
    hide Less;
    var first :| first in ids;
    var rest := ids - {first};
    if rest == {} {
      assert ids == {first};
      assert IsOldest(t, ids, first);
    } else {
      OldestExists(t, rest);
      var second :| IsOldest(t, rest, second);
      LessTotal(first, second);
      var id := if Before(t, first, second) then first else second;
      forall other | other in ids ensures Before(t, id, other) {
        if id == first && other != first { BeforeTransitive(t, first, second, other); }
      }
      assert IsOldest(t, ids, id);
    }
  }

  ghost function Oldest(t: Table, ids: set<string>): (id: string)
    requires ids != {} && ids <= t.Keys
    ensures IsOldest(t, ids, id)
  {
    OldestExists(t, ids);
    var id :| IsOldest(t, ids, id);
    id
  }

  /** The first `n` of the rows in order. */
  ghost function OldestFew(t: Table, ids: set<string>, n: nat): seq<string>
    requires ids <= t.Keys
    decreases n
  {
    if n == 0 || ids == {} then [] else
      var id := Oldest(t, ids);
      [id] + OldestFew(t, ids - {id}, n - 1)
  }

  /* ---- Reading ---- */

  datatype ReadResult = Corrupt | Got(obj: Object)

  const FALLBACK_COPY_LIMIT := 4

  /** Full copies of a content other than row `id` itself. */
  function Copies(t: Table, typ: string, hash: string, id: string): (ids: set<string>)
    ensures ids <= t.Keys
  {
    set k | k in t && t[k].obj.typ == typ && t[k].obj.hash == hash && t[k].ref == "" && k != id
  }

  ghost function FirstVerified(h: Hashes, t: Table, hash: string, ids: seq<string>): Option<Bytes>
    requires forall id | id in ids :: id in t
    decreases |ids|
  {
    if ids == [] then None
    else if Verifies(h, hash, t[ids[0]].obj.data) then Some(t[ids[0]].obj.data)
    else FirstVerified(h, t, hash, ids[1..])
  }

  lemma {:induction false} FewAreRows(t: Table, ids: set<string>, n: nat)
    requires ids <= t.Keys
    ensures forall id | id in OldestFew(t, ids, n) :: id in ids
    decreases n
  {
    if n > 0 && ids != {} {
      var id := Oldest(t, ids);
      FewAreRows(t, ids - {id}, n - 1);
    }
  }

  function OwnData(t: Table, id: string): Bytes
    requires id in t
  {
    if t[id].ref == "" then t[id].obj.data else if t[id].ref in t then t[t[id].ref].obj.data else []
  }

  /** The object of a row: its own or its owner's bytes when they match the content hash, else those of the
      first of a few full copies that do. */
  ghost function Resolve(h: Hashes, t: Table, id: string): ReadResult
    requires id in t
  {
    var o := t[id].obj;
    if Verifies(h, o.hash, OwnData(t, id)) then Got(o.(data := OwnData(t, id)))
    else
      var few := OldestFew(t, Copies(t, o.typ, o.hash, id), FALLBACK_COPY_LIMIT);
      FewAreRows(t, Copies(t, o.typ, o.hash, id), FALLBACK_COPY_LIMIT);
      var data := FirstVerified(h, t, o.hash, few);
      if data.None? then Corrupt else Got(o.(data := data.value))
  }

  lemma {:induction false} FirstVerifiedVerifies(h: Hashes, t: Table, hash: string, ids: seq<string>)
    requires forall id | id in ids :: id in t
    ensures var data := FirstVerified(h, t, hash, ids); data.Some? ==> Verifies(h, hash, data.value)
    decreases |ids|
  {
    if ids != [] { FirstVerifiedVerifies(h, t, hash, ids[1..]); }
  }

  /** However damaged the table, bytes that are returned match the content hash of the row that was asked for. */
  lemma ReadNeverLies(h: Hashes, t: Table, id: string)
    requires id in t && Resolve(h, t, id).Got?
    ensures var o := Resolve(h, t, id).obj; Verifies(h, t[id].obj.hash, o.data) && o == t[id].obj.(data := o.data)
  {
    var o := t[id].obj;
    var copies := Copies(t, o.typ, o.hash, id);
    FewAreRows(t, copies, FALLBACK_COPY_LIMIT);
    FirstVerifiedVerifies(h, t, o.hash, OldestFew(t, copies, FALLBACK_COPY_LIMIT));
  }

  /** The loop that reads a row: its own bytes first, then up to four full copies, oldest first. */
  method ReadObject(h: Hashes, t: Table, id: string) returns (r: ReadResult)
    requires id in t
    ensures r == Resolve(h, t, id)
  {
    hide Before, IsOldest;
    var o := t[id].obj;
    var own := OwnData(t, id);
    if Verifies(h, o.hash, own) { return Got(o.(data := own)); }
    var rest := Copies(t, o.typ, o.hash, id);
    ghost var all := rest;
    FewAreRows(t, all, FALLBACK_COPY_LIMIT);
    var tried := 0;
    while tried < FALLBACK_COPY_LIMIT && rest != {}
      invariant tried <= FALLBACK_COPY_LIMIT && rest <= t.Keys
      invariant forall k | k in OldestFew(t, rest, FALLBACK_COPY_LIMIT - tried) :: k in t
      invariant FirstVerified(h, t, o.hash, OldestFew(t, all, FALLBACK_COPY_LIMIT)) ==
                FirstVerified(h, t, o.hash, OldestFew(t, rest, FALLBACK_COPY_LIMIT - tried))
      decreases FALLBACK_COPY_LIMIT - tried
    {
      var copy := FindOldest(t, rest);
      OldestUnique(t, rest, copy, Oldest(t, rest));
      if Verifies(h, o.hash, t[copy].obj.data) { return Got(o.(data := t[copy].obj.data)); }
      FewAreRows(t, rest - {copy}, FALLBACK_COPY_LIMIT - tried - 1);
      rest, tried := rest - {copy}, tried + 1;
    }
    r := Corrupt;
  }

  /* ---- Sound tables ---- */

  /** A full row's bytes match its hash; a reference is a repository map that names a full row with the same hash. */
  predicate IsSoundRow(h: Hashes, t: Table, id: string)
    requires id in t
  {
    id != "" && t[id].obj.id == id &&
    if t[id].ref == "" then Verifies(h, t[id].obj.hash, t[id].obj.data)
    else t[id].obj.typ == REPOSITORY_MAP && IsOwner(t, t[id].ref, t[id].obj.hash)
  }

  /** A full copy of a repository map with this content. */
  predicate IsOwner(t: Table, id: string, hash: string) {
    id in t && t[id].ref == "" && t[id].obj.typ == REPOSITORY_MAP && t[id].obj.hash == hash
  }

  predicate Sound(h: Hashes, t: Table) {
    forall id | id in t :: IsSoundRow(h, t, id)
  }

  /** What readers see. */
  function View(t: Table): Plain {
    map id | id in t :: t[id].obj.(data := OwnData(t, id))
  }

  /** In a sound table every row reads as what it stands for, without falling back. */
  lemma SoundReads(h: Hashes, t: Table, id: string)
    requires Sound(h, t) && id in t
    ensures Verifies(h, t[id].obj.hash, OwnData(t, id))
    ensures Resolve(h, t, id) == Got(View(t)[id])
  {
    hide Verifies;
    assert IsSoundRow(h, t, id);
    if t[id].ref != "" { assert IsSoundRow(h, t, t[id].ref); }
  }

  /* ---- Steps ---- */

  datatype Outcome = Stored(id: string) | Invalid | Collision | Unreadable | Refused | NotFound | Done

  /** The full row that already holds a repository map's content. */
  ghost function Owner(t: Table, o: Object): Option<string> {
    var copies := Copies(t, REPOSITORY_MAP, o.hash, o.id);
    if o.typ == REPOSITORY_MAP && copies != {} then Some(Oldest(t, copies)) else None
  }

  function StoredRow(o: Object, owner: Option<string>): Row {
    if owner.Some? then Row(o.(data := []), owner.value) else Row(o, "")
  }

  /** Storing a prepared object: a new row, or the check that the stored one is the same. */
  ghost function PutRow(h: Hashes, t: Table, o: Object): (Table, Outcome) {
    if o.id in t then
      var existing := Resolve(h, t, o.id);
      (t, if existing.Corrupt? then Unreadable else if SameImmutable(existing.obj, o) then Stored(o.id) else Collision)
    else
      (t[o.id := StoredRow(o, Owner(t, o))], Stored(o.id))
  }

  function PutPlain(p: Plain, o: Object): (Plain, Outcome) {
    if o.id in p then (p, if SameImmutable(p[o.id], o) then Stored(o.id) else Collision)
    else (p[o.id := o], Stored(o.id))
  }

  function SetCurrentness(t: Table, id: string, value: string): (Table, Outcome) {
    if value !in CURRENTNESSES then (t, Invalid)
    else if id !in t then (t, NotFound)
    else (t[id := t[id].(obj := t[id].obj.(currentness := value))], Done)
  }

  function SetCurrentnessPlain(p: Plain, id: string, value: string): (Plain, Outcome) {
    if value !in CURRENTNESSES then (p, Invalid)
    else if id !in p then (p, NotFound)
    else (p[id := p[id].(currentness := value)], Done)
  }

  function SetLifecycle(t: Table, id: string, value: string): (Table, Outcome) {
    if value !in LIFECYCLES then (t, Invalid)
    else if id !in t then (t, NotFound)
    else (t[id := t[id].(obj := t[id].obj.(lifecycle := value))], Done)
  }

  function SetLifecyclePlain(p: Plain, id: string, value: string): (Plain, Outcome) {
    if value !in LIFECYCLES then (p, Invalid)
    else if id !in p then (p, NotFound)
    else (p[id := p[id].(lifecycle := value)], Done)
  }

  predicate IsReferenced(t: Table, id: string) {
    id != "" && exists k | k in t :: t[k].ref == id
  }

  /** The copies of one repository map whose bytes verify. */
  function VerifiedCopies(h: Hashes, t: Table, hash: string): (ids: set<string>)
    ensures ids <= t.Keys
  {
    set k | k in t && IsOwner(t, k, hash) && Verifies(h, hash, t[k].obj.data)
  }

  /** The copy that stays: the oldest verified one that is referenced, else the oldest verified one. */
  ghost function Keeper(h: Hashes, t: Table, hash: string): Option<string> {
    var verified := VerifiedCopies(h, t, hash);
    var referenced := set k | k in verified && IsReferenced(t, k);
    if referenced != {} then Some(Oldest(t, referenced))
    else if verified != {} then Some(Oldest(t, verified))
    else None
  }

  /** A duplicate full copy that nothing points at. */
  ghost predicate IsSpare(h: Hashes, t: Table, id: string)
    requires id in t
  {
    var hash := t[id].obj.hash;
    IsOwner(t, id, hash) && !IsReferenced(t, id) && Keeper(h, t, hash).Some? && Keeper(h, t, hash).value != id
  }

  ghost function ConsolidatedRow(h: Hashes, t: Table, id: string): Row
    requires id in t
  {
    if IsSpare(h, t, id) then Row(t[id].obj.(data := []), Keeper(h, t, t[id].obj.hash).value) else t[id]
  }

  ghost function Consolidated(h: Hashes, t: Table): (t': Table)
    ensures t'.Keys == t.Keys
  {
    map id | id in t :: ConsolidatedRow(h, t, id)
  }

  /** Rows may go only together with every row that reads their bytes. */
  predicate Closed(t: Table, ids: set<string>) {
    forall k | k in t && t[k].ref in ids && t[k].ref != "" :: k in ids
  }

  /* ---- Each step keeps a sound table and does to the view what the plain map's step does ---- */

  lemma OwnerIsFull(t: Table, o: Object)
    requires Owner(t, o).Some?
    ensures o.typ == REPOSITORY_MAP && IsOwner(t, Owner(t, o).value, o.hash) && Owner(t, o).value != o.id
  {
    assert Owner(t, o).value in Copies(t, REPOSITORY_MAP, o.hash, o.id);
  }

  lemma NewRowReads(h: Hashes, t: Table, o: Object)
    requires Ideal(h) && Sound(h, t) && IsPrepared(h, o) && o.id !in t
    ensures var t' := t[o.id := StoredRow(o, Owner(t, o))];
            Sound(h, t') && View(t') == View(t)[o.id := o]
  {
    hide Verifies, Owner, ContentHash;
    var owner := Owner(t, o);
    var t' := t[o.id := StoredRow(o, owner)];
    assert Verifies(h, o.hash, o.data) by { PreparedVerifies(h, o); }
    if owner.Some? {
      OwnerIsFull(t, o);
      SoundReads(h, t, owner.value);
      assert owner.value != "" by { assert IsSoundRow(h, t, owner.value); }
      SameBytes(h, o.hash, t[owner.value].obj.data, o.data);
    }
    forall id | id in t' ensures IsSoundRow(h, t', id) && OwnData(t', id) == View(t)[o.id := o][id].data {
      if id != o.id { assert IsSoundRow(h, t, id); }
    }
  }

  lemma PreparedVerifies(h: Hashes, o: Object)
    requires IsPrepared(h, o)
    ensures Verifies(h, o.hash, o.data)
  {
  }

  lemma SameBytes(h: Hashes, hash: string, a: Bytes, b: Bytes)
    requires Ideal(h) && Verifies(h, hash, a) && Verifies(h, hash, b)
    ensures a == b
  {
    HashNamesContent(h, a, b);
  }

  /** Storing an object: the same outcome, and the same object for every reader. */
  lemma PutRefinesPlain(h: Hashes, t: Table, o: Object)
    requires Ideal(h) && Sound(h, t) && IsPrepared(h, o)
    ensures var (t', outcome) := PutRow(h, t, o);
            Sound(h, t') && (View(t'), outcome) == PutPlain(View(t), o)
  {
    hide Owner, Resolve, Sound, SameImmutable, StoredRow, IsPrepared;
    if o.id in t { SoundReads(h, t, o.id); } else { NewRowReads(h, t, o); }
  }

  lemma MarkingKeepsBytes(h: Hashes, t: Table, id: string, o: Object)
    requires Sound(h, t) && id in t
    requires o == t[id].obj.(currentness := o.currentness, lifecycle := o.lifecycle)
    ensures var t' := t[id := t[id].(obj := o)];
            Sound(h, t') &&
            View(t') == View(t)[id := View(t)[id].(currentness := o.currentness, lifecycle := o.lifecycle)]
  {
    hide Verifies;
    var t' := t[id := t[id].(obj := o)];
    forall k | k in t' ensures IsSoundRow(h, t', k) && OwnData(t', k) == OwnData(t, k) {
      assert IsSoundRow(h, t, k);
    }
  }

  lemma MarkRefinesPlain(h: Hashes, t: Table, id: string, value: string)
    requires Sound(h, t)
    ensures var (t', outcome) := SetCurrentness(t, id, value);
            Sound(h, t') && (View(t'), outcome) == SetCurrentnessPlain(View(t), id, value)
    ensures var (t', outcome) := SetLifecycle(t, id, value);
            Sound(h, t') && (View(t'), outcome) == SetLifecyclePlain(View(t), id, value)
  {
    hide Sound;
    if id in t {
      MarkingKeepsBytes(h, t, id, t[id].obj.(currentness := value));
      MarkingKeepsBytes(h, t, id, t[id].obj.(lifecycle := value));
    }
  }

  lemma KeeperIsFull(h: Hashes, t: Table, hash: string)
    requires Keeper(h, t, hash).Some?
    ensures var k := Keeper(h, t, hash).value;
            IsOwner(t, k, hash) && Verifies(h, hash, t[k].obj.data) && k in t && !IsSpare(h, t, k)
  {
    hide Verifies, IsReferenced;
    var verified := VerifiedCopies(h, t, hash);
    var k := Keeper(h, t, hash).value;
    assert k in verified;
  }

  lemma ConsolidatedReads(h: Hashes, t: Table, id: string)
    requires Ideal(h) && Sound(h, t) && id in t
    ensures IsSoundRow(h, Consolidated(h, t), id)
    ensures OwnData(Consolidated(h, t), id) == OwnData(t, id)
  {
    hide Verifies, Keeper, IsReferenced;
    var t' := Consolidated(h, t);
    assert IsSoundRow(h, t, id);
    assert t'[id] == ConsolidatedRow(h, t, id);
    if IsSpare(h, t, id) {
      var k := Keeper(h, t, t[id].obj.hash).value;
      KeeperIsFull(h, t, t[id].obj.hash);
      assert t'[k] == ConsolidatedRow(h, t, k) == t[k];
      assert IsSoundRow(h, t, k);
      SameBytes(h, t[id].obj.hash, t[k].obj.data, t[id].obj.data);
    } else if t[id].ref != "" {
      var k := t[id].ref;
      assert IsReferenced(t, k) by { ReferenceIsSeen(t, id); }
      assert t'[k] == ConsolidatedRow(h, t, k) == t[k];
    }
  }

  lemma ReferenceIsSeen(t: Table, id: string)
    requires id in t && t[id].ref != ""
    ensures IsReferenced(t, t[id].ref)
  {
  }

  /** Readers cannot tell that a table was consolidated. */
  lemma ConsolidationIsInvisible(h: Hashes, t: Table)
    requires Ideal(h) && Sound(h, t)
    ensures Sound(h, Consolidated(h, t)) && View(Consolidated(h, t)) == View(t)
  {
    hide IsSoundRow, ConsolidatedRow;
    var t' := Consolidated(h, t);
    forall id | id in t' ensures IsSoundRow(h, t', id) && View(t')[id] == View(t)[id] {
      ConsolidatedReads(h, t, id);
      SameFields(h, t, id);
    }
  }

  lemma SameFields(h: Hashes, t: Table, id: string)
    requires id in t
    ensures ConsolidatedRow(h, t, id).obj == t[id].obj.(data := ConsolidatedRow(h, t, id).obj.data)
  {
    hide Keeper, IsReferenced, IsOwner;
  }

  /** Deleting a closed set of rows leaves every other row readable with the same bytes. */
  lemma DeletionSparesReaders(h: Hashes, t: Table, ids: set<string>)
    requires Sound(h, t) && Closed(t, ids)
    ensures Sound(h, t - ids) && View(t - ids) == View(t) - ids
  {
    hide Verifies;
    var t' := t - ids;
    forall id | id in t' ensures IsSoundRow(h, t', id) && OwnData(t', id) == OwnData(t, id) {
      assert IsSoundRow(h, t, id);
    }
  }

  /* ---- Runs ---- */

  /** One write. `room` says whether the budget lets a put through; `Expire` names the rows a reclaim deletes. */
  datatype Op =
    | Put(input: Object, now: Time, room: bool)
    | MarkCurrentness(id: string, value: string)
    | MarkLifecycle(id: string, value: string)
    | Consolidate
    | Expire(ids: set<string>)

  ghost function Step(h: Hashes, t: Table, op: Op): (Table, Outcome) {
    match op
    case Put(input, now, room) =>
      var o := Prepare(h, input, now);
      if o.Rejected? then (t, Invalid) else if !room then (t, Refused) else PutRow(h, t, o.obj)
    case MarkCurrentness(id, value) => SetCurrentness(t, id, value)
    case MarkLifecycle(id, value) => SetLifecycle(t, id, value)
    case Consolidate => (Consolidated(h, t), Done)
    case Expire(ids) => (t - ids, Done)
  }

  /** The same write on the plain map, where consolidating has no meaning. */
  function PlainStep(h: Hashes, p: Plain, op: Op): (Plain, Outcome) {
    match op
    case Put(input, now, room) =>
      var o := Prepare(h, input, now);
      if o.Rejected? then (p, Invalid) else if !room then (p, Refused) else PutPlain(p, o.obj)
    case MarkCurrentness(id, value) => SetCurrentnessPlain(p, id, value)
    case MarkLifecycle(id, value) => SetLifecyclePlain(p, id, value)
    case Consolidate => (p, Done)
    case Expire(ids) => (p - ids, Done)
  }

  ghost function Run(h: Hashes, t: Table, ops: seq<Op>): Table
    decreases |ops|
  {
    if ops == [] then t else Run(h, Step(h, t, ops[0]).0, ops[1..])
  }

  function PlainRun(h: Hashes, p: Plain, ops: seq<Op>): Plain
    decreases |ops|
  {
    if ops == [] then p else PlainRun(h, PlainStep(h, p, ops[0]).0, ops[1..])
  }

  ghost function Outcomes(h: Hashes, t: Table, ops: seq<Op>): seq<Outcome>
    decreases |ops|
  {
    if ops == [] then [] else [Step(h, t, ops[0]).1] + Outcomes(h, Step(h, t, ops[0]).0, ops[1..])
  }

  function PlainOutcomes(h: Hashes, p: Plain, ops: seq<Op>): seq<Outcome>
    decreases |ops|
  {
    if ops == [] then [] else [PlainStep(h, p, ops[0]).1] + PlainOutcomes(h, PlainStep(h, p, ops[0]).0, ops[1..])
  }

  /** Every deletion of the run takes the readers of a row along with it. */
  ghost predicate Deletes(h: Hashes, t: Table, ops: seq<Op>)
    decreases |ops|
  {
    ops == [] || ((ops[0].Expire? ==> Closed(t, ops[0].ids)) && Deletes(h, Step(h, t, ops[0]).0, ops[1..]))
  }

  lemma StepRefinesPlain(h: Hashes, t: Table, op: Op)
    requires Ideal(h) && Sound(h, t) && (op.Expire? ==> Closed(t, op.ids))
    ensures var (t', outcome) := Step(h, t, op);
            Sound(h, t') && (View(t'), outcome) == PlainStep(h, View(t), op)
  {
    hide Sound, View, Prepare, PutRow, PutPlain, Consolidated, SetCurrentness, SetLifecycle, SetCurrentnessPlain,
         SetLifecyclePlain, Closed, IsPrepared;
    match op
    case Put(input, now, room) =>
      if Prepare(h, input, now).Ready? {
        PreparedIsSound(h, input, now);
        PutRefinesPlain(h, t, Prepare(h, input, now).obj);
      }
    case MarkCurrentness(id, value) => MarkRefinesPlain(h, t, id, value);
    case MarkLifecycle(id, value) => MarkRefinesPlain(h, t, id, value);
    case Consolidate => ConsolidationIsInvisible(h, t);
    case Expire(ids) => DeletionSparesReaders(h, t, ids);
  }

  /** Over every run, the deduplicating table answers every write and every read as the plain map does. */
  lemma {:induction false} RunRefinesPlain(h: Hashes, t: Table, ops: seq<Op>)
    requires Ideal(h) && Sound(h, t) && Deletes(h, t, ops)
    ensures Sound(h, Run(h, t, ops)) && View(Run(h, t, ops)) == PlainRun(h, View(t), ops)
    ensures Outcomes(h, t, ops) == PlainOutcomes(h, View(t), ops)
    ensures forall id | id in Run(h, t, ops) :: Resolve(h, Run(h, t, ops), id) == Got(PlainRun(h, View(t), ops)[id])
    decreases |ops|
  {
    hide Sound, View, Step, PlainStep, Closed, Resolve;
    if ops == [] {
    } else {
      StepRefinesPlain(h, t, ops[0]);
      RunRefinesPlain(h, Step(h, t, ops[0]).0, ops[1..]);
    }
    ViewKeys(Run(h, t, ops));
    forall id | id in Run(h, t, ops) ensures Resolve(h, Run(h, t, ops), id) == Got(View(Run(h, t, ops))[id]) {
      SoundReads(h, Run(h, t, ops), id);
    }
  }

  /** The plain map never changes the bytes of an object it keeps. */
  lemma {:induction false} PlainKeepsBytes(h: Hashes, p: Plain, ops: seq<Op>, id: string)
    requires id in p && forall op | op in ops :: op.Expire? ==> id !in op.ids
    ensures id in PlainRun(h, p, ops) && PlainRun(h, p, ops)[id].data == p[id].data
    decreases |ops|
  {
    hide Prepare, SameImmutable;
    if ops != [] {
      assert ops[0] in ops;
      PlainKeepsBytes(h, PlainStep(h, p, ops[0]).0, ops[1..], id);
    }
  }

  /** An object that was stored reads back with the exact bytes that were put, until a deletion names it. */
  lemma StoredReadsBack(h: Hashes, t: Table, input: Object, now: Time, ops: seq<Op>)
    requires Ideal(h) && Sound(h, t)
    requires Step(h, t, Put(input, now, true)).1.Stored?
    requires Deletes(h, Step(h, t, Put(input, now, true)).0, ops)
    requires var id := Step(h, t, Put(input, now, true)).1.id; forall op | op in ops :: op.Expire? ==> id !in op.ids
    ensures var id := Step(h, t, Put(input, now, true)).1.id;
            var end := Run(h, Step(h, t, Put(input, now, true)).0, ops);
            id in end && Resolve(h, end, id).Got? && Resolve(h, end, id).obj.data == input.data
  {
    hide Sound, View, Prepare, PutRow, Resolve, PlainRun, Run, Deletes;
    var op := Put(input, now, true);
    var t', id := Step(h, t, op).0, Step(h, t, op).1.id;
    StepRefinesPlain(h, t, op);
    PreparedIsSound(h, input, now);
    PlainStores(View(t), Prepare(h, input, now).obj);
    RunRefinesPlain(h, t', ops);
    PlainKeepsBytes(h, View(t'), ops, id);
    ViewKeys(Run(h, t', ops));
  }

  lemma PlainStores(p: Plain, o: Object)
    requires PutPlain(p, o).1.Stored?
    ensures PutPlain(p, o).1.id == o.id && o.id in PutPlain(p, o).0 && PutPlain(p, o).0[o.id].data == o.data
  {
  }

  lemma ViewKeys(t: Table)
    ensures View(t).Keys == t.Keys
  {
  }
}
