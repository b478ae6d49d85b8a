/**
 Freeing room in a full store: duplicate repository maps become references, and objects past the retention policy
 are deleted in batches. Each method is the body of one transaction: it works on a copy of the rows and of the
 counter that the row triggers keep, and its caller commits what it returns.
 */
module StoreReclaim {
  import opened GoText
  import opened RecoveryObjects
  import opened ObjectTable
  import opened StorageUsage

  const ARCHIVED_RETENTION: Time := 14 * 24 * 3600
  const IDLE_RETENTION: Time := 30 * 24 * 3600
  const TOMBSTONE_RETENTION: Time := 180 * 24 * 3600
  const TARGET_PERCENT := 80
  const BATCH_SIZE := 256

  /** Rows with the counter the triggers keep beside them. */
  datatype Books = Books(t: Table, used: int) {
    /** The counter is the full-table scan. */
    ghost predicate Balanced(recs: Recoveries) {
      used == Scan(recs, t)
    }

    function Write(id: string, row: Row): Books {
      Books(t[id := row], used - (if id in t then RowSize(t[id]) else 0) + RowSize(row))
    }

    function Delete(id: string): Books {
      Books(t - {id}, used - (if id in t then RowSize(t[id]) else 0))
    }
  }

  lemma WriteBalances(b: Books, recs: Recoveries, id: string, row: Row)
    requires b.Balanced(recs)
    ensures b.Write(id, row).Balanced(recs)
  {
    ScanPutRow(recs, b.t, id, row);
  }

  lemma DeleteBalances(b: Books, recs: Recoveries, id: string)
    requires b.Balanced(recs)
    ensures b.Delete(id).Balanced(recs)
  {
    ScanDeleteRow(recs, b.t, id);
  }

  /* ---- Ordered queries ---- */

  lemma ListedAppend(ids: seq<string>, id: string)
    ensures Listed(ids + [id]) == Listed(ids) + {id}
  {
  }

  /** Each row once, oldest first. */
  predicate IsInOrder(t: Table, ids: seq<string>) {
    (forall id | id in ids :: id in t) &&
    forall i, j | 0 <= i < j < |ids| :: ids[i] != ids[j] && Before(t, ids[i], ids[j])
  }

  ghost function Order(t: Table, rows: set<string>): seq<string>
    requires rows <= t.Keys
  {
    OldestFew(t, rows, |rows|)
  }

  lemma NextInOrder(t: Table, rows: set<string>, id: string)
    requires rows <= t.Keys && IsOldest(t, rows, id)
    ensures Order(t, rows) == [id] + Order(t, rows - {id})
  {
    hide Before;
    OldestUnique(t, rows, id, Oldest(t, rows));
  }

  method InOrder(t: Table, rows: set<string>) returns (ids: seq<string>)
    requires rows <= t.Keys
    ensures Listed(ids) == rows && IsInOrder(t, ids) && ids == Order(t, rows)
  {
    hide Before, Order;
    ids := [];
    var rest := rows;
    assert [] + Order(t, rows) == Order(t, rows);
    while rest != {}
      invariant rest <= rows && Listed(ids) == rows - rest
      invariant IsInOrder(t, ids)
      invariant forall a, b | a in ids && b in rest :: Before(t, a, b)
      invariant ids + Order(t, rest) == Order(t, rows)
      decreases rest
    {
      var id := FindOldest(t, rest);
      NextInOrder(t, rest, id);
      assert ids + ([id] + Order(t, rest - {id})) == ids + [id] + Order(t, rest - {id});
      ListedAppend(ids, id);
      forall a | a in ids ensures a != id { assert a in Listed(ids); }
      ids, rest := ids + [id], rest - {id};
    }
    NothingOrdered(t);
    assert ids + [] == ids;
  }

  lemma NothingOrdered(t: Table)
    ensures Order(t, {}) == []
  {
  }

  /* ---- Consolidation ---- */

  function FullMaps(t: Table, hash: string): (ids: set<string>)
    ensures ids <= t.Keys
  {
    set k | k in t && IsOwner(t, k, hash)
  }

  /** The table once the groups in `hashes` are consolidated. */
  ghost function Partly(h: Hashes, t: Table, hashes: set<string>): (t': Table)
    ensures t'.Keys == t.Keys
  {
    map id | id in t :: if t[id].obj.hash in hashes then ConsolidatedRow(h, t, id) else t[id]
  }

  lemma PartlyFields(h: Hashes, t: Table, hashes: set<string>, id: string)
    requires id in t
    ensures Partly(h, t, hashes)[id].obj == t[id].obj.(data := Partly(h, t, hashes)[id].obj.data)
    ensures t[id].ref != "" ==> Partly(h, t, hashes)[id] == t[id]
  {
    hide Keeper, IsReferenced;
    SameFields(h, t, id);
  }

  /** A group that was not consolidated yet is unchanged, and no new reference points into it. */
  lemma GroupUntouched(h: Hashes, t: Table, hashes: set<string>, hash: string)
    requires hash !in hashes
    ensures var t' := Partly(h, t, hashes);
            FullMaps(t', hash) == FullMaps(t, hash) && Keeper(h, t', hash) == Keeper(h, t, hash) &&
            forall k | k in FullMaps(t, hash) :: t'[k] == t[k] && (IsReferenced(t', k) <==> IsReferenced(t, k))
  {
    hide Keeper, IsReferenced, ConsolidatedRow, Before;
    var t' := Partly(h, t, hashes);
    forall k | k in t ensures t'[k].obj.created == t[k].obj.created && (IsOwner(t', k, hash) <==> IsOwner(t, k, hash)) {
      PartlyFields(h, t, hashes, k);
    }
    forall k | k in FullMaps(t, hash) ensures t'[k] == t[k] && (IsReferenced(t', k) <==> IsReferenced(t, k)) {
      ReferencesUntouched(h, t, hashes, k);
    }
    KeeperUntouched(h, t, t', hash);
  }

  lemma ReferencesUntouched(h: Hashes, t: Table, hashes: set<string>, k: string)
    requires k in t && t[k].obj.hash !in hashes
    ensures IsReferenced(Partly(h, t, hashes), k) <==> IsReferenced(t, k)
  {
    hide Keeper, IsSpare;
    var t' := Partly(h, t, hashes);
    forall r | r in t ensures k != "" ==> (t'[r].ref == k <==> t[r].ref == k) {
      PartlyFields(h, t, hashes, r);
      if t'[r] != t[r] { SparePointsAway(h, t, r); }
    }
  }

  /** A spare copy is a full one, and its new reference names a row with the same hash. */
  lemma SparePointsAway(h: Hashes, t: Table, r: string)
    requires r in t && ConsolidatedRow(h, t, r) != t[r]
    ensures t[r].ref == "" && var k := ConsolidatedRow(h, t, r).ref; k in t && t[k].obj.hash == t[r].obj.hash
  {
    hide Keeper;
    KeeperIsFull(h, t, t[r].obj.hash);
  }

  lemma KeeperUntouched(h: Hashes, t: Table, t': Table, hash: string)
    requires t'.Keys == t.Keys && forall k | k in t :: t'[k].obj.created == t[k].obj.created
    requires FullMaps(t', hash) == FullMaps(t, hash)
    requires forall k | k in FullMaps(t, hash) :: t'[k] == t[k] && (IsReferenced(t', k) <==> IsReferenced(t, k))
    ensures Keeper(h, t', hash) == Keeper(h, t, hash)
  {
    hide IsReferenced, Verifies, Before;
    assert forall k | k in VerifiedCopies(h, t, hash) :: k in FullMaps(t, hash);
    assert forall k | k in VerifiedCopies(h, t', hash) :: k in FullMaps(t', hash);
    assert VerifiedCopies(h, t', hash) == VerifiedCopies(h, t, hash);
    var verified := VerifiedCopies(h, t, hash);
    var referenced := set k | k in verified && IsReferenced(t, k);
    assert referenced == set k | k in verified && IsReferenced(t', k);
    if referenced != {} { SameOldest(t, t', referenced); } else if verified != {} { SameOldest(t, t', verified); }
  }

  lemma SameOldest(t: Table, t': Table, ids: set<string>)
    requires ids != {} && ids <= t.Keys && t'.Keys == t.Keys
    requires forall k | k in t :: t'[k].obj.created == t[k].obj.created
    ensures Oldest(t, ids) == Oldest(t', ids)
  {
    assert IsOldest(t, ids, Oldest(t', ids));
    OldestUnique(t, ids, Oldest(t, ids), Oldest(t', ids));
  }

  /** The first verified copy in order: among the referenced ones if any of those verifies, else among all. */
  method ChooseKeeper(h: Hashes, t: Table, hash: string, copies: seq<string>, referenced: set<string>)
    returns (keeper: Option<string>)
    requires Listed(copies) == FullMaps(t, hash) && IsInOrder(t, copies)
    requires referenced == set k | k in FullMaps(t, hash) && IsReferenced(t, k)
    ensures keeper == Keeper(h, t, hash)
  {
    hide Before, Verifies, IsReferenced, FullMaps, IsOldest;
    var verified := VerifiedCopies(h, t, hash);
    forall k ensures k in verified <==> k in copies && Verifies(h, hash, t[k].obj.data) {
      assert k in copies <==> k in Listed(copies);
      FullMapsAre(t, hash, k);
    }
    var preferred := set k | k in verified && IsReferenced(t, k);
    assert preferred == set k | k in verified && k in referenced;
    for i := 0 to |copies|
      invariant forall j | 0 <= j < i :: copies[j] !in preferred
    {
      assert copies[i] in Listed(copies);
      if copies[i] in referenced && Verifies(h, hash, t[copies[i]].obj.data) {
        FirstIsOldest(t, copies, i, preferred);
        return Some(copies[i]);
      }
    }
    assert preferred == {};
    for i := 0 to |copies|
      invariant forall j | 0 <= j < i :: copies[j] !in verified
    {
      if Verifies(h, hash, t[copies[i]].obj.data) {
        FirstIsOldest(t, copies, i, verified);
        return Some(copies[i]);
      }
    }
    assert verified == {};
    keeper := None;
  }

  lemma FullMapsAre(t: Table, hash: string, k: string)
    ensures k in FullMaps(t, hash) <==> IsOwner(t, k, hash)
  {
  }

  lemma FirstIsOldest(t: Table, ids: seq<string>, i: nat, rows: set<string>)
    requires IsInOrder(t, ids) && i < |ids| && ids[i] in rows && rows <= Listed(ids) && rows <= t.Keys
    requires forall j | 0 <= j < i :: ids[j] !in rows
    ensures ids[i] == Oldest(t, rows)
  {
    hide Less;
    forall other | other in rows ensures Before(t, ids[i], other) {
      assert other in Listed(ids);
      var j :| 0 <= j < |ids| && ids[j] == other;
    }
    OldestUnique(t, rows, ids[i], Oldest(t, rows));
  }

  ghost function Changed(t: Table, t': Table): set<string> {
    set id | id in t && id in t' && t'[id] != t[id]
  }

  lemma NothingChanged(t: Table)
    ensures Changed(t, t) == {}
  {
  }

  lemma WriteChanges(t: Table, t': Table, id: string, row: Row)
    requires id in t && id in t' && t'[id] == t[id] && row != t[id]
    ensures Changed(t, t'[id := row]) == Changed(t, t') + {id} && id !in Changed(t, t')
  {
  }

  /** The group once these copies are consolidated, with what was counted for it. */
  ghost predicate IsMoved(h: Hashes, b: Books, b': Books, done: set<string>, objects: nat, freed: int,
                          recs: Recoveries)
  {
    b'.t == Moved(h, b.t, done) && b'.Balanced(recs) && freed == b.used - b'.used && freed >= 0 &&
    ("" !in b.t ==> objects == |Changed(b.t, b'.t)|)
  }

  lemma NothingMoved(h: Hashes, b: Books, recs: Recoveries)
    requires b.Balanced(recs)
    ensures IsMoved(h, b, b, {}, 0, 0, recs)
  {
    hide ConsolidatedRow, Books.Balanced;
    NothingChanged(b.t);
  }

  lemma CopyStays(h: Hashes, b: Books, b': Books, done: set<string>, objects: nat, freed: int, recs: Recoveries,
                  id: string)
    requires IsMoved(h, b, b', done, objects, freed, recs) && id in b.t && ConsolidatedRow(h, b.t, id) == b.t[id]
    ensures IsMoved(h, b, b', done + {id}, objects, freed, recs)
  {
    hide ConsolidatedRow, Books.Balanced, Changed;
    assert Moved(h, b.t, done + {id}) == Moved(h, b.t, done);
  }

  lemma CopyMoves(h: Hashes, b: Books, b': Books, done: set<string>, objects: nat, freed: int, recs: Recoveries,
                  id: string, keeper: string)
    requires IsMoved(h, b, b', done, objects, freed, recs) && id in b.t && id !in done && keeper in b.t &&
             b.t[id].ref == ""
    requires ConsolidatedRow(h, b.t, id) == Row(b.t[id].obj.(data := []), keeper)
    ensures IsMoved(h, b, b'.Write(id, ConsolidatedRow(h, b.t, id)), done + {id}, objects + 1,
                    freed + |b.t[id].obj.data|, recs)
  {
    hide ConsolidatedRow, Books.Balanced, Changed, RowSize;
    var row := ConsolidatedRow(h, b.t, id);
    WriteBalances(b', recs, id, row);
    SpareShrinks(b.t[id], keeper);
    assert b'.t[id := row] == Moved(h, b.t, done + {id});
    if "" !in b.t { WriteChanges(b.t, b'.t, id, row); }
  }

  /** The copies of one group that are neither kept nor referenced become references to the kept one. */
  method ConsolidateGroup(h: Hashes, b: Books, hash: string, ghost recs: Recoveries)
    returns (b': Books, objects: nat, freed: int)
    requires b.Balanced(recs)
    ensures b'.t == Partly(h, b.t, {hash}) && b'.Balanced(recs) && freed == b.used - b'.used && freed >= 0
    ensures "" !in b.t ==> objects == |Changed(b.t, b'.t)|
  {
    hide Keeper, IsReferenced, Verifies, Before, RowSize, Scan, Order, IsSpare, ConsolidatedRow, Changed,
         Books.Balanced, FullMaps, IsMoved, Moved, Partly;
    var t := b.t;
    var copies := InOrder(t, FullMaps(t, hash));
    var referenced := set k | k in FullMaps(t, hash) && IsReferenced(t, k);
    b', objects, freed := b, 0, 0;
    NothingChanged(t);
    var keeper := ChooseKeeper(h, t, hash, copies, referenced);
    if keeper.None? {
      NothingSpare(h, t, hash);
      return;
    }
    NothingMoved(h, b, recs);
    assert Listed(copies[..0]) == {};
    for i := 0 to |copies|
      invariant IsMoved(h, b, b', Listed(copies[..i]), objects, freed, recs)
    {
      var id := copies[i];
      ghost var done := Listed(copies[..i]);
      assert id in Listed(copies) && copies[..i + 1] == copies[..i] + [id];
      ListedAppend(copies[..i], id);
      SpareIs(h, t, hash, id);
      if id == keeper.value || id in referenced {
        CopyStays(h, b, b', done, objects, freed, recs, id);
        continue;
      }
      assert id !in done;
      CopyMoves(h, b, b', done, objects, freed, recs, id, keeper.value);
      freed, objects := freed + |t[id].obj.data|, objects + 1;
      b' := b'.Write(id, Row(t[id].obj.(data := []), keeper.value));
    }
    assert copies[..|copies|] == copies;
    MovedGroup(h, t, hash);
    MovedIs(h, b, b', Listed(copies), objects, freed, recs);
  }

  lemma MovedIs(h: Hashes, b: Books, b': Books, done: set<string>, objects: nat, freed: int, recs: Recoveries)
    requires IsMoved(h, b, b', done, objects, freed, recs)
    ensures b'.t == Moved(h, b.t, done) && b'.Balanced(recs) && freed == b.used - b'.used && freed >= 0
    ensures "" !in b.t ==> objects == |Changed(b.t, b'.t)|
  {
  }

  /** Which copies of a group are spare, and what becomes of them. */
  lemma SpareIs(h: Hashes, t: Table, hash: string, id: string)
    requires id in FullMaps(t, hash) && Keeper(h, t, hash).Some?
    ensures var keeper := Keeper(h, t, hash).value;
            keeper in t && t[id].ref == "" &&
            ConsolidatedRow(h, t, id) == if id == keeper || IsReferenced(t, id) then t[id]
                                         else Row(t[id].obj.(data := []), keeper)
  {
    hide Keeper, IsReferenced;
    KeeperIsFull(h, t, hash);
  }

  lemma SpareShrinks(row: Row, keeper: string)
    ensures RowSize(row) - RowSize(Row(row.obj.(data := []), keeper)) == |row.obj.data|
  {
  }

  /** The table once these rows of a group are consolidated. */
  ghost function Moved(h: Hashes, t: Table, ids: set<string>): Table {
    map id | id in t :: if id in ids then ConsolidatedRow(h, t, id) else t[id]
  }

  lemma MovedGroup(h: Hashes, t: Table, hash: string)
    ensures Moved(h, t, FullMaps(t, hash)) == Partly(h, t, {hash})
  {
    hide Keeper, IsReferenced;
  }

  lemma NothingSpare(h: Hashes, t: Table, hash: string)
    requires Keeper(h, t, hash).None?
    ensures Partly(h, t, {hash}) == t
  {
    hide Keeper, IsReferenced;
  }

  lemma NextGroup(h: Hashes, t: Table, hashes: set<string>, hash: string)
    requires hash !in hashes
    ensures Partly(h, Partly(h, t, hashes), {hash}) == Partly(h, t, hashes + {hash})
  {
    hide Keeper, IsReferenced, Before, ConsolidatedRow;
    var t1 := Partly(h, t, hashes);
    GroupUntouched(h, t, hashes, hash);
    forall id | id in t && t[id].obj.hash == hash
      ensures t1[id] == t[id] && ConsolidatedRow(h, t1, id) == ConsolidatedRow(h, t, id)
    {
      SameDecision(h, t, t1, id);
    }
    forall id | id in t ensures t1[id].obj.hash == t[id].obj.hash { PartlyFields(h, t, hashes, id); }
  }

  lemma SameDecision(h: Hashes, t: Table, t': Table, id: string)
    requires id in t && id in t' && t'[id] == t[id]
    requires Keeper(h, t', t[id].obj.hash) == Keeper(h, t, t[id].obj.hash)
    requires id in FullMaps(t, t[id].obj.hash) ==> (IsReferenced(t', id) <==> IsReferenced(t, id))
    ensures ConsolidatedRow(h, t', id) == ConsolidatedRow(h, t, id)
  {
    hide Keeper, IsReferenced;
  }

  /** A map with only one full copy has no spare one. */
  lemma SingleStays(h: Hashes, t: Table, id: string)
    requires id in t && IsSpare(h, t, id)
    ensures |FullMaps(t, t[id].obj.hash)| > 1
  {
    hide Keeper, IsReferenced;
    var k := Keeper(h, t, t[id].obj.hash).value;
    KeeperIsFull(h, t, t[id].obj.hash);
    assert {id, k} <= FullMaps(t, t[id].obj.hash);
    SubsetSize({id, k}, FullMaps(t, t[id].obj.hash));
    assert |{id, k}| == 2;
  }

  lemma {:induction false} SubsetSize(a: set<string>, b: set<string>)
    requires a <= b
    ensures |a| <= |b|
    decreases |a|
  {
    if a != {} {
      var x :| x in a;
      SubsetSize(a - {x}, b - {x});
    }
  }

  function DuplicatedHashes(t: Table): set<string> {
    set id | id in t && |FullMaps(t, t[id].obj.hash)| > 1 :: t[id].obj.hash
  }

  /** Every group with more than one full copy, one after the other. The counter stays the sum of the rows. */
  method ConsolidateRepositoryMaps(h: Hashes, b: Books, ghost recs: Recoveries)
    returns (b': Books, objects: nat, freed: int)
    requires b.Balanced(recs)
    ensures b'.t == Consolidated(h, b.t) && b'.Balanced(recs) && freed == b.used - b'.used && freed >= 0
    ensures "" !in b.t ==> objects == |Changed(b.t, b'.t)| && (objects > 0 <==> b'.t != b.t)
  {
    hide Keeper, IsReferenced, Verifies, Before, RowSize, Scan, FullMaps, Partly, Consolidated, Changed;
    b', objects, freed := b, 0, 0;
    NothingChanged(b.t);
    var hashes := DuplicatedHashes(b.t);
    var rest := hashes;
    NoGroups(h, b.t);
    while rest != {}
      invariant rest <= hashes
      invariant b'.t == Partly(h, b.t, hashes - rest) && b'.Balanced(recs)
      invariant freed == b.used - b'.used && freed >= 0
      invariant "" !in b.t ==> objects == |Changed(b.t, b'.t)|
      decreases rest
    {
      var hash :| hash in rest;
      var next, moved, bytes := ConsolidateGroup(h, b', hash, recs);
      NextGroup(h, b.t, hashes - rest, hash);
      GroupChanges(h, b.t, hashes - rest, hash);
      assert hashes - rest + {hash} == hashes - (rest - {hash});
      b', objects, freed, rest := next, objects + moved, freed + bytes, rest - {hash};
    }
    assert hashes - rest == hashes;
    AllGroups(h, b.t);
    SomeChanged(b.t, b'.t);
  }

  /** Each group changes rows of its own. */
  lemma GroupChanges(h: Hashes, t: Table, hashes: set<string>, hash: string)
    requires hash !in hashes
    ensures var t1, t2 := Partly(h, t, hashes), Partly(h, t, hashes + {hash});
            Changed(t, t2) == Changed(t, t1) + Changed(t1, t2) && Changed(t, t1) !! Changed(t1, t2)
  {
    hide ConsolidatedRow;
  }

  lemma SomeChanged(t: Table, t': Table)
    requires t'.Keys == t.Keys
    ensures |Changed(t, t')| > 0 <==> t' != t
  {
    if t' != t {
      var id :| id in t && t'[id] != t[id];
      assert id in Changed(t, t');
    }
  }

  lemma NoGroups(h: Hashes, t: Table)
    ensures Partly(h, t, DuplicatedHashes(t) - DuplicatedHashes(t)) == t
  {
  }

  lemma AllGroups(h: Hashes, t: Table)
    ensures Partly(h, t, DuplicatedHashes(t)) == Consolidated(h, t)
  {
    hide Keeper, IsReferenced, IsSpare, FullMaps;
    forall id | id in t && t[id].obj.hash !in DuplicatedHashes(t) ensures ConsolidatedRow(h, t, id) == t[id] {
      if IsSpare(h, t, id) { SingleStays(h, t, id); }
    }
  }

  /* ---- Expiry ---- */

  /** The session's last write is before the cutoff. */
  predicate IsIdle(t: Table, session: string, cutoff: Time) {
    forall k | k in t && t[k].obj.session == session :: t[k].obj.created < cutoff
  }

  predicate MayExpire(t: Table, id: string, now: Time)
    requires id in t
  {
    var o := t[id].obj;
    (o.lifecycle == "archived" && IsIdle(t, o.session, now - ARCHIVED_RETENTION)) ||
    IsIdle(t, o.session, now - IDLE_RETENTION)
  }

  /** The objects the retention policy lists. */
  function Expirable(t: Table, now: Time): (ids: set<string>)
    ensures ids <= t.Keys
  {
    set id | id in t && MayExpire(t, id, now)
  }

  /** Every write of the object's session is older than 14 days if the object is archived, and than 30 days if not. */
  ghost predicate IsPast(t: Table, id: string, now: Time)
    requires id in t
  {
    forall k | k in t && t[k].obj.session == t[id].obj.session ::
      t[k].obj.created < now - (if t[id].obj.lifecycle == "archived" then 14 else 30) * 86400
  }

  /** The policy lists exactly the objects whose session is past its time. */
  lemma ListedExactly(t: Table, now: Time)
    ensures forall id | id in t :: id in Expirable(t, now) <==> IsPast(t, id, now)
  {
  }

  /** A session that is still writing keeps its old objects too. */
  lemma ActiveSessionStays(t: Table, id: string, k: string, now: Time)
    requires id in t && k in t && t[k].obj.session == t[id].obj.session && t[k].obj.created >= now - 14 * 86400
    ensures id !in Expirable(t, now)
  {
    ListedExactly(t, now);
    assert !IsPast(t, id, now);
  }

  function Readers(t: Table, id: string): (ids: set<string>)
    ensures ids <= t.Keys
  {
    set k | k in t && t[k].ref == id && id != ""
  }

  /** A row that stays because a row which may not go reads its bytes. */
  predicate IsProtected(t: Table, id: string, eligible: set<string>) {
    exists k | k in t :: k in Readers(t, id) && k !in eligible
  }

  method Remove(b: Books, id: string, removed: seq<string>, ghost recs: Recoveries)
    returns (b': Books, removed': seq<string>)
    requires b.Balanced(recs)
    ensures b'.t == b.t - {id} && b'.Balanced(recs) && b'.used <= b.used
    ensures removed' == if id in b.t then removed + [id] else removed
  {
    hide Scan, RowSize;
    DeleteBalances(b, recs, id);
    if id !in b.t {
      assert b.t - {id} == b.t;
      return b, removed;
    }
    b', removed' := b.Delete(id), removed + [id];
  }

  /** What a batch has done when `removed` is what it deleted. */
  predicate Deleted(t: Table, t': Table, removed: seq<string>, eligible: set<string>) {
    t' == t - Listed(removed) && Listed(removed) <= t.Keys && Listed(removed) <= eligible && IsDistinct(removed)
  }

  lemma DeletedMore(t: Table, t': Table, removed: seq<string>, eligible: set<string>, id: string)
    requires Deleted(t, t', removed, eligible) && id in eligible
    ensures Deleted(t, t' - {id}, if id in t' then removed + [id] else removed, eligible)
  {
    if id in t' {
      ListedAppend(removed, id);
      assert id !in Listed(removed);
      assert t - Listed(removed) - {id} == t - (Listed(removed) + {id});
    } else {
      assert t' - {id} == t';
    }
  }

  /** The rows that read a full copy, all at once. */
  method RemoveReaders(b: Books, id: string, removed: seq<string>, eligible: set<string>, ghost t0: Table,
                       ghost recs: Recoveries)
    returns (b': Books, removed': seq<string>)
    requires b.Balanced(recs) && Deleted(t0, b.t, removed, eligible) && Readers(b.t, id) <= eligible
    ensures b'.t == b.t - Readers(b.t, id) && b'.Balanced(recs) && b'.used <= b.used
    ensures Deleted(t0, b'.t, removed', eligible)
  {
    hide Scan, RowSize, Deleted;
    var readers := Readers(b.t, id);
    var rest := readers;
    b', removed' := b, removed;
    assert b.t - (readers - rest) == b.t;
    while rest != {}
      invariant rest <= readers
      invariant b'.t == b.t - (readers - rest) && b'.Balanced(recs) && b'.used <= b.used
      invariant Deleted(t0, b'.t, removed', eligible)
      decreases rest
    {
      var reader :| reader in rest;
      DeletedMore(t0, b'.t, removed', eligible, reader);
      var before := b'.t;
      b', removed' := Remove(b', reader, removed', recs);
      assert before - {reader} == b.t - (readers - (rest - {reader}));
      rest := rest - {reader};
    }
    assert readers - rest == readers;
  }

  /** Removing a row with everything that reads it keeps the deletions closed. */
  lemma ClosedMore(h: Hashes, t: Table, t': Table, gone: set<string>, id: string)
    requires Sound(h, t) && Closed(t, gone) && t' == t - gone
    ensures Closed(t, gone + Readers(t', id) + {id})
  {
    hide Verifies;
    var gone' := gone + Readers(t', id) + {id};
    forall k | k in t && t[k].ref in gone' && t[k].ref != "" ensures k in gone' {
      assert IsSoundRow(h, t, k);
    }
  }

  /* ---- What a prefix of the candidates takes with it ---- */

  predicate IsTaken(t: Table, ids: seq<string>, eligible: set<string>, k: string) {
    exists id | id in ids :: !IsProtected(t, id, eligible) && (k == id || k in Readers(t, id))
  }

  /** What goes with these candidates: each one that no row which may not go reads, and all that read it. */
  function Taken(t: Table, ids: seq<string>, eligible: set<string>): (gone: set<string>)
    ensures gone <= t.Keys
  {
    set k | k in t && IsTaken(t, ids, eligible, k)
  }

  /** The bytes freed by taking these candidates. */
  ghost function Freed(t: Table, ids: seq<string>, eligible: set<string>): int {
    Total(RowSizes(t)) - Total(RowSizes(t - Taken(t, ids, eligible)))
  }

  /** How many of these candidates stay, because a row which may not go reads them. */
  function Passed(t: Table, ids: seq<string>, eligible: set<string>): nat {
    if ids == [] then 0
    else Passed(t, ids[..|ids| - 1], eligible) + if IsProtected(t, ids[|ids| - 1], eligible) then 1 else 0
  }

  function ProtectedIn(t: Table, ids: seq<string>, eligible: set<string>): (kept: set<string>) {
    set id | id in ids && IsProtected(t, id, eligible)
  }

  /** The number of protected candidates among distinct ones. */
  lemma {:induction false} PassedExactly(t: Table, ids: seq<string>, eligible: set<string>)
    requires IsDistinct(ids)
    ensures Passed(t, ids, eligible) == |ProtectedIn(t, ids, eligible)|
    decreases |ids|
  {
    hide IsProtected;
    if ids != [] {
      var init, id := ids[..|ids| - 1], ids[|ids| - 1];
      forall i, j | 0 <= i < j < |init| ensures init[i] != init[j] { assert ids[i] != ids[j]; }
      PassedExactly(t, init, eligible);
      forall k | k in init ensures k != id {
        var i :| 0 <= i < |init| && init[i] == k;
        assert ids[i] != ids[|ids| - 1];
      }
      ProtectedNext(t, init, id, eligible);
      assert ids == init + [id];
    }
  }

  lemma ProtectedNext(t: Table, ids: seq<string>, id: string, eligible: set<string>)
    requires id !in ids
    ensures |ProtectedIn(t, ids + [id], eligible)| ==
            |ProtectedIn(t, ids, eligible)| + if IsProtected(t, id, eligible) then 1 else 0
  {
    hide IsProtected;
    var more := if IsProtected(t, id, eligible) then {id} else {};
    assert ProtectedIn(t, ids + [id], eligible) == ProtectedIn(t, ids, eligible) + more;
  }

  /** Which candidates are protected does not change while only eligible rows go. */
  lemma ProtectedSame(t: Table, gone: set<string>, id: string, eligible: set<string>)
    requires gone <= eligible
    ensures IsProtected(t - gone, id, eligible) <==> IsProtected(t, id, eligible)
  {
    var t' := t - gone;
    if k :| k in t && k in Readers(t, id) && k !in eligible { assert k in t' && k in Readers(t', id); }
    if k :| k in t' && k in Readers(t', id) && k !in eligible { assert k in Readers(t, id); }
  }

  lemma TakenEligible(t: Table, ids: seq<string>, eligible: set<string>)
    requires forall id | id in ids :: id in eligible
    ensures Taken(t, ids, eligible) <= eligible
  {
  }

  /** Taking more candidates is taking them from what the first ones leave. */
  lemma TakenThen(t: Table, first: seq<string>, more: seq<string>, eligible: set<string>)
    requires forall id | id in first :: id in eligible
    ensures var gone := Taken(t, first, eligible);
            Taken(t, first + more, eligible) == gone + Taken(t - gone, more, eligible)
  {
    TakenEligible(t, first, eligible);
    hide IsProtected;
    var gone := Taken(t, first, eligible);
    forall id ensures IsProtected(t - gone, id, eligible) <==> IsProtected(t, id, eligible) {
      ProtectedSame(t, gone, id, eligible);
    }
    forall k | k in t ensures IsTaken(t, first + more, eligible, k) <==> k in gone + Taken(t - gone, more, eligible) {
      if k !in gone {
        assert forall id :: k in Readers(t - gone, id) <==> k in Readers(t, id);
      }
    }
  }

  lemma TakenOne(t: Table, id: string, eligible: set<string>)
    ensures IsProtected(t, id, eligible) <==> !(Readers(t, id) <= eligible)
    ensures Taken(t, [id], eligible) ==
            if IsProtected(t, id, eligible) then {} else Readers(t, id) + (if id in t then {id} else {})
  {
    hide Readers;
    if !(Readers(t, id) <= eligible) {
      var k :| k in Readers(t, id) && k !in eligible;
      assert k in t;
    }
    var one := [id];
    assert one[0] == id && forall x | x in one :: x == id;
  }

  lemma PassedMore(t: Table, ids: seq<string>, id: string, eligible: set<string>)
    ensures Passed(t, ids + [id], eligible) == Passed(t, ids, eligible) + if IsProtected(t, id, eligible) then 1 else 0
  {
    hide IsProtected;
    assert (ids + [id])[..|ids|] == ids;
  }

  /** Takes one candidate: it goes with all that read it, unless one of those may not go. */
  method ExpireOne(h: Hashes, ghost t: Table, ghost first: seq<string>, b: Books, id: string, removed: seq<string>,
                   eligible: set<string>, ghost recs: Recoveries)
    returns (b': Books, removed': seq<string>, keep: bool)
    requires Sound(h, t) && b.Balanced(recs) && id in eligible && forall k | k in first :: k in eligible
    requires Deleted(t, b.t, removed, eligible) && Closed(t, Listed(removed)) &&
             Listed(removed) == Taken(t, first, eligible)
    ensures b'.Balanced(recs) && b'.used <= b.used && (keep <==> IsProtected(t, id, eligible))
    ensures Deleted(t, b'.t, removed', eligible) && Closed(t, Listed(removed'))
    ensures Listed(removed') == Taken(t, first + [id], eligible)
  {
    hide Scan, RowSize, Sound, IsProtected, Readers, Taken, Freed, Passed;
    ghost var gone := Listed(removed);
    OneMoreTaken(t, first, id, eligible, gone, b.t);
    b', removed' := b, removed;
    var readers := Readers(b.t, id);
    keep := !(readers <= eligible);
    if keep { return; }
    ClosedMore(h, t, b.t, gone, id);
    b', removed' := RemoveReaders(b', id, removed', eligible, t, recs);
    DeletedMore(t, b'.t, removed', eligible, id);
    b', removed' := Remove(b', id, removed', recs);
    SameGone(t, b.t, b'.t, gone, readers, id, removed', eligible);
  }

  /** Deletes candidates in order until enough is freed. A full copy goes only together with every row that reads it,
      and only when all of those may go. What goes is what the candidates consumed take with them; without the last of
      them less than what is needed would have been freed. */
  method ExpireBatch(h: Hashes, b: Books, batch: seq<string>, eligible: set<string>, need: int, ghost recs: Recoveries)
    returns (b': Books, consumed: nat, removed: seq<string>, kept: nat)
    requires Sound(h, b.t) && b.Balanced(recs) && Listed(batch) <= eligible
    ensures b'.Balanced(recs) && b'.used <= b.used && b'.t == b.t - Listed(removed)
    ensures Listed(removed) <= eligible * b.t.Keys && IsDistinct(removed) && Closed(b.t, Listed(removed))
    ensures consumed <= |batch| && (batch != [] && need > 0 ==> consumed > 0)
    ensures Listed(removed) == Taken(b.t, batch[..consumed], eligible) &&
            kept == Passed(b.t, batch[..consumed], eligible)
    ensures b.used - b'.used == Freed(b.t, batch[..consumed], eligible)
    ensures consumed < |batch| ==> b.used - b'.used >= need
    ensures consumed > 0 ==> Freed(b.t, batch[..consumed - 1], eligible) < need
    ensures forall i | 0 <= i < consumed && batch[i] in b'.t :: IsProtected(b.t, batch[i], eligible)
  {
    hide Scan, RowSize, Sound, IsProtected, Readers, Taken, Freed, Passed, Closed, Deleted;
    b', consumed, removed, kept := b, 0, [], 0;
    NothingDeleted(b.t, eligible);
    while consumed < |batch|
      invariant consumed <= |batch|
      invariant b'.Balanced(recs) && b'.used <= b.used
      invariant Deleted(b.t, b'.t, removed, eligible) && Closed(b.t, Listed(removed))
      invariant Listed(removed) == Taken(b.t, batch[..consumed], eligible)
      invariant kept == Passed(b.t, batch[..consumed], eligible)
      invariant b.used - b'.used == Freed(b.t, batch[..consumed], eligible)
      invariant consumed > 0 ==> Freed(b.t, batch[..consumed - 1], eligible) < need
      invariant batch != [] && need > 0 ==> consumed > 0 || b'.used == b.used
      decreases |batch| - consumed
    {
      if b.used - b'.used >= need { break; }
      var id := batch[consumed];
      ghost var first := batch[..consumed];
      assert id in Listed(batch) && batch[..consumed + 1] == first + [id];
      PassedMore(b.t, first, id, eligible);
      var keep;
      b', removed, keep := ExpireOne(h, b.t, first, b', id, removed, eligible, recs);
      consumed := consumed + 1;
      if keep { kept := kept + 1; }
      DeletedIs(b.t, b'.t, removed, eligible);
      FreedIs(b, b', batch[..consumed], eligible, recs);
    }
    DeletedIs(b.t, b'.t, removed, eligible);
    ExpiryIsComplete(b.t, batch[..consumed], eligible);
  }

  lemma NothingDeleted(t: Table, eligible: set<string>)
    ensures Deleted(t, t, [], eligible) && Closed(t, Listed([])) && Listed([]) == Taken(t, [], eligible) == {}
    ensures Freed(t, [], eligible) == 0 && Passed(t, [], eligible) == 0
  {
    assert Listed([]) == {} && t - {} == t;
  }

  lemma DeletedIs(t: Table, t': Table, removed: seq<string>, eligible: set<string>)
    requires Deleted(t, t', removed, eligible)
    ensures t' == t - Listed(removed) && Listed(removed) <= t.Keys && Listed(removed) <= eligible && IsDistinct(removed)
  {
  }

  /** What one more candidate does. */
  lemma OneMoreTaken(t: Table, first: seq<string>, id: string, eligible: set<string>, gone: set<string>, t1: Table)
    requires (forall k | k in first :: k in eligible) && gone == Taken(t, first, eligible) && t1 == t - gone
    ensures IsProtected(t, id, eligible) <==> !(Readers(t1, id) <= eligible)
    ensures Passed(t, first + [id], eligible) == Passed(t, first, eligible) + if Readers(t1, id) <= eligible then 0
            else 1
    ensures Taken(t, first + [id], eligible) ==
            if Readers(t1, id) <= eligible then gone + Readers(t1, id) + (if id in t1 then {id} else {}) else gone
    ensures !(Readers(t1, id) <= eligible) ==> Freed(t, first + [id], eligible) == Freed(t, first, eligible)
  {
    TakenEligible(t, first, eligible);
    ProtectedSame(t, gone, id, eligible);
    TakenThen(t, first, [id], eligible);
    TakenOne(t1, id, eligible);
    PassedMore(t, first, id, eligible);
    hide Taken, IsProtected, Readers, Passed;
  }

  lemma FreedIs(b: Books, b': Books, ids: seq<string>, eligible: set<string>, recs: Recoveries)
    requires b.Balanced(recs) && b'.Balanced(recs) && b'.t == b.t - Taken(b.t, ids, eligible)
    ensures b.used - b'.used == Freed(b.t, ids, eligible)
  {
  }

  /** What is gone now is what was gone before, the readers and the row, as far as they were there. */
  lemma SameGone(t: Table, t1: Table, t2: Table, gone: set<string>, readers: set<string>, id: string,
                 removed: seq<string>, eligible: set<string>)
    requires t1 == t - gone && t2 == t1 - readers - {id} && Deleted(t, t2, removed, eligible) && gone <= t.Keys
    requires readers <= t1.Keys && Closed(t, gone + readers + {id})
    ensures Closed(t, Listed(removed)) && Listed(removed) == gone + readers + (if id in t1 then {id} else {})
  {
    var all := gone + readers + {id};
    forall k | k in t ensures k in Listed(removed) <==> k in all { assert k in t2 <==> k !in all; }
    forall k | k in t && t[k].ref in Listed(removed) && t[k].ref != "" ensures k in Listed(removed) {
      assert t[k].ref in t;
    }
  }

  /* ---- A whole expiry ---- */

  /** Bytes to free so that pages and payload are down to the reclaim target. */
  function ReclaimNeed(pages: int, used: int, limit: int): (need: int)
    ensures need >= 0
  {
    var payload := used - limit * TARGET_PERCENT / 100;
    if payload > pages && payload > 0 then payload else if pages > 0 then pages else 0
  }

  /** It is the least number of bytes that frees the pages and brings the payload down to four fifths of the budget. */
  lemma NeedIsLeast(pages: int, used: int, limit: int, bytes: nat)
    ensures bytes >= ReclaimNeed(pages, used, limit) <==> bytes >= pages && used - bytes <= limit * 80 / 100
  {
  }

  type Tombstones = map<string, Time>

  /** An id keeps the time at which it first expired. */
  function AddTombstones(expired: Tombstones, ids: set<string>, now: Time): Tombstones {
    (map id | id in ids :: now) + expired
  }

  /** A pass is safe when it took only listed rows, each full copy with all that read it. */
  predicate IsSafeExpiry(t: Table, t': Table, gone: set<string>, listed: set<string>) {
    t' == t - gone && gone <= listed && gone <= t.Keys && Closed(t, gone)
  }

  lemma ExpiryGoesOn(t: Table, t1: Table, gone: set<string>, t2: Table, more: set<string>, listed: set<string>)
    requires IsSafeExpiry(t, t1, gone, listed) && t2 == t1 - more && more <= listed && more <= t1.Keys &&
             Closed(t1, more)
    ensures IsSafeExpiry(t, t2, gone + more, listed)
  {
    assert t - gone - more == t - (gone + more);
    forall k | k in t && t[k].ref in gone + more && t[k].ref != "" ensures k in gone + more {
      if k !in gone { assert k in t1; }
    }
  }

  lemma {:induction false} ListedPart(ids: seq<string>, i: nat, j: nat)
    requires i <= j <= |ids|
    ensures Listed(ids[i..j]) <= Listed(ids)
  {
  }

  /* ---- What a whole expiry is ---- */

  /** One round takes the candidates from `from` up to `to`: at most a batch, as many as it needs to free what is needed
      when the round starts, and none beyond that. */
  ghost predicate IsRound(t: Table, used: int, limit: int, order: seq<string>, eligible: set<string>, pages: int,
                          from: nat, to: nat)
  {
    from < to <= |order| && to <= from + BATCH_SIZE &&
    var before := Freed(t, order[..from], eligible);
    var need := ReclaimNeed(pages, used - before, limit);
    need > 0 && Freed(t, order[..to - 1], eligible) - before < need &&
    (to == |order| || to == from + BATCH_SIZE || Freed(t, order[..to], eligible) - before >= need)
  }

  /** An expiry so far has taken a prefix of the listed objects, oldest first, round by round. `marks` says how far each
      round got, `noted` how many rounds left room for their tombstones. */
  ghost predicate IsExpirySoFar(t: Table, used: int, limit: int, now: Time, expired: Tombstones, pageNeed: nat -> int,
                                tombstonesFit: nat -> bool, marks: seq<nat>, noted: nat,
                                gone: set<string>, expired': Tombstones, kept: nat, need: int)
  {
    var eligible := Expirable(t, now);
    var order, rounds := Order(t, eligible), |marks| - 1;
    marks != [] && marks[0] == 0 && marks[rounds] <= |order| &&
    (forall r | 0 <= r < rounds :: IsRound(t, used, limit, order, eligible, pageNeed(r), marks[r], marks[r + 1])) &&
    gone == Taken(t, order[..marks[rounds]], eligible) && kept == Passed(t, order[..marks[rounds]], eligible) &&
    need == ReclaimNeed(pageNeed(rounds), used - Freed(t, order[..marks[rounds]], eligible), limit) &&
    noted <= rounds && marks[noted] <= marks[rounds] && (forall r | 0 <= r < noted :: tombstonesFit(r)) &&
    (noted < rounds ==> !tombstonesFit(noted)) &&
    expired' == AddTombstones(expired, Taken(t, order[..marks[noted]], eligible), now)
  }

  /** It ends when nothing more is needed or none of the listed objects is left. */
  ghost predicate IsExpiry(t: Table, used: int, limit: int, now: Time, expired: Tombstones, pageNeed: nat -> int,
                           tombstonesFit: nat -> bool, marks: seq<nat>, noted: nat,
                           gone: set<string>, expired': Tombstones, kept: nat, need: int)
  {
    IsExpirySoFar(t, used, limit, now, expired, pageNeed, tombstonesFit, marks, noted, gone, expired', kept, need) &&
    (need > 0 ==> marks[|marks| - 1] == |Order(t, Expirable(t, now))|)
  }

  lemma ExpiryStarts(t: Table, used: int, limit: int, now: Time, expired: Tombstones, pageNeed: nat -> int,
                     tombstonesFit: nat -> bool)
    ensures IsExpirySoFar(t, used, limit, now, expired, pageNeed, tombstonesFit, [0], 0, {}, expired, 0,
                          ReclaimNeed(pageNeed(0), used, limit))
  {
    hide Taken, Freed, Passed, Order, IsRound, AddTombstones, ReclaimNeed, Expirable;
    var eligible := Expirable(t, now);
    NothingDeleted(t, eligible);
    TombstonesGoOn(expired, {}, {}, now);
    assert Order(t, eligible)[..0] == [];
  }

  /** The candidates of a batch, taken after those before it. */
  lemma BatchGoesOn(t: Table, order: seq<string>, eligible: set<string>, from: nat, end: nat, n: nat)
    requires from <= end <= |order| && n <= end - from && forall id | id in order :: id in eligible
    ensures var gone, batch := Taken(t, order[..from], eligible), order[from..end];
            Taken(t, order[..from + n], eligible) == gone + Taken(t - gone, batch[..n], eligible) &&
            Freed(t, order[..from + n], eligible) ==
              Freed(t, order[..from], eligible) + Freed(t - gone, batch[..n], eligible) &&
            Passed(t, order[..from + n], eligible) ==
              Passed(t, order[..from], eligible) + Passed(t - gone, batch[..n], eligible)
  {
    var first, batch := order[..from], order[from..end];
    var gone := Taken(t, first, eligible);
    assert order[..from + n] == first + batch[..n];
    TakenThen(t, first, batch[..n], eligible);
    TakenEligible(t, first, eligible);
    PassedThen(t, gone, first, batch[..n], eligible);
    hide Taken, Passed;
    assert t - (gone + Taken(t - gone, batch[..n], eligible)) == t - gone - Taken(t - gone, batch[..n], eligible);
  }

  lemma {:induction false} PassedThen(t: Table, gone: set<string>, first: seq<string>, more: seq<string>,
                                      eligible: set<string>)
    requires gone <= eligible
    ensures Passed(t, first + more, eligible) == Passed(t, first, eligible) + Passed(t - gone, more, eligible)
    decreases |more|
  {
    hide IsProtected;
    if more == [] {
      assert first + more == first;
    } else {
      var rest, id := more[..|more| - 1], more[|more| - 1];
      PassedThen(t, gone, first, rest, eligible);
      ProtectedSame(t, gone, id, eligible);
      assert (first + more)[..|first + more| - 1] == first + rest;
    }
  }

  lemma TombstonesGoOn(expired: Tombstones, ids: set<string>, more: set<string>, now: Time)
    ensures AddTombstones(AddTombstones(expired, ids, now), more, now) == AddTombstones(expired, ids + more, now)
    ensures AddTombstones(expired, {}, now) == expired
  {
  }

  /** An object past its time that stays is read by one that is not. */
  ghost predicate AllPastProtected(t: Table, t': Table, now: Time) {
    forall id | id in t && id in t' && IsPast(t, id, now) ::
      exists r | r in t :: r in t' && t[r].ref == id && id != "" && !IsPast(t, r, now)
  }

  lemma ProtectedArePast(t: Table, t': Table, gone: set<string>, now: Time)
    requires t' == t - gone && gone <= Expirable(t, now)
    ensures forall id | id in gone :: IsPast(t, id, now)
    ensures (forall id | id in Expirable(t, now) && id in t' :: IsProtected(t, id, Expirable(t, now))) ==>
            AllPastProtected(t, t', now)
  {
    ListedExactly(t, now);
    hide IsPast, Expirable;
    var listed := Expirable(t, now);
    if forall id | id in listed && id in t' :: IsProtected(t, id, listed) {
      forall id | id in t && id in t' && IsPast(t, id, now)
        ensures exists r | r in t :: r in t' && t[r].ref == id && id != "" && !IsPast(t, r, now)
      {
        assert IsProtected(t, id, listed);
        var r :| r in t && r in Readers(t, id) && r !in listed;
        assert r in t';
      }
    }
  }

  /** Batches of the listed objects, oldest first, until enough is freed or none is left. When a batch leaves no
      page for its tombstones it is done again, and from then on, without them. */
  method ExpireObjects(h: Hashes, b: Books, limit: int, now: Time, expired: Tombstones, pageNeed: nat -> int,
                       tombstonesFit: nat -> bool, ghost recs: Recoveries)
    returns (b': Books, gone: set<string>, expired': Tombstones, kept: nat, need: int, ghost marks: seq<nat>,
             ghost noted: nat)
    requires Ideal(h) && Sound(h, b.t) && b.Balanced(recs)
    ensures Sound(h, b'.t) && b'.Balanced(recs) && b'.used <= b.used
    ensures IsSafeExpiry(b.t, b'.t, gone, Expirable(b.t, now))
    ensures forall id | id in gone :: IsPast(b.t, id, now)
    ensures IsExpiry(b.t, b.used, limit, now, expired, pageNeed, tombstonesFit, marks, noted, gone, expired', kept,
                     need)
    ensures marks != [] && need == ReclaimNeed(pageNeed(|marks| - 1), b'.used, limit)
    ensures ReclaimNeed(pageNeed(0), b.used, limit) == 0 ==> b' == b && gone == {}
    ensures need > 0 ==>
            forall id | id in Expirable(b.t, now) && id in b'.t :: IsProtected(b.t, id, Expirable(b.t, now))
    ensures need > 0 ==> AllPastProtected(b.t, b'.t, now)
    ensures expired'.Keys <= expired.Keys + gone &&
            forall id | id in expired :: id in expired' && expired'[id] == expired[id]
    ensures (forall k :: tombstonesFit(k)) ==> gone <= expired'.Keys
  {
    hide Sound, Scan, RowSize, MayExpire, IsProtected, Deleted, Closed, IsInOrder, Taken, Freed, Passed, Order, IsRound,
         AddTombstones, ReclaimNeed, IsExpirySoFar, Expirable, IsPast, AllPastProtected;
    b', gone, expired', kept := b, {}, expired, 0;
    NothingGone(b.t, Expirable(b.t, now));
    need := ReclaimNeed(pageNeed(0), b.used, limit);
    var eligible := Expirable(b.t, now);
    marks, noted := [0], 0;
    ExpiryStarts(b.t, b.used, limit, now, expired, pageNeed, tombstonesFit);
    ProtectedArePast(b.t, b'.t, gone, now);
    if need == 0 { return; }
    var candidates := InOrder(b.t, eligible);
    var next, round, tombstones := 0, 0, true;
    while next < |candidates| && need > 0
      invariant next <= |candidates|
      invariant Sound(h, b'.t) && b'.Balanced(recs) && b'.used <= b.used
      invariant IsSafeExpiry(b.t, b'.t, gone, eligible)
      invariant IsExpirySoFar(b.t, b.used, limit, now, expired, pageNeed, tombstonesFit, marks, noted, gone, expired',
                              kept, need)
      invariant need == ReclaimNeed(pageNeed(round), b'.used, limit)
      invariant |marks| == round + 1 && marks[round] == next && noted <= round && (tombstones <==> noted == round)
      decreases |candidates| - next
    {
      var end := if next + BATCH_SIZE < |candidates| then next + BATCH_SIZE else |candidates|;
      ListedPart(candidates, next, end);
      var batch := candidates[next..end];
      var after, consumed, removed, passed := ExpireBatch(h, b', batch, eligible, need, recs);
      if tombstones && !tombstonesFit(round) {
        tombstones := false;
        after, consumed, removed, passed := ExpireBatch(h, b', batch, eligible, need, recs);
      }
      ExpiryGoesOn(b.t, b'.t, gone, after.t, Listed(removed), eligible);
      DeletionSparesReaders(h, b'.t, Listed(removed));
      RoundGoesOn(b, b', after, limit, now, expired, pageNeed, tombstonesFit, marks, noted, gone, expired', kept, need,
                  candidates, next, end, consumed, Listed(removed), passed, tombstones, recs);
      if tombstones {
        expired', noted := AddTombstones(expired', Listed(removed), now), noted + 1;
      }
      b', gone, kept, next, round := after, gone + Listed(removed), kept + passed, next + consumed, round + 1;
      marks := marks + [next];
      need := ReclaimNeed(pageNeed(round), b'.used, limit);
    }
    ExpiryEnds(b.t, b.used, limit, now, expired, pageNeed, tombstonesFit, marks, noted, gone, expired', kept, need,
               candidates);
    ProtectedArePast(b.t, b'.t, gone, now);
  }

  /** What one batch does to a table: it takes candidates until enough is freed. */
  ghost predicate IsBatch(t: Table, batch: seq<string>, eligible: set<string>, need: int, consumed: nat,
                          removed: set<string>, kept: nat, freed: int)
  {
    0 < consumed <= |batch| && removed == Taken(t, batch[..consumed], eligible) &&
    kept == Passed(t, batch[..consumed], eligible) && freed == Freed(t, batch[..consumed], eligible) &&
    (consumed < |batch| ==> freed >= need) && Freed(t, batch[..consumed - 1], eligible) < need
  }

  /** One more round. */
  lemma RoundGoesOn(b: Books, b1: Books, b2: Books, limit: int, now: Time, expired: Tombstones, pageNeed: nat -> int,
                    tombstonesFit: nat -> bool, marks: seq<nat>, noted: nat, gone: set<string>, expired1: Tombstones,
                    kept: nat, need: int, order: seq<string>, next: nat, end: nat, consumed: nat, more: set<string>,
                    passed: nat, tombstones: bool, recs: Recoveries)
    requires b.Balanced(recs) && b1.Balanced(recs) && b1.t == b.t - gone && order == Order(b.t, Expirable(b.t, now))
    requires marks != [] && next == marks[|marks| - 1] && forall id | id in order :: id in Expirable(b.t, now)
    requires next < end <= |order| && (end == |order| || end == next + BATCH_SIZE) && end <= next + BATCH_SIZE &&
             need > 0
    requires IsBatch(b1.t, order[next..end], Expirable(b.t, now), need, consumed, more, passed, b1.used - b2.used)
    requires IsExpirySoFar(b.t, b.used, limit, now, expired, pageNeed, tombstonesFit, marks, noted, gone, expired1,
                           kept, need)
    requires if tombstones then noted == |marks| - 1 && tombstonesFit(noted)
             else noted < |marks| - 1 || !tombstonesFit(|marks| - 1)
    ensures IsExpirySoFar(b.t, b.used, limit, now, expired, pageNeed, tombstonesFit, marks + [next + consumed],
                          if tombstones then noted + 1 else noted, gone + more,
                          if tombstones then AddTombstones(expired1, more, now) else expired1, kept + passed,
                          ReclaimNeed(pageNeed(|marks|), b2.used, limit))
  {
    hide Scan, Taken, Freed, Passed, Order, IsRound, AddTombstones, ReclaimNeed, Expirable;
    var eligible, round := Expirable(b.t, now), |marks| - 1;
    var marks' := marks + [next + consumed];
    FreedIs(b, b1, order[..next], eligible, recs);
    BatchGoesOn(b.t, order, eligible, next, end, consumed);
    BatchGoesOn(b.t, order, eligible, next, end, consumed - 1);
    RoundIs(b.t, b.used, limit, order, eligible, pageNeed(round), next, next + consumed, need);
    TombstonesGoOn(expired, gone, more, now);
    forall r | 0 <= r <= round
      ensures IsRound(b.t, b.used, limit, order, eligible, pageNeed(r), marks'[r], marks'[r + 1])
    {
    }
  }

  /** At the end the listed objects that stay are protected, if more is needed. */
  lemma ExpiryEnds(t: Table, used: int, limit: int, now: Time, expired: Tombstones, pageNeed: nat -> int,
                   tombstonesFit: nat -> bool, marks: seq<nat>, noted: nat, gone: set<string>, expired': Tombstones,
                   kept: nat, need: int, order: seq<string>)
    requires IsExpirySoFar(t, used, limit, now, expired, pageNeed, tombstonesFit, marks, noted, gone, expired', kept,
                           need)
    requires order == Order(t, Expirable(t, now)) && Listed(order) == Expirable(t, now)
    requires need > 0 ==> marks[|marks| - 1] == |order|
    ensures need > 0 ==> forall id | id in Expirable(t, now) && id in t - gone :: IsProtected(t, id, Expirable(t, now))
    ensures expired'.Keys <= expired.Keys + gone &&
            forall id | id in expired :: id in expired' && expired'[id] == expired[id]
    ensures (forall k :: tombstonesFit(k)) ==> gone <= expired'.Keys
  {
    hide Taken, Freed, Passed, Order, IsRound, AddTombstones, ReclaimNeed, Expirable, IsProtected;
    var eligible, last := Expirable(t, now), marks[|marks| - 1];
    ExpiryIsComplete(t, order, eligible);
    assert order[..|order|] == order;
    TakenGrows(t, order, marks[noted], last, eligible);
    TombstonesAre(expired, Taken(t, order[..marks[noted]], eligible), now);
    assert forall id | id in eligible :: id in order by { assert forall id | id in Listed(order) :: id in order; }
  }

  lemma RoundIs(t: Table, used: int, limit: int, order: seq<string>, eligible: set<string>, pages: int, from: nat,
                to: nat, need: int)
    requires from < to <= |order| && to <= from + BATCH_SIZE
    requires need == ReclaimNeed(pages, used - Freed(t, order[..from], eligible), limit) > 0
    requires Freed(t, order[..to - 1], eligible) - Freed(t, order[..from], eligible) < need
    requires to == |order| || to == from + BATCH_SIZE ||
             Freed(t, order[..to], eligible) - Freed(t, order[..from], eligible) >= need
    ensures IsRound(t, used, limit, order, eligible, pages, from, to)
  {
  }

  /** Of all candidates only protected ones stay. */
  lemma ExpiryIsComplete(t: Table, order: seq<string>, eligible: set<string>)
    ensures forall id | id in order && id in t && id !in Taken(t, order, eligible) :: IsProtected(t, id, eligible)
  {
    hide IsProtected;
    forall id | id in order && id in t && id !in Taken(t, order, eligible) ensures IsProtected(t, id, eligible) {
      assert !IsTaken(t, order, eligible, id);
    }
  }

  lemma TakenGrows(t: Table, order: seq<string>, i: nat, j: nat, eligible: set<string>)
    requires i <= j <= |order|
    ensures Taken(t, order[..i], eligible) <= Taken(t, order[..j], eligible)
  {
    hide IsProtected;
    assert forall id | id in order[..i] :: id in order[..j];
  }

  lemma TombstonesAre(expired: Tombstones, ids: set<string>, now: Time)
    ensures AddTombstones(expired, ids, now).Keys == expired.Keys + ids
    ensures forall id | id in expired :: AddTombstones(expired, ids, now)[id] == expired[id]
  {
  }

  lemma NothingGone(t: Table, listed: set<string>)
    ensures IsSafeExpiry(t, t, {}, listed)
  {
  }
}
