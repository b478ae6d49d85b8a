/** The payload a store retains: recoveries, their upsert rule, and the total that the budget counts. */
module StorageUsage {
  import opened GoText
  import opened RecoveryObjects
  import opened ObjectTable

  /** One recovery. Metadata that is absent counts and behaves as empty metadata. */
  datatype Recovery = Recovery(contentType: string, compressor: string, tokensBefore: int, tokensAfter: int,
                               original: Bytes, metadata: Bytes)

  type Recoveries = map<string, Recovery>

  /* ---- Upsert ---- */

  /** What a second put of the same handle keeps: known token counts and the metadata that came first. */
  function Merged(past: Recovery, rec: Recovery): Recovery {
    var keep := rec.tokensBefore == 0 && past.tokensBefore > 0;
    Recovery(if keep then past.contentType else rec.contentType,
             if keep then past.compressor else rec.compressor,
             if keep then past.tokensBefore else rec.tokensBefore,
             if keep then past.tokensAfter else rec.tokensAfter,
             rec.original, if past.metadata == [] then rec.metadata else past.metadata)
  }

  function PutRecovery(h: Hashes, recs: Recoveries, rec: Recovery): Recoveries {
    var handle := Handle(h, rec.original);
    recs[handle := if handle in recs then Merged(recs[handle], rec) else rec]
  }

  /** Every recovery stands under the handle of its own bytes. */
  predicate IsTrue(h: Hashes, recs: Recoveries) {
    forall k | k in recs :: Handle(h, recs[k].original) == k
  }

  predicate Holds(recs: Recoveries, handle: string, original: Bytes) {
    handle in recs && recs[handle].original == original
  }

  /** A put keeps every recovery that is held, its own included, and stores the bytes it was given. */
  lemma PutKeepsOriginals(h: Hashes, recs: Recoveries, rec: Recovery, handle: string, original: Bytes)
    requires Ideal(h) && IsTrue(h, recs)
    ensures IsTrue(h, PutRecovery(h, recs, rec))
    ensures Holds(PutRecovery(h, recs, rec), Handle(h, rec.original), rec.original)
    ensures Holds(recs, handle, original) ==> Holds(PutRecovery(h, recs, rec), handle, original)
  {
    hide Handle;
    if Holds(recs, handle, original) && handle == Handle(h, rec.original) {
      HandleNamesOriginal(h, original, rec.original);
    }
  }

  /** An undamaged row holds the bytes that its handle names. */
  lemma TrueRowIsOriginal(h: Hashes, recs: Recoveries, original: Bytes)
    requires Ideal(h) && IsTrue(h, recs)
    ensures var handle := Handle(h, original); handle in recs ==> recs[handle].original == original
  {
    hide Handle;
    var handle := Handle(h, original);
    if handle in recs { HandleNamesOriginal(h, recs[handle].original, original); }
  }

  /** What the in-memory store keeps of a recovery. */
  datatype PlainRecovery = PlainRecovery(contentType: string, tokensBefore: int, tokensAfter: int, original: Bytes,
                                         metadata: Bytes)

  type PlainRecoveries = map<string, PlainRecovery>

  /** The put of the in-memory store, which fills in what is known before it writes. */
  function PutInMemory(h: Hashes, p: PlainRecoveries, rec: Recovery): PlainRecoveries {
    var handle := Handle(h, rec.original);
    var present := handle in p;
    var metadata := if present && |p[handle].metadata| > 0 then p[handle].metadata else rec.metadata;
    var filled := if present && rec.tokensBefore == 0 && p[handle].tokensBefore > 0
      then rec.(contentType := p[handle].contentType, tokensBefore := p[handle].tokensBefore,
                tokensAfter := p[handle].tokensAfter)
      else rec;
    p[handle := PlainRecovery(filled.contentType, filled.tokensBefore, filled.tokensAfter, rec.original, metadata)]
  }

  function InMemory(recs: Recoveries): PlainRecoveries {
    map k | k in recs ::
      PlainRecovery(recs[k].contentType, recs[k].tokensBefore, recs[k].tokensAfter, recs[k].original, recs[k].metadata)
  }

  /** The upsert of the database and the put of the in-memory store are the same function of what both keep. */
  lemma UpsertIsInMemoryPut(h: Hashes, recs: Recoveries, rec: Recovery)
    ensures InMemory(PutRecovery(h, recs, rec)) == PutInMemory(h, InMemory(recs), rec)
  {
    hide Handle;
    var a, b := InMemory(PutRecovery(h, recs, rec)), PutInMemory(h, InMemory(recs), rec);
    assert a.Keys == b.Keys;
    forall k | k in a ensures a[k] == b[k] {}
  }

  /* ---- Totals ---- */

  ghost function Total(m: map<string, int>): int
    decreases |m|
  {
    if m == map[] then 0 else
      var k :| k in m;
      m[k] + Total(m - {k})
  }

  lemma {:induction false} TotalTake(m: map<string, int>, k: string)
    requires k in m
    ensures Total(m) == m[k] + Total(m - {k})
    decreases |m|
  {
    var first :| first in m && Total(m) == m[first] + Total(m - {first});
    if first != k {
      TotalTake(m - {first}, k);
      TotalTake(m - {k}, first);
      assert m - {first} - {k} == m - {k} - {first};
    }
  }

  /** Writing one entry changes the total by the difference. */
  lemma TotalWrite(m: map<string, int>, k: string, n: int)
    ensures Total(m[k := n]) == Total(m) - (if k in m then m[k] else 0) + n
  {
    TotalTake(m[k := n], k);
    assert m[k := n] - {k} == m - {k};
    if k in m { TotalTake(m, k); } else { assert m - {k} == m; }
  }

  lemma TotalDrop(m: map<string, int>, k: string)
    ensures Total(m - {k}) == Total(m) - (if k in m then m[k] else 0)
  {
    if k in m { TotalTake(m, k); } else { assert m - {k} == m; }
  }

  function RecoverySize(rec: Recovery): nat {
    |rec.original| + |rec.metadata|
  }

  /** SQL counts the bytes of the data and the characters of the dependencies. */
  function RowSize(row: Row): nat {
    |row.obj.data| + |DepsJson(row.obj.deps)|
  }

  function RecoverySizes(recs: Recoveries): map<string, int> {
    map k | k in recs :: RecoverySize(recs[k])
  }

  function RowSizes(t: Table): map<string, int> {
    map k | k in t :: RowSize(t[k])
  }

  /** The full-table scan. */
  ghost function Scan(recs: Recoveries, t: Table): int {
    Total(RecoverySizes(recs)) + Total(RowSizes(t))
  }

  lemma ScanPutRecovery(recs: Recoveries, t: Table, k: string, rec: Recovery)
    ensures Scan(recs[k := rec], t) ==
            Scan(recs, t) - (if k in recs then RecoverySize(recs[k]) else 0) + RecoverySize(rec)
  {
    hide Total;
    assert RecoverySizes(recs[k := rec]) == RecoverySizes(recs)[k := RecoverySize(rec)];
    TotalWrite(RecoverySizes(recs), k, RecoverySize(rec));
  }

  lemma ScanPutRow(recs: Recoveries, t: Table, k: string, row: Row)
    ensures Scan(recs, t[k := row]) == Scan(recs, t) - (if k in t then RowSize(t[k]) else 0) + RowSize(row)
  {
    hide Total, RowSize;
    assert RowSizes(t[k := row]) == RowSizes(t)[k := RowSize(row)];
    TotalWrite(RowSizes(t), k, RowSize(row));
  }

  lemma ScanDeleteRow(recs: Recoveries, t: Table, k: string)
    ensures Scan(recs, t - {k}) == Scan(recs, t) - (if k in t then RowSize(t[k]) else 0)
  {
    hide Total, RowSize;
    assert RowSizes(t - {k}) == RowSizes(t) - {k};
    TotalDrop(RowSizes(t), k);
  }

  /* ---- The budget ---- */

  /** The room a put of a recovery is checked against. */
  predicate RecoveryFits(h: Hashes, recs: Recoveries, used: int, limit: int, rec: Recovery) {
    var handle := Handle(h, rec.original);
    used - (if handle in recs then RecoverySize(recs[handle]) else 0) + RecoverySize(rec) <= limit
  }

  /** After a put the store is within the budget exactly when the put fits, or, where older metadata stays, when the
      bytes alone fit in the place of the bytes they replace. */
  lemma PutBudgetExactly(h: Hashes, recs: Recoveries, t: Table, limit: int, rec: Recovery)
    ensures var handle := Handle(h, rec.original);
            Scan(PutRecovery(h, recs, rec), t) <= limit <==>
            if handle in recs && recs[handle].metadata != []
            then Scan(recs, t) - |recs[handle].original| + |rec.original| <= limit
            else RecoveryFits(h, recs, Scan(recs, t), limit, rec)
  {
    hide Handle, Scan;
    ScanPutRecovery(recs, t, Handle(h, rec.original), PutRecovery(h, recs, rec)[Handle(h, rec.original)]);
  }

  /** A put that fits stays within the budget whenever the row under its handle, if there is one, is no shorter than
      the bytes it gets: on an undamaged row they are the same bytes. */
  lemma PutStaysInBudget(h: Hashes, recs: Recoveries, t: Table, limit: int, rec: Recovery)
    requires var handle := Handle(h, rec.original);
             handle in recs ==> |rec.original| <= |recs[handle].original|
    requires Scan(recs, t) <= limit && RecoveryFits(h, recs, Scan(recs, t), limit, rec)
    ensures Scan(PutRecovery(h, recs, rec), t) <= limit
  {
    hide Handle, Scan;
    PutBudgetExactly(h, recs, t, limit, rec);
  }

  /** The room a put of an object is checked against, where the dependencies count in bytes. */
  predicate RowFits(t: Table, used: int, limit: int, id: string, row: Row) {
    used - (if id in t then RowSize(t[id]) else 0) + |row.obj.data| + ByteLength(DepsJson(row.obj.deps)) <= limit
  }

  lemma RowStaysInBudget(recs: Recoveries, t: Table, limit: int, id: string, row: Row)
    requires RowFits(t, Scan(recs, t), limit, id, row)
    ensures Scan(recs, t[id := row]) <= limit
  {
    hide Scan, DepsJson, ByteLength;
    ScanPutRow(recs, t, id, row);
    BytesBound(DepsJson(row.obj.deps));
  }

  /** On a damaged row the check is too weak: bytes under a handle that is not theirs are replaced, while the
      longer metadata stays, so the total passes the budget. */
  lemma DamagedRowPassesBudget(h: Hashes)
    ensures var rec := Recovery("", "", 1, 1, [7, 7], []);
            var handle := Handle(h, rec.original);
            var recs := map[handle := Recovery("", "", 1, 1, [], [1, 2, 3])];
            Scan(recs, map[]) == 3 && RecoveryFits(h, recs, 3, 3, rec) && Scan(PutRecovery(h, recs, rec), map[]) == 5
  {
    var rec := Recovery("", "", 1, 1, [7, 7], []);
    var handle := Handle(h, rec.original);
    var past := Recovery("", "", 1, 1, [], [1, 2, 3]);
    var recs := map[handle := past];
    var none: Recoveries := map[];
    var rows: Table := map[];
    assert RecoverySizes(none) == map[] && RowSizes(rows) == map[];
    assert Scan(none, rows) == 0;
    hide Scan, Handle;
    ScanPutRecovery(none, rows, handle, past);
    assert none[handle := past] == recs;
    ScanPutRecovery(recs, rows, handle, Merged(past, rec));
  }
}
