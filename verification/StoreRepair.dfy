/**
 Rebuilding a damaged store: every row that any path still reads is judged once, by the bytes it holds. What a
 damaged database answers is an input: the rows of the table scans in order, the keys its index lists, and the row
 that a lookup by key finds.
 */
module StoreRepair {
  import opened GoText
  import opened RecoveryObjects
  import opened ObjectTable
  import opened StorageUsage

  /** One record as the damaged database gives it. */
  datatype Raw<T> = Garbled | Readable(id: string, row: T)

  /** Whether a row is carried over, dropped, or waits until the full rows are there. */
  datatype Verdict = Keep | Drop | Hold

  datatype Rescue<T> = Rescue(seen: set<string>, rebuilt: map<string, T>, held: seq<T>, heldIds: seq<string>,
                              dropped: nat, unreadable: nat)
  {
    function Kept(): nat { |rebuilt| }

    /** Every id seen was kept, dropped or held back, exactly once. */
    predicate Adds() {
      |seen| == |rebuilt| + dropped + |held| && rebuilt.Keys <= seen && |heldIds| == |held| &&
      (forall i | 0 <= i < |heldIds| :: heldIds[i] in seen && heldIds[i] !in rebuilt) &&
      forall i, j | 0 <= i < j < |heldIds| :: heldIds[i] != heldIds[j]
    }
  }

  function Nothing<T>(): (s: Rescue<T>)
    ensures s.Adds()
  {
    Rescue({}, map[], [], [], 0, 0)
  }

  type Judge<!T> = (string, T) -> Verdict

  function Visit<T>(judge: Judge<T>, s: Rescue<T>, raw: Raw<T>): Rescue<T> {
    if raw.Garbled? || raw.id in s.seen then s
    else
      var t := s.(seen := s.seen + {raw.id});
      match judge(raw.id, raw.row)
      case Keep => t.(rebuilt := s.rebuilt[raw.id := raw.row])
      case Drop => t.(dropped := s.dropped + 1)
      case Hold => t.(held := s.held + [raw.row], heldIds := s.heldIds + [raw.id])
  }

  /** The rows of the table scans, in the order in which they are read. */
  function VisitAll<T>(judge: Judge<T>, s: Rescue<T>, rows: seq<Raw<T>>): Rescue<T>
    decreases |rows|
  {
    if rows == [] then s else VisitAll(judge, Visit(judge, s, rows[0]), rows[1..])
  }

  /** One key that no scan reached: its row, or one more unreadable id. */
  function Fetch<T>(judge: Judge<T>, s: Rescue<T>, key: string, fetch: string -> Raw<T>): Rescue<T> {
    if key in s.seen then s
    else
      var t := Visit(judge, s, fetch(key));
      if t.seen == s.seen then t.(unreadable := s.unreadable + 1) else t
  }

  function FetchAll<T>(judge: Judge<T>, s: Rescue<T>, keys: seq<string>, fetch: string -> Raw<T>): Rescue<T>
    decreases |keys|
  {
    if keys == [] then s else FetchAll(judge, Fetch(judge, s, keys[0], fetch), keys[1..], fetch)
  }

  function Salvage<T>(judge: Judge<T>, rows: seq<Raw<T>>, keys: seq<string>, fetch: string -> Raw<T>): Rescue<T> {
    FetchAll(judge, VisitAll(judge, Nothing(), rows), keys, fetch)
  }

  /* ---- Counting ---- */

  lemma KeepAdds<T>(s: Rescue<T>, id: string, row: T)
    requires s.Adds() && id !in s.seen
    ensures s.(seen := s.seen + {id}, rebuilt := s.rebuilt[id := row]).Adds()
    ensures s.(seen := s.seen + {id}, dropped := s.dropped + 1).Adds()
  {
    var t := s.(seen := s.seen + {id}, rebuilt := s.rebuilt[id := row]);
    assert t.rebuilt.Keys == s.rebuilt.Keys + {id};
    assert |t.rebuilt| == |t.rebuilt.Keys| == |s.rebuilt.Keys| + 1;
  }

  lemma HoldAdds<T>(s: Rescue<T>, id: string, row: T)
    requires s.Adds() && id !in s.seen
    ensures s.(seen := s.seen + {id}, held := s.held + [row], heldIds := s.heldIds + [id]).Adds()
  {
    assert id !in s.rebuilt;
  }

  lemma VisitAdds<T>(judge: Judge<T>, s: Rescue<T>, raw: Raw<T>)
    requires s.Adds()
    ensures Visit(judge, s, raw).Adds() && s.seen <= Visit(judge, s, raw).seen
    ensures Visit(judge, s, raw).unreadable == s.unreadable
    ensures Visit(judge, s, raw).seen == if raw.Garbled? then s.seen else s.seen + {raw.id}
  {
    hide Rescue.Adds;
    if raw.Readable? {
      if raw.id in s.seen {
        assert s.seen + {raw.id} == s.seen;
      } else {
        KeepAdds(s, raw.id, raw.row);
        HoldAdds(s, raw.id, raw.row);
      }
    }
  }

  lemma {:induction false} VisitAllAdds<T>(judge: Judge<T>, s: Rescue<T>, rows: seq<Raw<T>>)
    requires s.Adds()
    ensures VisitAll(judge, s, rows).Adds() && s.seen <= VisitAll(judge, s, rows).seen
    ensures VisitAll(judge, s, rows).unreadable == s.unreadable
    decreases |rows|
  {
    hide Visit;
    if rows != [] {
      VisitAdds(judge, s, rows[0]);
      VisitAllAdds(judge, Visit(judge, s, rows[0]), rows[1..]);
    }
  }

  lemma FetchAdds<T>(judge: Judge<T>, s: Rescue<T>, key: string, fetch: string -> Raw<T>)
    requires s.Adds()
    ensures Fetch(judge, s, key, fetch).Adds()
  {
    hide Visit;
    VisitAdds(judge, s, fetch(key));
  }

  lemma {:induction false} FetchAllAdds<T>(judge: Judge<T>, s: Rescue<T>, keys: seq<string>, fetch: string -> Raw<T>)
    requires s.Adds()
    ensures FetchAll(judge, s, keys, fetch).Adds()
    decreases |keys|
  {
    hide Fetch;
    if keys != [] {
      FetchAdds(judge, s, keys[0], fetch);
      FetchAllAdds(judge, Fetch(judge, s, keys[0], fetch), keys[1..], fetch);
    }
  }

  /* ---- What is read, and what becomes of it ---- */

  /** The first row that a table scan reads under an id. */
  function Scanned<T>(rows: seq<Raw<T>>, id: string): Option<T>
    decreases |rows|
  {
    if rows == [] then None
    else if rows[0].Readable? && rows[0].id == id then Some(rows[0].row)
    else Scanned(rows[1..], id)
  }

  function ScannedIds<T>(rows: seq<Raw<T>>): set<string> {
    set i | 0 <= i < |rows| && rows[i].Readable? :: rows[i].id
  }

  /** The rows that lookups by key give, when some ids were already seen: one for each listed key not seen until
      then. */
  function Lookups<T>(seen: set<string>, keys: seq<string>, fetch: string -> Raw<T>): seq<Raw<T>>
    decreases |keys|
  {
    if keys == [] then []
    else if keys[0] in seen then Lookups(seen, keys[1..], fetch)
    else
      var raw := fetch(keys[0]);
      [raw] + Lookups(if raw.Readable? then seen + {raw.id} else seen, keys[1..], fetch)
  }

  /** What any path reads under an id: the first row that a scan or, after the scans, a lookup gives. */
  function Reading<T>(rows: seq<Raw<T>>, keys: seq<string>, fetch: string -> Raw<T>, id: string): Option<T> {
    Scanned(rows + Lookups(ScannedIds(rows), keys, fetch), id)
  }

  /** The first reading of an id decides: without one nothing is known of it, with one it goes where it was judged
      to. */
  ghost predicate IsJudgedBy<T>(judge: Judge<T>, s: Rescue<T>, id: string, reading: Option<T>) {
    (id in s.seen <==> reading.Some?) &&
    (id in s.rebuilt <==> reading.Some? && judge(id, reading.value) == Keep) &&
    (id in s.rebuilt ==> s.rebuilt[id] == reading.value) &&
    (id in s.heldIds <==> reading.Some? && judge(id, reading.value) == Hold) &&
    |s.heldIds| == |s.held| && forall i | 0 <= i < |s.heldIds| && s.heldIds[i] == id :: s.held[i] == reading.value
  }

  /** A first reading is judged, and later ones change nothing. */
  lemma VisitJudges<T>(judge: Judge<T>, s: Rescue<T>, raw: Raw<T>, id: string, past: Option<T>)
    requires IsJudgedBy(judge, s, id, past)
    ensures IsJudgedBy(judge, Visit(judge, s, raw), id,
                       if past.Some? then past else if raw.Readable? && raw.id == id then Some(raw.row) else None)
  {
  }

  lemma {:induction false} ScanJudges<T>(judge: Judge<T>, s: Rescue<T>, rows: seq<Raw<T>>, id: string, past: Option<T>)
    requires IsJudgedBy(judge, s, id, past)
    ensures IsJudgedBy(judge, VisitAll(judge, s, rows), id, if past.Some? then past else Scanned(rows, id))
    decreases |rows|
  {
    hide Visit, IsJudgedBy;
    if rows != [] {
      var raw := rows[0];
      VisitJudges(judge, s, raw, id, past);
      ScanJudges(judge, Visit(judge, s, raw), rows[1..], id,
                 if past.Some? then past else if raw.Readable? && raw.id == id then Some(raw.row) else None);
    }
  }

  lemma {:induction false} LookupsJudge<T>(judge: Judge<T>, s: Rescue<T>, keys: seq<string>, fetch: string -> Raw<T>,
                                           id: string, past: Option<T>)
    requires s.Adds() && IsJudgedBy(judge, s, id, past)
    ensures IsJudgedBy(judge, FetchAll(judge, s, keys, fetch), id,
                       if past.Some? then past else Scanned(Lookups(s.seen, keys, fetch), id))
    decreases |keys|
  {
    hide Visit, Rescue.Adds;
    if keys != [] {
      var raw, t := fetch(keys[0]), Fetch(judge, s, keys[0], fetch);
      VisitAdds(judge, s, raw);
      FetchAdds(judge, s, keys[0], fetch);
      VisitJudges(judge, s, raw, id, past);
      var next := if keys[0] !in s.seen && past.None? && raw.Readable? && raw.id == id then Some(raw.row) else past;
      LookupsJudge(judge, t, keys[1..], fetch, id, next);
      if keys[0] !in s.seen {
        var more := Lookups(t.seen, keys[1..], fetch);
        assert Lookups(s.seen, keys, fetch) == [raw] + more && ([raw] + more)[1..] == more;
      }
    }
  }

  lemma {:induction false} ScannedAre<T>(rows: seq<Raw<T>>, id: string)
    ensures Scanned(rows, id).Some? <==> id in ScannedIds(rows)
    decreases |rows|
  {
    if rows != [] {
      ScannedAre(rows[1..], id);
      if id in ScannedIds(rows) && !(rows[0].Readable? && rows[0].id == id) {
        var i :| 0 <= i < |rows| && rows[i].Readable? && rows[i].id == id;
        assert rows[1..][i - 1] == rows[i];
      }
    }
  }

  lemma {:induction false} ScannedFirst<T>(rows: seq<Raw<T>>, more: seq<Raw<T>>, id: string)
    ensures Scanned(rows + more, id) == if Scanned(rows, id).Some? then Scanned(rows, id) else Scanned(more, id)
    decreases |rows|
  {
    if rows == [] {
      assert rows + more == more;
    } else {
      assert (rows + more)[1..] == rows[1..] + more;
      ScannedFirst(rows[1..], more, id);
    }
  }

  /** After the scans exactly the ids of their rows are seen. */
  lemma ScansSee<T>(judge: Judge<T>, rows: seq<Raw<T>>)
    ensures VisitAll(judge, Nothing(), rows).Adds() && VisitAll(judge, Nothing(), rows).seen == ScannedIds(rows)
  {
    assert Nothing<T>().Adds();
    VisitAllAdds(judge, Nothing<T>(), rows);
    forall k ensures k in VisitAll(judge, Nothing(), rows).seen <==> k in ScannedIds(rows) {
      ScanJudges(judge, Nothing<T>(), rows, k, None);
      ScannedAre(rows, k);
    }
  }

  /** The first reading of an id decides, whichever path gives it: if it verifies it is carried over as it was read, if
      it fails the id is dropped, whatever later readings hold, and nothing is carried over that was not read. */
  lemma FirstReadingDecides<T>(judge: Judge<T>, rows: seq<Raw<T>>, keys: seq<string>, fetch: string -> Raw<T>,
                               id: string)
    ensures IsJudgedBy(judge, Salvage(judge, rows, keys, fetch), id, Reading(rows, keys, fetch, id))
  {
    assert IsJudgedBy(judge, Nothing<T>(), id, None);
    hide IsJudgedBy, Rescue.Adds;
    ScansSee(judge, rows);
    ScanJudges(judge, Nothing<T>(), rows, id, None);
    LookupsJudge(judge, VisitAll(judge, Nothing(), rows), keys, fetch, id, Scanned(rows, id));
    ScannedFirst(rows, Lookups(ScannedIds(rows), keys, fetch), id);
  }

  /** A lookup by key finds no row that carries another id. */
  ghost predicate InStep<T(!new)>(fetch: string -> Raw<T>) {
    forall k :: fetch(k).Readable? ==> fetch(k).id == k
  }

  lemma {:induction false} LookupsInStep<T(!new)>(seen: set<string>, keys: seq<string>, fetch: string -> Raw<T>,
                                           id: string)
    requires InStep(fetch) && id !in seen
    ensures Scanned(Lookups(seen, keys, fetch), id) ==
            if id in keys && fetch(id).Readable? then Some(fetch(id).row) else None
    decreases |keys|
  {
    if keys != [] {
      var raw := fetch(keys[0]);
      if keys[0] in seen {
        LookupsInStep(seen, keys[1..], fetch, id);
      } else {
        var more := Lookups(if raw.Readable? then seen + {raw.id} else seen, keys[1..], fetch);
        assert ([raw] + more)[1..] == more;
        if !(raw.Readable? && raw.id == id) {
          LookupsInStep(if raw.Readable? then seen + {raw.id} else seen, keys[1..], fetch, id);
        }
      }
    }
  }

  /** A row that no scan reaches is read through its key when the index lists it and is in step. */
  lemma ListedRowIsRead<T(!new)>(rows: seq<Raw<T>>, keys: seq<string>, fetch: string -> Raw<T>, id: string)
    ensures Scanned(rows, id).Some? ==> Reading(rows, keys, fetch, id) == Scanned(rows, id)
    ensures Scanned(rows, id).None? && InStep(fetch) ==>
              Reading(rows, keys, fetch, id) == if id in keys && fetch(id).Readable? then Some(fetch(id).row) else None
  {
    hide InStep;
    ScannedFirst(rows, Lookups(ScannedIds(rows), keys, fetch), id);
    ScannedAre(rows, id);
    if Scanned(rows, id).None? && InStep(fetch) { LookupsInStep(ScannedIds(rows), keys, fetch, id); }
  }

  /* ---- What is counted ---- */

  /** The listed keys, repeats included, whose row neither a scan nor their own lookup reads. */
  function Unread<T>(rows: seq<Raw<T>>, keys: seq<string>, fetch: string -> Raw<T>): seq<string>
    decreases |keys|
  {
    if keys == [] then []
    else
      var rest := Unread(rows, keys[1..], fetch);
      if Scanned(rows, keys[0]).None? && fetch(keys[0]).Garbled? then [keys[0]] + rest else rest
  }

  lemma {:induction false} UnreadAre<T>(rows: seq<Raw<T>>, keys: seq<string>, fetch: string -> Raw<T>, k: string)
    ensures k in Unread(rows, keys, fetch) <==> k in keys && Scanned(rows, k).None? && fetch(k).Garbled?
    decreases |keys|
  {
    if keys != [] { UnreadAre(rows, keys[1..], fetch, k); }
  }

  /** What is seen so far: everything that was scanned, and otherwise only what lookups found. */
  ghost predicate IsSeen<T>(s: Rescue<T>, rows: seq<Raw<T>>, fetch: string -> Raw<T>) {
    forall k :: (Scanned(rows, k).Some? ==> k in s.seen) &&
      (k in s.seen ==> Scanned(rows, k).Some? || fetch(k).Readable?)
  }

  lemma FetchCounts<T(!new)>(judge: Judge<T>, s: Rescue<T>, rows: seq<Raw<T>>, key: string, fetch: string -> Raw<T>)
    requires s.Adds() && InStep(fetch) && IsSeen(s, rows, fetch)
    ensures var t := Fetch(judge, s, key, fetch);
            IsSeen(t, rows, fetch) &&
            t.unreadable == s.unreadable + (if Scanned(rows, key).None? && fetch(key).Garbled? then 1 else 0)
  {
    hide Visit, Scanned;
    VisitAdds(judge, s, fetch(key));
  }

  lemma {:induction false} UnreadCount<T(!new)>(judge: Judge<T>, s: Rescue<T>, rows: seq<Raw<T>>, keys: seq<string>,
                                                fetch: string -> Raw<T>)
    requires s.Adds() && InStep(fetch) && IsSeen(s, rows, fetch)
    ensures FetchAll(judge, s, keys, fetch).unreadable == s.unreadable + |Unread(rows, keys, fetch)|
    decreases |keys|
  {
    hide Fetch, Scanned, IsSeen, InStep, Rescue.Adds;
    if keys != [] {
      FetchAdds(judge, s, keys[0], fetch);
      FetchCounts(judge, s, rows, keys[0], fetch);
      UnreadCount(judge, Fetch(judge, s, keys[0], fetch), rows, keys[1..], fetch);
    }
  }

  /** A list names as many ids as it is long exactly when it names none twice. */
  lemma {:induction false} DistinctCounts(ids: seq<string>)
    ensures |Listed(ids)| <= |ids| && (|Listed(ids)| == |ids| <==> IsDistinct(ids))
    decreases |ids|
  {
    if ids != [] {
      var first, rest := ids[0], ids[1..];
      DistinctCounts(rest);
      assert Listed(ids) == Listed(rest) + {first};
      if first in rest {
        var j: nat :| j < |rest| && rest[j] == first;
        assert ids[j + 1] == ids[0] && Listed(ids) == Listed(rest);
      } else {
        assert first !in Listed(rest);
        assert IsDistinct(rest) ==> IsDistinct(ids);
        assert IsDistinct(ids) ==> IsDistinct(rest) by {
          assert forall j | 0 <= j < |rest| :: rest[j] == ids[j + 1];
        }
      }
    }
  }

  /** Every id seen is counted exactly once: kept, dropped, or held back for its owner. With an index that is in step,
      every listing of a key that no path reads counts as unreadable, so each id that any path names is counted exactly
      once if and only if no such key is listed twice. */
  lemma EachIdCountsOnce<T(!new)>(judge: Judge<T>, rows: seq<Raw<T>>, keys: seq<string>, fetch: string -> Raw<T>)
    ensures var r := Salvage(judge, rows, keys, fetch); r.Adds()
    ensures InStep(fetch) ==>
              var r := Salvage(judge, rows, keys, fetch);
              r.unreadable == |Unread(rows, keys, fetch)| &&
              (|r.seen + Listed(keys)| == r.Kept() + r.dropped + |r.held| + r.unreadable <==>
               IsDistinct(Unread(rows, keys, fetch)))
  {
    hide InStep, IsDistinct, Unread, Rescue.Adds;
    ScansSee(judge, rows);
    FetchAllAdds(judge, VisitAll(judge, Nothing(), rows), keys, fetch);
    CountIsSeen(Salvage(judge, rows, keys, fetch));
    if InStep(fetch) { CountsInStep(judge, rows, keys, fetch); }
  }

  lemma UnreadStaysUnseen<T(!new)>(judge: Judge<T>, rows: seq<Raw<T>>, keys: seq<string>, fetch: string -> Raw<T>,
                            k: string)
    requires InStep(fetch)
    ensures k in Unread(rows, keys, fetch) <==> k in keys && k !in Salvage(judge, rows, keys, fetch).seen
  {
    hide InStep, Reading, Salvage, Scanned, Unread;
    FirstReadingDecides(judge, rows, keys, fetch, k);
    ListedRowIsRead(rows, keys, fetch, k);
    UnreadAre(rows, keys, fetch, k);
  }

  lemma CountsInStep<T(!new)>(judge: Judge<T>, rows: seq<Raw<T>>, keys: seq<string>, fetch: string -> Raw<T>)
    requires InStep(fetch)
    ensures var r := Salvage(judge, rows, keys, fetch);
            r.unreadable == |Unread(rows, keys, fetch)| &&
            (|r.seen + Listed(keys)| == |r.seen| + r.unreadable <==> IsDistinct(Unread(rows, keys, fetch)))
  {
    hide InStep, IsDistinct, Rescue.Adds, Visit, FetchAll, Scanned, Unread;
    var r, unread := Salvage(judge, rows, keys, fetch), Unread(rows, keys, fetch);
    ScansSee(judge, rows);
    VisitAllAdds(judge, Nothing<T>(), rows);
    forall k ensures k in VisitAll(judge, Nothing(), rows).seen <==> Scanned(rows, k).Some? { ScannedAre(rows, k); }
    UnreadCount(judge, VisitAll(judge, Nothing(), rows), rows, keys, fetch);
    DistinctCounts(unread);
    forall k ensures k in unread <==> k in keys && k !in r.seen { UnreadStaysUnseen(judge, rows, keys, fetch, k); }
    assert r.seen + Listed(keys) == r.seen + Listed(unread) && r.seen !! Listed(unread);
  }

  /** An index that lists an unreadable key twice counts it twice. */
  lemma RepeatedKeyCountsTwice<T(!new)>(judge: Judge<T>, fetch: string -> Raw<T>)
    requires fetch("k") == Garbled
    ensures Salvage(judge, [], ["k", "k"], fetch).unreadable == 2
  {
    var s0: Rescue<T> := Nothing();
    var keys := ["k", "k"];
    assert keys[1..] == ["k"] && ["k"][1..] == [];
    var s1 := Fetch(judge, s0, "k", fetch);
    var s2 := Fetch(judge, s1, "k", fetch);
    assert FetchAll(judge, s1, ["k"], fetch) == FetchAll(judge, s2, [], fetch);
  }

  /* ---- What is kept ---- */

  ghost predicate AllJudged<T>(judge: Judge<T>, s: Rescue<T>) {
    (forall id | id in s.rebuilt :: judge(id, s.rebuilt[id]) == Keep) &&
    |s.held| == |s.heldIds| && forall i | 0 <= i < |s.held| :: judge(s.heldIds[i], s.held[i]) == Hold
  }

  lemma {:induction false} VisitAllJudges<T>(judge: Judge<T>, s: Rescue<T>, rows: seq<Raw<T>>)
    requires AllJudged(judge, s)
    ensures AllJudged(judge, VisitAll(judge, s, rows))
    decreases |rows|
  {
    if rows != [] { VisitAllJudges(judge, Visit(judge, s, rows[0]), rows[1..]); }
  }

  lemma {:induction false} FetchAllJudges<T>(judge: Judge<T>, s: Rescue<T>, keys: seq<string>, fetch: string -> Raw<T>)
    requires AllJudged(judge, s)
    ensures AllJudged(judge, FetchAll(judge, s, keys, fetch))
    decreases |keys|
  {
    if keys != [] { FetchAllJudges(judge, Fetch(judge, s, keys[0], fetch), keys[1..], fetch); }
  }

  lemma SalvageJudges<T>(judge: Judge<T>, rows: seq<Raw<T>>, keys: seq<string>, fetch: string -> Raw<T>)
    ensures AllJudged(judge, Salvage(judge, rows, keys, fetch))
  {
    VisitAllJudges(judge, Nothing<T>(), rows);
    FetchAllJudges(judge, VisitAll(judge, Nothing(), rows), keys, fetch);
  }

  /** The passes over one table: the scans first, then each listed key that no scan reached. */
  method SalvageTable<T>(judge: Judge<T>, rows: seq<Raw<T>>, keys: seq<string>, fetch: string -> Raw<T>)
    returns (s: Rescue<T>)
    ensures s == Salvage(judge, rows, keys, fetch)
  {
    hide Visit, Fetch, Rescue.Adds;
    s := Nothing();
    assert rows[0..] == rows && keys[0..] == keys;
    for i := 0 to |rows|
      invariant s.Adds() && VisitAll(judge, Nothing(), rows) == VisitAll(judge, s, rows[i..])
    {
      VisitAdds(judge, s, rows[i]);
      assert rows[i..][0] == rows[i] && rows[i..][1..] == rows[i + 1..];
      s := VisitRow(judge, s, rows[i]);
    }
    for i := 0 to |keys|
      invariant s.Adds() && Salvage(judge, rows, keys, fetch) == FetchAll(judge, s, keys[i..], fetch)
    {
      VisitAdds(judge, s, fetch(keys[i]));
      FetchAdds(judge, s, keys[i], fetch);
      assert keys[i..][0] == keys[i] && keys[i..][1..] == keys[i + 1..];
      FetchStep(judge, s, keys[i], fetch);
      if keys[i] in s.seen { continue; }
      var before := s.Kept() + s.dropped + |s.held|;
      CountIsSeen(s);
      ghost var known := s.seen;
      s := VisitRow(judge, s, fetch(keys[i]));
      SameSizeSameSet(known, s.seen);
      CountIsSeen(s);
      if s.Kept() + s.dropped + |s.held| == before { s := s.(unreadable := s.unreadable + 1); }
    }
  }

  lemma CountIsSeen<T>(s: Rescue<T>)
    requires s.Adds()
    ensures s.Kept() + s.dropped + |s.held| == |s.seen|
  {
  }

  lemma SameSizeSameSet(a: set<string>, b: set<string>)
    requires a <= b
    ensures |a| == |b| <==> a == b
  {
    assert b == a + (b - a) && |b| == |a| + |b - a|;
  }

  lemma FetchStep<T>(judge: Judge<T>, s: Rescue<T>, key: string, fetch: string -> Raw<T>)
    ensures Fetch(judge, s, key, fetch) ==
            if key in s.seen then s
            else var t := Visit(judge, s, fetch(key)); if t.seen == s.seen then t.(unreadable := t.unreadable + 1)
              else t
  {
  }

  method VisitRow<T>(judge: Judge<T>, past: Rescue<T>, raw: Raw<T>) returns (s: Rescue<T>)
    ensures s == Visit(judge, past, raw)
  {
    s := past;
    if raw.Garbled? { return; }
    if raw.id in s.seen { return; }
    s := s.(seen := s.seen + {raw.id});
    match judge(raw.id, raw.row) {
      case Keep => s := s.(rebuilt := s.rebuilt[raw.id := raw.row]);
      case Drop => s := s.(dropped := s.dropped + 1);
      case Hold => s := s.(held := s.held + [raw.row], heldIds := s.heldIds + [raw.id]);
    }
  }

  /* ---- Recoveries ---- */

  function RecoveryJudge(h: Hashes): Judge<Recovery> {
    (id, rec: Recovery) => if Handle(h, rec.original) == id then Keep else Drop
  }

  lemma FirstHeld<T>(judge: Judge<T>, s: Rescue<T>)
    requires AllJudged(judge, s)
    ensures s.held == [] || (s.heldIds != [] && judge(s.heldIds[0], s.held[0]) == Hold)
  {
  }

  lemma NoneHeld(h: Hashes, s: Rescue<Recovery>)
    requires AllJudged(RecoveryJudge(h), s)
    ensures s.held == [] && IsTrue(h, s.rebuilt)
  {
    hide Handle;
    FirstHeld(RecoveryJudge(h), s);
    forall id | id in s.rebuilt ensures Handle(h, s.rebuilt[id].original) == id {
      assert RecoveryJudge(h)(id, s.rebuilt[id]) == Keep;
    }
  }

  /** Every recovery that is carried over stands under the handle of its bytes, and none waits. */
  lemma RebuiltRecoveriesAreTrue(h: Hashes, rows: seq<Raw<Recovery>>, keys: seq<string>, fetch: string -> Raw<Recovery>)
    ensures var r := Salvage(RecoveryJudge(h), rows, keys, fetch);
            IsTrue(h, r.rebuilt) && r.held == [] && |r.seen| == r.Kept() + r.dropped
  {
    hide Salvage, IsTrue, AllJudged, RecoveryJudge;
    var r := Salvage(RecoveryJudge(h), rows, keys, fetch);
    SalvageJudges(RecoveryJudge(h), rows, keys, fetch);
    EachIdCountsOnce(RecoveryJudge(h), rows, keys, fetch);
    NoneHeld(h, r);
  }

  /** A recovery is carried over exactly when the first reading of its handle holds the bytes that the handle names, and
      then as it was read. */
  lemma RecoverySurvivesExactly(h: Hashes, rows: seq<Raw<Recovery>>, keys: seq<string>, fetch: string -> Raw<Recovery>,
                                handle: string)
    ensures var r, reading := Salvage(RecoveryJudge(h), rows, keys, fetch), Reading(rows, keys, fetch, handle);
            (handle in r.rebuilt <==> reading.Some? && "ccr_" + h.short(reading.value.original) == handle) &&
            (handle in r.rebuilt ==> reading.Some? && r.rebuilt[handle] == reading.value)
  {
    hide Salvage, Reading;
    FirstReadingDecides(RecoveryJudge(h), rows, keys, fetch, handle);
  }

  /* ---- Objects ---- */

  function ObjectJudge(h: Hashes): Judge<Row> {
    (id, row: Row) => if row.ref != "" then Hold else if Verifies(h, row.obj.hash, row.obj.data) then Keep else Drop
  }

  predicate IsFullCopy(t: Table, id: string, hash: string) {
    id in t && t[id].ref == "" && t[id].obj.hash == hash
  }

  /** Full rows match their hash, references name a full row with the same hash. */
  predicate IsRebuilt(h: Hashes, t: Table) {
    forall id | id in t ::
      if t[id].ref == "" then Verifies(h, t[id].obj.hash, t[id].obj.data) else IsFullCopy(t, t[id].ref, t[id].obj.hash)
  }

  function FullCopies(t: Table, typ: string, hash: string): (ids: set<string>)
    ensures ids <= t.Keys
  {
    set k | k in t && t[k].obj.typ == typ && IsFullCopy(t, k, hash)
  }

  /** Where a reference that is carried over points: to its own owner if that survived with the same content, else to
      the oldest full copy of the same type and content. */
  ghost function NewOwner(t: Table, row: Row): Option<string> {
    var copies := FullCopies(t, row.obj.typ, row.obj.hash);
    if IsFullCopy(t, row.ref, row.obj.hash) then Some(row.ref)
    else if copies == {} || Oldest(t, copies) == "" then None
    else Some(Oldest(t, copies))
  }

  ghost function AddReference(t: Table, id: string, row: Row): Table {
    var owner := NewOwner(t, row);
    if owner.None? then t else t[id := Row(row.obj.(data := []), owner.value)]
  }

  ghost function AddReferences(t: Table, ids: seq<string>, rows: seq<Row>): Table
    requires |ids| == |rows|
    decreases |ids|
  {
    if ids == [] then t else AddReferences(AddReference(t, ids[0], rows[0]), ids[1..], rows[1..])
  }

  lemma NewOwnerIsFull(t: Table, row: Row)
    requires row.ref != "" && NewOwner(t, row).Some?
    ensures NewOwner(t, row).value != "" && IsFullCopy(t, NewOwner(t, row).value, row.obj.hash)
  {
    var copies := FullCopies(t, row.obj.typ, row.obj.hash);
    if !IsFullCopy(t, row.ref, row.obj.hash) { assert Oldest(t, copies) in copies; }
  }

  /** Adding a reference adds no full copy, so it changes neither what is full nor where others point. */
  lemma ReferenceAddsNoCopy(h: Hashes, t: Table, id: string, row: Row, other: Row)
    requires IsRebuilt(h, t) && row.ref != "" && id !in t
    ensures var t' := AddReference(t, id, row);
            IsRebuilt(h, t') && (forall k | k in t :: k in t' && t'[k] == t[k]) &&
            NewOwner(t', other) == NewOwner(t, other)
  {
    hide Verifies, NewOwner;
    if NewOwner(t, row).Some? { NewOwnerIsFull(t, row); }
    SameNewOwner(t, AddReference(t, id, row), id, other);
  }

  lemma SameNewOwner(t: Table, t': Table, id: string, row: Row)
    requires t' == t || (id !in t && t'.Keys == t.Keys + {id} && t'[id].ref != "" && forall k | k in t :: t'[k] == t[k])
    ensures NewOwner(t', row) == NewOwner(t, row)
  {
    hide Less;
    var copies, copies' := FullCopies(t, row.obj.typ, row.obj.hash), FullCopies(t', row.obj.typ, row.obj.hash);
    if t' != t {
      assert copies' == copies;
      if copies != {} {
        assert IsOldest(t', copies, Oldest(t, copies));
        OldestUnique(t', copies, Oldest(t, copies), Oldest(t', copies));
      }
    }
  }

  /** Every reference is decided by the full rows alone: it is kept, re-pointed, exactly when one of them has its
      content. */
  lemma {:induction false} ReferencesDecided(h: Hashes, t: Table, ids: seq<string>, rows: seq<Row>)
    requires IsRebuilt(h, t) && |ids| == |rows| && IsDistinct(ids)
    requires forall i | 0 <= i < |ids| :: ids[i] !in t && rows[i].ref != ""
    ensures var t' := AddReferences(t, ids, rows);
            IsRebuilt(h, t') && (forall k | k in t :: k in t' && t'[k] == t[k]) &&
            (forall i | 0 <= i < |ids| :: IsDecided(t, t', ids[i], rows[i])) &&
            t'.Keys <= t.Keys + Listed(ids)
    decreases |ids|
  {
    hide IsRebuilt, NewOwner;
    if ids != [] {
      var t1 := AddReference(t, ids[0], rows[0]);
      ReferenceAddsNoCopy(h, t, ids[0], rows[0], rows[0]);
      forall i | 0 < i < |ids| ensures ids[i] !in t1 && NewOwner(t1, rows[i]) == NewOwner(t, rows[i]) {
        ReferenceAddsNoCopy(h, t, ids[0], rows[0], rows[i]);
      }
      ReferencesDecided(h, t1, ids[1..], rows[1..]);
      var t' := AddReferences(t, ids, rows);
      assert ids[0] !in Listed(ids[1..]);
      forall i | 0 <= i < |ids| ensures IsDecided(t, t', ids[i], rows[i]) {
        if i > 0 { assert IsDecided(t1, t', ids[1..][i - 1], rows[1..][i - 1]); }
      }
    }
  }

  ghost predicate IsDecided(t: Table, t': Table, id: string, row: Row) {
    if NewOwner(t, row).None? then id !in t'
    else id in t' && t'[id] == Row(row.obj.(data := []), NewOwner(t, row).value)
  }

  /** The whole table after a repair. */
  ghost function RepairedObjects(h: Hashes, rows: seq<Raw<Row>>, keys: seq<string>, fetch: string -> Raw<Row>): Table {
    EachIdCountsOnce(ObjectJudge(h), rows, keys, fetch);
    var s := Salvage(ObjectJudge(h), rows, keys, fetch);
    AddReferences(s.rebuilt, s.heldIds, s.held)
  }

  /** After a repair every full row matches its hash and every reference names a full row with the same hash, so
      everything that was carried over reads, and the bytes match. */
  lemma RepairedObjectsRead(h: Hashes, rows: seq<Raw<Row>>, keys: seq<string>, fetch: string -> Raw<Row>, id: string)
    requires id in RepairedObjects(h, rows, keys, fetch)
    ensures var t := RepairedObjects(h, rows, keys, fetch);
            IsRebuilt(h, t) && Verifies(h, t[id].obj.hash, OwnData(t, id)) && Resolve(h, t, id) == Got(View(t)[id])
  {
    hide Verifies, Salvage;
    SalvagedObjects(h, rows, keys, fetch);
    var s := Salvage(ObjectJudge(h), rows, keys, fetch);
    EachIdCountsOnce(ObjectJudge(h), rows, keys, fetch);
    ReferencesDecided(h, s.rebuilt, s.heldIds, s.held);
  }

  lemma SalvagedObjects(h: Hashes, rows: seq<Raw<Row>>, keys: seq<string>, fetch: string -> Raw<Row>)
    ensures var s := Salvage(ObjectJudge(h), rows, keys, fetch);
            s.Adds() && IsRebuilt(h, s.rebuilt) && IsDistinct(s.heldIds) &&
              (forall id | id in s.rebuilt :: s.rebuilt[id].ref == "") &&
            forall i | 0 <= i < |s.heldIds| :: s.heldIds[i] !in s.rebuilt && s.held[i].ref != ""
  {
    hide Verifies, Salvage;
    SalvageJudges(ObjectJudge(h), rows, keys, fetch);
    EachIdCountsOnce(ObjectJudge(h), rows, keys, fetch);
    var s := Salvage(ObjectJudge(h), rows, keys, fetch);
    forall id | id in s.rebuilt ensures s.rebuilt[id].ref == "" &&
      Verifies(h, s.rebuilt[id].obj.hash, s.rebuilt[id].obj.data) {
      assert ObjectJudge(h)(id, s.rebuilt[id]) == Keep;
    }
    forall i | 0 <= i < |s.heldIds| ensures s.held[i].ref != "" {
      assert ObjectJudge(h)(s.heldIds[i], s.held[i]) == Hold;
    }
  }

  /** What becomes of every id, by its first reading, whichever path gives it: a full row that verifies is carried over
      unchanged, one that fails is dropped, and a reference goes where the full rows that were carried over send it.
      What no path reads is not there. */
  lemma VerifiedRowSurvives(h: Hashes, rows: seq<Raw<Row>>, keys: seq<string>, fetch: string -> Raw<Row>, id: string)
    ensures var t, reading := RepairedObjects(h, rows, keys, fetch), Reading(rows, keys, fetch, id);
            if reading.None? then id !in t
            else if reading.value.ref != "" then
              IsDecided(Salvage(ObjectJudge(h), rows, keys, fetch).rebuilt, t, id, reading.value)
            else if Verifies(h, reading.value.obj.hash, reading.value.obj.data) then id in t && t[id] == reading.value
            else id !in t
  {
    hide Verifies, Salvage, Reading, IsDecided;
    var s := Salvage(ObjectJudge(h), rows, keys, fetch);
    FirstReadingDecides(ObjectJudge(h), rows, keys, fetch, id);
    SalvagedObjects(h, rows, keys, fetch);
    ReferencesDecided(h, s.rebuilt, s.heldIds, s.held);
    if id in s.heldIds {
      var i: nat :| i < |s.heldIds| && s.heldIds[i] == id;
    } else {
      assert id !in Listed(s.heldIds);
    }
  }

  /** A full row that a repair carried over. */
  predicate IsFull(t: Table, k: string) {
    k in t && t[k].ref == ""
  }

  /** What a repair does with a reference, seen in the repaired table alone: its own owner serves if it is there with
      the same content, else the oldest full row of the same type and content. */
  ghost predicate IsServedBy(t: Table, row: Row, owner: string) {
    IsFull(t, owner) && t[owner].obj.hash == row.obj.hash &&
    if IsFull(t, row.ref) && t[row.ref].obj.hash == row.obj.hash then owner == row.ref
    else
      t[owner].obj.typ == row.obj.typ &&
      forall k | IsFull(t, k) && t[k].obj.typ == row.obj.typ && t[k].obj.hash == row.obj.hash ::
        t[owner].obj.created < t[k].obj.created ||
        (t[owner].obj.created == t[k].obj.created && (owner == k || Less(owner, k)))
  }

  /** An id whose first reading is a reference is in the repaired table exactly when a full row serves it; it then names
      that row and reads bytes that match its hash. It is so unless the row that would serve stands under the empty
      id. */
  lemma ReferenceSurvivesExactly(h: Hashes, rows: seq<Raw<Row>>, keys: seq<string>, fetch: string -> Raw<Row>,
                                 id: string)
    requires Reading(rows, keys, fetch, id).Some? && Reading(rows, keys, fetch, id).value.ref != ""
    ensures var t, row := RepairedObjects(h, rows, keys, fetch), Reading(rows, keys, fetch, id).value;
            (id in t <==> exists owner :: owner != "" && IsServedBy(t, row, owner)) &&
            (id in t ==> t[id].ref != "" && IsServedBy(t, row, t[id].ref) && t[id].obj == row.obj.(data := []) &&
                         Verifies(h, t[id].obj.hash, OwnData(t, id)))
  {
    hide Verifies, Salvage, Reading, IsDecided, IsServedBy, RepairedObjects, AreFull, IsRebuilt, OwnData, Resolve;
    var t, row := RepairedObjects(h, rows, keys, fetch), Reading(rows, keys, fetch, id).value;
    var full := Salvage(ObjectJudge(h), rows, keys, fetch).rebuilt;
    VerifiedRowSurvives(h, rows, keys, fetch, id);
    FullRowsAre(h, rows, keys, fetch);
    ReferenceStands(full, t, id, row);
    if id in t { RepairedObjectsRead(h, rows, keys, fetch, id); }
  }

  lemma ReferenceStands(full: Table, t: Table, id: string, row: Row)
    requires AreFull(full, t) && IsDecided(full, t, id, row) && row.ref != ""
    ensures id in t <==> exists owner :: owner != "" && IsServedBy(t, row, owner)
    ensures id in t ==> t[id].ref != "" && IsServedBy(t, row, t[id].ref) && t[id].obj == row.obj.(data := [])
  {
    hide NewOwner, IsDecided, IsServedBy, AreFull;
    OwnerServes(full, t, row);
    if id in t {
      DecidedNames(full, t, id, row);
      OwnerNamed(full, row);
    } else {
      NotDecided(full, t, id, row);
    }
  }

  lemma OwnerNamed(full: Table, row: Row)
    requires row.ref != "" && NewOwner(full, row).Some?
    ensures NewOwner(full, row).value != ""
  {
    NewOwnerIsFull(full, row);
  }

  lemma DecidedNames(full: Table, t: Table, id: string, row: Row)
    requires IsDecided(full, t, id, row) && id in t
    ensures NewOwner(full, row) == Some(t[id].ref) && t[id].obj == row.obj.(data := [])
  {
  }

  lemma NotDecided(full: Table, t: Table, id: string, row: Row)
    requires IsDecided(full, t, id, row) && id !in t
    ensures NewOwner(full, row).None?
  {
  }

  /** The full rows of a table are these. */
  ghost predicate AreFull(full: Table, t: Table) {
    forall k :: (IsFull(t, k) <==> k in full) && (k in full ==> k in t && t[k] == full[k] && full[k].ref == "")
  }

  /** References are added as references, so the full rows of the repaired table are those that were carried over. */
  lemma FullRowsAre(h: Hashes, rows: seq<Raw<Row>>, keys: seq<string>, fetch: string -> Raw<Row>)
    ensures AreFull(Salvage(ObjectJudge(h), rows, keys, fetch).rebuilt, RepairedObjects(h, rows, keys, fetch))
  {
    hide Verifies, Salvage, IsDecided, IsRebuilt;
    var s := Salvage(ObjectJudge(h), rows, keys, fetch);
    SalvagedObjects(h, rows, keys, fetch);
    ReferencesDecided(h, s.rebuilt, s.heldIds, s.held);
    var t := RepairedObjects(h, rows, keys, fetch);
    forall k | k in t && k !in s.rebuilt ensures t[k].ref != "" {
      assert k in Listed(s.heldIds);
      var i: nat :| i < |s.heldIds| && s.heldIds[i] == k;
      HeldIsReference(s.rebuilt, t, k, s.held[i]);
    }
  }

  lemma HeldIsReference(full: Table, t: Table, id: string, row: Row)
    requires IsDecided(full, t, id, row) && row.ref != "" && id in t
    ensures t[id].ref != ""
  {
    NewOwnerIsFull(full, row);
  }

  /** The row that is looked for is the one that serves. */
  lemma OwnerServes(full: Table, t: Table, row: Row)
    requires AreFull(full, t) && row.ref != ""
    ensures forall owner | owner != "" :: IsServedBy(t, row, owner) <==> NewOwner(full, row) == Some(owner)
  {
    hide Less;
    var copies := FullCopies(full, row.obj.typ, row.obj.hash);
    forall owner | owner != "" ensures IsServedBy(t, row, owner) <==> NewOwner(full, row) == Some(owner) {
      if !IsFullCopy(full, row.ref, row.obj.hash) {
        if IsServedBy(t, row, owner) {
          assert owner in copies;
          forall k | k in copies ensures Before(full, owner, k) { assert IsFull(t, k); }
          OldestUnique(full, copies, owner, Oldest(full, copies));
        } else if NewOwner(full, row) == Some(owner) {
          assert owner in copies;
          forall k | IsFull(t, k) && t[k].obj.typ == row.obj.typ && t[k].obj.hash == row.obj.hash
            ensures Before(full, owner, k)
          {
            assert k in copies;
          }
        }
      }
    }
  }

  /** Some path reads this row under this id, first or later. */
  predicate IsRead<T(==)>(rows: seq<Raw<T>>, keys: seq<string>, fetch: string -> Raw<T>, id: string, row: T) {
    Readable(id, row) in rows + Lookups(ScannedIds(rows), keys, fetch)
  }

  lemma {:induction false} ReadIsScanned<T>(rows: seq<Raw<T>>, id: string, row: T)
    requires Readable(id, row) in rows
    ensures Scanned(rows, id).Some?
    decreases |rows|
  {
    if !(rows[0].Readable? && rows[0].id == id) { ReadIsScanned(rows[1..], id, row); }
  }

  /** When some reading of an id is a full row that verifies, the id is carried over as a full row exactly when its
      first reading is one, and then it is that one. Where a reference is read first it goes the way of that reference,
      and where a full row that fails is read first the verified row is lost. */
  lemma VerifiedReadingSurvivesExactly(h: Hashes, rows: seq<Raw<Row>>, keys: seq<string>, fetch: string -> Raw<Row>,
                                       id: string, row: Row)
    requires IsRead(rows, keys, fetch, id, row) && row.ref == "" && Verifies(h, row.obj.hash, row.obj.data)
    ensures Reading(rows, keys, fetch, id).Some?
    ensures var t, first := RepairedObjects(h, rows, keys, fetch), Reading(rows, keys, fetch, id).value;
            (id in t && t[id].ref == "" <==> first.ref == "" && Verifies(h, first.obj.hash, first.obj.data)) &&
            (id in t && t[id].ref == "" ==> t[id] == first) &&
            (id in t && t[id].ref != "" <==>
             first.ref != "" && NewOwner(Salvage(ObjectJudge(h), rows, keys, fetch).rebuilt, first).Some?)
  {
    hide Verifies, Salvage, Lookups, NewOwner;
    ReadIsScanned(rows + Lookups(ScannedIds(rows), keys, fetch), id, row);
    VerifiedRowSurvives(h, rows, keys, fetch, id);
    var first, full := Reading(rows, keys, fetch, id).value, Salvage(ObjectJudge(h), rows, keys, fetch).rebuilt;
    if first.ref != "" && NewOwner(full, first).Some? { NewOwnerIsFull(full, first); }
  }

  /** A table in which an id stands twice, first with bytes that fail: the row that verifies is lost. */
  lemma LaterReadingIsLost(h: Hashes, bad: Row, good: Row, fetch: string -> Raw<Row>)
    requires bad.ref == "" && !Verifies(h, bad.obj.hash, bad.obj.data)
    requires good.ref == "" && Verifies(h, good.obj.hash, good.obj.data)
    ensures IsRead([Readable("k", bad), Readable("k", good)], ["k"], fetch, "k", good)
    ensures "k" !in RepairedObjects(h, [Readable("k", bad), Readable("k", good)], ["k"], fetch)
  {
    var rows := [Readable("k", bad), Readable("k", good)];
    var all := rows + Lookups(ScannedIds(rows), ["k"], fetch);
    assert all[0] == rows[0] && all[1] == rows[1];
    hide Verifies;
    VerifiedRowSurvives(h, rows, ["k"], fetch, "k");
  }

  /** Whatever is damaged, the rows that are read carry the id they stand under, and references and their owners are
      repository maps, as every put leaves them. */
  ghost predicate IsPlausible(rows: seq<Raw<Row>>, keys: seq<string>, fetch: string -> Raw<Row>) {
    forall id | Reading(rows, keys, fetch, id).Some? ::
      var row := Reading(rows, keys, fetch, id).value;
      id != "" && row.obj.id == id &&
        (row.ref != "" ==> row.obj.typ == REPOSITORY_MAP && OwnerIsMap(rows, keys, fetch, row))
  }

  ghost predicate OwnerIsMap(rows: seq<Raw<Row>>, keys: seq<string>, fetch: string -> Raw<Row>, row: Row) {
    var owner := Reading(rows, keys, fetch, row.ref);
    owner.Some? && owner.value.ref == "" && owner.value.obj.hash == row.obj.hash ==>
      owner.value.obj.typ == REPOSITORY_MAP
  }

  /** Then the repaired table is sound, and all that holds of runs from a sound table holds after a repair. */
  lemma RepairedIsSound(h: Hashes, rows: seq<Raw<Row>>, keys: seq<string>, fetch: string -> Raw<Row>)
    requires IsPlausible(rows, keys, fetch)
    ensures Sound(h, RepairedObjects(h, rows, keys, fetch))
  {
    hide Verifies, Salvage, Reading, NewOwner, IsSoundRow, IsRebuilt;
    var s, t := Salvage(ObjectJudge(h), rows, keys, fetch), RepairedObjects(h, rows, keys, fetch);
    SalvagedObjects(h, rows, keys, fetch);
    ReferencesDecided(h, s.rebuilt, s.heldIds, s.held);
    forall id | id in t ensures IsSoundRow(h, t, id) {
      VerifiedRowSurvives(h, rows, keys, fetch, id);
      var row := Reading(rows, keys, fetch, id).value;
      if row.ref == "" {
        FullIsSound(h, t, id);
      } else {
        FirstReadingDecides(ObjectJudge(h), rows, keys, fetch, row.ref);
        OwnerIsSound(h, s.rebuilt, t, id, row);
      }
    }
  }

  lemma FullIsSound(h: Hashes, t: Table, id: string)
    requires id in t && id != "" && t[id].obj.id == id && t[id].ref == "" && Verifies(h, t[id].obj.hash, t[id].obj.data)
    ensures IsSoundRow(h, t, id)
  {
  }

  /** A reference that was carried over names a repository map. */
  lemma OwnerIsSound(h: Hashes, full: Table, t: Table, id: string, row: Row)
    requires id in t && IsDecided(full, t, id, row) && id != "" && row.obj.id == id
    requires row.ref != "" && row.obj.typ == REPOSITORY_MAP && forall k | k in full :: k in t && t[k] == full[k]
    requires IsFullCopy(full, row.ref, row.obj.hash) ==> full[row.ref].obj.typ == REPOSITORY_MAP
    ensures IsSoundRow(h, t, id)
  {
    hide Verifies, Oldest;
    NewOwnerIsFull(full, row);
    var copies := FullCopies(full, row.obj.typ, row.obj.hash);
    if !IsFullCopy(full, row.ref, row.obj.hash) { assert Oldest(full, copies) in copies; }
  }

  /** The references, one by one, into the table of full rows. */
  method SalvageReferences(t: Table, ids: seq<string>, rows: seq<Row>) returns (t': Table, kept: nat, dropped: nat)
    requires |ids| == |rows|
    ensures t' == AddReferences(t, ids, rows) && kept + dropped == |ids|
    ensures IsDistinct(ids) && (forall id | id in ids :: id !in t) ==> |t'| == |t| + kept
  {
    hide NewOwner;
    t', kept, dropped := t, 0, 0;
    assert ids[0..] == ids && rows[0..] == rows;
    for i := 0 to |ids|
      invariant AddReferences(t, ids, rows) == AddReferences(t', ids[i..], rows[i..])
      invariant kept + dropped == i
      invariant IsDistinct(ids) && (forall id | id in ids :: id !in t) ==>
                  |t'| == |t| + kept && forall j | i <= j < |ids| :: ids[j] !in t'
    {
      assert ids[i..][0] == ids[i] && ids[i..][1..] == ids[i + 1..];
      assert rows[i..][0] == rows[i] && rows[i..][1..] == rows[i + 1..];
      var owner := FindNewOwner(t', rows[i]);
      if owner.None? {
        dropped := dropped + 1;
      } else {
        t' := t'[ids[i] := Row(rows[i].obj.(data := []), owner.value)];
        kept := kept + 1;
      }
    }
  }

  method FindNewOwner(t: Table, row: Row) returns (owner: Option<string>)
    ensures owner == NewOwner(t, row)
  {
    if IsFullCopy(t, row.ref, row.obj.hash) { return Some(row.ref); }
    var copies := FullCopies(t, row.obj.typ, row.obj.hash);
    if copies == {} { return None; }
    var id := FindOldest(t, copies);
    OldestUnique(t, copies, id, Oldest(t, copies));
    owner := if id == "" then None else Some(id);
  }

  /** The repair of the object table: what is in it afterwards, and how often each id was counted. */
  method SalvageObjects(h: Hashes, rows: seq<Raw<Row>>, keys: seq<string>, fetch: string -> Raw<Row>)
    returns (t: Table, kept: nat, dropped: nat, unreadable: nat)
    ensures t == RepairedObjects(h, rows, keys, fetch) && kept == |t|
    ensures kept + dropped == |Salvage(ObjectJudge(h), rows, keys, fetch).seen|
    ensures InStep(fetch) ==>
              unreadable == |Unread(rows, keys, fetch)| &&
              (kept + dropped + unreadable == |Salvage(ObjectJudge(h), rows, keys, fetch).seen + Listed(keys)| <==>
               IsDistinct(Unread(rows, keys, fetch)))
  {
    hide Salvage, Verifies, InStep;
    var s := SalvageTable(ObjectJudge(h), rows, keys, fetch);
    EachIdCountsOnce(ObjectJudge(h), rows, keys, fetch);
    SalvagedObjects(h, rows, keys, fetch);
    var refsKept, refsDropped;
    t, refsKept, refsDropped := SalvageReferences(s.rebuilt, s.heldIds, s.held);
    kept, dropped, unreadable := |s.rebuilt| + refsKept, s.dropped + refsDropped, s.unreadable;
  }
}
