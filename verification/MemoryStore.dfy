/** The memory store: Remember, Supersede, Forget and History over the mutable table. */
module MemoryStore {
  import opened GoText
  import opened MemoryLineage

  const MAX_MEMORY_BYTES := 256 * 1024

  /** A memory as callers see it; an absent link is the empty string. */
  datatype Memory = Memory(id: Id, text: string, createdAt: Time, validFrom: Time, validUntil: Option<Time>,
                           supersedes: Id, supersededBy: Id)

  datatype Error = EmptyText | TooLarge | EmptyId | NotFound | OnlyExpired | NotCurrent | SameText | Exists
                 | Broken | Cyclic

  datatype Result<T> = Ok(value: T) | Err(error: Error)

  function OrEmpty(link: Option<Id>): Id {
    if link.Some? then link.value else ""
  }

  function MemoryOf(rows: Table, id: Id): Memory
    requires id in rows
  {
    var r := rows[id];
    Memory(id, r.text, r.createdAt, r.validFrom, r.validUntil, OrEmpty(r.supersedes), OrEmpty(r.supersededBy))
  }

  predicate IsRow(rows: Table, m: Memory) {
    m.id in rows && m == MemoryOf(rows, m.id)
  }

  function Ids(h: seq<Memory>): seq<Id> {
    seq(|h|, i requires 0 <= i < |h| => h[i].id)
  }

  function Link(m: Memory, back: bool): Id {
    if back then m.supersedes else m.supersededBy
  }

  /** `h` goes on from its first memory along one kind of link, and never comes back to a row. */
  ghost predicate Walked(rows: Table, h: seq<Memory>, back: bool) {
    (forall i | 0 <= i < |h| :: IsRow(rows, h[i])) &&
    (forall i | 0 < i < |h| :: h[i].id == Link(h[i - 1], back)) && Distinct(h)
  }

  ghost predicate AllSeen(h: seq<Memory>, seen: set<Id>) {
    forall i | 0 <= i < |h| :: h[i].id in seen
  }

  lemma WalkOn(rows: Table, h: seq<Memory>, back: bool, m: Memory, seen: set<Id>)
    requires h != [] && Walked(rows, h, back) && IsRow(rows, m) && m.id == Link(h[|h| - 1], back)
    requires AllSeen(h, seen) && m.id !in seen
    ensures Walked(rows, h + [m], back) && AllSeen(h + [m], seen + {m.id})
  {
  }

  lemma WalkAhead(rows: Table, before: seq<Memory>, ahead: seq<Memory>, m: Memory, seen: set<Id>)
    requires ahead != [] && Walked(rows, ahead, false) && IsRow(rows, m) && m.id == Link(ahead[|ahead| - 1], false)
    requires Distinct(Reversed(before) + ahead) && AllSeen(Reversed(before) + ahead, seen) && m.id !in seen
    ensures Walked(rows, ahead + [m], false)
    ensures Distinct(Reversed(before) + (ahead + [m])) && AllSeen(Reversed(before) + (ahead + [m]), seen + {m.id})
  {
    var h := Reversed(before) + ahead;
    assert Reversed(before) + (ahead + [m]) == h + [m];
    assert forall i | 0 <= i < |ahead| :: ahead[i] == h[|before| + i];
    WalkOn(rows, ahead, false, m, seen);
  }

  lemma LinkIs(m: Memory)
    ensures Link(m, true) == m.supersedes && Link(m, false) == m.supersededBy
  {
  }

  /** On a lineage a link that is there names a row, one rank further on. */
  lemma LinkHolds(rows: Table, rank: map<Id, nat>, bound: nat, m: Memory, back: bool)
    requires Linked(rows) && Ranks(rows, rank, bound) && IsRow(rows, m) && Link(m, back) != ""
    ensures var id := Link(m, back);
            id in rows && id in rank && m.id in rank &&
            (if back then rank[id] < rank[m.id] else rank[m.id] < rank[id])
  {
  }

  /** The memories of `h` are a whole history of `id`: no link left to follow at either end, every
      step one the table records, no row twice. */
  ghost predicate IsHistory(rows: Table, h: seq<Memory>, id: Id) {
    exists k :: HistoryAt(rows, h, id, k)
  }

  ghost predicate HistoryAt(rows: Table, h: seq<Memory>, id: Id, k: int) {
    0 <= k < |h| && h[k].id == id && Walked(rows, Reversed(h[..k + 1]), true) && Walked(rows, h[k..], false) &&
    h[0].supersedes == "" && h[|h| - 1].supersededBy == "" && Distinct(h)
  }

  function Reversed(h: seq<Memory>): seq<Memory> {
    seq(|h|, i requires 0 <= i < |h| => h[|h| - 1 - i])
  }

  /** Every row of `seen` has at least, or at most, the rank of `id`. */
  ghost predicate RankedFrom(rank: map<Id, nat>, seen: set<Id>, id: Id) {
    id in rank && forall s | s in seen :: s in rank && rank[id] <= rank[s]
  }

  ghost predicate RankedTo(rank: map<Id, nat>, seen: set<Id>, id: Id) {
    id in rank && forall s | s in seen :: s in rank && rank[s] <= rank[id]
  }

  /** Going one rank further leads to a row not seen yet. */
  lemma RankBack(rank: map<Id, nat>, seen: set<Id>, id: Id, next: Id, top: Id)
    requires RankedFrom(rank, seen, id) && RankedTo(rank, seen, top) && id in seen
    requires next in rank && rank[next] < rank[id]
    ensures next !in seen && RankedFrom(rank, seen + {next}, next) && RankedTo(rank, seen + {next}, top)
  {
  }

  lemma RankAhead(rank: map<Id, nat>, seen: set<Id>, id: Id, next: Id)
    requires RankedTo(rank, seen, id) && next in rank && rank[id] < rank[next]
    ensures next !in seen && RankedTo(rank, seen + {next}, next)
  {
  }

  /** What a replacement needs: texts of a size, a current row with another text, and a free id. The text's own id is
      free, or names an expired row and the id derived from the replaced row is free. */
  predicate CanReplace(digest: Digest, rows: Table, past: Id, text: string) {
    var own, version := "mem_" + digest(text), "mem_" + digest(text + "\0supersedes:" + past);
    !IsBlank(past) && !IsBlank(text) && ByteLength(text) <= 262144 &&
    past in rows && rows[past].validUntil.None? && rows[past].text != text &&
    (own !in rows || (rows[own].validUntil.Some? && version !in rows))
  }

  lemma SameCondition(digest: Digest, rows: Table, past: Id, text: string)
    ensures CanReplace(digest, rows, past, text) <==>
            ByteLength(text) <= MAX_MEMORY_BYTES && CanSupersede(digest, rows, past, text)
  {
    hide IsBlank, ByteLength;
  }

  class Store {
    const digest: Digest
    var rows: Table

    constructor (digest: Digest)
      ensures this.digest == digest && rows == map[] && Lineage(rows)
    {
      this.digest := digest;
      rows := map[];
      new;
      ReachableIsLineage(digest, []);
    }

    method Remember(text: string, now: Time) returns (r: Result<Memory>)
      modifies this`rows
      ensures old(Lineage(rows)) ==> Lineage(rows)
      ensures rows == if ByteLength(text) > MAX_MEMORY_BYTES then old(rows)
                      else Step(digest, old(rows), Op.Remember(text, now))
      ensures IsBlank(text) || ByteLength(text) > 262144 || "mem_" + digest(text) in old(rows) ==> rows == old(rows)
      ensures !(IsBlank(text) || ByteLength(text) > 262144 || "mem_" + digest(text) in old(rows)) ==>
                rows == old(rows)["mem_" + digest(text) := Row(text, now, now, None, None, None)]
      ensures r.Err? <==> IsBlank(text) || ByteLength(text) > MAX_MEMORY_BYTES ||
                          (!IsCurrent(rows, MemId(digest, text)) &&
                           forall id | id in rows :: IsCurrent(rows, id) ==> rows[id].text != text)
      ensures r.Ok? ==> IsRow(rows, r.value) && IsCurrent(rows, r.value.id)
      ensures r.Ok? ==> (r.value.text == text <==>
                         !(IsCurrent(rows, MemId(digest, text)) && rows[MemId(digest, text)].text != text))
    {
      if IsBlank(text) {
        return Err(EmptyText);
      }
      if ByteLength(text) > MAX_MEMORY_BYTES {
        return Err(TooLarge);
      }
      var id := MemId(digest, text);
      MemIdNamed(digest, text);
      if Lineage(rows) { RememberKeepsLineage(rows, id, text, now); }
      if id !in rows {
        rows := rows[id := Row(text, now, now, None, None, None)];
      }
      var stored := MemoryOf(rows, id);
      if stored.validUntil.Some? {
        if current :| current in rows && rows[current].text == text && rows[current].validUntil.None? {
          return Ok(MemoryOf(rows, current));
        }
        return Err(OnlyExpired);
      }
      return Ok(stored);
    }

    method Supersede(past: Id, newText: string, now: Time) returns (r: Result<Memory>)
      modifies this`rows
      ensures old(Lineage(rows)) ==> Lineage(rows)
      ensures r.Ok? <==> ByteLength(newText) <= MAX_MEMORY_BYTES && CanSupersede(digest, old(rows), past, newText)
      ensures rows == if r.Ok? then Step(digest, old(rows), Op.Supersede(past, newText, now)) else old(rows)
      ensures r.Ok? <==> CanReplace(digest, old(rows), past, newText)
      ensures r.Ok? ==>
                rows.Keys == old(rows).Keys + {r.value.id} && r.value.id !in old(rows) &&
                rows[r.value.id] == Row(newText, now, now, None, Some(past), None) &&
                rows[past] == old(rows)[past].(validUntil := Some(now), supersededBy := Some(r.value.id)) &&
                (forall k | k in old(rows) && k != past :: rows[k] == old(rows)[k]) &&
                r.value.id == if "mem_" + digest(newText) in old(rows)
                              then "mem_" + digest(newText + "\0supersedes:" + past) else "mem_" + digest(newText)
      ensures r.Ok? ==> IsRow(rows, r.value) && IsCurrent(rows, r.value.id) && r.value.text == newText &&
                        r.value.supersedes == past && r.value.id == ReplacementId(digest, old(rows), past, newText)
    {
      SameCondition(digest, rows, past, newText);
      hide IsBlank, ByteLength, CanReplace;
      if IsBlank(past) {
        return Err(EmptyId);
      }
      if IsBlank(newText) {
        return Err(EmptyText);
      }
      if ByteLength(newText) > MAX_MEMORY_BYTES {
        return Err(TooLarge);
      }
      if past !in rows || rows[past].validUntil.Some? {
        return Err(NotCurrent);
      }
      if rows[past].text == newText {
        return Err(SameText);
      }
      var newId := MemId(digest, newText);
      var present := newId in rows;
      if present && rows[newId].validUntil.Some? {
        newId := MemVersionId(digest, newText, past);
        present := newId in rows;
      }
      if present {
        return Err(Exists);
      }
      MemIdNamed(digest, newText);
      MemIdNamed(digest, newText + VERSION_MARK + past);
      if Lineage(rows) { SupersedeKeepsLineage(rows, past, newId, newText, now); }
      rows := rows[newId := Row(newText, now, now, None, Some(past), None)];
      rows := rows[past := rows[past].(validUntil := Some(now), supersededBy := Some(newId))];
      return Ok(Memory(newId, newText, now, now, None, past, ""));
    }

    method Forget(id: Id) returns (found: bool)
      modifies this`rows
      ensures old(Lineage(rows)) ==> Lineage(rows)
      ensures found == (id in old(rows)) && rows == Step(digest, old(rows), Op.Forget(id))
      ensures rows.Keys == old(rows).Keys - {id} && (!found ==> rows == old(rows))
      ensures found && old(Linked(rows)) ==>
                forall k | k in rows :: rows[k] == Relinked(old(rows)[k], id, old(rows)[id])
    {
      hide Lineage, Relinked;
      if id !in rows {
        return false;
      }
      if Lineage(rows) { ForgetKeepsLineage(rows, id); }
      if Linked(rows) { ForgetAt(rows, id); }
      var supersedes, supersededBy := rows[id].supersedes, rows[id].supersededBy;
      if supersedes.Some? {
        rows := SetSupersededBy(rows, supersedes, supersededBy);
      }
      if supersededBy.Some? {
        rows := SetSupersedes(rows, supersededBy, supersedes);
      }
      rows := rows - {id};
      return true;
    }

    /** The walk to the oldest version. `seen` grows by a row every round, so it ends on any table. */
    method Earlier(current: Memory, ghost rank: map<Id, nat>, ghost bound: nat)
      returns (before: seq<Memory>, seen: set<Id>, error: Option<Error>)
      requires IsRow(rows, current)
      requires Lineage(rows) ==> Linked(rows) && Ranks(rows, rank, bound)
      ensures Lineage(rows) ==> error.None? && RankedTo(rank, seen, current.id)
      ensures error.None? ==>
        Walked(rows, [current] + before, true) && AllSeen([current] + before, seen) && seen <= rows.Keys &&
        ([current] + before)[|before|].supersedes == ""
    {
      hide Lineage, Linked, Ranks, Walked, AllSeen, RankedFrom, RankedTo, Link;
      seen := {current.id};
      before := [];
      var cursor := current;
      ghost var path := [current];
      WalkStart(rows, current);
      if Lineage(rows) { RankStart(rows, rank, bound, current.id); }
      while cursor.supersedes != ""
        invariant Walked(rows, path, true) && AllSeen(path, seen) && path == [current] + before
        invariant cursor == path[|path| - 1] && IsRow(rows, cursor) && seen <= rows.Keys && cursor.id in seen
        invariant Lineage(rows) ==> RankedFrom(rank, seen, cursor.id) && RankedTo(rank, seen, current.id)
        decreases |rows.Keys - seen|
      {
        LinkIs(cursor);
        if Lineage(rows) {
          LinkHolds(rows, rank, bound, cursor, true);
          RankBack(rank, seen, cursor.id, cursor.supersedes, current.id);
        }
        if cursor.supersedes !in rows {
          return before, seen, Some(Broken);
        }
        var prev := MemoryOf(rows, cursor.supersedes);
        if prev.id in seen {
          return before, seen, Some(Cyclic);
        }
        WalkOn(rows, path, true, prev, seen);
        Fewer(rows, seen, prev.id);
        seen := seen + {prev.id};
        before := before + [prev];
        path := path + [prev];
        cursor := prev;
      }
      return before, seen, None;
    }

    /** The walk on to the newest version. */
    method Later(start: seq<Memory>, current: Memory, visited: set<Id>, ghost before: seq<Memory>,
                 ghost rank: map<Id, nat>, ghost bound: nat)
      returns (history: seq<Memory>, ghost ahead: seq<Memory>, error: Option<Error>)
      requires IsRow(rows, current) && start == Reversed(before) + [current]
      requires Walked(rows, [current], false) && Distinct(start) && AllSeen(start, visited) && visited <= rows.Keys
      requires Lineage(rows) ==> Linked(rows) && Ranks(rows, rank, bound) && RankedTo(rank, visited, current.id)
      ensures Lineage(rows) ==> error.None?
      ensures error.None? ==>
        history == Reversed(before) + ahead && ahead != [] && ahead[0] == current &&
        Walked(rows, ahead, false) && Distinct(history) && ahead[|ahead| - 1].supersededBy == ""
    {
      hide Lineage, Linked, Ranks, Walked, AllSeen, RankedFrom, RankedTo, Link, Distinct, Reversed;
      var seen, cursor := visited, current;
      history := start;
      ahead := [current];
      while cursor.supersededBy != ""
        invariant history == Reversed(before) + ahead && ahead != [] && ahead[0] == current
        invariant Walked(rows, ahead, false) && Distinct(history) && AllSeen(history, seen)
        invariant cursor == ahead[|ahead| - 1] && IsRow(rows, cursor) && seen <= rows.Keys
        invariant Lineage(rows) ==> RankedTo(rank, seen, cursor.id)
        decreases |rows.Keys - seen|
      {
        LinkIs(cursor);
        if Lineage(rows) {
          LinkHolds(rows, rank, bound, cursor, false);
          RankAhead(rank, seen, cursor.id, cursor.supersededBy);
        }
        if cursor.supersededBy !in rows {
          return history, ahead, Some(Broken);
        }
        var next := MemoryOf(rows, cursor.supersededBy);
        if next.id in seen {
          return history, ahead, Some(Cyclic);
        }
        WalkAhead(rows, before, ahead, next, seen);
        Fewer(rows, seen, next.id);
        assert history + [next] == Reversed(before) + (ahead + [next]);
        seen := seen + {next.id};
        history := history + [next];
        ahead := ahead + [next];
        cursor := next;
      }
      return history, ahead, None;
    }

    /** The complete chain of a row, oldest first; a broken or cyclic one is refused. */
    method History(id: Id) returns (r: Result<seq<Memory>>)
      ensures r.Ok? ==> IsHistory(rows, r.value, id)
      ensures Lineage(rows) ==> (r.Ok? <==> id in rows)
    {
      hide Lineage, Linked, Ranks, Walked, IsHistory, Distinct, AllSeen, Reversed, RankedFrom, RankedTo;
      if IsBlank(id) {
        if Lineage(rows) { LineageNames(rows, id); }
        return Err(EmptyId);
      }
      if id !in rows {
        return Err(NotFound);
      }
      var current := MemoryOf(rows, id);
      ghost var rank: map<Id, nat>, bound: nat := map[], 0;
      if Lineage(rows) { rank, bound := LineageRanks(rows); }
      var before, seen, error := Earlier(current, rank, bound);
      if error.Some? {
        return Err(error.value);
      }
      var history: seq<Memory> := [];
      ReversedStep(before, |before|);
      for i := |before| downto 0
        invariant history == Reversed(before[i..])
      {
        ReversedStep(before, i);
        history := history + [before[i]];
      }
      assert before[0..] == before;
      TurnAround(rows, before, current, seen);
      ghost var ahead;
      history, ahead, error := Later(history + [current], current, seen, before, rank, bound);
      if error.Some? {
        return Err(error.value);
      }
      HistoryFound(rows, before, current, ahead);
      return Ok(history);
    }
  }

  lemma ReversedStep(before: seq<Memory>, i: nat)
    requires i <= |before|
    ensures i < |before| ==> Reversed(before[i..]) == Reversed(before[i + 1..]) + [before[i]]
    ensures i == |before| ==> Reversed(before[i..]) == []
  {
  }

  ghost predicate Distinct(h: seq<Memory>) {
    forall i, j | 0 <= i < j < |h| :: h[i].id != h[j].id
  }

  lemma WalkStart(rows: Table, m: Memory)
    requires IsRow(rows, m)
    ensures Walked(rows, [m], true) && AllSeen([m], {m.id})
  {
  }

  /** The walk back read from its far end has the same rows, none twice. */
  lemma TurnAround(rows: Table, before: seq<Memory>, current: Memory, seen: set<Id>)
    requires Walked(rows, [current] + before, true) && AllSeen([current] + before, seen)
    ensures Walked(rows, [current], false)
    ensures Distinct(Reversed(before) + [current]) && AllSeen(Reversed(before) + [current], seen)
  {
    var p, h := [current] + before, Reversed(before) + [current];
    assert p[0] == current;
    assert forall i | 0 <= i < |h| :: h[i] == p[|before| - i];
  }

  lemma HistoryFound(rows: Table, before: seq<Memory>, current: Memory, ahead: seq<Memory>)
    requires Walked(rows, [current] + before, true) && Walked(rows, ahead, false)
    requires ahead != [] && ahead[0] == current && Distinct(Reversed(before) + ahead)
    requires ([current] + before)[|before|].supersedes == "" && ahead[|ahead| - 1].supersededBy == ""
    ensures IsHistory(rows, Reversed(before) + ahead, current.id)
  {
    hide Walked, Distinct;
    var h, k := Reversed(before) + ahead, |before|;
    assert h[k..] == ahead;
    ReversedBack(before, current, h);
    assert h[0] == ([current] + before)[|before|] by {
      if before == [] { assert h == ahead; }
    }
    assert h[|h| - 1] == ahead[|ahead| - 1];
    assert HistoryAt(rows, h, current.id, k);
  }

  lemma ReversedBack(before: seq<Memory>, current: Memory, h: seq<Memory>)
    requires |h| > |before| && h[..|before|] == Reversed(before) && h[|before|] == current
    ensures Reversed(h[..|before| + 1]) == [current] + before
  {
    var k := |before|;
    var r := Reversed(h[..k + 1]);
    forall i | 0 <= i < k ensures before[i] == h[k - 1 - i] {
      assert h[..k][k - 1 - i] == before[i];
    }
    assert forall i | 0 <= i <= k :: r[i] == h[k - i];
  }

  lemma Fewer(rows: Table, seen: set<Id>, id: Id)
    requires id in rows && id !in seen
    ensures |rows.Keys - (seen + {id})| < |rows.Keys - seen|
  {
    assert rows.Keys - seen == (rows.Keys - (seen + {id})) + {id};
  }

  lemma LineageNames(rows: Table, id: Id)
    requires Lineage(rows) && IsBlank(id)
    ensures id !in rows
  {
  }

  lemma RankStart(rows: Table, rank: map<Id, nat>, bound: nat, id: Id)
    requires Ranks(rows, rank, bound) && id in rows
    ensures RankedFrom(rank, {id}, id) && RankedTo(rank, {id}, id)
  {
  }

  lemma LineageRanks(rows: Table) returns (rank: map<Id, nat>, bound: nat)
    requires Lineage(rows)
    ensures Linked(rows) && Ranks(rows, rank, bound)
  {
    rank, bound :| Ranks(rows, rank, bound);
  }

  /* ---- What a history is on a lineage ---- */

  lemma WalkedLinks(rows: Table, h: seq<Memory>, id: Id, k: int)
    requires Linked(rows) && Named(rows) && HistoryAt(rows, h, id, k)
    ensures forall i | 0 <= i < |h| :: IsRow(rows, h[i])
    ensures forall i | 0 <= i < |h| - 1 :: h[i].id in rows && rows[h[i].id].supersededBy == Some(h[i + 1].id)
  {
    var r := Reversed(h[..k + 1]);
    forall i | 0 <= i < |h| ensures IsRow(rows, h[i]) {
      if i <= k { assert r[k - i] == h[i]; } else { assert h[k..][i - k] == h[i]; }
    }
    forall i | 0 <= i < |h| - 1 ensures h[i].id in rows && rows[h[i].id].supersededBy == Some(h[i + 1].id) {
      if i < k {
        assert r[k - i] == h[i] && r[k - i - 1] == h[i + 1];
        assert h[i].id == h[i + 1].supersedes;
      } else {
        assert h[k..][i - k] == h[i] && h[k..][i - k + 1] == h[i + 1];
      }
    }
  }

  /** On a lineage a history is the whole version chain of its row. */
  lemma HistoryIsChain(rows: Table, h: seq<Memory>, id: Id)
    requires Lineage(rows) && IsHistory(rows, h, id)
    ensures IsChain(rows, Ids(h)) && id in Ids(h)
  {
    hide Walked, Distinct, Acyclic, ReplacedExpired;
    var k :| HistoryAt(rows, h, id, k);
    WalkedLinks(rows, h, id, k);
    var c := Ids(h);
    assert c[k] == id;
    forall i | 0 <= i < |c|
      ensures c[i] in rows && rows[c[i]].supersedes == Before(c, i) && rows[c[i]].supersededBy == Behind(c, i)
    {
      assert IsRow(rows, h[i]);
      if i > 0 { assert rows[h[i - 1].id].supersededBy == Some(h[i].id); }
    }
  }

  /** Every member of a history has that same history. */
  lemma HistorySame(rows: Table, h: seq<Memory>, id: Id, g: seq<Memory>, other: Id)
    requires Lineage(rows) && IsHistory(rows, h, id) && other in Ids(h) && IsHistory(rows, g, other)
    ensures g == h
  {
    hide Lineage, IsChain;
    HistoryIsChain(rows, h, id);
    HistoryIsChain(rows, g, other);
    ChainUnique(rows, Ids(h), Ids(g), other);
    HistoryRows(rows, h, id);
    HistoryRows(rows, g, other);
    forall i | 0 <= i < |h| ensures g[i] == h[i] {
      assert Ids(g)[i] == Ids(h)[i];
    }
  }

  lemma HistoryRows(rows: Table, h: seq<Memory>, id: Id)
    requires Lineage(rows) && IsHistory(rows, h, id)
    ensures forall i | 0 <= i < |h| :: IsRow(rows, h[i])
  {
    var k :| HistoryAt(rows, h, id, k);
    WalkedLinks(rows, h, id, k);
  }
}
