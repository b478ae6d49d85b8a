/** What each write and each read of the object table does, said of the rows themselves. */
module ObjectLaws {
  import opened GoText
  import opened RecoveryObjects
  import opened ObjectTable

  /* ---- What may be stored ---- */

  /** What a caller must give. */
  predicate IsAcceptable(h: Hashes, o: Object) {
    o.typ in ["FileObservation", "SearchResult", "CommandResult", "TestResult", "BuildResult", "DiffSnapshot",
              "TaskContract", "TaskDecision", "ExecutionState", "DocumentationExcerpt", "BrowserSnapshot",
              "RepositoryMap", "EvidenceBundle"] &&
    !IsBlank(o.session) && o.currentness in ["", "current", "stale", "archived"] &&
    o.lifecycle in ["", "hot", "warm", "cold", "archived"] &&
    (o.hash == "" || o.hash == "sha256:" + h.full(o.data)) && o.originalLen >= 0 && o.storedLen >= 0
  }

  /** What is filled in: every field that was left empty, and nothing else. */
  predicate IsFilledIn(h: Hashes, o: Object, now: Time, r: Object) {
    r.hash == "sha256:" + h.full(o.data) &&
    r.id == (if o.id != "" then o.id else
             "ccr_obj_" + h.identity(o.typ + "\0" + o.session + "\0" + o.source + "\0" + o.repositoryState + "\0" +
                                     r.hash)) &&
    r.created == (if o.created == 0 then now else o.created) &&
    r.currentness == (if o.currentness == "" then "current" else o.currentness) &&
    r.lifecycle == (if o.lifecycle == "" then "hot" else o.lifecycle) &&
    r.originalLen == (if o.originalLen == 0 then |o.data| else o.originalLen) &&
    r.storedLen == (if o.storedLen == 0 then |o.data| else o.storedLen) &&
    r.typ == o.typ && r.source == o.source && r.repositoryState == o.repositoryState && r.session == o.session &&
    r.transform == o.transform && r.deps == o.deps && r.data == o.data
  }

  /** An object is stored exactly when it is acceptable, and then as filled in. */
  lemma PreparesExactly(h: Hashes, o: Object, now: Time)
    ensures Prepare(h, o, now).Ready? <==> IsAcceptable(h, o)
    ensures Prepare(h, o, now).Ready? ==> IsFilledIn(h, o, now, Prepare(h, o, now).obj)
  {
    hide IsBlank;
  }

  /** Two objects are the same when they differ in nothing but what may be marked later and when they were made. */
  lemma SameExactly(a: Object, b: Object)
    ensures SameImmutable(a, b) <==>
            a == b.(currentness := a.currentness, lifecycle := a.lifecycle, created := a.created)
  {
  }

  /* ---- Ids of objects ---- */

  function IdentityParts(o: Object, hash: string): seq<string> {
    [o.typ, o.session, o.source, o.repositoryState, hash]
  }

  lemma IdentityIsJoined(a: string, b: string, c: string, d: string, e: string)
    ensures Join([a, b, c, d, e], '\0') == a + "\0" + b + "\0" + c + "\0" + d + "\0" + e
  {
    assert [a, b, c, d, e][1..] == [b, c, d, e] && [b, c, d, e][1..] == [c, d, e];
    assert [c, d, e][1..] == [d, e] && [d, e][1..] == [e];
    assert Join([d, e], '\0') == d + "\0" + e;
    assert Join([c, d, e], '\0') == c + "\0" + (d + "\0" + e);
    assert Join([b, c, d, e], '\0') == b + "\0" + (c + "\0" + (d + "\0" + e));
  }

  /** While no field holds a NUL, objects with the same id are alike in type, session, source, state and content hash.
      */
  lemma IdNamesObject(h: Hashes, a: Object, b: Object, x: string, y: string)
    requires forall s, t :: h.identity(s) == h.identity(t) ==> s == t
    requires forall part | part in IdentityParts(a, x) + IdentityParts(b, y) :: '\0' !in part
    requires ObjectId(h, a, x) == ObjectId(h, b, y)
    ensures IdentityParts(a, x) == IdentityParts(b, y)
  {
    hide Join, Split;
    IdentityIsJoined(a.typ, a.session, a.source, a.repositoryState, x);
    IdentityIsJoined(b.typ, b.session, b.source, b.repositoryState, y);
    SplitJoin(IdentityParts(a, x), '\0');
    SplitJoin(IdentityParts(b, y), '\0');
    SamePrefix(OBJECT_PREFIX, h.identity(Join(IdentityParts(a, x), '\0')), h.identity(Join(IdentityParts(b, y), '\0')));
  }

  /** It is needed: a NUL may stand on either side of a border. */
  lemma NulMovesBorder(h: Hashes, o: Object, hash: string)
    ensures ObjectId(h, o.(session := "s\0x", source := "y"), hash) ==
            ObjectId(h, o.(session := "s", source := "x\0y"), hash)
  {
    var a, b := o.(session := "s\0x", source := "y"), o.(session := "s", source := "x\0y");
    assert a.typ + NUL + a.session + NUL + a.source == b.typ + NUL + b.session + NUL + b.source;
  }

  lemma SamePrefix(p: string, s: string, t: string)
    requires p + s == p + t
    ensures s == t
  {
    assert (p + s)[|p|..] == s && (p + t)[|p|..] == t;
  }

  /* ---- Reading ---- */

  /** A row with its own bytes, of this type and content. */
  predicate IsFullRow(t: Table, id: string, typ: string, hash: string) {
    id in t && t[id].ref == "" && t[id].obj.typ == typ && t[id].obj.hash == hash
  }

  predicate IsOlder(t: Table, a: string, b: string)
    requires a in t && b in t
  {
    t[a].obj.created < t[b].obj.created || (t[a].obj.created == t[b].obj.created && a != b && Less(a, b))
  }

  function OlderIn(t: Table, ids: set<string>, id: string): (older: set<string>)
    requires ids <= t.Keys && id in t
  {
    set k | k in ids && IsOlder(t, k, id)
  }

  lemma OlderOrNot(t: Table, a: string, b: string)
    requires a in t && b in t
    ensures IsOlder(t, a, b) <==> a != b && Before(t, a, b)
    ensures IsOlder(t, a, b) || IsOlder(t, b, a) || a == b
    ensures !(IsOlder(t, a, b) && IsOlder(t, b, a))
  {
    hide Less;
    LessIrreflexive(a);
    LessTotal(a, b);
    if Less(a, b) { LessAsymmetric(a, b); }
  }

  /** The first few rows are those with fewer older ones. */
  lemma {:induction false} FewExactly(t: Table, ids: set<string>, n: nat, k: string)
    requires ids <= t.Keys && k in ids
    ensures k in OldestFew(t, ids, n) <==> |OlderIn(t, ids, k)| < n
    decreases n
  {
    hide IsOlder, Before;
    if n > 0 {
      var id := Oldest(t, ids);
      assert Before(t, id, k);
      OlderOrNot(t, id, k);
      if k == id {
        forall j | j in ids ensures !IsOlder(t, j, id) {
          assert Before(t, id, j);
          OlderOrNot(t, id, j);
        }
        assert OlderIn(t, ids, k) == {};
      } else {
        FewExactly(t, ids - {id}, n - 1, k);
        assert OlderIn(t, ids, k) == OlderIn(t, ids - {id}, k) + {id};
        assert id !in OlderIn(t, ids - {id}, k);
      }
    }
  }

  lemma {:induction false} VerifiedExactly(h: Hashes, t: Table, hash: string, ids: seq<string>)
    requires forall id | id in ids :: id in t
    ensures FirstVerified(h, t, hash, ids).Some? <==> exists id | id in ids :: Verifies(h, hash, t[id].obj.data)
    decreases |ids|
  {
    hide Verifies;
    if ids != [] { VerifiedExactly(h, t, hash, ids[1..]); }
  }

  /** A full row of the same type and content, other than row `id`, with fewer than four older ones, whose bytes match.
      */
  ghost predicate IsFallback(h: Hashes, t: Table, id: string, k: string)
    requires id in t
  {
    var o := t[id].obj;
    var copies := set c | c in t && IsFullRow(t, c, o.typ, o.hash) && c != id;
    k in copies && |OlderIn(t, copies, k)| < 4 && "sha256:" + h.full(t[k].obj.data) == o.hash
  }

  /** A row reads exactly when the bytes it names match its content hash or one of the four oldest copies does. */
  lemma ReadsExactly(h: Hashes, t: Table, id: string)
    requires id in t
    ensures Resolve(h, t, id).Got? <==>
            (("sha256:" + h.full(if t[id].ref == "" then t[id].obj.data
                                 else if t[id].ref in t then t[t[id].ref].obj.data else []) == t[id].obj.hash) ||
             exists k :: IsFallback(h, t, id, k))
  {
    hide OlderIn, IsOlder, OldestFew, FirstVerified;
    var o := t[id].obj;
    var copies := Copies(t, o.typ, o.hash, id);
    assert copies == set c | c in t && IsFullRow(t, c, o.typ, o.hash) && c != id;
    var few := OldestFew(t, copies, FALLBACK_COPY_LIMIT);
    FewAreRows(t, copies, FALLBACK_COPY_LIMIT);
    VerifiedExactly(h, t, o.hash, few);
    forall k | k in copies ensures k in few <==> |OlderIn(t, copies, k)| < 4 {
      FewExactly(t, copies, FALLBACK_COPY_LIMIT, k);
    }
    if k :| k in few && Verifies(h, o.hash, t[k].obj.data) { assert IsFallback(h, t, id, k); }
    if k :| IsFallback(h, t, id, k) { assert k in few && Verifies(h, o.hash, t[k].obj.data); }
  }

  /* ---- Storing ---- */

  /** The oldest full row of this type and content. */
  ghost predicate IsOldestFull(t: Table, typ: string, hash: string, id: string) {
    IsFullRow(t, id, typ, hash) && forall k | k != id && IsFullRow(t, k, typ, hash) :: IsOlder(t, id, k)
  }

  lemma OldestIsOlder(t: Table, typ: string, hash: string, ids: set<string>, id: string)
    requires ids <= t.Keys && (forall k :: k in ids <==> IsFullRow(t, k, typ, hash)) && IsOldest(t, ids, id)
    ensures IsOldestFull(t, typ, hash, id)
  {
    hide IsOlder, IsFullRow;
    forall k | k != id && IsFullRow(t, k, typ, hash) ensures IsOlder(t, id, k) {
      assert Before(t, id, k);
      OlderOrNot(t, id, k);
    }
  }

  /** A new object is one new row. A repository map whose content is stored in full becomes a reference without bytes to
      the oldest such row, and anything else is stored in full. */
  lemma StoresExactly(h: Hashes, t: Table, o: Object)
    requires o.id !in t
    ensures var (t', outcome) := PutRow(h, t, o);
            outcome == Stored(o.id) && o.id in t' && t' - {o.id} == t &&
            if o.typ == "RepositoryMap" && exists k :: IsFullRow(t, k, "RepositoryMap", o.hash)
            then t'[o.id].obj == o.(data := []) && IsOldestFull(t, "RepositoryMap", o.hash, t'[o.id].ref)
            else t'[o.id] == Row(o, "")
  {
    hide IsOlder, Before, Resolve, SameImmutable;
    var copies := Copies(t, REPOSITORY_MAP, o.hash, o.id);
    assert forall k :: k in copies <==> IsFullRow(t, k, "RepositoryMap", o.hash);
    if o.typ == REPOSITORY_MAP && copies != {} {
      OldestIsOlder(t, "RepositoryMap", o.hash, copies, Oldest(t, copies));
    }
  }

  /** An object that is there stays as it is, and storing it again is told from a collision by what the row reads as. */
  lemma RepeatsExactly(h: Hashes, t: Table, o: Object)
    requires o.id in t
    ensures PutRow(h, t, o).0 == t
    ensures PutRow(h, t, o).1 == Unreadable <==> Resolve(h, t, o.id).Corrupt?
    ensures PutRow(h, t, o).1 == Stored(o.id) <==>
            Resolve(h, t, o.id).Got? &&
            var was := Resolve(h, t, o.id).obj;
            was == o.(currentness := was.currentness, lifecycle := was.lifecycle, created := was.created)
    ensures PutRow(h, t, o).1 in [Unreadable, Stored(o.id), Collision]
  {
    hide Resolve;
    if Resolve(h, t, o.id).Got? { SameExactly(Resolve(h, t, o.id).obj, o); }
  }

  /** Marking changes one field of one row, and only to a known value. */
  lemma MarksExactly(t: Table, id: string, value: string)
    ensures var (t', outcome) := SetCurrentness(t, id, value);
            if value !in ["current", "stale", "archived"] then outcome == Invalid && t' == t
            else if id !in t then outcome == NotFound && t' == t
            else outcome == Done && t'.Keys == t.Keys && t' - {id} == t - {id} && t'[id].ref == t[id].ref &&
                 t'[id].obj == t[id].obj.(currentness := value)
    ensures var (t', outcome) := SetLifecycle(t, id, value);
            if value !in ["hot", "warm", "cold", "archived"] then outcome == Invalid && t' == t
            else if id !in t then outcome == NotFound && t' == t
            else outcome == Done && t'.Keys == t.Keys && t' - {id} == t - {id} && t'[id].ref == t[id].ref &&
                 t'[id].obj == t[id].obj.(lifecycle := value)
  {
  }

  /* ---- Consolidating ---- */

  predicate IsPointedAt(t: Table, id: string) {
    id != "" && exists k | k in t :: t[k].ref == id
  }

  predicate IsTrueMap(h: Hashes, t: Table, id: string, hash: string) {
    IsFullRow(t, id, "RepositoryMap", hash) && "sha256:" + h.full(t[id].obj.data) == hash
  }

  /** The row that keeps the bytes of a map: one whose bytes match, one that rows point at if there is such a one, and
      the oldest of these. */
  ghost predicate IsKeeper(h: Hashes, t: Table, hash: string, id: string) {
    IsTrueMap(h, t, id, hash) &&
    ((exists k :: IsTrueMap(h, t, k, hash) && IsPointedAt(t, k)) ==> IsPointedAt(t, id)) &&
    forall k | k != id && IsTrueMap(h, t, k, hash) && (IsPointedAt(t, id) ==> IsPointedAt(t, k)) :: IsOlder(t, id, k)
  }

  lemma KeeperIsKeeper(h: Hashes, t: Table, hash: string)
    ensures Keeper(h, t, hash).Some? ==> IsKeeper(h, t, hash, Keeper(h, t, hash).value)
    ensures Keeper(h, t, hash).None? ==> forall k :: !IsTrueMap(h, t, k, hash)
  {
    hide IsOlder, Before, IsPointedAt, IsReferenced;
    var verified := VerifiedCopies(h, t, hash);
    forall k ensures k in verified <==> IsTrueMap(h, t, k, hash) {}
    forall k ensures IsReferenced(t, k) <==> IsPointedAt(t, k) { SamePointers(t, k); }
    var referenced := set k | k in verified && IsReferenced(t, k);
    if verified != {} {
      var id := Keeper(h, t, hash).value;
      var ids := if referenced != {} then referenced else verified;
      assert IsOldest(t, ids, id);
      forall k | k != id && k in ids ensures IsOlder(t, id, k) {
        assert Before(t, id, k);
        OlderOrNot(t, id, k);
      }
      assert IsTrueMap(h, t, id, hash);
      if k :| IsTrueMap(h, t, k, hash) && IsPointedAt(t, k) { assert k in referenced; }
      forall k | k != id && IsTrueMap(h, t, k, hash) && (IsPointedAt(t, id) ==> IsPointedAt(t, k))
        ensures IsOlder(t, id, k)
      {
        assert k in verified;
      }
    }
  }

  lemma SamePointers(t: Table, id: string)
    ensures IsReferenced(t, id) <==> IsPointedAt(t, id)
  {
  }

  lemma OneKeeper(h: Hashes, t: Table, hash: string, a: string, b: string)
    requires IsKeeper(h, t, hash, a) && IsKeeper(h, t, hash, b)
    ensures a == b
  {
    hide IsOlder, IsPointedAt;
    if a != b { OlderOrNot(t, a, b); }
  }

  /** Consolidating turns exactly the full repository maps that nothing points at and that are not the keeper of their
      content into references to the keeper, and leaves every other row as it is. */
  lemma ConsolidatesExactly(h: Hashes, t: Table, id: string, keeper: string)
    requires id in t && IsKeeper(h, t, t[id].obj.hash, keeper)
    ensures Consolidated(h, t)[id] ==
            if IsFullRow(t, id, "RepositoryMap", t[id].obj.hash) && !IsPointedAt(t, id) && id != keeper
            then Row(t[id].obj.(data := []), keeper) else t[id]
  {
    hide IsOlder, Keeper, IsPointedAt, IsReferenced;
    var hash := t[id].obj.hash;
    KeeperIsKeeper(h, t, hash);
    SamePointers(t, id);
    OneKeeper(h, t, hash, Keeper(h, t, hash).value, keeper);
  }

  /** A content without a row whose bytes match is left alone. */
  lemma DamagedMapsStay(h: Hashes, t: Table, id: string)
    requires id in t && forall k :: !IsTrueMap(h, t, k, t[id].obj.hash)
    ensures Consolidated(h, t)[id] == t[id]
  {
    hide IsReferenced;
    KeeperIsKeeper(h, t, t[id].obj.hash);
  }
}
