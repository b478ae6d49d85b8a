/**
 The recovery store as it runs: two tables, the expired ids, the counter its triggers keep, and why the last
 write was refused. Whether the disk is full, how many pages must be freed and whether an integrity check finds
 damage are inputs.
 */
module RecoveryStore {
  import opened GoText
  import opened RecoveryObjects
  import opened ObjectTable
  import opened StorageUsage
  import opened StoreReclaim

  datatype Refusal = NoRefusal | PageCap | DiskFull | PayloadBudget

  datatype Integrity = NotChecked | Intact | Damaged

  /** What the disk does to a write: it fits, or the page cap or the disk itself stops it. */
  datatype Disk = Fits | Capped | NoSpace

  /** What the database answers while a reclaim runs. */
  datatype World = World(findsDamage: bool, pageNeed: nat -> int, tombstonesFit: nat -> bool, pruneFits: bool)

  datatype Fetch = Found(data: Bytes) | Unknown | Expired | Unsound

  /** What a put answers. */
  datatype Answer = Kept(name: string) | Failed(why: Outcome) | OverBudget | StoreDamaged

  const COOLDOWN: Time := 600

  /* ---- What each operation does to a store ---- */

  /** A store between two calls. Its counter is the scan of its tables. */
  datatype State = State(recs: Recoveries, objs: Table, expired: Tombstones, refused: Refusal, integrity: Integrity,
                         futileAt: Option<Time>)

  datatype Write = RecoveryWrite(rec: Recovery) | ObjectWrite(obj: Object, at: Time)

  /** The refusal of a write that the disk stops. */
  function Stopped(s: State, disk: Disk): (State, Answer) {
    (s.(refused := if disk == Capped then PageCap else DiskFull), OverBudget)
  }

  ghost predicate ObjectFits(limit: int, s: State, o: Object) {
    RowFits(s.objs, Scan(s.recs, s.objs), limit, o.id, StoredRow(o, Owner(s.objs, o)))
  }

  /** One attempt: a repeat changes nothing, a write beyond the budget or the disk is refused, any other is stored. */
  ghost function Attempt(h: Hashes, limit: int, s: State, w: Write, disk: Disk): (State, Answer) {
    match w
    case RecoveryWrite(rec) =>
      var handle := Handle(h, rec.original);
      if handle in s.recs && s.recs[handle] == rec then (s, Kept(handle))
      else if !RecoveryFits(h, s.recs, Scan(s.recs, s.objs), limit, rec) then (s.(refused := PayloadBudget), OverBudget)
      else if disk != Fits then Stopped(s, disk)
      else (s.(recs := PutRecovery(h, s.recs, rec), refused := NoRefusal), Kept(handle))
    case ObjectWrite(input, at) =>
      var prepared := Prepare(h, input, at);
      if prepared.Rejected? then (s, Failed(Invalid))
      else
        var o := prepared.obj;
        var (t, outcome) := PutRow(h, s.objs, o);
        if !ObjectFits(limit, s, o) then (s.(refused := PayloadBudget), OverBudget)
        else if o.id !in s.objs && disk != Fits then Stopped(s, disk)
        else (s.(objs := t, refused := if o.id in s.objs then s.refused else NoRefusal),
              if outcome.Stored? then Kept(outcome.id) else Failed(outcome))
  }

  function Pruned(expired: Tombstones, now: Time): Tombstones {
    map id | id in expired && expired[id] >= now - TOMBSTONE_RETENTION :: expired[id]
  }

  /** A reclaim leaves a store that is damaged, or found to be, as it is. On an intact one it consolidates and then
      expires, and something was freed exactly when the objects changed. */
  ghost predicate Reclaims(h: Hashes, limit: int, now: Time, world: World, was: State, next: State, freed: bool,
                           gone: set<string>)
  {
    if was.integrity == Damaged || (was.integrity == NotChecked && world.findsDamage)
    then next == was.(integrity := Damaged) && !freed && gone == {}
    else
      var moved := Consolidated(h, was.objs);
      next == was.(integrity := Intact, objs := moved - gone, expired := next.expired) &&
        (freed <==> next.objs != was.objs) &&
      exists marks, noted, kept, need, expired ::
        IsExpiry(moved, Scan(was.recs, moved), limit, now, was.expired, world.pageNeed, world.tombstonesFit,
                 marks, noted, gone, expired, kept, need) &&
        next.expired == if world.pruneFits then Pruned(expired, now) else expired
  }

  /** Room is made only after a refusal for pages or budget, and not soon after a reclaim that freed nothing. */
  predicate MayReclaim(s: State, now: Time) {
    (s.refused == PageCap || s.refused == PayloadBudget) && !(s.futileAt.Some? && now - s.futileAt.value < COOLDOWN)
  }

  /** The refusal of a full disk frees nothing, and after a futile reclaim ten minutes pass before the next. */
  lemma ReclaimsExactly(s: State, now: Time)
    ensures MayReclaim(s, now) <==>
            s.refused != NoRefusal && s.refused != DiskFull && (s.futileAt.None? || now >= s.futileAt.value + 10 * 60)
  {
  }

  ghost predicate MakesRoom(h: Hashes, limit: int, now: Time, world: World, was: State, next: State, room: bool,
                            gone: set<string>)
  {
    if !MayReclaim(was, now) then next == was && !room && gone == {}
    else
      Reclaims(h, limit, now, world, was, next.(futileAt := was.futileAt), room, gone) &&
      next.futileAt == if room then None else Some(now)
  }

  /** A write is tried, and tried once more when it was refused for room and room was made. */
  ghost predicate Writes(h: Hashes, limit: int, w: Write, disk: Disk, again: Disk, now: Time, world: World,
                         was: State, next: State, a: Answer, gone: set<string>)
  {
    if was.integrity == Damaged then next == was && a == StoreDamaged && gone == {}
    else
      var (tried, first) := Attempt(h, limit, was, w, disk);
      if first != OverBudget then next == tried && a == first && gone == {}
      else exists mid, room ::
        MakesRoom(h, limit, now, world, tried, mid, room, gone) &&
        (next, a) == if room then Attempt(h, limit, mid, w, again) else (mid, OverBudget)
  }

  /** A store with room keeps every object: objects go only after a write that the page cap or the budget refused. */
  lemma OnlyRefusalsExpire(h: Hashes, limit: int, w: Write, disk: Disk, again: Disk, now: Time, world: World,
                           was: State, next: State, a: Answer, gone: set<string>)
    requires Writes(h, limit, w, disk, again, now, world, was, next, a, gone) &&
             (gone != {} || next.integrity != was.integrity)
    ensures was.integrity != Damaged && Attempt(h, limit, was, w, disk).1 == OverBudget
    ensures match w
            case RecoveryWrite(rec) =>
              disk == Capped || !RecoveryFits(h, was.recs, Scan(was.recs, was.objs), limit, rec)
            case ObjectWrite(o, at) =>
              Prepare(h, o, at).Ready? && (disk == Capped || !ObjectFits(limit, was, Prepare(h, o, at).obj))
  {
    hide Handle, RecoveryFits, ObjectFits, Prepare, PutRow, Reclaims, Scan, PutRecovery;
  }

  class Store {
    const h: Hashes
    const limit: int
    var recs: Recoveries
    var objs: Table
    var expired: Tombstones
    var used: int
    var refused: Refusal
    var integrity: Integrity
    var futileAt: Option<Time>

    constructor (h: Hashes, limit: int)
      requires Ideal(h) && limit >= 0
      ensures Valid() && InBudget() && this.h == h && this.limit == limit
      ensures recs == map[] && objs == map[] && expired == map[]
    {
      this.h, this.limit := h, limit;
      recs, objs, expired, used := map[], map[], map[], 0;
      refused, integrity, futileAt := NoRefusal, NotChecked, None;
      new;
      assert RecoverySizes(recs) == map[] && RowSizes(objs) == map[];
    }

    /** Recoveries stand under the handle of their bytes, objects are sound, the counter is the scan. */
    ghost predicate Valid()
      reads this
    {
      Ideal(h) && IsTrue(h, recs) && Sound(h, objs) && used == Scan(recs, objs)
    }

    ghost function Now(): State
      reads this
    {
      State(recs, objs, expired, refused, integrity, futileAt)
    }

    predicate InBudget()
      reads this
    {
      used <= limit
    }

    /* ---- Recoveries ---- */

    /** One attempt to store a recovery. */
    method PutOnce(rec: Recovery, disk: Disk) returns (a: Answer)
      requires Valid()
      modifies this`recs, this`used, this`refused
      ensures Valid() && (old(InBudget()) ==> InBudget())
      ensures (Now(), a) == Attempt(h, limit, old(Now()), RecoveryWrite(rec), disk)
      ensures a == Kept(Handle(h, rec.original)) || a == OverBudget
      ensures a.Kept? ==> recs == PutRecovery(h, old(recs), rec)
      ensures a == OverBudget <==>
              (Handle(h, rec.original) in old(recs) ==> old(recs)[Handle(h, rec.original)] != rec) &&
                                   (disk != Fits || !RecoveryFits(h, old(recs), old(used), limit, rec))
      ensures a == OverBudget ==> recs == old(recs) && used == old(used) && refused != NoRefusal
      ensures a == OverBudget ==>
              refused == if !RecoveryFits(h, old(recs), old(used), limit, rec) then PayloadBudget
                         else if disk == Capped then PageCap else DiskFull
      ensures a.Kept? && recs != old(recs) ==> refused == NoRefusal
    {
      hide Handle, Sound, Scan, Ideal, IsTrue, RecoverySize;
      var handle := Handle(h, rec.original);
      if handle in recs && recs[handle] == rec {
        assert recs == PutRecovery(h, recs, rec);
        return Kept(handle);
      }
      if !RecoveryFits(h, recs, used, limit, rec) {
        refused := PayloadBudget;
        return OverBudget;
      }
      if disk != Fits {
        refused := if disk == Capped then PageCap else DiskFull;
        return OverBudget;
      }
      var row := if handle in recs then Merged(recs[handle], rec) else rec;
      ScanPutRecovery(recs, objs, handle, row);
      PutKeepsOriginals(h, recs, rec, handle, rec.original);
      TrueRowIsOriginal(h, recs, rec.original);
      if used <= limit { PutStaysInBudget(h, recs, objs, limit, rec); }
      used := used - (if handle in recs then RecoverySize(recs[handle]) else 0) + RecoverySize(row);
      recs := recs[handle := row];
      refused := NoRefusal;
      a := Kept(handle);
    }

    /** Stores a recovery. A write refused for room may free some under the retention policy and is tried once more. */
    method Put(rec: Recovery, disk: Disk, again: Disk, now: Time, world: World)
      returns (a: Answer, ghost gone: set<string>)
      requires Valid()
      modifies this
      ensures Valid() && (old(InBudget()) ==> InBudget())
      ensures a.Kept? ==> a.name == Handle(h, rec.original) && recs == PutRecovery(h, old(recs), rec)
      ensures !a.Kept? ==> recs == old(recs) &&
                           (old(integrity) == Damaged || disk != Fits ||
                             !RecoveryFits(h, old(recs), old(used), limit, rec))
      ensures Writes(h, limit, RecoveryWrite(rec), disk, again, now, world, old(Now()), Now(), a, gone)
      ensures gone <= old(Expirable(objs, now)) && View(objs) == View(old(objs)) - gone
      ensures forall id | id in gone :: IsPast(old(objs), id, now)
      ensures gone != {} ==> disk == Capped || !RecoveryFits(h, old(recs), old(used), limit, rec)
      ensures old(integrity == Damaged) ==> a == StoreDamaged && unchanged(this)
    {
      hide Handle, Sound, Scan, Ideal, IsTrue, RecoverySize, Expirable, View, RecoveryFits, PutRecovery, MakesRoom,
           Attempt, IsPast;
      gone := {};
      ghost var was := Now();
      NothingLost(objs);
      if integrity == Damaged { return StoreDamaged, gone; }
      a := PutOnce(rec, disk);
      ghost var tried := Now();
      if a == OverBudget {
        var room;
        room, gone := ReclaimForWrite(now, world);
        ghost var mid := Now();
        if room { a := PutOnce(rec, again); }
        assert MakesRoom(h, limit, now, world, tried, mid, room, gone);
        if gone != {} {
          OnlyRefusalsExpire(h, limit, RecoveryWrite(rec), disk, again, now, world, was, Now(), a, gone);
        }
      }
    }

    /** The exact original bytes behind a handle, or an object's bytes behind its id. */
    method Get(handle: string) returns (r: Fetch)
      requires Valid()
      ensures r == Reads(h, recs, objs, expired, handle)
      ensures !("ccr_obj_" <= handle) ==> r == if handle in recs then Found(recs[handle].original) else Unknown
      ensures "ccr_obj_" <= handle ==> r == ReadsObject(h, objs, expired, handle)
    {
      hide Resolve, Sound, Ideal, Scan, Handle;
      if OBJECT_PREFIX <= handle {
        r := GetObject(handle);
        return;
      }
      if handle !in recs { return Unknown; }
      if Handle(h, recs[handle].original) != handle { return Unsound; }
      r := Found(recs[handle].original);
    }

    method GetMetadata(handle: string) returns (r: Fetch)
      requires Valid()
      ensures OBJECT_PREFIX <= handle ==>
                r == if ReadsObject(h, objs, expired, handle).Found? then Found([])
                  else ReadsObject(h, objs, expired, handle)
      ensures !(OBJECT_PREFIX <= handle) ==> r == if handle in recs then Found(recs[handle].metadata) else Unknown
    {
      hide Resolve, Sound, IsTrue, Ideal, Scan;
      if OBJECT_PREFIX <= handle {
        r := GetObject(handle);
        if r.Found? { r := Found([]); }
        return;
      }
      r := if handle in recs then Found(recs[handle].metadata) else Unknown;
    }

    /** The bytes of an object, or whether its id expired or was never known. */
    method GetObject(id: string) returns (r: Fetch)
      requires Valid()
      ensures r == ReadsObject(h, objs, expired, id)
      ensures r == Expired <==> id !in objs && id in expired
      ensures r == Unknown <==> id !in objs && id !in expired
      ensures r.Found? <==> id in objs && Resolve(h, objs, id).Got?
      ensures r.Found? ==> r.data == Resolve(h, objs, id).obj.data
    {
      hide Resolve, Sound, IsTrue, Ideal, Scan;
      if id !in objs { return if id in expired then Expired else Unknown; }
      var read := ReadObject(h, objs, id);
      r := if read.Corrupt? then Unsound else Found(read.obj.data);
    }

    /* ---- Objects ---- */

    /** One attempt to store a typed object. */
    method PutObjectOnce(input: Object, now: Time, disk: Disk) returns (a: Answer)
      requires Valid()
      modifies this`objs, this`used, this`refused
      ensures Valid() && (old(InBudget()) ==> InBudget())
      ensures (Now(), a) == Attempt(h, limit, old(Now()), ObjectWrite(input, now), disk)
      ensures (objs, a) == PutStep(h, old(objs), input, now, a != OverBudget)
      ensures a == OverBudget ==> Prepare(h, input, now).Ready? &&
                                  (disk != Fits || !ObjectFits(limit, old(Now()), Prepare(h, input, now).obj))
      ensures a == OverBudget ==> refused != NoRefusal && used == old(used) && objs == old(objs)
      ensures a == OverBudget <==>
              Prepare(h, input, now).Ready? &&
              var o := Prepare(h, input, now).obj;
              (!ObjectFits(limit, old(Now()), o) || (o.id !in old(objs) && disk != Fits))
      ensures a == OverBudget ==>
              refused == if !ObjectFits(limit, old(Now()), Prepare(h, input, now).obj) then PayloadBudget
                         else if disk == Capped then PageCap else DiskFull
    {
      hide Sound, Scan, Ideal, IsTrue, RowSize, Resolve, DepsJson, ByteLength, Owner, SameImmutable, Prepare;
      var prepared := PrepareObject(h, input, now);
      if prepared.Rejected? { return Failed(Invalid); }
      var obj := prepared.obj;
      var owner: Option<string> := None;
      if obj.typ == REPOSITORY_MAP { owner := FindOwner(objs, obj); } else { OnlyMapsHaveOwners(objs, obj); }
      var row := StoredRow(obj, owner);
      if !RowFits(objs, used, limit, obj.id, row) {
        refused := PayloadBudget;
        return OverBudget;
      }
      if obj.id in objs {
        var existing := ReadObject(h, objs, obj.id);
        if existing.Corrupt? { return Failed(Unreadable); }
        if !SameImmutable(existing.obj, obj) { return Failed(Collision); }
        return Kept(obj.id);
      }
      if disk != Fits {
        refused := if disk == Capped then PageCap else DiskFull;
        return OverBudget;
      }
      ScanPutRow(recs, objs, obj.id, row);
      RowStaysInBudget(recs, objs, limit, obj.id, row);
      PreparedIsSound(h, input, now);
      PutRefinesPlain(h, objs, obj);
      used := used + RowSize(row);
      objs := objs[obj.id := row];
      refused := NoRefusal;
      a := Kept(obj.id);
    }

    /** Stores a typed object, freeing room once when there is none. */
    method PutObject(input: Object, disk: Disk, again: Disk, now: Time, world: World)
      returns (a: Answer, ghost gone: set<string>)
      requires Valid()
      modifies this
      ensures Valid() && (old(InBudget()) ==> InBudget()) && recs == old(recs)
      ensures Writes(h, limit, ObjectWrite(input, now), disk, again, now, world, old(Now()), Now(), a, gone)
      ensures gone <= old(Expirable(objs, now)) && forall id | id in gone :: IsPast(old(objs), id, now)
      ensures gone != {} || a == OverBudget ==>
                Prepare(h, input, now).Ready? &&
                  (disk != Fits || !ObjectFits(limit, old(Now()), Prepare(h, input, now).obj))
      ensures old(integrity == Damaged) ==> a == StoreDamaged && unchanged(this)
      ensures a.Kept? ==> Prepare(h, input, now).Ready? && a.name == Prepare(h, input, now).obj.id
      ensures a.Kept? ==> View(objs) == PutPlain(View(old(objs)) - gone, Prepare(h, input, now).obj).0
      ensures !a.Kept? ==> View(objs) == View(old(objs)) - gone
    {
      hide Sound, Scan, Ideal, IsTrue, Expirable, Prepare, View, PutPlain, PutRow, PutStep, Attempt, MakesRoom,
           ObjectFits, IsPast;
      gone := {};
      NothingLost(objs);
      if integrity == Damaged { return StoreDamaged, gone; }
      PutStepView(h, objs, input, now, true);
      a := PutObjectOnce(input, now, disk);
      ghost var tried := Now();
      if a == OverBudget {
        var room;
        room, gone := ReclaimForWrite(now, world);
        ghost var mid := Now();
        if room {
          PutStepView(h, objs, input, now, true);
          a := PutObjectOnce(input, now, again);
        }
        assert MakesRoom(h, limit, now, world, tried, mid, room, gone);
      }
    }

    method SetObjectCurrentness(id: string, value: string) returns (outcome: Outcome)
      requires Valid()
      modifies this`objs
      ensures Valid()
      ensures integrity != Damaged ==> (objs, outcome) == SetCurrentness(old(objs), id, value)
      ensures integrity == Damaged ==>
              objs == old(objs) && outcome == if value in CURRENTNESSES then Refused else Invalid
      ensures outcome == Done <==>
              old(integrity) != Damaged && id in old(objs) && value in ["current", "stale", "archived"]
      ensures objs == if outcome == Done
                      then old(objs)[id := old(objs)[id].(obj := old(objs)[id].obj.(currentness := value))]
                      else old(objs)
    {
      hide Sound, Scan, Ideal, IsTrue;
      if value !in CURRENTNESSES { return Invalid; }
      if integrity == Damaged { return Refused; }
      if id !in objs { return NotFound; }
      MarkRefinesPlain(h, objs, id, value);
      ScanPutRow(recs, objs, id, objs[id].(obj := objs[id].obj.(currentness := value)));
      objs := objs[id := objs[id].(obj := objs[id].obj.(currentness := value))];
      outcome := Done;
    }

    method SetObjectLifecycle(id: string, value: string) returns (outcome: Outcome)
      requires Valid()
      modifies this`objs
      ensures Valid()
      ensures integrity != Damaged ==> (objs, outcome) == SetLifecycle(old(objs), id, value)
      ensures integrity == Damaged ==> objs == old(objs) && outcome == if value in LIFECYCLES then Refused else Invalid
      ensures outcome == Done <==>
              old(integrity) != Damaged && id in old(objs) && value in ["hot", "warm", "cold", "archived"]
      ensures objs == if outcome == Done
                      then old(objs)[id := old(objs)[id].(obj := old(objs)[id].obj.(lifecycle := value))]
                      else old(objs)
    {
      hide Sound, Scan, Ideal, IsTrue;
      if value !in LIFECYCLES { return Invalid; }
      if integrity == Damaged { return Refused; }
      if id !in objs { return NotFound; }
      MarkRefinesPlain(h, objs, id, value);
      ScanPutRow(recs, objs, id, objs[id].(obj := objs[id].obj.(lifecycle := value)));
      objs := objs[id := objs[id].(obj := objs[id].obj.(lifecycle := value))];
      outcome := Done;
    }

    /* ---- Reclaim ---- */

    /** Frees room after a refusal for room, unless that was futile a short time ago. */
    method ReclaimForWrite(now: Time, world: World) returns (room: bool, ghost gone: set<string>)
      requires Valid()
      modifies this`objs, this`used, this`expired, this`integrity, this`futileAt
      ensures Valid() && used <= old(used)
      ensures MakesRoom(h, limit, now, world, old(Now()), Now(), room, gone)
      ensures gone <= old(Expirable(objs, now)) && View(objs) == View(old(objs)) - gone
      ensures forall id | id in gone :: IsPast(old(objs), id, now)
      ensures !old(MayReclaim(Now(), now)) ==> !room && unchanged(this)
      ensures room <==> objs != old(objs)
      ensures !room ==> gone == {}
    {
      hide Sound, Scan, Ideal, IsTrue, Expirable, View, IsExpiry, Consolidated, IsPast, AllPastStayForReaders;
      gone := {};
      NothingLost(objs);
      if refused != PageCap && refused != PayloadBudget { return false, gone; }
      if futileAt.Some? && now - futileAt.value < COOLDOWN { return false, gone; }
      var freed;
      ghost var rounds;
      freed, gone, rounds := Reclaim(now, world);
      futileAt := if freed then None else Some(now);
      room := freed;
    }

    /** Consolidates duplicate maps, then expires what the policy lists. No recovery is ever touched. */
    method Reclaim(now: Time, world: World) returns (freed: bool, ghost gone: set<string>, ghost rounds: nat)
      requires Valid()
      modifies this`objs, this`used, this`expired, this`integrity
      ensures Valid() && used <= old(used)
      ensures Reclaims(h, limit, now, world, old(Now()), Now(), freed, gone)
      ensures gone <= old(Expirable(objs, now)) && View(objs) == View(old(objs)) - gone
      ensures forall id | id in gone :: IsPast(old(objs), id, now)
      ensures integrity == Intact && ReclaimNeed(world.pageNeed(rounds), used, limit) > 0 ==>
              AllPastStayForReaders(old(objs), objs, now)
      ensures freed <==> objs != old(objs)
      ensures !freed ==> gone == {}
      ensures objs != old(objs) ==> integrity == Intact
      ensures integrity == Intact && world.pruneFits ==>
              forall id | id in expired :: expired[id] >= now - 180 * 86400
      ensures forall id | id in old(expired) && old(expired)[id] >= now - 180 * 86400 :: id in expired
    {
      hide Sound, Scan, Ideal, IsTrue, Expirable, View, Consolidated, Closed, IsExpiry, Changed, Reclaims, Pruned,
           ReclaimNeed, IsProtected, IsPast, AllPastProtected, AllPastStayForReaders;
      freed, gone, rounds := false, {}, 0;
      ghost var was := Now();
      NothingLost(objs);
      DamagedReclaim(h, limit, now, world, was);
      if integrity == Damaged { return; }
      if integrity == NotChecked {
        if world.findsDamage { integrity := Damaged; return; }
        integrity := Intact;
      }
      var moved, objects, bytes := ConsolidateRepositoryMaps(h, Books(objs, used), recs);
      ConsolidationIsInvisible(h, objs);
      ConsolidationKeepsPolicy(h, objs, now);
      NoEmptyName(h, objs);
      var after, expiredIds, tombstones, kept, need, marks, noted :=
        ExpireObjects(h, moved, limit, now, expired, world.pageNeed, world.tombstonesFit, recs);
      DeletionSparesReaders(h, moved.t, expiredIds);
      PastTheSame(h, objs, expiredIds, now);
      objs, used, gone, rounds := after.t, after.used, expiredIds, |marks| - 1;
      freed := objects > 0 || expiredIds != {};
      expired := if world.pruneFits then Pruned(tombstones, now) else tombstones;
      IntactReclaim(h, limit, now, world, was, Now(), moved.used, objects > 0, freed, gone, tombstones, kept, need,
                    marks, noted);
    }
  }

  /* ---- What the store's reads are ---- */

  ghost function ReadsObject(h: Hashes, t: Table, expired: Tombstones, id: string): Fetch {
    if id !in t then if id in expired then Expired else Unknown
    else if Resolve(h, t, id).Corrupt? then Unsound
    else Found(Resolve(h, t, id).obj.data)
  }

  ghost function Reads(h: Hashes, recs: Recoveries, t: Table, expired: Tombstones, handle: string): Fetch {
    if OBJECT_PREFIX <= handle then ReadsObject(h, t, expired, handle)
    else if handle !in recs then Unknown
    else if Handle(h, recs[handle].original) != handle then Unsound
    else Found(recs[handle].original)
  }

  /** One put of an object as a step of the table. */
  ghost function PutStep(h: Hashes, t: Table, input: Object, now: Time, room: bool): (Table, Answer) {
    var (t', outcome) := Step(h, t, Op.Put(input, now, room));
    (t', if outcome.Stored? then Kept(outcome.id) else if outcome == Refused then OverBudget else Failed(outcome))
  }

  lemma PutStepView(h: Hashes, t: Table, input: Object, now: Time, room: bool)
    requires Ideal(h) && Sound(h, t)
    ensures var (t', a) := PutStep(h, t, input, now, room);
            (a.Kept? ==> Prepare(h, input, now).Ready? && a.name == Prepare(h, input, now).obj.id &&
                         View(t') == PutPlain(View(t), Prepare(h, input, now).obj).0) &&
            (!a.Kept? ==> t' == t)
  {
    hide Sound, View, Prepare, SameImmutable, IsPrepared, Resolve, Owner, StoredRow;
    if Prepare(h, input, now).Ready? {
      PreparedIsSound(h, input, now);
      PutRefinesPlain(h, t, Prepare(h, input, now).obj);
    }
  }

  lemma DamagedReclaim(h: Hashes, limit: int, now: Time, world: World, was: State)
    ensures was.integrity == Damaged || (was.integrity == NotChecked && world.findsDamage) ==>
              Reclaims(h, limit, now, world, was, was.(integrity := Damaged), false, {})
  {
  }

  lemma IntactReclaim(h: Hashes, limit: int, now: Time, world: World, was: State, next: State, used: int, moved: bool,
                      freed: bool, gone: set<string>, expired: Tombstones, kept: nat, need: int, marks: seq<nat>,
                        noted: nat)
    requires was.integrity != Damaged && !(was.integrity == NotChecked && world.findsDamage)
    requires var t := Consolidated(h, was.objs);
             used == Scan(was.recs, t) && (moved <==> t != was.objs) && (freed <==> moved || gone != {}) &&
               gone <= t.Keys &&
             IsExpiry(t, used, limit, now, was.expired, world.pageNeed, world.tombstonesFit, marks, noted, gone,
                      expired, kept, need) &&
             next == was.(integrity := Intact, objs := t - gone,
                          expired := if world.pruneFits then Pruned(expired, now) else expired)
    ensures Reclaims(h, limit, now, world, was, next, freed, gone)
    ensures freed <==> next.objs != was.objs
    ensures world.pruneFits ==> forall id | id in next.expired :: next.expired[id] >= now - TOMBSTONE_RETENTION
    ensures forall id | id in expired && expired[id] >= now - TOMBSTONE_RETENTION :: id in next.expired
  {
    hide Consolidated, IsExpiry, Scan;
    FewerRows(Consolidated(h, was.objs), gone);
  }

  /** After a reclaim that needed more, an object past its time is still there only for one that is not and reads it. */
  ghost predicate AllPastStayForReaders(t: Table, t': Table, now: Time) {
    forall id | id in t && id in t' && IsPast(t, id, now) ::
      exists r | r in t :: r in t' && t'[r].ref == id && id != "" && !IsPast(t, r, now)
  }

  /** Consolidating does not change what is past its time. */
  lemma PastTheSame(h: Hashes, t: Table, gone: set<string>, now: Time)
    requires gone <= t.Keys
    ensures var moved := Consolidated(h, t);
            (forall id | id in t :: IsPast(moved, id, now) <==> IsPast(t, id, now)) &&
            (AllPastProtected(moved, moved - gone, now) ==> AllPastStayForReaders(t, moved - gone, now))
  {
    hide ConsolidatedRow;
    var moved := Consolidated(h, t);
    forall id | id in t ensures moved[id].obj == t[id].obj.(data := moved[id].obj.data) { SameFields(h, t, id); }
    forall id | id in t ensures IsPast(moved, id, now) <==> IsPast(t, id, now) { PastFields(t, moved, id, now); }
    hide IsPast, Consolidated;
    if AllPastProtected(moved, moved - gone, now) {
      forall id | id in t && id in moved - gone && IsPast(t, id, now)
        ensures exists r | r in t :: r in moved - gone && (moved - gone)[r].ref == id && id != "" && !IsPast(t, r, now)
      {
        var r :| r in moved && r in moved - gone && moved[r].ref == id && id != "" && !IsPast(moved, r, now);
        assert r in t;
      }
    }
  }

  lemma PastFields(t: Table, t': Table, id: string, now: Time)
    requires t'.Keys == t.Keys && id in t && forall k | k in t :: t'[k].obj == t[k].obj.(data := t'[k].obj.data)
    ensures IsPast(t', id, now) <==> IsPast(t, id, now)
  {
    if IsPast(t, id, now) {
      forall k | k in t' && t'[k].obj.session == t'[id].obj.session
        ensures t'[k].obj.created < now - (if t'[id].obj.lifecycle == "archived" then 14 else 30) * 86400
      {
        assert t[k].obj.session == t[id].obj.session;
      }
    }
    if IsPast(t', id, now) {
      forall k | k in t && t[k].obj.session == t[id].obj.session
        ensures t[k].obj.created < now - (if t[id].obj.lifecycle == "archived" then 14 else 30) * 86400
      {
        assert t'[k].obj.session == t'[id].obj.session;
      }
    }
  }

  lemma NoEmptyName(h: Hashes, t: Table)
    requires Sound(h, t)
    ensures "" !in t
  {
    forall id | id in t ensures id != "" { assert IsSoundRow(h, t, id); }
  }

  lemma FewerRows(t: Table, gone: set<string>)
    requires gone <= t.Keys
    ensures if gone == {} then t - gone == t else (t - gone).Keys != t.Keys
  {
    if id :| id in gone { assert id in t && id !in t - gone; }
  }

  lemma NothingLost(t: Table)
    ensures View(t) - {} == View(t)
  {
  }

  lemma OnlyMapsHaveOwners(t: Table, o: Object)
    requires o.typ != REPOSITORY_MAP
    ensures Owner(t, o) == None
  {
  }

  /** The oldest full row that already holds the content. */
  method FindOwner(t: Table, o: Object) returns (owner: Option<string>)
    requires o.typ == REPOSITORY_MAP
    ensures owner == Owner(t, o)
  {
    var copies := Copies(t, REPOSITORY_MAP, o.hash, o.id);
    if copies == {} { return None; }
    var id := FindOldest(t, copies);
    OldestUnique(t, copies, id, Oldest(t, copies));
    owner := Some(id);
  }

  /** Consolidating moves bytes only, so the retention policy lists the same objects. */
  lemma ConsolidationKeepsPolicy(h: Hashes, t: Table, now: Time)
    ensures Expirable(Consolidated(h, t), now) == Expirable(t, now)
  {
    hide ConsolidatedRow;
    var t' := Consolidated(h, t);
    forall id | id in t ensures t'[id].obj == t[id].obj.(data := t'[id].obj.data) { SameFields(h, t, id); }
    forall session, cutoff ensures IsIdle(t', session, cutoff) <==> IsIdle(t, session, cutoff) {
      IdleTheSame(t, t', session, cutoff);
    }
  }

  lemma IdleTheSame(t: Table, t': Table, session: string, cutoff: Time)
    requires t'.Keys == t.Keys && forall id | id in t :: t'[id].obj == t[id].obj.(data := t'[id].obj.data)
    ensures IsIdle(t', session, cutoff) <==> IsIdle(t, session, cutoff)
  {
  }
}
