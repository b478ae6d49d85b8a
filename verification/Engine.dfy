/**
 The engine around the store: detect, compress, count, record the original, and only then publish. The
 compressors, the token counter, the detector and the wrappers around file listings are parameters.
 */
module Engine {
  import opened GoText
  import opened RecoveryObjects
  import opened ObjectTable
  import opened StorageUsage
  import opened StoreReclaim
  import opened RecoveryStore

  /* ---- Safety classes ---- */

  datatype Info = Info(name: string, requiresRecovery: bool, reversible: bool)

  function Lookup(safetyClass: int): Option<Info> {
    if safetyClass == 0 then Some(Info("S0", false, true))
    else if safetyClass == 1 then Some(Info("S1", false, true))
    else if safetyClass == 2 then Some(Info("S2", false, true))
    else if safetyClass == 3 then Some(Info("S3", false, false))
    else if safetyClass == 4 then Some(Info("S4", true, false))
    else None
  }

  /* ---- Compressors ---- */

  datatype Metadata = Metadata(technique: string, lossless: Option<bool>, recovery: Bytes)

  const NO_METADATA := Metadata("", None, [])

  /** A compressor with the optional paths it may implement. Failing, or returning nothing, is `None`. */
  datatype Compressor = Compressor(
    contentType: string, safety: int, plain: Bytes -> Option<Bytes>,
    queried: Option<(Bytes, string) -> Option<Bytes>>,
    described: Option<(Bytes, string) -> Option<(Bytes, Metadata)>>)

  datatype Mode = Record | Compressing

  datatype Options = Options(mode: Mode, contentType: string, query: string, externalRecovery: bool)

  /** What surrounds the compressors. */
  datatype Setup = Setup(registry: map<string, Compressor>, count: Bytes -> nat, detect: Bytes -> string,
                         unwrap: Bytes -> Bytes, rewrap: (Bytes, Bytes) -> Bytes)

  function CompressWith(c: Compressor, body: Bytes, query: string): Option<(Bytes, Metadata)> {
    if c.described.Some? then c.described.value(body, query)
    else
      var out := if query != "" && c.queried.Some? then c.queried.value(body, query) else c.plain(body);
      if out.None? then None else Some((out.value, NO_METADATA))
  }

  function Normalized(c: Compressor, m: Metadata, info: Info): Metadata {
    m.(technique := if m.technique == "" then c.contentType else m.technique,
       lossless := if m.lossless.None? then Some(info.reversible) else m.lossless)
  }

  /** What the compressors make of an input, whether or not it can be recovered. */
  datatype Plan = PassThrough | Transform(out: Bytes, compressor: string, info: Info, meta: Metadata)

  function TypeOf(s: Setup, input: Bytes, opts: Options): string {
    if opts.contentType == "" then s.detect(s.unwrap(input)) else opts.contentType
  }

  function PlanFor(s: Setup, input: Bytes, opts: Options): Plan {
    var typ := TypeOf(s, input, opts);
    if opts.mode == Record || typ !in s.registry then PassThrough
    else
      var c := s.registry[typ];
      var info, made := Lookup(c.safety), CompressWith(c, s.unwrap(input), opts.query);
      if info.None? || made.None? then PassThrough
      else
        var out := s.rewrap(input, made.value.0);
        if s.count(out) >= s.count(input) || out == input then PassThrough
        else Transform(out, c.contentType, info.value, Normalized(c, made.value.1, info.value))
  }

  datatype Result = Result(output: Bytes, contentType: string, before: nat, after: nat, ratio: real, handle: string,
                           technique: string, lossless: Option<bool>) {
    predicate PassedThrough() {
      handle == "" && technique == "" && ratio == 0.0
    }
  }

  datatype Simulated = Simulated(contentType: string, compressor: string, safety: string, before: nat, after: nat,
                                 saved: int, ratio: real, lossy: bool, requiresRecovery: bool, recoverable: bool,
                                 technique: string, lossless: Option<bool>)

  function Ratio(before: nat, after: nat): (r: real)
    requires after < before
    ensures r > 0.0
  {
    (before - after) as real / before as real
  }

  /** The input unchanged, claiming nothing. */
  function Unchanged(s: Setup, input: Bytes, opts: Options): Result {
    Result(input, TypeOf(s, input, opts), s.count(input), s.count(input), 0.0, "", "", None)
  }

  lemma PlanShrinks(s: Setup, input: Bytes, opts: Options)
    requires PlanFor(s, input, opts).Transform?
    ensures var p := PlanFor(s, input, opts); s.count(p.out) < s.count(input) && p.out != input
  {
  }

  /** The planned transform, published under a handle. */
  function Published(s: Setup, input: Bytes, opts: Options, handle: string): Result
    requires PlanFor(s, input, opts).Transform?
  {
    var p := PlanFor(s, input, opts);
    PlanShrinks(s, input, opts);
    Result(p.out, TypeOf(s, input, opts), s.count(input), s.count(p.out), Ratio(s.count(input), s.count(p.out)), handle,
           p.meta.technique, p.meta.lossless)
  }

  /** A planned transform that may only be published under a handle, because its class is lossy and the caller does not
      keep the original. */
  predicate NeedsHandle(s: Setup, input: Bytes, opts: Options) {
    PlanFor(s, input, opts).Transform? && PlanFor(s, input, opts).info.requiresRecovery && !opts.externalRecovery
  }

  /** When a transform is planned, and what the safety class of its compressor makes of it: classes 0 to 4 may run,
      class 4 needs a handle unless the caller keeps the original, and classes 3 and 4 count as lossy unless the
      compressor says otherwise. */
  lemma PlanByClass(s: Setup, input: Bytes, opts: Options)
    ensures var typ := if opts.contentType == "" then s.detect(s.unwrap(input)) else opts.contentType;
            var plan := PlanFor(s, input, opts);
            (plan.Transform? <==>
               opts.mode == Compressing && typ in s.registry && 0 <= s.registry[typ].safety <= 4 &&
               var made := CompressWith(s.registry[typ], s.unwrap(input), opts.query);
               made.Some? && s.rewrap(input, made.value.0) != input &&
               s.count(s.rewrap(input, made.value.0)) < s.count(input)) &&
            (plan.Transform? ==>
               var c := s.registry[typ];
               var made := CompressWith(c, s.unwrap(input), opts.query).value;
               plan.out == s.rewrap(input, made.0) && plan.compressor == c.contentType &&
               plan.info.name == ["S0", "S1", "S2", "S3", "S4"][c.safety] && plan.meta.recovery == made.1.recovery &&
               plan.meta.technique == (if made.1.technique == "" then c.contentType else made.1.technique) &&
               plan.meta.lossless == if made.1.lossless.Some? then made.1.lossless else Some(c.safety <= 2)) &&
            (NeedsHandle(s, input, opts) <==>
               plan.Transform? && s.registry[typ].safety == 4 && !opts.externalRecovery)
  {
    hide CompressWith;
  }

  /** The recovery that a planned transform leaves behind. */
  function RecoveryOf(s: Setup, input: Bytes, opts: Options): Recovery
    requires PlanFor(s, input, opts).Transform?
  {
    var p := PlanFor(s, input, opts);
    Recovery(TypeOf(s, input, opts), p.compressor, s.count(input), s.count(p.out), input, p.meta.recovery)
  }

  /** What a published result and the recovery beside it say of the input. */
  lemma PublishedIs(s: Setup, input: Bytes, opts: Options, handle: string)
    requires PlanFor(s, input, opts).Transform?
    ensures var r, rec, typ := Published(s, input, opts, handle), RecoveryOf(s, input, opts),
              if opts.contentType == "" then s.detect(s.unwrap(input)) else opts.contentType;
            r.output == PlanFor(s, input, opts).out && r.contentType == typ && r.handle == handle &&
            r.before == s.count(input) && r.after == s.count(r.output) < r.before &&
            r.ratio * r.before as real == (r.before - r.after) as real &&
            rec.original == input && rec.contentType == typ && rec.tokensBefore == r.before &&
            rec.tokensAfter == r.after && rec.compressor == s.registry[typ].contentType
  {
    hide CompressWith;
    PlanShrinks(s, input, opts);
  }

  /** A compressor that describes what it did is asked to; one that knows queries gets the query when there is one. */
  lemma PathTaken(c: Compressor, body: Bytes, query: string)
    ensures c.described.Some? ==> CompressWith(c, body, query) == c.described.value(body, query)
    ensures c.described.None? ==>
              var bytes := if c.queried.Some? && query != "" then c.queried.value(body, query) else c.plain(body);
              (CompressWith(c, body, query).Some? <==> bytes.Some?) &&
              (bytes.Some? ==> CompressWith(c, body, query) == Some((bytes.value, Metadata("", None, []))))
  {
  }

  /** A result says it passed through exactly when its bytes are the input's. */
  lemma PassedThroughIsExact(s: Setup, input: Bytes, opts: Options, handle: string)
    ensures Unchanged(s, input, opts).PassedThrough()
    ensures PlanFor(s, input, opts).Transform? ==>
              var r := Published(s, input, opts, handle); !r.PassedThrough() && r.output != input && r.after < r.before
  {
    hide PlanFor;
    if PlanFor(s, input, opts).Transform? { PlanShrinks(s, input, opts); }
  }

  class Engine {
    const s: Setup
    const store: Store?

    constructor (s: Setup, store: Store?)
      ensures this.s == s && this.store == store
    {
      this.s, this.store := s, store;
    }

    ghost predicate Valid()
      reads this, store
    {
      store != null ==> store.Valid()
    }

    /** Compresses, or passes the input through. Changed bytes of a lossy class leave only with a handle under which
        the store holds the exact input, unless the caller keeps the original itself. */
    method Compress(input: Bytes, opts: Options, disk: Disk, again: Disk, now: Time, world: World)
      returns (res: Result, failed: bool, ghost gone: set<string>)
      requires Valid()
      modifies store
      ensures Valid()
      ensures res == Unchanged(s, input, opts) ||
              (PlanFor(s, input, opts).Transform? && res == Published(s, input, opts, res.handle))
      ensures var typ := if opts.contentType == "" then s.detect(s.unwrap(input)) else opts.contentType;
              var class4 := typ in s.registry && s.registry[typ].safety == 4;
              (class4 && res.output != input && !opts.externalRecovery ==>
                 store != null && res.handle == Handle(store.h, input) && Holds(store.recs, res.handle, input)) &&
              (!class4 || opts.externalRecovery || opts.mode == Record ==>
                 res.handle == "" && (store != null ==> unchanged(store))) &&
              (res.output != input ==>
                 opts.mode == Compressing && typ in s.registry && 0 <= s.registry[typ].safety <= 4 &&
                 s.count(res.output) < s.count(input))
      ensures failed ==> res == Unchanged(s, input, opts) && store != null && NeedsHandle(s, input, opts) &&
                         (old(store.integrity) == Damaged || disk != Fits ||
                          !RecoveryFits(store.h, old(store.recs), old(store.used), store.limit,
                                        RecoveryOf(s, input, opts)))
      ensures res.output != input && NeedsHandle(s, input, opts) ==>
                store != null && res.handle == Handle(store.h, input) && Holds(store.recs, res.handle, input)
      ensures !NeedsHandle(s, input, opts) ==> res.handle == ""
      ensures res.handle != "" ==> res.output != input && store != null && Holds(store.recs, res.handle, input)
      ensures store != null ==>
                store.recs == if NeedsHandle(s, input, opts) && !failed
                              then PutRecovery(store.h, old(store.recs), RecoveryOf(s, input, opts))
                                else old(store.recs)
      ensures PlanFor(s, input, opts).Transform? && !failed && (store != null || !NeedsHandle(s, input, opts)) ==>
                res.output == PlanFor(s, input, opts).out
      ensures store != null && !NeedsHandle(s, input, opts) ==> unchanged(store)
      ensures store != null && NeedsHandle(s, input, opts) ==>
                exists a: Answer :: (failed <==> !a.Kept?) &&
                            Writes(store.h, store.limit, RecoveryWrite(RecoveryOf(s, input, opts)), disk, again, now,
                                   world, old(store.Now()), store.Now(), a, gone)
      ensures store != null ==>
              gone <= old(Expirable(store.objs, now)) && View(store.objs) == View(old(store.objs)) - gone
    {
      hide Sound, Scan, IsTrue, Expirable, View, Handle, Ideal, PlanFor, Writes;
      failed, gone := false, {};
      if store != null { NothingLost(store.objs); }
      res := Unchanged(s, input, opts);
      var body, typ := s.unwrap(input), TypeOf(s, input, opts);
      var plan := PlanFor(s, input, opts);
      PlanSteps(s, input, opts);
      PlanByClass(s, input, opts);
      if plan.Transform? { PlanShrinks(s, input, opts); }
      if opts.mode == Record { return; }
      if typ !in s.registry { return; }
      var c := s.registry[typ];
      var info := Lookup(c.safety);
      if info.None? { return; }
      if info.value.requiresRecovery && store == null && !opts.externalRecovery { return; }
      var made := CompressWith(c, body, opts.query);
      if made.None? { return; }
      var out := s.rewrap(input, made.value.0);
      var before, after := s.count(input), s.count(out);
      if after >= before || out == input { return; }
      var meta := Normalized(c, made.value.1, info.value);
      var handle := "";
      if info.value.requiresRecovery && !opts.externalRecovery {
        var rec := Recovery(typ, c.contentType, before, after, input, meta.recovery);
        var answer;
        answer, gone := store.Put(rec, disk, again, now, world);
        if !answer.Kept? { failed := true; return; }
        PutHolds(store.h, old(store.recs), rec);
        HandleIsNamed(store.h, input);
        handle := answer.name;
      }
      res := Result(out, typ, before, after, Ratio(before, after), handle, meta.technique, meta.lossless);
    }

    /** What a call to Compress would do, without storing anything. */
    method Simulate(input: Bytes, opts: Options) returns (res: Simulated)
      ensures PlanFor(s, input, opts).PassThrough? ==>
              res.before == res.after && res.saved == 0 && res.recoverable && res.compressor == ""
      ensures PlanFor(s, input, opts).Transform? ==>
                var p := PlanFor(s, input, opts);
                var published := Published(s, input, opts, "");
                res.before == published.before && res.after == published.after &&
                  res.saved == res.before - res.after > 0 &&
                res.ratio == published.ratio && res.technique == published.technique &&
                  res.lossless == published.lossless &&
                res.requiresRecovery == p.info.requiresRecovery &&
                  (res.recoverable <==> !p.info.requiresRecovery || store != null) &&
                res.compressor == p.compressor && res.safety == p.info.name &&
                  (res.lossy <==> p.meta.lossless == Some(false))
    {
      hide PlanFor;
      var body, typ := s.unwrap(input), TypeOf(s, input, opts);
      var before := s.count(input);
      PlanSteps(s, input, opts);
      res := Simulated(typ, "", "", before, before, 0, 0.0, false, false, true, "", None);
      if opts.mode == Record { return; }
      if typ !in s.registry { return; }
      var c := s.registry[typ];
      var info := Lookup(c.safety);
      if info.None? { return; }
      var made := CompressWith(c, body, opts.query);
      if made.None? { return; }
      var out := s.rewrap(input, made.value.0);
      var after := s.count(out);
      if after >= before || out == input { return; }
      var meta := Normalized(c, made.value.1, info.value);
      res := Simulated(typ, c.contentType, info.value.name, before, after, before - after, Ratio(before, after),
                       meta.lossless == Some(false), info.value.requiresRecovery,
                       !info.value.requiresRecovery || store != null, meta.technique, meta.lossless);
    }

    /** The exact bytes behind a recovery handle, or behind an object id when no recovery has that name. */
    method Retrieve(handle: string) returns (r: Fetch)
      requires Valid()
      ensures store == null ==> r == Unknown
      ensures store != null ==> r == Retrieved(store.h, store.recs, store.objs, store.expired, handle)
    {
      hide Sound, Scan, IsTrue, Ideal, Resolve, Reads, ReadsObject;
      if store == null { return Unknown; }
      r := store.Get(handle);
      if r == Unknown || r == Expired {
        var stored := store.GetObject(handle);
        if stored != Unknown && stored != Expired { r := stored; }
      }
    }
  }

  ghost function Retrieved(h: Hashes, recs: Recoveries, t: Table, expired: Tombstones, handle: string): Fetch {
    var first, second := Reads(h, recs, t, expired, handle), ReadsObject(h, t, expired, handle);
    if (first == Unknown || first == Expired) && second != Unknown && second != Expired then second else first
  }

  lemma PutHolds(h: Hashes, recs: Recoveries, rec: Recovery)
    requires Ideal(h) && IsTrue(h, recs)
    ensures Holds(PutRecovery(h, recs, rec), Handle(h, rec.original), rec.original)
  {
    PutKeepsOriginals(h, recs, rec, Handle(h, rec.original), rec.original);
  }

  lemma HandleIsNamed(h: Hashes, original: Bytes)
    ensures Handle(h, original) != ""
  {
  }

  /** The plan, test by test. */
  lemma PlanSteps(s: Setup, input: Bytes, opts: Options)
    ensures var typ := TypeOf(s, input, opts);
            PlanFor(s, input, opts) ==
            if opts.mode == Record || typ !in s.registry || Lookup(s.registry[typ].safety).None? ||
               CompressWith(s.registry[typ], s.unwrap(input), opts.query).None? then PassThrough
            else
              var c := s.registry[typ];
              var made := CompressWith(c, s.unwrap(input), opts.query).value;
              var out := s.rewrap(input, made.0);
              if s.count(out) >= s.count(input) || out == input then PassThrough
              else Transform(out, c.contentType, Lookup(c.safety).value, Normalized(c, made.1, Lookup(c.safety).value))
  {
  }

  /* ---- Whole runs ---- */

  /** A handle whose recovery is held retrieves the exact bytes, whatever the objects are. */
  lemma HeldIsRetrieved(h: Hashes, recs: Recoveries, t: Table, expired: Tombstones, original: Bytes)
    requires Ideal(h) && Holds(recs, Handle(h, original), original)
    ensures Retrieved(h, recs, t, expired, Handle(h, original)) == Found(original)
  {
    HandleIsNoObjectId(h, original);
    hide Handle, ReadsObject, Ideal;
  }

  /** A name that no recovery has retrieves the object that has it, as far as that reads. */
  lemma ObjectIsRetrieved(h: Hashes, recs: Recoveries, t: Table, expired: Tombstones, id: string)
    requires id !in recs && id in t
    ensures Retrieved(h, recs, t, expired, id) ==
            if Resolve(h, t, id).Got? then Found(Resolve(h, t, id).obj.data) else Unsound
  {
    hide Resolve;
  }

  /** What any call does to the recoveries: nothing, or one put. */
  ghost predicate RecoveryStep(h: Hashes, recs: Recoveries, recs': Recoveries) {
    recs' == recs || exists rec :: recs' == PutRecovery(h, recs, rec)
  }

  /** Once held, a recovery stays held through any number of calls. */
  lemma {:induction false} HeldForever(h: Hashes, states: seq<Recoveries>, t: Table, expired: Tombstones,
                                       original: Bytes)
    requires Ideal(h) && states != [] && IsTrue(h, states[0]) && Holds(states[0], Handle(h, original), original)
    requires forall i | 0 <= i < |states| - 1 :: RecoveryStep(h, states[i], states[i + 1])
    ensures var end := states[|states| - 1]; IsTrue(h, end) && Holds(end, Handle(h, original), original)
    ensures Retrieved(h, states[|states| - 1], t, expired, Handle(h, original)) == Found(original)
    decreases |states|
  {
    hide Handle, Ideal, IsTrue, Holds, PutRecovery, Retrieved;
    if |states| == 1 {
      HeldIsRetrieved(h, states[0], t, expired, original);
    } else {
      assert RecoveryStep(h, states[0], states[1]);
      if states[1] != states[0] {
        var rec :| states[1] == PutRecovery(h, states[0], rec);
        PutKeepsOriginals(h, states[0], rec, Handle(h, original), original);
      }
      HeldForever(h, states[1..], t, expired, original);
    }
  }

  /** One call to the engine or its store. */
  datatype Call =
    | Compressed(input: Bytes, opts: Options)
    | Observed(obj: Object)
    | MarkedCurrentness(id: string, value: string)
    | MarkedLifecycle(id: string, value: string)
    | Reclaimed

  /** What the outside world answers to the call with this number. */
  datatype Outside = Outside(disk: nat -> Disk, again: nat -> Disk, clock: nat -> Time, world: nat -> World)

  /** Compress answers the planned transform, under a handle where its class needs one, once the store took the
      recovery. It answers the input unchanged when nothing was planned, or when the store did not take the recovery. */
  ghost predicate Compresses(s: Setup, h: Hashes, limit: int, input: Bytes, opts: Options, k: nat, outside: Outside,
                             was: State, next: State, r: Result)
  {
    if PlanFor(s, input, opts).PassThrough? then r == Unchanged(s, input, opts) && next == was
    else if !NeedsHandle(s, input, opts) then r == Published(s, input, opts, "") && next == was
    else exists a: Answer, gone: set<string> ::
      Writes(h, limit, RecoveryWrite(RecoveryOf(s, input, opts)), outside.disk(k), outside.again(k), outside.clock(k),
             outside.world(k), was, next, a, gone) &&
      r == if a.Kept? then Published(s, input, opts, Handle(h, input)) else Unchanged(s, input, opts)
  }

  /** What the call with this number does to the store, and what it answers. */
  ghost predicate Serves(s: Setup, h: Hashes, limit: int, call: Call, k: nat, outside: Outside, was: State, next: State,
                         answer: Option<Result>)
  {
    match call
    case Compressed(input, opts) =>
      answer.Some? && Compresses(s, h, limit, input, opts, k, outside, was, next, answer.value)
    case Observed(obj) =>
      answer.None? &&
      exists a: Answer, gone: set<string> ::
        Writes(h, limit, ObjectWrite(obj, outside.clock(k)), outside.disk(k), outside.again(k), outside.clock(k),
               outside.world(k), was, next, a, gone)
    case MarkedCurrentness(id, value) =>
      answer.None? &&
      next == if was.integrity == Damaged then was else was.(objs := SetCurrentness(was.objs, id, value).0)
    case MarkedLifecycle(id, value) =>
      answer.None? &&
      next == if was.integrity == Damaged then was else was.(objs := SetLifecycle(was.objs, id, value).0)
    case Reclaimed =>
      answer.None? &&
        exists freed, gone: set<string> ::
        Reclaims(h, limit, outside.clock(k), outside.world(k), was, next, freed, gone)
  }

  /** Serves one call. What was held stays held, and a handle that is answered is held. */
  method ServeOne(e: Engine, call: Call, k: nat, outside: Outside) returns (answer: Option<Result>)
    requires e.Valid() && e.store != null
    modifies e.store
    ensures e.Valid()
    ensures Serves(e.s, e.store.h, e.store.limit, call, k, outside, old(e.store.Now()), e.store.Now(), answer)
    ensures call.Compressed? ==>
            answer.Some? && IsAnswered(e.s, e.store.h, e.store.recs, call.input, call.opts, answer.value)
    ensures forall handle, original | Holds(old(e.store.recs), handle, original) ::
            Holds(e.store.recs, handle, original)
  {
    hide Sound, Scan, Handle, Expirable, View, PlanFor, PutRecovery, RecoveryFits, Ideal, IsTrue, Holds, Prepare,
         PutPlain, SetCurrentness, SetLifecycle, Writes, Reclaims;
    ghost var was := e.store.Now();
    answer := None;
    match call {
      case Compressed(input, opts) =>
        var res, failed, gone :=
          e.Compress(input, opts, outside.disk(k), outside.again(k), outside.clock(k), outside.world(k));
        answer := Some(res);
        if PlanFor(e.s, input, opts).Transform? { PlanShrinks(e.s, input, opts); }
        HandleIsNamed(e.store.h, input);
        if e.store.recs != was.recs { KeepsAll(e.store.h, was.recs, RecoveryOf(e.s, input, opts)); }
      case Observed(obj) =>
        var a, gone := e.store.PutObject(obj, outside.disk(k), outside.again(k), outside.clock(k), outside.world(k));
      case MarkedCurrentness(id, value) =>
        var outcome := e.store.SetObjectCurrentness(id, value);
      case MarkedLifecycle(id, value) =>
        var outcome := e.store.SetObjectLifecycle(id, value);
      case Reclaimed =>
        var freed, gone, rounds := e.store.Reclaim(outside.clock(k), outside.world(k));
    }
  }

  /** Changed bytes that need a handle have it, and whatever has a handle is held under it. */
  ghost predicate IsAnswered(s: Setup, h: Hashes, recs: Recoveries, input: Bytes, opts: Options, r: Result) {
    var typ := if opts.contentType == "" then s.detect(s.unwrap(input)) else opts.contentType;
    (r.output != input && NeedsHandle(s, input, opts) ==> r.handle != "") &&
    (r.output != input && typ in s.registry && s.registry[typ].safety == 4 && !opts.externalRecovery ==>
      r.handle != "") &&
    (r.handle != "" ==> r.handle == Handle(h, input) && Holds(recs, r.handle, input))
  }

  /** Serves any sequence of calls, each as it should. Changed bytes of a class that needs recovery come with a handle,
      and through all later calls that handle retrieves the exact input. */
  method Serve(e: Engine, calls: seq<Call>, outside: Outside)
    returns (answers: seq<Option<Result>>, ghost moments: seq<State>)
    requires e.Valid() && e.store != null
    modifies e.store
    ensures e.Valid() && |answers| == |calls| && |moments| == |calls| + 1
    ensures moments[0] == old(e.store.Now()) && moments[|calls|] == e.store.Now()
    ensures forall k | 0 <= k < |calls| ::
              Serves(e.s, e.store.h, e.store.limit, calls[k], k, outside, moments[k], moments[k + 1], answers[k])
    ensures forall k | 0 <= k < |calls| && calls[k].Compressed? ::
              answers[k].Some? &&
              var r, input, opts := answers[k].value, calls[k].input, calls[k].opts;
              var typ := if opts.contentType == "" then e.s.detect(e.s.unwrap(input)) else opts.contentType;
              (r.output != input && typ in e.s.registry && e.s.registry[typ].safety == 4 && !opts.externalRecovery ==>
                 r.handle == Handle(e.store.h, input) != "") &&
              (r.output != input && NeedsHandle(e.s, input, calls[k].opts) ==>
                r.handle == Handle(e.store.h, input) != "") &&
              (r.handle != "" ==>
                 Retrieved(e.store.h, e.store.recs, e.store.objs, e.store.expired, r.handle) == Found(input))
  {
    hide Sound, Scan, Handle, Expirable, View, PlanFor, Retrieved, PutRecovery, Ideal, IsTrue, Holds, Serves;
    answers, moments := [], [e.store.Now()];
    for i := 0 to |calls|
      invariant e.Valid() && |answers| == i && |moments| == i + 1
      invariant moments[0] == old(e.store.Now()) && moments[i] == e.store.Now()
      invariant forall k | 0 <= k < i ::
                  Serves(e.s, e.store.h, e.store.limit, calls[k], k, outside, moments[k], moments[k + 1], answers[k])
      invariant forall k | 0 <= k < i && calls[k].Compressed? ::
                  answers[k].Some? &&
                    IsAnswered(e.s, e.store.h, e.store.recs, calls[k].input, calls[k].opts, answers[k].value)
    {
      var answer := ServeOne(e, calls[i], i, outside);
      answers, moments := answers + [answer], moments + [e.store.Now()];
    }
    forall k | 0 <= k < |calls| && calls[k].Compressed? && answers[k].value.handle != ""
      ensures Retrieved(e.store.h, e.store.recs, e.store.objs, e.store.expired, answers[k].value.handle) ==
              Found(calls[k].input)
    {
      HeldIsRetrieved(e.store.h, e.store.recs, e.store.objs, e.store.expired, calls[k].input);
    }
  }

  lemma KeepsAll(h: Hashes, recs: Recoveries, rec: Recovery)
    requires Ideal(h) && IsTrue(h, recs)
    ensures forall handle, original | Holds(recs, handle, original) ::
            Holds(PutRecovery(h, recs, rec), handle, original)
  {
    hide Handle, Ideal, IsTrue, Holds, PutRecovery;
    forall handle, original | Holds(recs, handle, original) ensures Holds(PutRecovery(h, recs, rec), handle, original) {
      PutKeepsOriginals(h, recs, rec, handle, original);
    }
  }
}
