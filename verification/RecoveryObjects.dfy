/** Typed working-memory objects of the recovery store, their identity and what makes two of them the same. */
module RecoveryObjects {
  import opened GoText
  import JsonText

  type Bytes = seq<bv8>
  type Time = int

  const ZERO_TIME: Time := 0

  /** SHA-256 in the three ways the store uses it: in full over contents, shortened over contents, and
      shortened over the text that identifies an object. */
  datatype Hashes = Hashes(full: Bytes -> string, short: Bytes -> string, identity: string -> string)

  /** No two contents share a hash, and a shortened hash is hexadecimal, so it never starts like an object id. */
  ghost predicate Ideal(h: Hashes) {
    (forall a, b :: h.full(a) == h.full(b) ==> a == b) &&
    (forall a, b :: h.short(a) == h.short(b) ==> a == b) &&
    forall a :: !(OBJECT_MARK <= h.short(a))
  }

  const HANDLE_PREFIX := "ccr_"
  const OBJECT_MARK := "obj_"
  const OBJECT_PREFIX := "ccr_obj_"
  const HASH_PREFIX := "sha256:"

  function Handle(h: Hashes, original: Bytes): string {
    HANDLE_PREFIX + h.short(original)
  }

  function ContentHash(h: Hashes, data: Bytes): string {
    HASH_PREFIX + h.full(data)
  }

  lemma HandleNamesOriginal(h: Hashes, a: Bytes, b: Bytes)
    requires Ideal(h) && Handle(h, a) == Handle(h, b)
    ensures a == b
  {
    assert Handle(h, a)[4..] == h.short(a) && Handle(h, b)[4..] == h.short(b);
  }

  lemma HashNamesContent(h: Hashes, a: Bytes, b: Bytes)
    requires Ideal(h) && ContentHash(h, a) == ContentHash(h, b)
    ensures a == b
  {
    assert ContentHash(h, a)[7..] == h.full(a) && ContentHash(h, b)[7..] == h.full(b);
  }

  /** Handles of recoveries and ids of objects are different names. */
  lemma HandleIsNoObjectId(h: Hashes, original: Bytes)
    requires Ideal(h)
    ensures !(OBJECT_PREFIX <= Handle(h, original))
  {
    assert Handle(h, original)[4..] == h.short(original);
    assert OBJECT_PREFIX[4..] == OBJECT_MARK;
  }

  /* ---- Objects ---- */

  const REPOSITORY_MAP := "RepositoryMap"

  const OBJECT_TYPES := {
    "FileObservation", "SearchResult", "CommandResult", "TestResult", "BuildResult", "DiffSnapshot", "TaskContract",
    "TaskDecision", "ExecutionState", "DocumentationExcerpt", "BrowserSnapshot", "RepositoryMap", "EvidenceBundle"
  }

  const CURRENTNESSES := {"current", "stale", "archived"}
  const LIFECYCLES := {"hot", "warm", "cold", "archived"}

  datatype Object = Object(
    id: string, typ: string, hash: string, source: string, created: Time, repositoryState: string, session: string,
    transform: string, currentness: string, lifecycle: string, deps: seq<string>,
    originalLen: int, storedLen: int, data: Bytes)

  datatype Prepared = Rejected | Ready(obj: Object)

  function Or(s: string, fallback: string): string {
    if s == "" then fallback else s
  }

  /** What may be stored, with the fields the caller left empty filled in. */
  function Prepare(h: Hashes, o: Object, now: Time): Prepared {
    var hash := Or(o.hash, ContentHash(h, o.data));
    var originalLen := if o.originalLen == 0 then |o.data| else o.originalLen;
    var storedLen := if o.storedLen == 0 then |o.data| else o.storedLen;
    if o.typ !in OBJECT_TYPES || IsBlank(o.session) || Or(o.currentness, "current") !in CURRENTNESSES ||
       Or(o.lifecycle, "hot") !in LIFECYCLES || hash != ContentHash(h, o.data) || originalLen < 0 || storedLen < 0
    then Rejected
    else
      Ready(o.(id := Or(o.id, ObjectId(h, o, hash)),
               hash := hash, created := if o.created == ZERO_TIME then now else o.created,
               currentness := Or(o.currentness, "current"), lifecycle := Or(o.lifecycle, "hot"),
               originalLen := originalLen, storedLen := storedLen))
  }

  const NUL := "\U{0}"

  function ObjectId(h: Hashes, o: Object, hash: string): string {
    OBJECT_PREFIX + h.identity(o.typ + NUL + o.session + NUL + o.source + NUL + o.repositoryState + NUL + hash)
  }

  /** The steps that fill in an object, in the order in which they can fail. */
  method PrepareObject(h: Hashes, input: Object, now: Time) returns (r: Prepared)
    ensures r == Prepare(h, input, now)
  {
    var obj := input;
    if obj.typ !in OBJECT_TYPES { return Rejected; }
    if IsBlank(obj.session) { return Rejected; }
    if obj.currentness == "" { obj := obj.(currentness := "current"); }
    if obj.currentness !in CURRENTNESSES { return Rejected; }
    if obj.lifecycle == "" { obj := obj.(lifecycle := "hot"); }
    if obj.lifecycle !in LIFECYCLES { return Rejected; }
    if obj.created == ZERO_TIME { obj := obj.(created := now); }
    var computed := ContentHash(h, obj.data);
    if obj.hash == "" { obj := obj.(hash := computed); } else if obj.hash != computed { return Rejected; }
    if obj.originalLen == 0 { obj := obj.(originalLen := |obj.data|); }
    if obj.storedLen == 0 { obj := obj.(storedLen := |obj.data|); }
    if obj.originalLen < 0 || obj.storedLen < 0 { return Rejected; }
    if obj.id == "" { obj := obj.(id := ObjectId(h, obj, obj.hash)); }
    r := Ready(obj);
  }

  /** What a stored object promises about itself. */
  predicate IsPrepared(h: Hashes, o: Object) {
    o.id != "" && o.hash == ContentHash(h, o.data) && o.typ in OBJECT_TYPES &&
    o.currentness in CURRENTNESSES && o.lifecycle in LIFECYCLES
  }

  /** Whatever passes holds its own hash, has a name and keeps the caller's bytes. */
  lemma PreparedIsSound(h: Hashes, o: Object, now: Time)
    requires Prepare(h, o, now).Ready?
    ensures IsPrepared(h, Prepare(h, o, now).obj) && Prepare(h, o, now).obj.data == o.data
  {
    hide ContentHash;
    assert |ObjectId(h, o, ContentHash(h, o.data))| > 0;
  }

  /** Preparing a stored object again changes nothing, so storing what was read back is a repeat. */
  lemma PrepareTwice(h: Hashes, o: Object, now: Time, later: Time)
    requires Prepare(h, o, now).Ready? && now != ZERO_TIME
    ensures Prepare(h, Prepare(h, o, now).obj, later).Ready?
    ensures SameImmutable(Prepare(h, Prepare(h, o, now).obj, later).obj, Prepare(h, o, now).obj)
  {
    hide ContentHash, ObjectId, IsBlank;
    PreparedIsSound(h, o, now);
  }

  predicate SameImmutable(a: Object, b: Object) {
    a.id == b.id && a.typ == b.typ && a.hash == b.hash && a.source == b.source &&
    a.repositoryState == b.repositoryState && a.session == b.session && a.transform == b.transform &&
    a.deps == b.deps && a.originalLen == b.originalLen && a.storedLen == b.storedLen && a.data == b.data
  }

  predicate Verifies(h: Hashes, hash: string, data: Bytes) {
    ContentHash(h, data) == hash
  }

  /* ---- Sizes ---- */

  function JoinedQuotes(deps: seq<string>): string {
    if deps == [] then "" else if |deps| == 1 then JsonText.Quote(deps[0])
    else JsonText.Quote(deps[0]) + "," + JoinedQuotes(deps[1..])
  }

  /** The dependencies as JSON. A list that is empty was copied into a nil one. */
  function DepsJson(deps: seq<string>): string {
    if deps == [] then "null" else "[" + JoinedQuotes(deps) + "]"
  }

  function Quotes(deps: seq<string>): seq<string> {
    if deps == [] then [] else [JsonText.Quote(deps[0])] + Quotes(deps[1..])
  }

  lemma {:induction false} QuotesJoined(deps: seq<string>)
    ensures JoinedQuotes(deps) == Join(Quotes(deps), ',') && |Quotes(deps)| == |deps|
    ensures forall i | 0 <= i < |deps| :: Quotes(deps)[i] == JsonText.Quote(deps[i])
    decreases |deps|
  {
    hide JsonText.Quote;
    if deps != [] {
      QuotesJoined(deps[1..]);
      assert Quotes(deps)[1..] == Quotes(deps[1..]);
    }
  }

  /** Dependencies are a JSON array of strings, each of which denotes its dependency. */
  lemma DepsAreStrings(deps: seq<string>)
    requires deps != []
    ensures exists quotes ::
              DepsJson(deps) == "[" + Join(quotes, ',') + "]" && |quotes| == |deps| &&
              forall i | 0 <= i < |deps| ::
                JsonText.IsStringToken(quotes[i]) && JsonText.Unescape(quotes[i][1..|quotes[i]| - 1]) == deps[i]
  {
    QuotesJoined(deps);
    hide JsonText.IsStringBody, JsonText.Unescape, JsonText.Quote;
    forall i | 0 <= i < |deps|
      ensures JsonText.IsStringToken(Quotes(deps)[i])
      ensures JsonText.Unescape(Quotes(deps)[i][1..|Quotes(deps)[i]| - 1]) == deps[i]
    {
      JsonText.QuoteRoundTrip(deps[i]);
    }
  }
}
