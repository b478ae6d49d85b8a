/**
 What the stripper removes, said
   by the path from the root of the document to a value and the keys along it. Nothing here
 refers to how the stripper walks.
 */
module StripPaths {
  import opened JsonText
  import opened ConcreteJson
  import opened SchemaStrip

  /** A step into a value: to the member with this key token, or to the element with this number. */
  datatype Step = Key(token: string) | Nth(index: nat)

  type Path = seq<Step>

  /** The key of the step denotes one of these names. */
  predicate Names(s: Step, names: set<string>) {
    s.Key? && IsStringToken(s.token) && Unescape(s.token[1..|s.token| - 1]) in names
  }

  /** The document, the elements of arrays of tools, and what a tool wraps. */
  predicate IsEnvelope(p: Path)
    decreases |p|
  {
    p == [] ||
    var parent, last := p[..|p| - 1], p[|p| - 1];
    (IsEnvelope(parent) && (last.Nth? || Names(last, {"function"})))
  }

  /** The schemas of a tool, elements of arrays of schemas, subschemas, and every value of a name map. */
  predicate IsSchema(p: Path)
    decreases |p|, 1
  {
    p != [] &&
    var parent, last := p[..|p| - 1], p[|p| - 1];
    || (IsEnvelope(parent) && Names(last, {"input_schema", "inputSchema", "parameters"}))
    || (IsSchema(parent) && last.Nth?)
    || (IsSchema(parent) &&
        Names(last, {"items", "prefixItems", "additionalItems", "unevaluatedItems", "additionalProperties",
                     "unevaluatedProperties", "propertyNames", "contains", "not", "if", "then", "else", "allOf",
                       "anyOf",
                     "oneOf"}))
    || (IsNameMap(parent) && last.Key?)
  }

  /** The objects of a schema whose keys are chosen by the user. */
  predicate IsNameMap(p: Path)
    decreases |p|, 0
  {
    p != [] && IsSchema(p[..|p| - 1]) &&
    Names(p[|p| - 1], {"properties", "patternProperties", "$defs", "definitions", "dependentSchemas"})
  }

  /** On the way there stands, directly in a schema, a member under one of the four keywords. */
  predicate IsRemoved(p: Path) {
    exists k | 0 <= k < |p| :: IsSchema(p[..k]) && Names(p[k], {"$schema", "title", "examples", "deprecated"})
  }

  /* ---- The values of a document and their paths ---- */

  datatype Kind = Leaf(text: string) | ListNode | RecordNode

  datatype Node = Node(path: Path, kind: Kind)

  /** Every value in the order of the text, with its path and, for texts and literals, its own characters. */
  function Nodes(v: Value, p: Path): seq<Node> {
    match v
    case Scalar(text) => [Node(p, Leaf(text))]
    case Str(raw) => [Node(p, Leaf(raw))]
    case Arr(_, elems) => [Node(p, ListNode)] + ElemNodes(elems, p, 0)
    case Obj(_, members) => [Node(p, RecordNode)] + MemberNodes(members, p)
  }

  function ElemNodes(es: Elems, p: Path, i: nat): seq<Node> {
    if es.NoElems? then [] else Nodes(es.value, p + [Nth(i)]) + ElemNodes(es.more, p, i + 1)
  }

  function MemberNodes(ms: Members, p: Path): seq<Node> {
    if ms.NoMembers? then [] else Nodes(ms.value, p + [Key(ms.key)]) + MemberNodes(ms.more, p)
  }

  function Kept(ns: seq<Node>): seq<Node> {
    if ns == [] then [] else (if IsRemoved(ns[0].path) then [] else [ns[0]]) + Kept(ns[1..])
  }

  lemma {:induction false} KeptThen(a: seq<Node>, b: seq<Node>)
    ensures Kept(a + b) == Kept(a) + Kept(b)
    decreases |a|
  {
    hide IsRemoved;
    if a == [] {
      assert a + b == b;
    } else {
      assert (a + b)[1..] == a[1..] + b;
      KeptThen(a[1..], b);
    }
  }

  /* ---- The same up to white space ---- */

  predicate IsSame(v: Value, w: Value) {
    match v
    case Scalar(_) => v == w || (w.Str? && w.raw == v.text)
    case Str(_) => v == w || (w.Scalar? && w.text == v.raw)
    case Arr(_, elems) => w.Arr? && AreSameElems(elems, w.elems)
    case Obj(_, members) => w.Obj? && AreSameMembers(members, w.members)
  }

  predicate AreSameElems(es: Elems, fs: Elems) {
    if es.NoElems? then fs.NoElems? else fs.Elem? && IsSame(es.value, fs.value) && AreSameElems(es.more, fs.more)
  }

  predicate AreSameMembers(ms: Members, ns: Members) {
    if ms.NoMembers? then ns.NoMembers?
    else ns.Member? && ms.key == ns.key && IsSame(ms.value, ns.value) && AreSameMembers(ms.more, ns.more)
  }

  /** What follows is not inside the value at a path of this length. */
  predicate Outside(rest: seq<Node>, n: nat) {
    rest == [] || |rest[0].path| <= n
  }

  lemma NodesStart(v: Value, p: Path)
    ensures Nodes(v, p) != [] && Nodes(v, p)[0].path == p
  {
  }

  lemma MembersStart(ms: Members, p: Path, rest: seq<Node>)
    requires Outside(rest, |p|)
    ensures Outside(MemberNodes(ms, p) + rest, |p| + 1)
    ensures ms.Member? ==> MemberNodes(ms, p) + rest != [] && |(MemberNodes(ms, p) + rest)[0].path| == |p| + 1
  {
    if ms.Member? { NodesStart(ms.value, p + [Key(ms.key)]); } else { assert [] + rest == rest; }
  }

  lemma ElemsStart(es: Elems, p: Path, i: nat, rest: seq<Node>)
    requires Outside(rest, |p|)
    ensures Outside(ElemNodes(es, p, i) + rest, |p| + 1)
    ensures es.Elem? ==> ElemNodes(es, p, i) + rest != [] && |(ElemNodes(es, p, i) + rest)[0].path| == |p| + 1
  {
    if es.Elem? { NodesStart(es.value, p + [Nth(i)]); } else { assert [] + rest == rest; }
  }

  lemma Regroup(a: seq<Node>, b: seq<Node>, c: seq<Node>)
    ensures a + b + c == a + (b + c)
  {
  }

  lemma SameTail(n: Node, a: seq<Node>, m: Node, b: seq<Node>)
    requires [n] + a == [m] + b
    ensures n == m && a == b
  {
    assert ([n] + a)[0] == n && ([m] + b)[0] == m;
    assert ([n] + a)[1..] == a && ([m] + b)[1..] == b;
  }

  /** The nodes say everything about a value but its white space. */
  lemma {:induction false} NodesSayAll(v: Value, w: Value, p: Path, x: seq<Node>, y: seq<Node>)
    requires Nodes(v, p) + x == Nodes(w, p) + y && Outside(x, |p|) && Outside(y, |p|)
    ensures IsSame(v, w) && x == y
    decreases v, 1
  {
    var kv := Nodes(v, p)[0];
    var kw := Nodes(w, p)[0];
    assert (Nodes(v, p) + x)[0] == kv && (Nodes(w, p) + y)[0] == kw;
    match v
    case Arr(_, elems) =>
      Regroup([kv], ElemNodes(elems, p, 0), x);
      Regroup([kw], ElemNodes(w.elems, p, 0), y);
      SameTail(kv, ElemNodes(elems, p, 0) + x, kw, ElemNodes(w.elems, p, 0) + y);
      ElemsSayAll(elems, w.elems, p, 0, x, y);
    case Obj(_, members) =>
      Regroup([kv], MemberNodes(members, p), x);
      Regroup([kw], MemberNodes(w.members, p), y);
      SameTail(kv, MemberNodes(members, p) + x, kw, MemberNodes(w.members, p) + y);
      MembersSayAll(members, w.members, p, x, y);
    case _ =>
      SameTail(kv, x, kw, y);
  }

  lemma {:induction false} ElemsSayAll(es: Elems, fs: Elems, p: Path, i: nat, x: seq<Node>, y: seq<Node>)
    requires ElemNodes(es, p, i) + x == ElemNodes(fs, p, i) + y && Outside(x, |p|) && Outside(y, |p|)
    ensures AreSameElems(es, fs) && x == y
    decreases es, 0
  {
    ElemsStart(es, p, i, x);
    ElemsStart(fs, p, i, y);
    assert [] + x == x && [] + y == y;
    if es.Elem? && fs.Elem? {
      var q := p + [Nth(i)];
      Regroup(Nodes(es.value, q), ElemNodes(es.more, p, i + 1), x);
      Regroup(Nodes(fs.value, q), ElemNodes(fs.more, p, i + 1), y);
      ElemsStart(es.more, p, i + 1, x);
      ElemsStart(fs.more, p, i + 1, y);
      NodesSayAll(es.value, fs.value, q, ElemNodes(es.more, p, i + 1) + x, ElemNodes(fs.more, p, i + 1) + y);
      ElemsSayAll(es.more, fs.more, p, i + 1, x, y);
    }
  }

  lemma {:induction false} MembersSayAll(ms: Members, ns: Members, p: Path, x: seq<Node>, y: seq<Node>)
    requires MemberNodes(ms, p) + x == MemberNodes(ns, p) + y && Outside(x, |p|) && Outside(y, |p|)
    ensures AreSameMembers(ms, ns) && x == y
    decreases ms, 0
  {
    MembersStart(ms, p, x);
    MembersStart(ns, p, y);
    assert [] + x == x && [] + y == y;
    if ms.Member? && ns.Member? {
      var q, r := p + [Key(ms.key)], p + [Key(ns.key)];
      Regroup(Nodes(ms.value, q), MemberNodes(ms.more, p), x);
      Regroup(Nodes(ns.value, r), MemberNodes(ns.more, p), y);
      NodesStart(ms.value, q);
      NodesStart(ns.value, r);
      assert q[|p|] == r[|p|];
      MembersStart(ms.more, p, x);
      MembersStart(ns.more, p, y);
      NodesSayAll(ms.value, ns.value, q, MemberNodes(ms.more, p) + x, MemberNodes(ns.more, p) + y);
      MembersSayAll(ms.more, ns.more, p, x, y);
    }
  }

  /* ---- The stripper removes exactly that ---- */

  /** The walk takes the value at this path to be what it is. */
  predicate Fits(zone: Zone, p: Path) {
    (zone.Envelope? <==> IsEnvelope(p)) && (zone.Schema? <==> IsSchema(p)) && (zone.NameMap? <==> IsNameMap(p))
  }

  lemma ChildFits(zone: Zone, p: Path, token: string)
    requires Fits(zone, p) && IsStringToken(token)
    ensures Fits(ChildZone(zone, KeyName(token)), p + [Key(token)])
    ensures Drops(zone, KeyName(token)) <==>
            IsSchema(p) && Names(Key(token), {"$schema", "title", "examples", "deprecated"})
  {
    hide IsStringToken, Unescape;
    var q := p + [Key(token)];
    assert q[..|q| - 1] == p && q[|q| - 1] == Key(token);
    var name := KeyName(token);
  }

  lemma ElemFits(zone: Zone, p: Path, i: nat)
    requires Fits(zone, p)
    ensures Fits(ElemZone(zone), p + [Nth(i)])
  {
    var q := p + [Nth(i)];
    assert q[..|q| - 1] == p && q[|q| - 1] == Nth(i);
  }

  lemma RemovedMore(p: Path, s: Step)
    ensures IsRemoved(p + [s]) <==>
            IsRemoved(p) || (IsSchema(p) && Names(s, {"$schema", "title", "examples", "deprecated"}))
  {
    hide IsSchema, Names;
    var q := p + [s];
    assert forall k | 0 <= k <= |p| :: q[..k] == p[..k];
    assert p[..|p|] == p && q[|p|] == s;
    if IsRemoved(p) {
      var k :| 0 <= k < |p| && IsSchema(p[..k]) && Names(p[k], {"$schema", "title", "examples", "deprecated"});
      assert IsSchema(q[..k]) && q[k] == p[k];
    }
    if IsSchema(p) && Names(s, {"$schema", "title", "examples", "deprecated"}) { assert IsSchema(q[..|p|]); }
  }

  /** With a value goes everything in it. */
  lemma {:induction false} AllRemoved(v: Value, p: Path)
    requires IsRemoved(p)
    ensures Kept(Nodes(v, p)) == []
    decreases v, 1
  {
    hide IsRemoved;
    match v
    case Arr(_, elems) => AllElemsRemoved(elems, p, 0); KeptThen([Node(p, ListNode)], ElemNodes(elems, p, 0));
    case Obj(_, members) => AllMembersRemoved(members, p); KeptThen([Node(p, RecordNode)], MemberNodes(members, p));
    case _ =>
  }

  lemma {:induction false} AllElemsRemoved(es: Elems, p: Path, i: nat)
    requires IsRemoved(p)
    ensures Kept(ElemNodes(es, p, i)) == []
    decreases es, 0
  {
    hide IsRemoved;
    if es.Elem? {
      RemovedMore(p, Nth(i));
      AllRemoved(es.value, p + [Nth(i)]);
      AllElemsRemoved(es.more, p, i + 1);
      KeptThen(Nodes(es.value, p + [Nth(i)]), ElemNodes(es.more, p, i + 1));
    }
  }

  lemma {:induction false} AllMembersRemoved(ms: Members, p: Path)
    requires IsRemoved(p)
    ensures Kept(MemberNodes(ms, p)) == []
    decreases ms, 0
  {
    hide IsRemoved;
    if ms.Member? {
      RemovedMore(p, Key(ms.key));
      AllRemoved(ms.value, p + [Key(ms.key)]);
      AllMembersRemoved(ms.more, p);
      KeptThen(Nodes(ms.value, p + [Key(ms.key)]), MemberNodes(ms.more, p));
    }
  }

  lemma {:induction false} StripKeepsExactly(v: Value, zone: Zone, p: Path)
    requires WellFormed(v) && Fits(zone, p) && !IsRemoved(p)
    ensures Nodes(Strip(v, zone), p) == Kept(Nodes(v, p))
    decreases v, 2
  {
    hide IsRemoved, Fits, ElemZone;
    match v
    case Arr(_, elems) =>
      ElemsKeepExactly(elems, zone, p, 0);
      KeptThen([Node(p, ListNode)], ElemNodes(elems, p, 0));
    case Obj(_, members) =>
      FrontKeepsExactly(members, zone, p);
      KeptThen([Node(p, RecordNode)], MemberNodes(members, p));
    case _ =>
  }

  lemma {:induction false} ElemsKeepExactly(es: Elems, zone: Zone, p: Path, i: nat)
    requires WellFormedElems(es) && Fits(zone, p) && !IsRemoved(p)
    ensures ElemNodes(StripElems(es, ElemZone(zone)), p, i) == Kept(ElemNodes(es, p, i))
    decreases es, 2
  {
    hide IsRemoved, Fits, ElemZone, Names;
    if es.Elem? {
      ElemFits(zone, p, i);
      RemovedMore(p, Nth(i));
      NthNamesNothing(i);
      StripKeepsExactly(es.value, ElemZone(zone), p + [Nth(i)]);
      ElemsKeepExactly(es.more, zone, p, i + 1);
      KeptThen(Nodes(es.value, p + [Nth(i)]), ElemNodes(es.more, p, i + 1));
    }
  }

  lemma NthNamesNothing(i: nat)
    ensures forall names :: !Names(Nth(i), names)
  {
  }

  lemma {:induction false} FrontKeepsExactly(ms: Members, zone: Zone, p: Path)
    requires WellFormedMembers(ms) && Fits(zone, p) && !IsRemoved(p)
    ensures MemberNodes(StripFront(ms, zone), p) == Kept(MemberNodes(ms, p))
    decreases ms, 2
  {
    hide IsRemoved, Fits, Drops, ChildZone;
    if ms.Member? {
      if Drops(zone, KeyName(ms.key)) {
        DroppedMember(ms, zone, p);
        FrontKeepsExactly(ms.more, zone, p);
      } else {
        KeptKeepsExactly(ms, zone, p);
      }
    }
  }

  lemma DroppedMember(ms: Members, zone: Zone, p: Path)
    requires ms.Member? && WellFormedMembers(ms) && Fits(zone, p) && Drops(zone, KeyName(ms.key))
    ensures Kept(MemberNodes(ms, p)) == Kept(MemberNodes(ms.more, p))
  {
    hide IsRemoved, Fits, Drops, ChildZone, Names;
    ChildFits(zone, p, ms.key);
    RemovedMore(p, Key(ms.key));
    AllRemoved(ms.value, p + [Key(ms.key)]);
    KeptThen(Nodes(ms.value, p + [Key(ms.key)]), MemberNodes(ms.more, p));
  }

  lemma {:induction false} KeptKeepsExactly(m: Members, zone: Zone, p: Path)
    requires m.Member? && WellFormedMembers(m) && Fits(zone, p) && !IsRemoved(p) && !Drops(zone, KeyName(m.key))
    ensures MemberNodes(StripKept(m, zone), p) == Kept(MemberNodes(m, p))
    decreases m, 1
  {
    hide IsRemoved, Fits, Drops, ChildZone, Names;
    ChildFits(zone, p, m.key);
    RemovedMore(p, Key(m.key));
    StripKeepsExactly(m.value, ChildZone(zone, KeyName(m.key)), p + [Key(m.key)]);
    TailKeepsExactly(TailOf(m), zone, p);
    KeptThen(Nodes(m.value, p + [Key(m.key)]), MemberNodes(m.more, p));
  }

  lemma {:induction false} TailKeepsExactly(t: Tail, zone: Zone, p: Path)
    requires WellFormedTail(t) && Fits(zone, p) && !IsRemoved(p)
    ensures MemberNodes(StripTail(t, zone).more, p) == Kept(MemberNodes(t.more, p))
    decreases t.more, 2
  {
    hide IsRemoved, Fits, Drops, ChildZone;
    if t.more.Member? {
      if Drops(zone, KeyName(t.more.key)) {
        DroppedMember(t.more, zone, p);
        TailKeepsExactly(TailOf(t.more), zone, p);
      } else {
        KeptKeepsExactly(t.more, zone, p);
      }
    }
  }

  /** Of a document the stripper leaves exactly the values whose paths are not removed, in their order and with their
      own characters. */
  lemma StripRemovesExactly(d: Doc)
    requires WellFormedDoc(d)
    ensures Nodes(StripDoc(d).value, []) == Kept(Nodes(d.value, []))
  {
    StripKeepsExactly(d.value, Envelope, []);
  }

  /* ---- What stays ---- */

  lemma StepClass(p: Path)
    requires p != []
    ensures var parent, last := p[..|p| - 1], p[|p| - 1];
            (IsEnvelope(p) ==> IsEnvelope(parent)) && (IsNameMap(p) ==> IsSchema(parent)) &&
            (IsSchema(p) ==> IsEnvelope(parent) || IsSchema(parent) || IsNameMap(parent)) &&
            !(IsEnvelope(parent) && IsEnvelope(p) && IsSchema(p) && !IsSchema(parent) && !IsNameMap(parent)) &&
            !(IsSchema(parent) && IsSchema(p) && IsNameMap(p) && !IsEnvelope(parent) && !IsNameMap(parent))
  {
    hide IsStringToken, Unescape;
  }

  /** A path has at most one class. */
  lemma {:induction false} OneClass(p: Path)
    ensures !(IsEnvelope(p) && IsSchema(p)) && !(IsEnvelope(p) && IsNameMap(p)) && !(IsSchema(p) && IsNameMap(p))
    decreases |p|
  {
    if p != [] {
      hide IsEnvelope, IsSchema, IsNameMap;
      OneClass(p[..|p| - 1]);
      StepClass(p);
    }
  }

  /** A tool and a name map keep every name: only a schema loses members. */
  lemma NamesStay(p: Path, s: Step)
    requires IsEnvelope(p) || IsNameMap(p) || !IsSchema(p)
    ensures IsRemoved(p + [s]) <==> IsRemoved(p)
  {
    hide IsEnvelope, IsSchema, IsNameMap, Names;
    OneClass(p);
    RemovedMore(p, s);
  }

  /** Below a key that is none of these lists, nothing is a schema, so nothing goes. */
  lemma {:induction false} UnlistedStays(p: Path, rest: Path)
    requires !IsEnvelope(p) && !IsSchema(p) && !IsNameMap(p)
    ensures IsRemoved(p + rest) <==> IsRemoved(p)
    ensures !IsEnvelope(p + rest) && !IsSchema(p + rest) && !IsNameMap(p + rest)
    decreases |rest|
  {
    if rest == [] {
      assert p + rest == p;
    } else {
      var init, s := rest[..|rest| - 1], rest[|rest| - 1];
      UnlistedStays(p, init);
      var q := p + init + [s];
      assert p + rest == q && q[..|q| - 1] == p + init;
      RemovedMore(p + init, s);
    }
  }

  /** One tool: the schema loses its own title and the title of its property, and keeps the property named title, the
      default that looks like a schema, and the title among the tool's annotations. */
  lemma TitlesOfOneTool(x: Data)
    requires x.Atom?
    ensures var titled := Record(Field("title", x, NoFields));
            var property := Record(Field("type", x, Field("title", x, Field("default", titled, NoFields))));
            var schema := Record(Field("title", x,
                                       Field("properties", Record(Field("title", property, NoFields)), NoFields)));
            var property' := Record(Field("type", x, Field("default", titled, NoFields)));
            var schema' := Record(Field("properties", Record(Field("title", property', NoFields)), NoFields));
            Prune(List(Item(Record(Field("annotations", titled, Field("input_schema", schema, NoFields))), NoItems)),
                  Envelope) ==
            List(Item(Record(Field("annotations", titled, Field("input_schema", schema', NoFields))), NoItems))
  {
    var titled := Record(Field("title", x, NoFields));
    var property := Record(Field("type", x, Field("title", x, Field("default", titled, NoFields))));
    var properties := Record(Field("title", property, NoFields));
    var schema := Record(Field("title", x, Field("properties", properties, NoFields)));
    var property' := Record(Field("type", x, Field("default", titled, NoFields)));
    var properties' := Record(Field("title", property', NoFields));
    var schema' := Record(Field("properties", properties', NoFields));
    var noted := Field("default", titled, NoFields);
    hide Prune, PruneFields;
    PruneRest(x, Opaque);
    PruneRest(x, Schema);
    PruneRest(x, NameMap);
    PruneRest(x, Envelope);
    PruneOne("title", x, NoFields, Opaque);
    PruneOne("default", titled, NoFields, Schema);
    PruneOne("title", x, noted, Schema);
    PruneOne("type", x, Field("title", x, noted), Schema);
    PruneOne("title", property, NoFields, NameMap);
    PruneOne("properties", properties, NoFields, Schema);
    PruneOne("title", x, Field("properties", properties, NoFields), Schema);
    PruneOne("input_schema", schema, NoFields, Envelope);
    PruneOne("annotations", titled, Field("input_schema", schema, NoFields), Envelope);
    PruneTool(Record(Field("annotations", titled, Field("input_schema", schema, NoFields))));
  }

  lemma PruneOne(name: string, value: Data, more: Fields, zone: Zone)
    ensures Prune(Record(Field(name, value, more)), zone) == Record(PruneFields(Field(name, value, more), zone))
    ensures PruneFields(Field(name, value, more), zone) ==
            if Drops(zone, name) then PruneFields(more, zone)
            else Field(name, Prune(value, ChildZone(zone, name)), PruneFields(more, zone))
  {
  }

  lemma PruneRest(x: Data, zone: Zone)
    requires x.Atom?
    ensures Prune(x, zone) == x && PruneFields(NoFields, zone) == NoFields
  {
  }

  lemma PruneTool(tool: Data)
    ensures Prune(List(Item(tool, NoItems)), Envelope) == List(Item(Prune(tool, Envelope), NoItems))
  {
    assert PruneItems(Item(tool, NoItems), Envelope) == Item(Prune(tool, Envelope), NoItems);
  }
}
