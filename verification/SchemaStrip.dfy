/**
 What stripping annotation keywords means on JSON trees: first on plain data
 (`Prune`), then on concrete trees with their white space and commas (`Strip`),
 with the two tied together.
 */
module SchemaStrip {
  import opened JsonText
  import opened ConcreteJson

  const ANNOTATION_KEYS := {"$schema", "title", "examples", "deprecated"}
  const ENVELOPE_SCHEMA_KEYS := {"input_schema", "inputSchema", "parameters"}
  const ENVELOPE_NEST_KEYS := {"function"}
  const NAME_MAP_KEYS := {"properties", "patternProperties", "$defs", "definitions", "dependentSchemas"}
  const CHILD_KEYS := {
    "items", "prefixItems", "additionalItems", "unevaluatedItems", "additionalProperties",
    "unevaluatedProperties", "propertyNames", "contains", "not", "if", "then", "else",
    "allOf", "anyOf", "oneOf"}

  /** What the walk takes a value to be: a tool definition or an array of them, a schema,
      an object keyed by user-defined names, or something it leaves alone. */
  datatype Zone = Envelope | Schema | NameMap | Opaque

  function ChildZone(zone: Zone, name: string): Zone {
    match zone
    case Envelope =>
      if name in ENVELOPE_SCHEMA_KEYS then Schema else if name in ENVELOPE_NEST_KEYS then Envelope else Opaque
    case Schema =>
      if name in NAME_MAP_KEYS then NameMap else if name in CHILD_KEYS then Schema else Opaque
    case NameMap => Schema
    case Opaque => Opaque
  }

  /** Arrays are walked in tool and schema positions only. */
  function ElemZone(zone: Zone): Zone {
    if zone.Envelope? || zone.Schema? then zone else Opaque
  }

  predicate Drops(zone: Zone, name: string) {
    zone.Schema? && name in ANNOTATION_KEYS
  }

  function KeyName(key: string): string
    requires IsStringToken(key)
  {
    Unescape(key[1..|key| - 1])
  }

  /* ---- On plain data ---- */

  datatype Data =
    | Atom(text: string)
    | List(items: Items)
    | Record(fields: Fields)
  datatype Items = NoItems | Item(value: Data, more: Items)
  datatype Fields = NoFields | Field(name: string, value: Data, more: Fields)

  /** The data a concrete tree denotes: white space forgotten, names decoded. */
  function Meaning(v: Value): Data
    requires WellFormed(v)
  {
    match v
    case Scalar(text) => Atom(text)
    case Str(raw) => Atom(raw)
    case Arr(_, elems) => List(MeaningElems(elems))
    case Obj(_, members) => Record(MeaningMembers(members))
  }

  function MeaningElems(es: Elems): Items
    requires WellFormedElems(es)
  {
    match es
    case NoElems => NoItems
    case Elem(value, _, _, more) => Item(Meaning(value), MeaningElems(more))
  }

  function MeaningMembers(ms: Members): Fields
    requires WellFormedMembers(ms)
  {
    match ms
    case NoMembers => NoFields
    case Member(key, _, _, value, _, _, more) => Field(KeyName(key), Meaning(value), MeaningMembers(more))
  }

  function Prune(d: Data, zone: Zone): Data {
    match d
    case Atom(_) => d
    case List(items) => List(PruneItems(items, ElemZone(zone)))
    case Record(fields) => Record(PruneFields(fields, zone))
  }

  function PruneItems(items: Items, zone: Zone): Items {
    match items
    case NoItems => NoItems
    case Item(value, more) => Item(Prune(value, zone), PruneItems(more, zone))
  }

  function PruneFields(fields: Fields, zone: Zone): Fields {
    match fields
    case NoFields => NoFields
    case Field(name, value, more) =>
      if Drops(zone, name) then PruneFields(more, zone)
      else Field(name, Prune(value, ChildZone(zone, name)), PruneFields(more, zone))
  }

  /** No annotation keyword stands at a schema position. */
  predicate Clean(d: Data, zone: Zone) {
    match d
    case Atom(_) => true
    case List(items) => CleanItems(items, ElemZone(zone))
    case Record(fields) => CleanFields(fields, zone)
  }

  predicate CleanItems(items: Items, zone: Zone) {
    items.Item? ==> Clean(items.value, zone) && CleanItems(items.more, zone)
  }

  predicate CleanFields(fields: Fields, zone: Zone) {
    fields.Field? ==>
      !Drops(zone, fields.name) && Clean(fields.value, ChildZone(zone, fields.name)) && CleanFields(fields.more, zone)
  }

  lemma {:induction false} PruneCleans(d: Data, zone: Zone)
    ensures Clean(Prune(d, zone), zone)
    ensures Prune(d, zone) == d <==> Clean(d, zone)
  {
    match d
    case Atom(_) =>
    case List(items) => PruneItemsCleans(items, ElemZone(zone));
    case Record(fields) => PruneFieldsCleans(fields, zone);
  }

  lemma {:induction false} PruneItemsCleans(items: Items, zone: Zone)
    ensures CleanItems(PruneItems(items, zone), zone)
    ensures PruneItems(items, zone) == items <==> CleanItems(items, zone)
  {
    match items
    case NoItems =>
    case Item(value, more) =>
      PruneCleans(value, zone);
      PruneItemsCleans(more, zone);
  }

  lemma {:induction false} PruneFieldsCleans(fields: Fields, zone: Zone)
    ensures CleanFields(PruneFields(fields, zone), zone)
    ensures PruneFields(fields, zone) == fields <==> CleanFields(fields, zone)
  {
    match fields
    case NoFields =>
    case Field(name, value, more) =>
      PruneCleans(value, ChildZone(zone, name));
      PruneFieldsCleans(more, zone);
  }

  /* ---- On concrete trees ---- */

  /** What stands behind a member's value: white space, then a comma, white space and more members. */
  datatype Tail = Tail(after: string, gap: string, more: Members)

  function TailOf(m: Members): Tail
    requires m.Member?
  {
    Tail(m.after, m.gap, m.more)
  }

  predicate WellFormedTail(t: Tail) {
    IsBlank(t.after) && IsBlank(t.gap) && (t.more.NoMembers? ==> t.gap == "") && WellFormedMembers(t.more)
  }

  function Strip(v: Value, zone: Zone): Value
    requires WellFormed(v)
    decreases v, 2
  {
    match v
    case Arr(lead, elems) => Arr(lead, StripElems(elems, ElemZone(zone)))
    case Obj(lead, members) => Obj(lead, StripFront(members, zone))
    case _ => v
  }

  function StripElems(es: Elems, zone: Zone): Elems
    requires WellFormedElems(es)
    decreases es, 2
  {
    match es
    case NoElems => NoElems
    case Elem(value, after, gap, more) => Elem(Strip(value, zone), after, gap, StripElems(more, zone))
  }

  /** Members with no survivor before them: a dropped one takes everything up to the next member. */
  function StripFront(ms: Members, zone: Zone): Members
    requires WellFormedMembers(ms)
    decreases ms, 2
  {
    if ms.NoMembers? then NoMembers
    else if Drops(zone, KeyName(ms.key)) then StripFront(ms.more, zone)
    else StripKept(ms, zone)
  }

  function StripKept(m: Members, zone: Zone): Members
    requires m.Member? && WellFormedMembers(m)
    decreases m, 1
  {
    var t := StripTail(TailOf(m), zone);
    m.(value := Strip(m.value, ChildZone(zone, KeyName(m.key))), after := t.after, gap := t.gap, more := t.more)
  }

  /** Behind a survivor: a dropped member takes the comma on its left, so what stood behind the
      dropped value now stands behind the survivor. */
  function StripTail(t: Tail, zone: Zone): Tail
    requires WellFormedTail(t)
    decreases t.more, 2
  {
    if t.more.NoMembers? then t
    else if Drops(zone, KeyName(t.more.key)) then StripTail(TailOf(t.more), zone)
    else Tail(t.after, t.gap, StripKept(t.more, zone))
  }

  function StripDoc(d: Doc): Doc
    requires WellFormedDoc(d)
  {
    d.(value := Strip(d.value, Envelope))
  }

  lemma {:induction false} StripWellFormed(v: Value, zone: Zone)
    requires WellFormed(v)
    ensures WellFormed(Strip(v, zone)) && Meaning(Strip(v, zone)) == Prune(Meaning(v), zone)
    decreases v, 2
  {
    match v
    case Arr(lead, elems) => StripElemsWellFormed(elems, ElemZone(zone));
    case Obj(lead, members) => StripFrontWellFormed(members, zone);
    case _ =>
  }

  lemma {:induction false} StripElemsWellFormed(es: Elems, zone: Zone)
    requires WellFormedElems(es)
    ensures WellFormedElems(StripElems(es, zone))
    ensures MeaningElems(StripElems(es, zone)) == PruneItems(MeaningElems(es), zone)
    decreases es, 2
  {
    if es.Elem? {
      StripWellFormed(es.value, zone);
      StripElemsWellFormed(es.more, zone);
    }
  }

  lemma {:induction false} StripFrontWellFormed(ms: Members, zone: Zone)
    requires WellFormedMembers(ms)
    ensures WellFormedMembers(StripFront(ms, zone))
    ensures MeaningMembers(StripFront(ms, zone)) == PruneFields(MeaningMembers(ms), zone)
    decreases ms, 2
  {
    if ms.Member? {
      if Drops(zone, KeyName(ms.key)) {
        StripFrontWellFormed(ms.more, zone);
      } else {
        StripKeptWellFormed(ms, zone);
      }
    }
  }

  lemma {:induction false} StripKeptWellFormed(m: Members, zone: Zone)
    requires m.Member? && WellFormedMembers(m) && !Drops(zone, KeyName(m.key))
    ensures WellFormedMembers(StripKept(m, zone))
    ensures MeaningMembers(StripKept(m, zone)) == PruneFields(MeaningMembers(m), zone)
    decreases m, 1
  {
    StripWellFormed(m.value, ChildZone(zone, KeyName(m.key)));
    StripTailWellFormed(TailOf(m), zone);
  }

  lemma {:induction false} StripTailWellFormed(t: Tail, zone: Zone)
    requires WellFormedTail(t)
    ensures WellFormedTail(StripTail(t, zone))
    ensures MeaningMembers(StripTail(t, zone).more) == PruneFields(MeaningMembers(t.more), zone)
    decreases t.more, 2
  {
    if t.more.Member? {
      if Drops(zone, KeyName(t.more.key)) {
        StripTailWellFormed(TailOf(t.more), zone);
      } else {
        StripKeptWellFormed(t.more, zone);
      }
    }
  }

  /** A tree without annotations at schema positions is left exactly as it is, white space included. */
  lemma {:induction false} StripCleanIsIdentity(v: Value, zone: Zone)
    requires WellFormed(v) && Clean(Meaning(v), zone)
    ensures Strip(v, zone) == v
    decreases v, 2
  {
    match v
    case Arr(lead, elems) => StripCleanElems(elems, ElemZone(zone));
    case Obj(lead, members) => if members.Member? { StripCleanKept(members, zone); }
    case _ =>
  }

  lemma {:induction false} StripCleanElems(es: Elems, zone: Zone)
    requires WellFormedElems(es) && CleanItems(MeaningElems(es), zone)
    ensures StripElems(es, zone) == es
    decreases es, 2
  {
    if es.Elem? {
      StripCleanIsIdentity(es.value, zone);
      StripCleanElems(es.more, zone);
    }
  }

  lemma {:induction false} StripCleanKept(m: Members, zone: Zone)
    requires m.Member? && WellFormedMembers(m) && CleanFields(MeaningMembers(m), zone)
    ensures StripKept(m, zone) == m
    decreases m, 1
  {
    StripCleanIsIdentity(m.value, ChildZone(zone, KeyName(m.key)));
    if m.more.Member? { StripCleanKept(m.more, zone); }
  }

  /** Stripping twice is stripping once, to the byte. */
  lemma StripIdempotent(d: Doc)
    requires WellFormedDoc(d)
    ensures WellFormedDoc(StripDoc(d)) && StripDoc(StripDoc(d)) == StripDoc(d)
  {
    StripWellFormed(d.value, Envelope);
    PruneCleans(Meaning(d.value), Envelope);
    StripCleanIsIdentity(Strip(d.value, Envelope), Envelope);
  }
}
