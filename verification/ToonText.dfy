/**
 The TOON text of a value: an indentation-based form of JSON with one line per scalar field,
 one line per array of scalars, and a header with one row per item for uniform flat objects.
 The delimiter is the comma, which is the one the compressor uses.
 */
module ToonText {
  import opened GoText
  import JsonText

  /** A value in the order of its source text. */
  datatype Value =
    | Null
    | Bool(b: bool)
    | Number(literal: string)
    | Str(s: string)
    | Object(fields: Fields)
    | Array(items: seq<Value>)

  datatype Fields = NoFields | Field(name: string, value: Value, more: Fields)

  datatype Line = Line(indent: nat, text: string)

  /* ---- Keys and scalars ---- */

  predicate IsKeyStart(c: char) {
    'A' <= c <= 'Z' || 'a' <= c <= 'z' || c == '_'
  }

  predicate IsKeyChar(c: char) {
    IsKeyStart(c) || '0' <= c <= '9' || c == '.' || c == '-'
  }

  /** `^[A-Za-z_][A-Za-z0-9_.-]*$` */
  predicate IsSafeKey(k: string) {
    k != "" && IsKeyStart(k[0]) && forall i | 0 <= i < |k| :: IsKeyChar(k[i])
  }

  function TrimJsonLeft(s: string): string {
    if s != "" && JsonText.IsSpace(s[0]) then TrimJsonLeft(s[1..]) else s
  }

  function TrimJsonRight(s: string): string {
    if s != "" && JsonText.IsSpace(s[|s| - 1]) then TrimJsonRight(s[..|s| - 1]) else s
  }

  /** What the streaming decoder takes for one number: JSON white space around the literal is let through. */
  predicate ReadsAsNumber(s: string) {
    JsonText.IsNumber(TrimJsonRight(TrimJsonLeft(s)))
  }

  predicate NeedsQuote(s: string) {
    s == "" || !IsTrimmed(s) || (exists k | 0 <= k < |s| :: s[k] in "\n\r\t\":,") ||
    s[0] in "[{\"-" || '0' <= s[0] <= '9' || s in ["true", "false", "null"] || ReadsAsNumber(s)
  }

  predicate IsScalar(v: Value) {
    v.Null? || v.Bool? || v.Number? || v.Str?
  }

  function EncodeScalar(v: Value): Option<string> {
    match v
    case Null => Some("null")
    case Bool(b) => Some(if b then "true" else "false")
    case Number(literal) => if ReadsAsNumber(literal) then Some(literal) else None
    case Str(s) => Some(if NeedsQuote(s) then JsonText.Quote(s) else s)
    case _ => None
  }

  function EncodeCells(items: seq<Value>): (cells: Option<seq<string>>)
    ensures cells.Some? ==> |cells.value| == |items|
  {
    if items == [] then Some([])
    else
      var cell, more := EncodeScalar(items[0]), EncodeCells(items[1..]);
      if cell.None? || more.None? then None else Some([cell.value] + more.value)
  }

  /* ---- Tables ---- */

  function Names(fs: Fields): seq<string> {
    match fs
    case NoFields => []
    case Field(name, _, more) => [name] + Names(more)
  }

  function FieldValues(fs: Fields): (vs: seq<Value>)
    ensures |vs| == |Names(fs)|
    ensures forall v | v in vs :: v < fs
  {
    match fs
    case NoFields => []
    case Field(_, value, more) => [value] + FieldValues(more)
  }

  /** The cells of one item of a table whose columns are `names`. */
  function EncodeRow(item: Value, names: seq<string>): Option<seq<string>> {
    if item.Object? && Names(item.fields) == names then EncodeCells(FieldValues(item.fields)) else None
  }

  function EncodeRows(items: seq<Value>, names: seq<string>): (rows: Option<seq<seq<string>>>)
    ensures rows.Some? ==> |rows.value| == |items|
  {
    if items == [] then Some([])
    else
      var row, more := EncodeRow(items[0], names), EncodeRows(items[1..], names);
      if row.None? || more.None? then None else Some([row.value] + more.value)
  }

  function RowLines(rows: seq<seq<string>>, indent: nat): (lines: seq<Line>)
    ensures |lines| == |rows|
  {
    seq(|rows|, k requires 0 <= k < |rows| => Line(indent, Join(rows[k], ',')))
  }

  /* ---- Values ---- */

  predicate AllScalar(items: seq<Value>) {
    forall v | v in items :: IsScalar(v)
  }

  function TableHeader(name: string, n: nat, names: seq<string>): string {
    name + "[" + Itoa(n) + "]{" + Join(names, ',') + "}:"
  }

  function ListText(name: string, cells: seq<string>): string {
    name + "[" + Itoa(|cells|) + "]: " + Join(cells, ',')
  }

  function EncodeTable(name: string, items: seq<Value>, indent: nat): Option<seq<Line>>
    requires items != []
  {
    if !items[0].Object? || items[0].fields.NoFields? then None
    else
      var names := Names(items[0].fields);
      var rows := EncodeRows(items, names);
      if rows.None? || !forall k | k in names :: IsSafeKey(k) then None
      else Some([Line(indent, TableHeader(name, |items|, names))] + RowLines(rows.value, indent + 1))
  }

  function EncodeArray(name: string, items: seq<Value>, indent: nat): Option<seq<Line>> {
    if name != "" && !IsSafeKey(name) then None
    else if items == [] then Some([Line(indent, if name == "" then "[]" else name + "[0]: []")])
    else if AllScalar(items) then
      var cells := EncodeCells(items);
      if cells.None? then None else Some([Line(indent, ListText(name, cells.value))])
    else EncodeTable(name, items, indent)
  }

  function Weight(v: Value): nat {
    if v.Object? then 1 + FieldsWeight(v.fields) else 1
  }

  function FieldsWeight(fs: Fields): nat {
    match fs
    case NoFields => 0
    case Field(_, value, more) => 1 + Weight(value) + FieldsWeight(more)
  }

  /** Puts a field in its place among sorted ones, before those of the same name. */
  function Insert(name: string, value: Value, fs: Fields): (r: Fields)
    ensures FieldsWeight(r) == 1 + Weight(value) + FieldsWeight(fs)
  {
    if fs.Field? && Less(fs.name, name) then Field(fs.name, fs.value, Insert(name, value, fs.more))
    else Field(name, value, fs)
  }

  /** The fields stably sorted by name. */
  function Sorted(fs: Fields): (r: Fields)
    ensures FieldsWeight(r) == FieldsWeight(fs)
  {
    match fs
    case NoFields => NoFields
    case Field(name, value, more) => Insert(name, value, Sorted(more))
  }

  function Labelled(name: string, text: string): string {
    if name == "" then text else name + ": " + text
  }

  /** The lines of a value, under a key or, when `name` is empty, at the root. */
  function EncodeValue(v: Value, name: string, indent: nat): (lines: Option<seq<Line>>)
    ensures lines.Some? ==> lines.value != []
    decreases Weight(v), 1
  {
    if name != "" && !IsSafeKey(name) then None
    else if v.Array? then EncodeArray(name, v.items, indent)
    else if !v.Object? then
      var text := EncodeScalar(v);
      if text.None? then None else Some([Line(indent, Labelled(name, text.value))])
    else if v.fields.NoFields? then Some([Line(if name == "" then 0 else indent, Labelled(name, "{}"))])
    else if name == "" then EncodeFields(Sorted(v.fields), indent)
    else
      var block := EncodeFields(Sorted(v.fields), indent + 1);
      if block.None? then None else Some([Line(indent, name + ":")] + block.value)
  }

  function EncodeFields(fs: Fields, indent: nat): (lines: Option<seq<Line>>)
    ensures lines.Some? && fs.Field? ==> lines.value != []
    decreases FieldsWeight(fs), 0
  {
    if fs.NoFields? then Some([])
    else if !IsSafeKey(fs.name) then None
    else
      var block, more := EncodeValue(fs.value, fs.name, indent), EncodeFields(fs.more, indent);
      if block.None? || more.None? then None else Some(block.value + more.value)
  }

  /* ---- Text ---- */

  function Spaces(indent: nat): (s: string)
    ensures |s| == 2 * indent
  {
    seq(2 * indent, _ => ' ')
  }

  function LineText(line: Line): string {
    Spaces(line.indent) + line.text
  }

  /** Every line with its line break. */
  function Rendered(lines: seq<Line>): string {
    if lines == [] then "" else LineText(lines[0]) + "\n" + Rendered(lines[1..])
  }

  function Encode(v: Value): Option<string> {
    var lines := EncodeValue(v, "", 0);
    if lines.None? then None else Some(TrimRight(Rendered(lines.value), '\n'))
  }
}
