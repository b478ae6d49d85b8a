/** Reading TOON text back: what each part of the reader computes, as functions. */
module ToonReader {
  import opened GoText
  import opened ToonText
  import JsonText

  /** JSON data: the order of an object's fields is gone. */
  datatype Json =
    | JNull
    | JBool(b: bool)
    | JNumber(literal: string)
    | JString(s: string)
    | JObject(fields: map<string, Json>)
    | JArray(items: seq<Json>)

  /* ---- Scalars ---- */

  function ReadScalar(s: string): Option<Json> {
    if s == "" then None
    else if s[0] == '"' then
      var token := TrimJsonRight(s);
      if JsonText.IsStringToken(token) then Some(JString(JsonText.Unescape(token[1..|token| - 1]))) else None
    else if s == "true" then Some(JBool(true))
    else if s == "false" then Some(JBool(false))
    else if s == "null" then Some(JNull)
    else if ReadsAsNumber(s) then Some(JNumber(s))
    else if exists k | 0 <= k < |s| :: s[k] in "\n\r\t" then None
    else if !IsTrimmed(s) then None
    else Some(JString(s))
  }

  function ReadScalars(cells: seq<string>): (r: Option<seq<Json>>)
    ensures r.Some? ==> |r.value| == |cells|
  {
    if cells == [] then Some([])
    else
      var first, more := ReadScalar(cells[0]), ReadScalars(cells[1..]);
      if first.None? || more.None? then None else Some([first.value] + more.value)
  }

  function Prepend(cell: string, cells: Option<seq<string>>): Option<seq<string>> {
    if cells.None? then None else Some([cell] + cells.value)
  }

  /** The cells of the rest of a row, when `cell` is what the current one holds so far. */
  function Cells(s: string, cell: string, inQuote: bool, escaped: bool): Option<seq<string>> {
    if s == "" then if inQuote || escaped then None else Some([cell])
    else
      var c, rest := s[0], s[1..];
      if escaped then Cells(rest, cell + [c], inQuote, false)
      else if inQuote && c == '\\' then Cells(rest, cell + [c], inQuote, true)
      else if c == '"' then Cells(rest, cell + [c], !inQuote, false)
      else if !inQuote && c == ',' then Prepend(cell, Cells(rest, "", false, false))
      else Cells(rest, cell + [c], inQuote, false)
  }

  function SplitCells(s: string): Option<seq<string>> {
    Cells(s, "", false, false)
  }

  predicate Distinct(names: seq<string>) {
    forall i, j | 0 <= i < j < |names| :: names[i] != names[j]
  }

  /** The column names of a table header, or nothing when there is none, an unsafe or a repeated one. */
  function SplitFields(s: string): seq<string> {
    var parts := Split(s, ',');
    if s != "" && (forall p | p in parts :: IsSafeKey(p)) && Distinct(parts) then parts else []
  }

  /* ---- Line shapes ---- */

  /** The index after the key that starts the text, or 0 when none does. */
  function KeyEnd(s: string): (k: nat)
    ensures k <= |s| && (k > 0 ==> IsSafeKey(s[..k])) && (k < |s| && k > 0 ==> !IsKeyChar(s[k]))
  {
    if s != "" && IsKeyStart(s[0]) then KeyRun(s, 1) else 0
  }

  function KeyRun(s: string, i: nat): (k: nat)
    requires i <= |s| && forall j | 0 <= j < i :: IsKeyChar(s[j])
    ensures i <= k <= |s| && (k < |s| ==> !IsKeyChar(s[k])) && forall j | 0 <= j < k :: IsKeyChar(s[j])
    decreases |s| - i
  {
    if i < |s| && IsKeyChar(s[i]) then KeyRun(s, i + 1) else i
  }

  /** The digits between brackets that follow the key, when there are some. */
  function CountEnd(s: string): Option<nat> {
    var k := KeyEnd(s);
    if k < |s| && s[k] == '[' then
      var d := JsonText.DigitsEnd(s, k + 1);
      if d > k + 1 && d < |s| && s[d] == ']' then Some(d) else None
    else None
  }

  function Count(s: string): (n: nat)
    requires CountEnd(s).Some?
  {
    JsonText.DigitsEndRun(s, KeyEnd(s) + 1);
    DecimalValue(s[KeyEnd(s) + 1..CountEnd(s).value])
  }

  /** `^(key)?\[(\d+)\]\{([^}]*)\}:$` with the text between the braces. */
  function TableFields(s: string): Option<string> {
    var d := CountEnd(s);
    if d.Some? && d.value + 4 <= |s| && s[d.value + 1] == '{' && s[|s| - 2..] == "}:" &&
       '}' !in s[d.value + 2..|s| - 2]
    then Some(s[d.value + 2..|s| - 2])
    else None
  }

  /** What an optional `(?: (.*))?$` captures after the colon at `i`. A line holds no line break. */
  function AfterColon(s: string, i: nat): Option<string>
    requires i < |s|
  {
    if s[i] != ':' then None
    else if i + 1 == |s| then Some("")
    else if s[i + 1] == ' ' then Some(s[i + 2..])
    else None
  }

  /** `^(key)?\[(\d+)\]:(?: (.*))?$` with the text after the colon. */
  function ListCells(s: string): Option<string> {
    var d := CountEnd(s);
    if d.Some? && d.value + 1 < |s| then AfterColon(s, d.value + 1) else None
  }

  /** `^(key):(?: (.*))?$` with the text after the colon. */
  function KeyedRest(s: string): Option<string> {
    var k := KeyEnd(s);
    if 0 < k < |s| then AfterColon(s, k) else None
  }

  /* ---- Lines ---- */

  /** The lines of a text with their leading spaces counted in pairs. */
  function ScanLine(raw: string): Option<Line> {
    var n := RunEnd(raw, ' ', 0);
    if IsBlank(raw) || n % 2 != 0 then None else Some(Line(n / 2, raw[n..]))
  }

  function ScanAll(raw: seq<string>): Option<seq<Line>> {
    if raw == [] then Some([])
    else
      var line, more := ScanLine(raw[0]), ScanAll(raw[1..]);
      if line.None? || more.None? then None else Some([line.value] + more.value)
  }

  function ScanLines(s: string): Option<seq<Line>> {
    var body := TrimRight(s, '\n');
    if IsBlank(body) then None else ScanAll(Split(body, '\n'))
  }

  /* ---- Values ---- */

  /** A value and the index of the line after it. */
  datatype Read<+T> = Failed | Got(value: T, next: nat)

  function RowData(names: seq<string>, values: seq<Json>): (m: map<string, Json>)
    requires |names| == |values|
  {
    if names == [] then map[] else map[names[0] := values[0]] + RowData(names[1..], values[1..])
  }

  function ReadRow(text: string, names: seq<string>): Option<Json> {
    var cells := SplitCells(text);
    if cells.None? || |cells.value| != |names| then None
    else
      var values := ReadScalars(cells.value);
      if values.None? then None else Some(JObject(RowData(names, values.value)))
  }

  function ReadRows(lines: seq<Line>, i: nat, n: nat, indent: nat, names: seq<string>): (r: Read<seq<Json>>)
    requires i <= |lines|
    ensures r.Got? ==> i <= r.next <= |lines|
    decreases n
  {
    if n == 0 then Got([], i)
    else if i >= |lines| || lines[i].indent != indent + 1 then Failed
    else
      var row, more := ReadRow(lines[i].text, names), ReadRows(lines, i + 1, n - 1, indent, names);
      if row.None? || more.Failed? then Failed else Got([row.value] + more.value, more.next)
  }

  function ReadList(text: string, n: nat): Option<seq<Json>> {
    if n == 0 then if text == "[]" then Some([]) else None
    else
      var cells := SplitCells(text);
      if cells.None? || |cells.value| != n then None else ReadScalars(cells.value)
  }

  /** A count too large for the machine's integers exceeds the number of lines or cells, so it fails either way. */
  function ReadArray(lines: seq<Line>, i: nat, indent: nat): (r: Read<seq<Json>>)
    requires i < |lines|
    ensures r.Got? ==> i < r.next <= |lines|
  {
    var text := lines[i].text;
    if TableFields(text).Some? then
      var names := SplitFields(TableFields(text).value);
      if names == [] || Count(text) > |lines| - i - 1 then Failed
      else ReadRows(lines, i + 1, Count(text), indent, names)
    else if ListCells(text).Some? then
      var items := ReadList(ListCells(text).value, Count(text));
      if items.None? then Failed else Got(items.value, i + 1)
    else Failed
  }

  /** What stands under the key of line `i`. */
  function ReadField(lines: seq<Line>, i: nat, indent: nat): (r: Read<Json>)
    requires i < |lines|
    ensures r.Got? ==> i < r.next <= |lines|
    decreases |lines| - i, 0
  {
    var text := lines[i].text;
    if KeyEnd(text) == 0 then Failed
    else if TableFields(text).Some? || ListCells(text).Some? then
      var items := ReadArray(lines, i, indent);
      if items.Failed? then Failed else Got(JArray(items.value), items.next)
    else if KeyedRest(text).None? then Failed
    else
      var rest := KeyedRest(text).value;
      if rest == "{}" then Got(JObject(map[]), i + 1)
      else if rest == "" then
        if i + 1 >= |lines| || lines[i + 1].indent != indent + 1 then Failed
        else
          var child := ReadObject(lines, i + 1, indent + 1, map[]);
          if child.Failed? then Failed else Got(JObject(child.value), child.next)
      else
        var v := ReadScalar(rest);
        if v.None? then Failed else Got(v.value, i + 1)
  }

  /** The fields from line `i` on, added to those read so far. */
  function ReadObject(lines: seq<Line>, i: nat, indent: nat, out: map<string, Json>): (r: Read<map<string, Json>>)
    requires i <= |lines|
    ensures r.Got? ==> i <= r.next <= |lines|
    decreases |lines| - i, 1
  {
    if i == |lines| || lines[i].indent < indent then Got(out, i)
    else if lines[i].indent > indent then Failed
    else
      var name, field := lines[i].text[..KeyEnd(lines[i].text)], ReadField(lines, i, indent);
      if name in out || field.Failed? then Failed
      else ReadObject(lines, field.next, indent, out[name := field.value])
  }

  function ReadRoot(lines: seq<Line>, i: nat): (r: Read<Json>)
    requires i < |lines|
    ensures r.Got? ==> i <= r.next <= |lines|
  {
    var text := lines[i].text;
    if text == "{}" then Got(JObject(map[]), i + 1)
    else if text == "[]" then Got(JArray([]), i + 1)
    else if text == "" || text[0] == '"' || (text[0] != '[' && ':' !in text) then
      var v := ReadScalar(text);
      if v.None? then Failed else Got(v.value, i + 1)
    else if text[0] == '[' then
      var items := ReadArray(lines, i, 0);
      if items.Failed? then Failed else Got(JArray(items.value), items.next)
    else
      var fields := ReadObject(lines, i, 0, map[]);
      if fields.Failed? then Failed else Got(JObject(fields.value), fields.next)
  }

  function Decode(s: string): Option<Json> {
    var lines := ScanLines(s);
    if lines.None? || lines.value == [] || lines.value[0].indent != 0 then None
    else
      var root := ReadRoot(lines.value, 0);
      if root.Failed? || root.next != |lines.value| then None else Some(root.value)
  }

  /* ---- The data of a value ---- */

  function Data(v: Value): Json
    decreases v
  {
    match v
    case Null => JNull
    case Bool(b) => JBool(b)
    case Number(literal) => JNumber(literal)
    case Str(s) => JString(s)
    case Object(fields) => JObject(FieldsData(fields))
    case Array(items) => JArray(seq(|items|, k requires 0 <= k < |items| => Data(items[k])))
  }

  /** A later field replaces an earlier one of the same name. */
  function FieldsData(fs: Fields): map<string, Json>
    decreases fs
  {
    match fs
    case NoFields => map[]
    case Field(name, value, more) => map[name := Data(value)] + FieldsData(more)
  }
}
