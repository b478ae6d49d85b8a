/** The reader as it runs: loops over characters, cells and lines, with an index that moves forward. */
module ToonParser {
  import opened GoText
  import opened ToonText
  import opened ToonReader
  import opened ToonWriter

  /* ---- Cells ---- */

  method SplitTOONCells(s: string) returns (cells: seq<string>, ok: bool)
    ensures SplitCells(s) == if ok then Some(cells) else None
  {
    hide Cells;
    var cell, inQuote, escaped := "", false, false;
    cells := [];
    assert s[0..] == s;
    JoinedNothing(SplitCells(s));
    for i := 0 to |s|
      invariant SplitCells(s) == Joined(cells, Cells(s[i..], cell, inQuote, escaped))
    {
      var c := s[i];
      CharStep(s, i, cells, cell, inQuote, escaped);
      if escaped { cell, escaped := cell + [c], false; continue; }
      if inQuote && c == '\\' { cell, escaped := cell + [c], true; continue; }
      if c == '"' { cell, inQuote := cell + [c], !inQuote; continue; }
      if !inQuote && c == ',' { cells, cell := cells + [cell], ""; continue; }
      cell := cell + [c];
    }
    assert s[|s|..] == "";
    LastCell(cell, inQuote, escaped);
    if inQuote || escaped { return [], false; }
    cells, ok := cells + [cell], true;
  }

  lemma LastCell(cell: string, inQuote: bool, escaped: bool)
    ensures Cells("", cell, inQuote, escaped) == if inQuote || escaped then None else Some([cell])
  {
  }

  lemma CharStep(s: string, i: nat, done: seq<string>, cell: string, inQuote: bool, escaped: bool)
    requires i < |s|
    ensures Joined(done, Cells(s[i..], cell, inQuote, escaped)) ==
            var c, rest := s[i], s[i + 1..];
            if escaped then Joined(done, Cells(rest, cell + [c], inQuote, false))
            else if inQuote && c == '\\' then Joined(done, Cells(rest, cell + [c], inQuote, true))
            else if c == '"' then Joined(done, Cells(rest, cell + [c], !inQuote, false))
            else if !inQuote && c == ',' then Joined(done + [cell], Cells(rest, "", false, false))
            else Joined(done, Cells(rest, cell + [c], inQuote, false))
  {
    var c, rest := s[i], s[i + 1..];
    assert s[i..][0] == c && s[i..][1..] == rest;
    var more := Cells(rest, "", false, false);
    if more.Some? { assert done + ([cell] + more.value) == done + [cell] + more.value; }
  }

  /** The columns of a header: every name safe, none twice. */
  method SplitTOONFields(s: string) returns (names: seq<string>)
    ensures names == SplitFields(s)
  {
    hide IsSafeKey, Split;
    if s == "" { return []; }
    var parts := Split(s, ',');
    var seen: set<string> := {};
    for k := 0 to |parts|
      invariant forall j | 0 <= j < k :: IsSafeKey(parts[j])
      invariant forall j | 0 <= j < k :: parts[j] in seen
      invariant forall p | p in seen :: exists j | 0 <= j < k :: parts[j] == p
      invariant forall i, j | 0 <= i < j < k :: parts[i] != parts[j]
    {
      if !IsSafeKey(parts[k]) { return []; }
      if parts[k] in seen { return []; }
      seen := seen + {parts[k]};
    }
    assert forall p | p in parts :: IsSafeKey(p);
    names := parts;
  }

  /** The data of the cells, one by one. */
  method ParseScalars(cells: seq<string>) returns (values: seq<Json>, ok: bool)
    ensures ReadScalars(cells) == if ok then Some(values) else None
  {
    hide ReadScalar, ReadScalars;
    values := [];
    assert cells[0..] == cells;
    JoinedNothing(ReadScalars(cells));
    for k := 0 to |cells|
      invariant ReadScalars(cells) == Joined(values, ReadScalars(cells[k..]))
    {
      ScalarStep(values, cells, k);
      var v := ReadScalar(cells[k]);
      if v.None? { return [], false; }
      values := values + [v.value];
    }
    assert ReadScalars(cells[|cells|..]) == Some([]) by { NoScalars(); assert cells[|cells|..] == []; }
    assert values + [] == values;
    ok := true;
  }

  lemma NoScalars()
    ensures ReadScalars([]) == Some([])
  {
  }

  lemma ScalarStep(done: seq<Json>, cells: seq<string>, k: nat)
    requires k < |cells|
    ensures Joined(done, ReadScalars(cells[k..])) ==
            if ReadScalar(cells[k]).None? then None
            else Joined(done + [ReadScalar(cells[k]).value], ReadScalars(cells[k + 1..]))
  {
    hide ReadScalar;
    var rest := cells[k..];
    assert rest[0] == cells[k] && rest[1..] == cells[k + 1..];
    var more := ReadScalars(cells[k + 1..]);
    if ReadScalar(cells[k]).Some? && more.Some? {
      assert done + ([ReadScalar(cells[k]).value] + more.value) == done + [ReadScalar(cells[k]).value] + more.value;
    }
  }

  /* ---- Lines ---- */

  method ScanTOONLines(s: string) returns (lines: seq<Line>, ok: bool)
    ensures ScanLines(s) == if ok then Some(lines) else None
  {
    hide ScanLine, ScanAll, Split, TrimRight, IsBlank;
    var body := TrimRight(s, '\n');
    lines := [];
    if IsBlank(body) { return [], false; }
    var raw := Split(body, '\n');
    assert raw[0..] == raw;
    JoinedNothing(ScanAll(raw));
    for k := 0 to |raw|
      invariant ScanAll(raw) == Joined(lines, ScanAll(raw[k..]))
    {
      LineStep(lines, raw, k);
      LineParts(raw[k]);
      if IsBlank(raw[k]) { return [], false; }
      var spaces := RunEnd(raw[k], ' ', 0);
      if spaces % 2 != 0 { return [], false; }
      lines := lines + [Line(spaces / 2, raw[k][spaces..])];
    }
    assert ScanAll(raw[|raw|..]) == Some([]) by { NoLines(); assert raw[|raw|..] == []; }
    assert lines + [] == lines;
    ok := true;
  }

  lemma NoLines()
    ensures ScanAll([]) == Some([])
  {
  }

  lemma LineParts(raw: string)
    ensures var n := RunEnd(raw, ' ', 0);
            ScanLine(raw) == if IsBlank(raw) || n % 2 != 0 then None else Some(Line(n / 2, raw[n..]))
  {
  }

  lemma LineStep(done: seq<Line>, raw: seq<string>, k: nat)
    requires k < |raw|
    ensures Joined(done, ScanAll(raw[k..])) ==
            if ScanLine(raw[k]).None? then None
            else Joined(done + [ScanLine(raw[k]).value], ScanAll(raw[k + 1..]))
  {
    hide ScanLine;
    var rest := raw[k..];
    assert rest[0] == raw[k] && rest[1..] == raw[k + 1..];
    var more := ScanAll(raw[k + 1..]);
    if ScanLine(raw[k]).Some? && more.Some? {
      assert done + ([ScanLine(raw[k]).value] + more.value) == done + [ScanLine(raw[k]).value] + more.value;
    }
  }

  /* ---- Arrays ---- */

  /** One row of a table as an object. */
  method ParseRow(text: string, names: seq<string>) returns (row: Json, ok: bool)
    ensures ReadRow(text, names) == if ok then Some(row) else None
  {
    hide SplitCells, ReadScalars, RowData;
    row := JNull;
    var cells, good := SplitTOONCells(text);
    if !good || |cells| != |names| { return JNull, false; }
    var values, read := ParseScalars(cells);
    if !read { return JNull, false; }
    var fields: map<string, Json> := map[];
    assert names[0..] == names && values[0..] == values;
    assert map[] + RowData(names, values) == RowData(names, values);
    for c := 0 to |names|
      invariant fields + RowData(names[c..], values[c..]) == RowData(names, values)
    {
      RowDataStep(fields, names, values, c);
      fields := fields[names[c] := values[c]];
    }
    assert RowData(names[|names|..], values[|names|..]) == map[] by {
      NoRowData();
      assert names[|names|..] == [] && values[|names|..] == [];
    }
    assert fields == RowData(names, values);
    row, ok := JObject(fields), true;
  }

  lemma NoRowData()
    ensures RowData([], []) == map[]
  {
  }

  lemma RowDataStep(fields: map<string, Json>, names: seq<string>, values: seq<Json>, c: nat)
    requires c < |names| == |values|
    ensures fields + RowData(names[c..], values[c..]) ==
            fields[names[c] := values[c]] + RowData(names[c + 1..], values[c + 1..])
  {
    assert names[c..][0] == names[c] && names[c..][1..] == names[c + 1..];
    assert values[c..][0] == values[c] && values[c..][1..] == values[c + 1..];
    var more := RowData(names[c + 1..], values[c + 1..]);
    assert RowData(names[c..], values[c..]) == map[names[c] := values[c]] + more;
  }

  /** Rows read so far, followed by what the rest gives. */
  function Onto(done: seq<Json>, rest: Read<seq<Json>>): Read<seq<Json>> {
    if rest.Failed? then Failed else Got(done + rest.value, rest.next)
  }

  lemma RowStep(done: seq<Json>, lines: seq<Line>, i: nat, n: nat, indent: nat, names: seq<string>)
    requires i <= |lines| && n > 0
    ensures Onto(done, ReadRows(lines, i, n, indent, names)) ==
            if i >= |lines| || lines[i].indent != indent + 1 || ReadRow(lines[i].text, names).None? then Failed
            else Onto(done + [ReadRow(lines[i].text, names).value], ReadRows(lines, i + 1, n - 1, indent, names))
  {
    hide ReadRow;
    if i < |lines| && lines[i].indent == indent + 1 && ReadRow(lines[i].text, names).Some? {
      var more := ReadRows(lines, i + 1, n - 1, indent, names);
      if more.Got? {
        assert done + ([ReadRow(lines[i].text, names).value] + more.value)
            == done + [ReadRow(lines[i].text, names).value] + more.value;
      }
    }
  }

  lemma LastRow(done: seq<Json>, lines: seq<Line>, i: nat, indent: nat, names: seq<string>)
    requires i <= |lines|
    ensures Onto(done, ReadRows(lines, i, 0, indent, names)) == Got(done, i)
  {
    assert done + [] == done;
  }

  method ParseTable(lines: seq<Line>, start: nat, n: nat, indent: nat, names: seq<string>)
    returns (items: seq<Json>, next: nat, ok: bool)
    requires start <= |lines|
    ensures ReadRows(lines, start, n, indent, names) == if ok then Got(items, next) else Failed
  {
    hide ReadRow, ReadRows;
    items, next := [], start;
    assert Onto([], ReadRows(lines, start, n, indent, names)) == ReadRows(lines, start, n, indent, names) by {
      OntoNothing(ReadRows(lines, start, n, indent, names));
    }
    for row := 0 to n
      invariant next <= |lines|
      invariant ReadRows(lines, start, n, indent, names) == Onto(items, ReadRows(lines, next, n - row, indent, names))
    {
      RowStep(items, lines, next, n - row, indent, names);
      if next >= |lines| || lines[next].indent != indent + 1 { return [], start, false; }
      var item, good := ParseRow(lines[next].text, names);
      if !good { return [], start, false; }
      items, next := items + [item], next + 1;
    }
    LastRow(items, lines, next, indent, names);
    ok := true;
  }

  lemma OntoNothing(rest: Read<seq<Json>>)
    ensures Onto([], rest) == rest
  {
    if rest.Got? { assert [] + rest.value == rest.value; }
  }

  method ParseTOONArray(lines: seq<Line>, i: nat, indent: nat) returns (items: seq<Json>, next: nat, ok: bool)
    requires i < |lines|
    ensures ReadArray(lines, i, indent) == if ok then Got(items, next) else Failed
  {
    hide Count, CountEnd, ReadRows, ReadScalars, SplitCells, SplitFields;
    var text := lines[i].text;
    items, next, ok := [], i, false;
    if TableFields(text).Some? {
      var n := Count(text);
      var names := SplitTOONFields(TableFields(text).value);
      if names == [] { return; }
      if n > |lines| - i - 1 { return; }
      items, next, ok := ParseTable(lines, i + 1, n, indent, names);
      return;
    }
    if ListCells(text).None? { return; }
    var n, rest := Count(text), ListCells(text).value;
    if n == 0 {
      if rest != "[]" { return; }
      return [], i + 1, true;
    }
    var cells, good := SplitTOONCells(rest);
    if !good || |cells| != n { return; }
    items, ok := ParseScalars(cells);
    next := i + 1;
  }

  /* ---- Objects ---- */

  method ParseTOONObject(lines: seq<Line>, start: nat, indent: nat)
    returns (out: map<string, Json>, next: nat, ok: bool)
    requires start <= |lines|
    ensures ReadObject(lines, start, indent, map[]) == if ok then Got(out, next) else Failed
    decreases |lines| - start
  {
    hide ReadArray, TableFields, ListCells, KeyedRest, KeyEnd, ReadScalar, ReadObject;
    var i := start;
    out, next, ok := map[], start, false;
    while i < |lines|
      invariant start <= i <= |lines|
      invariant ReadObject(lines, start, indent, map[]) == ReadObject(lines, i, indent, out)
      decreases |lines| - i
    {
      FieldStep(lines, i, indent, out);
      if lines[i].indent < indent { break; }
      if lines[i].indent > indent { return; }
      var text := lines[i].text;
      var key := text[..KeyEnd(text)];
      if KeyEnd(text) > 0 && (TableFields(text).Some? || ListCells(text).Some?) {
        if key in out { return; }
        var items, after, good := ParseTOONArray(lines, i, indent);
        if !good { return; }
        out, i := out[key := JArray(items)], after;
        continue;
      }
      if KeyedRest(text).None? || KeyEnd(text) == 0 { return; }
      var rest := KeyedRest(text).value;
      if key in out { return; }
      if rest == "{}" {
        out, i := out[key := JObject(map[])], i + 1;
        continue;
      }
      if rest == "" {
        if i + 1 >= |lines| || lines[i + 1].indent != indent + 1 { return; }
        var child, after, good := ParseTOONObject(lines, i + 1, indent + 1);
        if !good { return; }
        out, i := out[key := JObject(child)], after;
        continue;
      }
      var v := ReadScalar(rest);
      if v.None? { return; }
      out, i := out[key := v.value], i + 1;
    }
    ObjectEnds(lines, i, indent, out);
    next, ok := i, true;
  }

  lemma ObjectEnds(lines: seq<Line>, i: nat, indent: nat, out: map<string, Json>)
    requires i <= |lines| && (i < |lines| ==> lines[i].indent < indent)
    ensures ReadObject(lines, i, indent, out) == Got(out, i)
  {
  }

  lemma FieldStep(lines: seq<Line>, i: nat, indent: nat, out: map<string, Json>)
    requires i < |lines|
    ensures var name, field := lines[i].text[..KeyEnd(lines[i].text)], ReadField(lines, i, indent);
            ReadObject(lines, i, indent, out) ==
            if lines[i].indent < indent then Got(out, i)
            else if lines[i].indent > indent || name in out || field.Failed? then Failed
            else ReadObject(lines, field.next, indent, out[name := field.value])
  {
    hide ReadField, KeyEnd;
  }

  /* ---- The whole text ---- */

  method ParseTOONRoot(lines: seq<Line>, i: nat) returns (v: Json, next: nat, ok: bool)
    requires i < |lines|
    ensures ReadRoot(lines, i) == if ok then Got(v, next) else Failed
  {
    hide ReadArray, ReadObject, ReadScalar;
    var text := lines[i].text;
    v, next, ok := JNull, i, false;
    if text == "{}" { return JObject(map[]), i + 1, true; }
    if text == "[]" { return JArray([]), i + 1, true; }
    if text != "" && text[0] == '"' {
      var scalar := ReadScalar(text);
      if scalar.Some? { return scalar.value, i + 1, true; }
      return;
    }
    if text != "" && text[0] == '[' {
      var items, after, good := ParseTOONArray(lines, i, 0);
      return JArray(items), after, good;
    }
    if ':' !in text {
      var scalar := ReadScalar(text);
      if scalar.Some? { return scalar.value, i + 1, true; }
      return;
    }
    var fields, after, good := ParseTOONObject(lines, i, 0);
    return JObject(fields), after, good;
  }

  method DecodeTOON(s: string) returns (v: Json, ok: bool)
    ensures Decode(s) == if ok then Some(v) else None
  {
    hide ScanLines, ReadRoot;
    var lines, good := ScanTOONLines(s);
    if !good || |lines| == 0 { return JNull, false; }
    if lines[0].indent != 0 { return JNull, false; }
    var root, next, read := ParseTOONRoot(lines, 0);
    if !read || next != |lines| { return JNull, false; }
    v, ok := root, true;
  }
}
