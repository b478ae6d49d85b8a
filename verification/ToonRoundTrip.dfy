/** Decoding what was encoded gives the data of the value, for every value a JSON reader can make. */
module ToonRoundTrip {
  import opened GoText
  import opened ToonText
  import opened ToonReader
  import opened ToonScalars
  import opened ToonShapes
  import opened ToonLines
  import JsonText

  /* ---- Values as a JSON reader makes them ---- */

  /** Keys are distinct in every object and every number is a JSON literal. */
  predicate WellFormed(v: Value)
    decreases v
  {
    match v
    case Number(literal) => JsonText.IsNumber(literal)
    case Object(fields) => FieldsWellFormed(fields)
    case Array(items) => forall k | 0 <= k < |items| :: WellFormed(items[k])
    case _ => true
  }

  predicate FieldsWellFormed(fs: Fields)
    decreases fs
  {
    match fs
    case NoFields => true
    case Field(name, value, more) => name !in Names(more) && WellFormed(value) && FieldsWellFormed(more)
  }

  lemma {:induction false} NamesDistinct(fs: Fields)
    requires FieldsWellFormed(fs)
    ensures Distinct(Names(fs))
  {
    if fs.Field? { NamesDistinct(fs.more); }
  }

  lemma {:induction false} ValuesWellFormed(fs: Fields)
    requires FieldsWellFormed(fs)
    ensures forall v | v in FieldValues(fs) :: HasJsonNumber(v)
  {
    if fs.Field? { ValuesWellFormed(fs.more); }
  }

  /* ---- Sorting keeps the data ---- */

  lemma {:induction false} InsertNames(name: string, value: Value, fs: Fields, n: string)
    ensures n in Names(Insert(name, value, fs)) <==> n == name || n in Names(fs)
  {
    hide Less;
    if fs.Field? && Less(fs.name, name) { InsertNames(name, value, fs.more, n); }
  }

  lemma {:induction false} InsertKeepsForm(name: string, value: Value, fs: Fields)
    requires FieldsWellFormed(fs) && WellFormed(value) && name !in Names(fs)
    ensures FieldsWellFormed(Insert(name, value, fs))
  {
    hide Less, WellFormed;
    if fs.Field? && Less(fs.name, name) {
      InsertKeepsForm(name, value, fs.more);
      InsertNames(name, value, fs.more, fs.name);
    }
  }

  lemma {:induction false} InsertKeepsData(name: string, value: Value, fs: Fields)
    requires name !in Names(fs)
    ensures FieldsData(Insert(name, value, fs)) == map[name := Data(value)] + FieldsData(fs)
  {
    hide Less, Data;
    if fs.Field? && Less(fs.name, name) {
      InsertKeepsData(name, value, fs.more);
      assert fs.name != name;
      SwapKeys(name, Data(value), fs.name, Data(fs.value), FieldsData(fs.more));
    }
  }

  lemma SwapKeys(a: string, x: Json, b: string, y: Json, m: map<string, Json>)
    requires a != b
    ensures map[a := x] + (map[b := y] + m) == map[b := y] + (map[a := x] + m)
  {
  }

  lemma {:induction false} SortKeeps(fs: Fields)
    requires FieldsWellFormed(fs)
    ensures FieldsWellFormed(Sorted(fs)) && FieldsData(Sorted(fs)) == FieldsData(fs)
    ensures forall n :: n in Names(Sorted(fs)) <==> n in Names(fs)
  {
    hide Insert, WellFormed, Data;
    if fs.Field? {
      SortKeeps(fs.more);
      InsertKeepsForm(fs.name, fs.value, Sorted(fs.more));
      InsertKeepsData(fs.name, fs.value, Sorted(fs.more));
      forall n ensures n in Names(Sorted(fs)) <==> n in Names(fs) {
        InsertNames(fs.name, fs.value, Sorted(fs.more), n);
      }
    }
  }

  /* ---- Rows ---- */

  lemma {:induction false} RowDataIs(fs: Fields, values: seq<Json>)
    requires IsDataOf(values, FieldValues(fs))
    ensures RowData(Names(fs), values) == FieldsData(fs)
    decreases fs
  {
    hide Data;
    if fs.Field? {
      assert Names(fs)[1..] == Names(fs.more) && FieldValues(fs)[1..] == FieldValues(fs.more);
      assert FieldValues(fs)[0] == fs.value && Names(fs)[0] == fs.name;
      RowDataIs(fs.more, values[1..]);
    }
  }

  lemma RowReads(item: Value, names: seq<string>)
    requires EncodeRow(item, names).Some? && WellFormed(item) && names != []
    ensures var text := Join(EncodeRow(item, names).value, ',');
            ReadRow(text, names) == Some(Data(item)) && IsCleanText(text)
  {
    hide EncodeCells, ReadScalars, SplitCells, Join, IsCell, HasJsonNumber, RowData, IsCleanText;
    var vs := FieldValues(item.fields);
    ValuesWellFormed(item.fields);
    ScalarsRoundTrip(vs);
    var cells := EncodeCells(vs).value;
    CellsRoundTrip(cells);
    RowDataIs(item.fields, ReadScalars(cells).value);
    CleanRow(cells);
  }

  predicate LinesAt(lines: seq<Line>, i: nat, block: seq<Line>) {
    i + |block| <= |lines| && forall k | 0 <= k < |block| :: lines[i + k] == block[k]
  }

  lemma LinesAtAppend(lines: seq<Line>, i: nat, a: seq<Line>, b: seq<Line>)
    requires LinesAt(lines, i, a + b)
    ensures LinesAt(lines, i, a) && LinesAt(lines, i + |a|, b)
  {
    forall k | 0 <= k < |a| ensures lines[i + k] == a[k] { assert (a + b)[k] == a[k]; }
    forall k | 0 <= k < |b| ensures lines[i + |a| + k] == b[k] { assert (a + b)[|a| + k] == b[k]; }
  }

  lemma LinesAtFirst(lines: seq<Line>, i: nat, block: seq<Line>)
    requires LinesAt(lines, i, block) && block != []
    ensures i < |lines| && lines[i] == block[0]
  {
    assert lines[i + 0] == block[0];
  }

  lemma {:induction false} RowsRead(lines: seq<Line>, i: nat, items: seq<Value>, names: seq<string>, indent: nat)
    requires EncodeRows(items, names).Some? && names != []
    requires forall k | 0 <= k < |items| :: WellFormed(items[k])
    requires LinesAt(lines, i, RowLines(EncodeRows(items, names).value, indent + 1))
    ensures var r := ReadRows(lines, i, |items|, indent, names);
            r.Got? && r.next == i + |items| && IsDataOf(r.value, items)
    ensures IsClean(RowLines(EncodeRows(items, names).value, indent + 1))
    decreases |items|
  {
    hide EncodeRow, ReadRow, WellFormed, Data, Join, IsCleanText;
    if items != [] {
      var rows := EncodeRows(items, names).value;
      var block := RowLines(rows, indent + 1);
      assert block[0] == Line(indent + 1, Join(rows[0], ',')) && rows[0] == EncodeRow(items[0], names).value;
      assert block[1..] == RowLines(rows[1..], indent + 1);
      LinesAtAppend(lines, i, [block[0]], block[1..]) by { assert [block[0]] + block[1..] == block; }
      LinesAtFirst(lines, i, block);
      RowReads(items[0], names);
      RowsRead(lines, i + 1, items[1..], names, indent);
      assert forall k | 0 < k < |items| :: items[k] == items[1..][k - 1];
      assert forall k | 0 < k < |block| :: block[k] == block[1..][k - 1];
    }
  }

  /* ---- Arrays ---- */

  /** The first line of an array: its key, if it has one, and one of the two array forms. */
  predicate IsArrayHead(text: string, name: string) {
    IsCleanText(text) && KeyEnd(text) == |name| && |name| < |text| && text[..|name|] == name && text[|name|] == '[' &&
    (TableFields(text).Some? || ListCells(text).Some?)
  }

  lemma ListHead(name: string, n: nat, joined: string)
    requires IsName(name) && '\n' !in joined
    ensures var text := name + "[" + Itoa(n) + "]: " + joined;
            IsArrayHead(text, name) && TableFields(text).None? && ListCells(text) == Some(joined) && Count(text) == n
  {
    hide KeyEnd, TableFields, ListCells, Count, IsName, IsCleanText, Itoa;
    var text := name + "[" + Itoa(n) + "]: " + joined;
    ListTextReads(name, n, joined);
    CleanBracket(name, n, ": " + joined);
    assert name + "[" + Itoa(n) + "]" + (": " + joined) == text;
    assert text[..|name|] == name;
  }

  lemma TableHead(name: string, n: nat, names: seq<string>)
    requires IsName(name) && names != [] && Distinct(names) && forall k | k in names :: IsSafeKey(k)
    ensures var text := TableHeader(name, n, names);
            IsArrayHead(text, name) && TableFields(text).Some? && Count(text) == n &&
            SplitFields(TableFields(text).value) == names
  {
    hide KeyEnd, TableFields, ListCells, Count, IsName, IsCleanText, Itoa, Join, IsSafeKey, Distinct, SplitFields;
    var text, columns := TableHeader(name, n, names), Join(names, ',');
    TableHeaderReads(name, n, names);
    JoinedNames(names);
    assert '\n' !in columns;
    CleanBracket(name, n, "{" + columns + "}:");
    assert name + "[" + Itoa(n) + "]" + ("{" + columns + "}:") == text;
    assert text[..|name|] == name && text[|name|] == '[';
  }

  /** What reading an array at line `i` gives when it was written there. */
  ghost predicate ArrayReadsAt(lines: seq<Line>, i: nat, indent: nat, name: string, items: seq<Value>,
                               block: seq<Line>)
  {
    i < |lines| && block != [] && lines[i] == block[0] && block[0].indent == indent && IsClean(block) &&
    IsArrayHead(block[0].text, name) &&
    var r := ReadArray(lines, i, indent);
    r.Got? && r.next == i + |block| && IsDataOf(r.value, items)
  }

  lemma EmptyArrayReads(lines: seq<Line>, i: nat, indent: nat, name: string)
    requires IsSafeKey(name) && LinesAt(lines, i, [Line(indent, name + "[0]: []")])
    ensures ArrayReadsAt(lines, i, indent, name, [], [Line(indent, name + "[0]: []")])
  {
    hide KeyEnd, TableFields, ListCells, Count, IsSafeKey, IsCleanText;
    LinesAtFirst(lines, i, [Line(indent, name + "[0]: []")]);
    assert Itoa(0) == "0";
    ListHead(name, 0, "[]");
    assert name + "[" + "0" + "]: " + "[]" == name + "[0]: []";
  }

  /** Reading a line of scalars, given what its head and its cells read as. */
  lemma ListBody(lines: seq<Line>, i: nat, indent: nat, cells: seq<string>, data: seq<Json>)
    requires i < |lines| && cells != [] && TableFields(lines[i].text).None? &&
             ListCells(lines[i].text) == Some(Join(cells, ','))
    requires Count(lines[i].text) == |cells| && SplitCells(Join(cells, ',')) == Some(cells) &&
             ReadScalars(cells) == Some(data)
    ensures ReadArray(lines, i, indent) == Got(data, i + 1)
  {
    hide TableFields, ListCells, Count, SplitCells, ReadScalars, Join;
  }

  lemma ItemsHaveNumbers(items: seq<Value>)
    requires forall k | 0 <= k < |items| :: WellFormed(items[k])
    ensures forall v | v in items :: HasJsonNumber(v)
  {
    forall v | v in items ensures HasJsonNumber(v) { assert WellFormed(v); }
  }

  lemma ScalarArrayReads(lines: seq<Line>, i: nat, indent: nat, name: string, items: seq<Value>)
    requires IsName(name) && items != [] && EncodeCells(items).Some?
    requires forall k | 0 <= k < |items| :: WellFormed(items[k])
    requires LinesAt(lines, i, [Line(indent, ListText(name, EncodeCells(items).value))])
    ensures ArrayReadsAt(lines, i, indent, name, items, [Line(indent, ListText(name, EncodeCells(items).value))])
  {
    hide IsArrayHead, TableFields, ListCells, Count, IsName, EncodeCells, ReadScalars, SplitCells, IsCell, Itoa, Join,
         Data, IsCleanText, IsDataOf, ReadArray, IsClean, LinesAt;
    var cells := EncodeCells(items).value;
    var block := [Line(indent, ListText(name, cells))];
    LinesAtFirst(lines, i, block);
    ItemsHaveNumbers(items);
    hide WellFormed, HasJsonNumber;
    ScalarsRoundTrip(items);
    CellsRoundTrip(cells);
    JoinChars(cells, ',', '\n');
    ListHead(name, |cells|, Join(cells, ','));
    HeadIsClean(ListText(name, cells), name);
    ListBody(lines, i, indent, cells, ReadScalars(cells).value);
    CleanOne(block[0]);
  }

  /** Reading a table, given what its header reads as. */
  lemma TableBody(lines: seq<Line>, i: nat, indent: nat, n: nat, names: seq<string>)
    requires i < |lines| && TableFields(lines[i].text).Some? && SplitFields(TableFields(lines[i].text).value) == names
    requires Count(lines[i].text) == n && names != [] && i + 1 + n <= |lines|
    ensures ReadArray(lines, i, indent) == ReadRows(lines, i + 1, n, indent, names)
  {
    hide TableFields, ListCells, Count, SplitFields, ReadRows;
  }

  /** What is written of a table: its header, and the rows one step further in. */
  lemma TableBlock(name: string, items: seq<Value>, indent: nat, block: seq<Line>)
    requires items != [] && EncodeTable(name, items, indent) == Some(block) && WellFormed(items[0])
    ensures items[0].Object? && items[0].fields.Field?
    ensures var names := Names(items[0].fields);
            names != [] && Distinct(names) && (forall k | k in names :: IsSafeKey(k)) &&
              EncodeRows(items, names).Some? &&
            block == [Line(indent, TableHeader(name, |items|, names))] +
                     RowLines(EncodeRows(items, names).value, indent + 1)
  {
    hide EncodeRows, RowLines, TableHeader, Distinct, IsSafeKey;
    NamesDistinct(items[0].fields);
  }

  lemma TableReads(lines: seq<Line>, i: nat, indent: nat, name: string, items: seq<Value>, block: seq<Line>)
    requires IsName(name) && items != [] && EncodeTable(name, items, indent) == Some(block)
    requires forall k | 0 <= k < |items| :: WellFormed(items[k])
    requires LinesAt(lines, i, block)
    ensures ArrayReadsAt(lines, i, indent, name, items, block)
  {
    hide IsArrayHead, TableFields, ListCells, Count, IsName, EncodeRows, ReadRows, SplitFields, TableHeader, Distinct,
         IsSafeKey, IsDataOf, RowLines, IsCleanText, ReadArray, IsClean, LinesAt, EncodeTable, WellFormed, Names;
    assert WellFormed(items[0]);
    TableBlock(name, items, indent, block);
    var names := Names(items[0].fields);
    var rows := RowLines(EncodeRows(items, names).value, indent + 1);
    var header := Line(indent, TableHeader(name, |items|, names));
    LinesAtAppend(lines, i, [header], rows);
    LinesAtFirst(lines, i, block);
    LinesAtInside(lines, i, block);
    TableHead(name, |items|, names);
    RowsRead(lines, i + 1, items, names, indent);
    TableBody(lines, i, indent, |items|, names);
    HeadIsClean(header.text, name);
    CleanOne(header);
    CleanAppend([header], rows);
  }

  lemma LinesAtInside(lines: seq<Line>, i: nat, block: seq<Line>)
    requires LinesAt(lines, i, block)
    ensures i + |block| <= |lines|
  {
  }

  lemma HeadIsClean(text: string, name: string)
    requires IsArrayHead(text, name)
    ensures IsCleanText(text)
  {
  }

  lemma ArrayReads(lines: seq<Line>, i: nat, indent: nat, name: string, items: seq<Value>, block: seq<Line>)
    requires EncodeArray(name, items, indent) == Some(block) && (name != "" || items != [])
    requires forall k | 0 <= k < |items| :: WellFormed(items[k])
    requires LinesAt(lines, i, block)
    ensures ArrayReadsAt(lines, i, indent, name, items, block)
  {
    hide LinesAt, EncodeTable, ListText, EncodeCells, IsSafeKey, WellFormed, ArrayReadsAt, AllScalar;
    if items == [] { EmptyArrayReads(lines, i, indent, name); }
    else if AllScalar(items) { ScalarArrayReads(lines, i, indent, name, items); }
    else { TableReads(lines, i, indent, name, items, block); }
  }

  /* ---- Objects ---- */

  /** The first line of a field: its key, and a colon further on. */
  predicate IsFieldHead(text: string, name: string) {
    IsCleanText(text) && KeyEnd(text) == |name| && |name| < |text| && text[..|name|] == name && ':' in text
  }

  /** What reading a field at line `i` gives when it was written there. */
  ghost predicate FieldReadsAt(lines: seq<Line>, i: nat, indent: nat, name: string, v: Value, block: seq<Line>) {
    i < |lines| && block != [] && lines[i] == block[0] && block[0].indent == indent && IsClean(block) &&
    IsFieldHead(block[0].text, name) &&
    ReadField(lines, i, indent) == Got(Data(v), i + |block|)
  }

  lemma KeyedHead(name: string, rest: string)
    requires IsSafeKey(name) && '\n' !in rest
    ensures var text := name + ": " + rest;
            IsFieldHead(text, name) && KeyEnd(text) > 0 && TableFields(text).None? && ListCells(text).None? &&
            KeyedRest(text) == Some(rest)
  {
    assert name != "";
    hide KeyEnd, TableFields, ListCells, KeyedRest, IsCleanText, IsSafeKey;
    KeyedReads(name, rest);
    assert (name + ": " + rest)[|name|] == ':';
    CleanHead(name, ": " + rest);
    assert name + (": " + rest) == name + ": " + rest;
  }

  lemma KeyAloneHead(name: string)
    requires IsSafeKey(name)
    ensures var text := name + ":";
            IsFieldHead(text, name) && KeyEnd(text) > 0 && TableFields(text).None? && ListCells(text).None? &&
            KeyedRest(text) == Some("")
  {
    assert name != "";
    hide KeyEnd, TableFields, ListCells, KeyedRest, IsCleanText, IsSafeKey;
    KeyAloneReads(name);
    assert (name + ":")[|name|] == ':';
    CleanHead(name, ":");
  }

  lemma FieldHeadIsClean(text: string, name: string)
    requires IsFieldHead(text, name)
    ensures IsCleanText(text)
  {
  }

  /** Reading a line whose shape is a key with a rest. */
  lemma KeyedBody(lines: seq<Line>, i: nat, indent: nat, rest: string)
    requires i < |lines| && KeyEnd(lines[i].text) > 0 && TableFields(lines[i].text).None? &&
             ListCells(lines[i].text).None?
    requires KeyedRest(lines[i].text) == Some(rest)
    ensures rest == "{}" ==> ReadField(lines, i, indent) == Got(JObject(map[]), i + 1)
    ensures rest != "{}" && rest != "" && ReadScalar(rest).Some? ==>
              ReadField(lines, i, indent) == Got(ReadScalar(rest).value, i + 1)
    ensures rest == "" && i + 1 < |lines| && lines[i + 1].indent == indent + 1 ==>
              ReadObject(lines, i + 1, indent + 1, map[]).Got? ==>
              var child := ReadObject(lines, i + 1, indent + 1, map[]);
              ReadField(lines, i, indent) == Got(JObject(child.value), child.next)
  {
    hide KeyEnd, TableFields, ListCells, KeyedRest, ReadScalar, ReadObject, ReadArray;
  }

  /** Reading a line whose shape is an array under a key. */
  lemma ArrayBody(lines: seq<Line>, i: nat, indent: nat, name: string)
    requires i < |lines| && name != "" && IsArrayHead(lines[i].text, name) && ReadArray(lines, i, indent).Got?
    ensures var items := ReadArray(lines, i, indent);
            ReadField(lines, i, indent) == Got(JArray(items.value), items.next)
    ensures IsFieldHead(lines[i].text, name)
  {
    ArrayColon(lines[i].text, name);
    hide KeyEnd, TableFields, ListCells, KeyedRest, ReadScalar, ReadObject, ReadArray;
  }

  /** The text before line `j` ends there for a reader of lines at `indent`. */
  predicate Stops(lines: seq<Line>, j: nat, indent: nat) {
    j >= |lines| || lines[j].indent < indent
  }

  lemma ScalarFieldReads(lines: seq<Line>, i: nat, indent: nat, name: string, v: Value, text: string)
    requires IsSafeKey(name) && IsScalar(v) && EncodeScalar(v) == Some(text) && WellFormed(v)
    requires LinesAt(lines, i, [Line(indent, name + ": " + text)])
    ensures FieldReadsAt(lines, i, indent, name, v, [Line(indent, name + ": " + text)])
  {
    hide EncodeScalar, ReadScalar, IsSafeKey, TableFields, ListCells, KeyedRest, KeyEnd, Data, IsFieldHead, ReadField,
         IsClean, LinesAt;
    var line := Line(indent, name + ": " + text);
    LinesAtFirst(lines, i, [line]);
    ScalarRoundTrip(v);
    assert text != "" && text[0] != '{' by { CleanCell(text); CellHead(text); }
    hide IsCleanText, IsCell;
    KeyedHead(name, text);
    KeyedBody(lines, i, indent, text);
    CleanOne(line) by { FieldHeadIsClean(line.text, name); }
  }

  lemma CellHead(t: string)
    requires IsCell(t) && t != ""
    ensures t[0] != '{' && t[0] != '['
  {
    if IsToken(t) {
      var s :| t == JsonText.Quote(s);
      assert t[0] == '"';
    }
  }

  lemma EmptyObjectReads(lines: seq<Line>, i: nat, indent: nat, name: string)
    requires IsSafeKey(name) && LinesAt(lines, i, [Line(indent, name + ": {}")])
    ensures FieldReadsAt(lines, i, indent, name, Object(NoFields), [Line(indent, name + ": {}")])
  {
    hide IsSafeKey, TableFields, ListCells, KeyedRest, KeyEnd, IsFieldHead, ReadField, IsClean, LinesAt, IsCleanText;
    var line := Line(indent, name + ": {}");
    LinesAtFirst(lines, i, [line]);
    assert name + ": " + "{}" == name + ": {}";
    KeyedHead(name, "{}");
    KeyedBody(lines, i, indent, "{}");
    CleanOne(line) by { FieldHeadIsClean(line.text, name); }
  }

  lemma ArrayColon(text: string, name: string)
    requires IsArrayHead(text, name)
    ensures ':' in text
  {
    if TableFields(text).Some? {
      assert text[|text| - 2..][1] == text[|text| - 1];
    }
  }

  lemma SameData(data: seq<Json>, items: seq<Value>)
    requires IsDataOf(data, items)
    ensures JArray(data) == Data(Array(items))
  {
  }

  lemma SafeKeyIsName(name: string)
    requires IsSafeKey(name)
    ensures name != ""
  {
  }

  lemma ItemsWellFormed(items: seq<Value>)
    requires WellFormed(Array(items))
    ensures forall k | 0 <= k < |items| :: WellFormed(items[k])
  {
  }

  lemma ArrayFieldReads(lines: seq<Line>, i: nat, indent: nat, name: string, items: seq<Value>, block: seq<Line>)
    requires IsSafeKey(name) && EncodeArray(name, items, indent) == Some(block) && WellFormed(Array(items))
    requires LinesAt(lines, i, block)
    ensures FieldReadsAt(lines, i, indent, name, Array(items), block)
  {
    hide IsSafeKey, EncodeArray, LinesAt, ReadArray, ReadField, Data, IsDataOf, IsArrayHead, IsFieldHead, IsClean,
         WellFormed;
    SafeKeyIsName(name);
    ItemsWellFormed(items);
    ArrayReads(lines, i, indent, name, items, block);
    ArrayBody(lines, i, indent, name);
    SameData(ReadArray(lines, i, indent).value, items);
  }

  lemma ValueFirstIndent(v: Value, name: string, indent: nat)
    requires EncodeValue(v, name, indent).Some? && name != ""
    ensures EncodeValue(v, name, indent).value[0].indent == indent
  {
  }

  lemma FieldsFirstIndent(fs: Fields, indent: nat)
    requires EncodeFields(fs, indent).Some? && fs.Field?
    ensures EncodeFields(fs, indent).value[0].indent == indent
  {
    hide EncodeValue;
    ValueFirstIndent(fs.value, fs.name, indent);
  }

  lemma NestedReads(lines: seq<Line>, i: nat, indent: nat, name: string, v: Value, block: seq<Line>)
    requires IsSafeKey(name) && v.Object? && FieldsWellFormed(v.fields)
    requires LinesAt(lines, i, [Line(indent, name + ":")] + block)
    requires block != [] && block[0].indent == indent + 1 && IsClean(block)
    requires ReadObject(lines, i + 1, indent + 1, map[]) == Got(map[] + FieldsData(Sorted(v.fields)), i + 1 + |block|)
    ensures FieldReadsAt(lines, i, indent, name, v, [Line(indent, name + ":")] + block)
  {
    hide IsSafeKey, TableFields, ListCells, KeyedRest, KeyEnd, ReadObject, FieldsData, Sorted, FieldsWellFormed,
         IsCleanText, IsClean, LinesAt, IsFieldHead, ReadField;
    var head := Line(indent, name + ":");
    LinesAtAppend(lines, i, [head], block);
    LinesAtFirst(lines, i, [head]);
    LinesAtFirst(lines, i + 1, block);
    SortKeeps(v.fields);
    KeyAloneHead(name);
    KeyedBody(lines, i, indent, "");
    assert map[] + FieldsData(v.fields) == FieldsData(v.fields);
    CleanOne(head) by { FieldHeadIsClean(head.text, name); }
    CleanAppend([head], block);
  }

  /** What is written of a value under a name: an array, a labelled scalar, or an object with its fields one step in. */
  lemma ValueBlock(v: Value, name: string, indent: nat, block: seq<Line>)
    requires IsSafeKey(name) && EncodeValue(v, name, indent) == Some(block) && WellFormed(v)
    ensures v.Array? ==> EncodeArray(name, v.items, indent) == Some(block)
    ensures !v.Array? && !v.Object? ==>
              EncodeScalar(v).Some? && block == [Line(indent, name + ": " + EncodeScalar(v).value)]
    ensures v.Object? && v.fields.NoFields? ==> block == [Line(indent, name + ": {}")]
    ensures v.Object? && v.fields.Field? ==>
              FieldsWellFormed(v.fields) && EncodeFields(Sorted(v.fields), indent + 1).Some? &&
              block == [Line(indent, name + ":")] + EncodeFields(Sorted(v.fields), indent + 1).value
  {
    assert name != "";
    hide IsSafeKey, EncodeArray, EncodeScalar, EncodeFields, Sorted, FieldsWellFormed;
    if v.Object? && v.fields.NoFields? { assert name + ": " + "{}" == name + ": {}"; }
  }

  lemma {:induction false} FieldReads(lines: seq<Line>, i: nat, indent: nat, name: string, v: Value, block: seq<Line>)
    requires IsSafeKey(name) && EncodeValue(v, name, indent) == Some(block) && WellFormed(v)
    requires LinesAt(lines, i, block) && Stops(lines, i + |block|, indent + 1)
    ensures FieldReadsAt(lines, i, indent, name, v, block)
    decreases Weight(v), 1
  {
    hide IsSafeKey, LinesAt, FieldReadsAt, EncodeValue, EncodeArray, EncodeScalar, EncodeFields, Sorted, FieldsData,
         ReadObject, WellFormed, FieldsWellFormed, Stops, IsClean;
    ValueBlock(v, name, indent, block);
    if v.Array? {
      ArrayFieldReads(lines, i, indent, name, v.items, block);
    } else if !v.Object? {
      ScalarFieldReads(lines, i, indent, name, v, EncodeScalar(v).value);
    } else if v.fields.NoFields? {
      EmptyObjectReads(lines, i, indent, name);
    } else {
      var sorted := Sorted(v.fields);
      var inner := EncodeFields(sorted, indent + 1).value;
      var head := Line(indent, name + ":");
      LinesAtAppend(lines, i, [head], inner);
      SortKeeps(v.fields);
      SortedSome(v.fields);
      FieldsRead(lines, i + 1, indent + 1, sorted, inner, map[]);
      FieldsFirstIndent(sorted, indent + 1);
      NestedReads(lines, i, indent, name, v, inner);
    }
  }

  lemma SortedSome(fs: Fields)
    requires fs.Field?
    ensures Sorted(fs).Field?
  {
  }

  /** A field read at line `i` is added to those read so far. */
  lemma FieldIsAdded(lines: seq<Line>, i: nat, indent: nat, name: string, v: Value, block: seq<Line>,
                     out: map<string, Json>)
    requires FieldReadsAt(lines, i, indent, name, v, block) && name !in out
    ensures i + |block| <= |lines|
    ensures ReadObject(lines, i, indent, out) == ReadObject(lines, i + |block|, indent, out[name := Data(v)])
  {
    hide KeyEnd, ReadField, IsClean, IsCleanText, Data;
    assert ReadField(lines, i, indent).Got?;
  }

  lemma ObjectStops(lines: seq<Line>, i: nat, indent: nat, out: map<string, Json>)
    requires i <= |lines| && Stops(lines, i, indent)
    ensures ReadObject(lines, i, indent, out) == Got(out, i)
  {
  }

  lemma NoLinesClean()
    ensures IsClean([])
  {
  }

  /** The fields of an object, from the first of the remaining ones on. */
  lemma {:induction false} FieldsRead(lines: seq<Line>, i: nat, indent: nat, fs: Fields, block: seq<Line>,
                                      out: map<string, Json>)
    requires EncodeFields(fs, indent) == Some(block) && FieldsWellFormed(fs)
    requires LinesAt(lines, i, block) && Stops(lines, i + |block|, indent)
    requires forall n | n in Names(fs) :: n !in out
    ensures IsClean(block)
    ensures i <= |lines| && ReadObject(lines, i, indent, out) == Got(out + FieldsData(fs), i + |block|)
    decreases FieldsWeight(fs), 0
  {
    hide EncodeValue, LinesAt, ReadObject, Data, WellFormed, IsSafeKey, IsClean, FieldReadsAt, Stops;
    if fs.NoFields? {
      LinesAtInside(lines, i, block);
      ObjectStops(lines, i, indent, out);
      NoLinesClean();
      assert out + map[] == out;
    } else {
      var first, more := EncodeValue(fs.value, fs.name, indent).value, EncodeFields(fs.more, indent).value;
      var j := i + |first|;
      LinesAtAppend(lines, i, first, more);
      MoreStops(lines, j, indent, fs.more);
      FieldReads(lines, i, indent, fs.name, fs.value, first);
      FieldIsAdded(lines, i, indent, fs.name, fs.value, first, out);
      var out' := out[fs.name := Data(fs.value)];
      FieldsRead(lines, j, indent, fs.more, more, out');
      assert out' + FieldsData(fs.more) == out + FieldsData(fs);
      BlockIsClean(lines, i, indent, fs.name, fs.value, first);
      CleanAppend(first, more);
    }
  }

  lemma BlockIsClean(lines: seq<Line>, i: nat, indent: nat, name: string, v: Value, block: seq<Line>)
    requires FieldReadsAt(lines, i, indent, name, v, block)
    ensures IsClean(block)
  {
  }

  /** A field ends where the next one starts, or where the object does. */
  lemma MoreStops(lines: seq<Line>, j: nat, indent: nat, more: Fields)
    requires EncodeFields(more, indent).Some? && LinesAt(lines, j, EncodeFields(more, indent).value)
    requires Stops(lines, j + |EncodeFields(more, indent).value|, indent)
    ensures Stops(lines, j, indent + 1)
  {
    hide EncodeFields, LinesAt;
    if more.Field? {
      FieldsFirstIndent(more, indent);
      LinesAtFirst(lines, j, EncodeFields(more, indent).value) by { MoreLines(more, indent); }
    } else {
      MoreLines(more, indent);
    }
  }

  lemma MoreLines(fs: Fields, indent: nat)
    requires EncodeFields(fs, indent).Some?
    ensures EncodeFields(fs, indent).value == [] <==> fs.NoFields?
  {
  }
}
