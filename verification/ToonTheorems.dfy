/** The main results about TOON: the round trip, which values can be written, and what equal texts mean. */
module ToonTheorems {
  import opened GoText
  import opened ToonText
  import opened ToonReader
  import opened ToonScalars
  import opened ToonShapes
  import opened ToonLines
  import opened ToonRoundTrip
  import JsonText

  /* ---- The root ---- */

  ghost predicate RootReads(lines: seq<Line>, v: Value) {
    lines != [] && lines[0].indent == 0 && IsClean(lines) && ReadRoot(lines, 0) == Got(Data(v), |lines|)
  }

  lemma ScalarRootReads(v: Value, text: string)
    requires IsScalar(v) && EncodeScalar(v) == Some(text) && WellFormed(v)
    ensures RootReads([Line(0, text)], v)
  {
    hide EncodeScalar, ReadScalar, IsCell, Data;
    ScalarRoundTrip(v);
    CleanCell(text);
    CellHead(text);
    TokenOrWord(text);
  }

  lemma TokenOrWord(t: string)
    requires IsCell(t) && t != ""
    ensures t[0] == '"' || ':' !in t
  {
    if IsToken(t) {
      var s :| t == JsonText.Quote(s);
      assert t[0] == '"';
    }
  }

  lemma ArrayRootReads(items: seq<Value>, lines: seq<Line>)
    requires items != [] && EncodeArray("", items, 0) == Some(lines) && WellFormed(Array(items))
    ensures RootReads(lines, Array(items))
  {
    hide EncodeArray, Data, IsDataOf, ReadArray, IsCleanText, LinesAt, IsArrayHead, ReadRoot, IsClean;
    assert forall k | 0 <= k < |items| :: WellFormed(items[k]);
    hide WellFormed;
    Whole(lines);
    ArrayReads(lines, 0, 0, "", items, lines);
    SameData(ReadArray(lines, 0, 0).value, items);
    ArrayRootBody(lines);
  }

  lemma ArrayRootBody(lines: seq<Line>)
    requires lines != [] && IsArrayHead(lines[0].text, "") && ReadArray(lines, 0, 0).Got?
    ensures ReadRoot(lines, 0) == Got(JArray(ReadArray(lines, 0, 0).value), ReadArray(lines, 0, 0).next)
  {
    hide ReadArray, TableFields, ListCells, KeyEnd, IsCleanText;
    BracketsAreNoArray();
    assert lines[0].text != "[]" && lines[0].text[0] == '[';
  }

  lemma BracketsAreNoArray()
    ensures TableFields("[]").None? && ListCells("[]").None?
  {
  }

  lemma ObjectRootReads(fs: Fields, lines: seq<Line>)
    requires fs.Field? && EncodeFields(Sorted(fs), 0) == Some(lines) && FieldsWellFormed(fs)
    ensures RootReads(lines, Object(fs))
  {
    hide EncodeFields, Sorted, FieldsData, FieldsWellFormed, ReadObject, IsCleanText, IsClean, KeyEnd, LinesAt;
    var sorted := Sorted(fs);
    SortedSome(fs);
    SortKeeps(fs);
    assert LinesAt(lines, 0, lines) by { Whole(lines); }
    FieldsRead(lines, 0, 0, sorted, lines, map[]);
    assert map[] + FieldsData(fs) == FieldsData(fs);
    FieldsFirstIndent(sorted, 0);
    MoreLines(sorted, 0);
    ObjectHead(sorted, lines);
  }

  lemma Whole(lines: seq<Line>)
    ensures LinesAt(lines, 0, lines)
  {
  }

  lemma ObjectHead(fs: Fields, lines: seq<Line>)
    requires fs.Field? && EncodeFields(fs, 0) == Some(lines) && lines != [] && FieldsWellFormed(fs)
    ensures var text := lines[0].text; text != "" && IsKeyStart(text[0]) && ':' in text
  {
    hide EncodeValue, WellFormed, ReadField, Data, LinesAt;
    var first, more := EncodeValue(fs.value, fs.name, 0).value, EncodeFields(fs.more, 0).value;
    assert lines == first + more;
    assert LinesAt(first, 0, first) by { Whole(first); }
    FieldReads(first, 0, 0, fs.name, fs.value, first);
    assert fs.name[0] == lines[0].text[..|fs.name|][0];
  }

  lemma EncodedRootReads(v: Value)
    requires EncodeValue(v, "", 0).Some? && WellFormed(v)
    ensures RootReads(EncodeValue(v, "", 0).value, v)
  {
    hide EncodeArray, EncodeFields, Sorted, RootReads, FieldsWellFormed, EncodeScalar;
    var lines := EncodeValue(v, "", 0).value;
    match v
    case Object(fields) =>
      if fields.Field? { ObjectRootReads(fields, lines); } else { EmptyRootReads(); }
    case Array(items) =>
      if items != [] { ArrayRootReads(items, lines); } else { EmptyRootReads(); }
    case _ => ScalarRootReads(v, EncodeScalar(v).value);
  }

  lemma EmptyRootReads()
    ensures EncodeArray("", [], 0) == Some([Line(0, "[]")])
    ensures RootReads([Line(0, "[]")], Array([])) && RootReads([Line(0, "{}")], Object(NoFields))
  {
    SameData([], []);
  }

  /* ---- Round trip ---- */

  /** Whatever value a JSON reader can make, if it can be written then the text decodes to its data:
      the decoder consumes every line, across nesting, empty containers, arrays, tables and quoting. */
  lemma RoundTrip(v: Value)
    requires WellFormed(v) && Encode(v).Some?
    ensures Decode(Encode(v).value) == Some(Data(v))
  {
    hide EncodeValue, WellFormed, ReadRoot, Data, Rendered, TrimRight, ScanLines, IsClean;
    EncodedRootReads(v);
    LinesRoundTrip(EncodeValue(v, "", 0).value);
  }

  /** Values with the same text are the same data. */
  lemma SameTextSameData(v: Value, w: Value)
    requires WellFormed(v) && WellFormed(w) && Encode(v).Some? && Encode(v) == Encode(w)
    ensures Data(v) == Data(w)
  {
    hide Encode, Decode, Data, WellFormed;
    RoundTrip(v);
    RoundTrip(w);
  }

  /** Outside that domain it can fail: a number that carries white space is written but not read back. */
  lemma SpacedNumberIsLost()
    ensures Encode(Number(" 1")) == Some(" 1") && Decode(" 1") == None
  {
    assert JsonText.IsNumber("1");
    assert TrimJsonLeft(" 1") == "1" && TrimJsonRight("1") == "1";
    var lines := [Line(0, " 1")];
    assert EncodeValue(Number(" 1"), "", 0) == Some(lines);
    assert lines[1..] == [];
    assert Rendered(lines) == " 1\n";
    assert " 1\n"[..2] == " 1" && TrimRight(" 1", '\n') == " 1";
    assert TrimRight(" 1\n", '\n') == " 1";
    assert Split(" 1", '\n') == [" 1"] by {
      assert IndexFrom(" 1", '\n', 2) == 2;
      assert IndexFrom(" 1", '\n', 1) == 2;
    }
    assert RunEnd(" 1", ' ', 1) == 1;
    assert ScanLine(" 1") == None;
  }

  /* ---- What can be written ---- */

  predicate IsWritable(v: Value) {
    IsScalar(v) && (v.Number? ==> ReadsAsNumber(v.literal))
  }

  /** An item of a table with these columns: a flat object with the same keys in the same order. */
  predicate IsRowOf(item: Value, names: seq<string>) {
    item.Object? && Names(item.fields) == names && forall v | v in FieldValues(item.fields) :: IsWritable(v)
  }

  predicate IsTable(items: seq<Value>) {
    items != [] && items[0].Object? && items[0].fields.Field? &&
    (forall k | k in Names(items[0].fields) :: IsSafeKey(k)) &&
    forall item | item in items :: IsRowOf(item, Names(items[0].fields))
  }

  /** The shapes the writer supports: safe keys, readable numbers, and arrays that are empty, all scalar,
      or tables of uniform flat objects. */
  predicate Supported(v: Value)
    decreases v
  {
    match v
    case Object(fields) => FieldsSupported(fields)
    case Array(items) => (forall item | item in items :: IsWritable(item)) || IsTable(items)
    case _ => IsWritable(v)
  }

  predicate FieldsSupported(fs: Fields)
    decreases fs
  {
    match fs
    case NoFields => true
    case Field(name, value, more) => IsSafeKey(name) && Supported(value) && FieldsSupported(more)
  }

  lemma {:induction false} InsertSupported(name: string, value: Value, fs: Fields)
    ensures FieldsSupported(Insert(name, value, fs)) <==> IsSafeKey(name) && Supported(value) && FieldsSupported(fs)
  {
    hide Less, Supported, IsSafeKey;
    if fs.Field? && Less(fs.name, name) { InsertSupported(name, value, fs.more); }
  }

  lemma {:induction false} SortSupported(fs: Fields)
    ensures FieldsSupported(Sorted(fs)) <==> FieldsSupported(fs)
  {
    hide Insert, Supported, IsSafeKey;
    if fs.Field? {
      SortSupported(fs.more);
      InsertSupported(fs.name, fs.value, Sorted(fs.more));
    }
  }

  lemma ScalarWrites(v: Value)
    ensures EncodeScalar(v).Some? <==> IsWritable(v)
  {
  }

  lemma {:induction false} CellsWrite(items: seq<Value>)
    ensures EncodeCells(items).Some? <==> forall v | v in items :: IsWritable(v)
    decreases |items|
  {
    hide EncodeScalar, IsWritable;
    if items != [] {
      ScalarWrites(items[0]);
      CellsWrite(items[1..]);
      assert items == [items[0]] + items[1..];
    }
  }

  lemma {:induction false} RowsWrite(items: seq<Value>, names: seq<string>)
    ensures EncodeRows(items, names).Some? <==> forall item | item in items :: IsRowOf(item, names)
    decreases |items|
  {
    hide EncodeCells, IsWritable;
    if items != [] {
      if items[0].Object? { CellsWrite(FieldValues(items[0].fields)); }
      assert EncodeRow(items[0], names).Some? <==> IsRowOf(items[0], names);
      hide EncodeRow, IsRowOf;
      RowsWrite(items[1..], names);
      assert items == [items[0]] + items[1..];
    }
  }

  lemma ArrayWrites(name: string, items: seq<Value>, indent: nat)
    requires IsName(name)
    ensures EncodeArray(name, items, indent).Some? <==> Supported(Array(items))
  {
    hide EncodeCells, EncodeRows, IsRowOf, RowLines, TableHeader, ListText;
    CellsWrite(items);
    if items != [] && items[0].Object? {
      RowsWrite(items, Names(items[0].fields));
      assert !IsScalar(items[0]);
    }
    if AllScalar(items) && items != [] { assert IsScalar(items[0]); }
    assert (forall item | item in items :: IsWritable(item)) ==> AllScalar(items);
  }

  /** A value can be written exactly when it is supported, here under a key or at the root. */
  lemma {:induction false} ValueWrites(v: Value, name: string, indent: nat)
    ensures EncodeValue(v, name, indent).Some? <==> IsName(name) && Supported(v)
    decreases Weight(v), 1
  {
    hide EncodeArray, IsSafeKey, EncodeFields, Sorted, FieldsSupported, IsTable, EncodeScalar, IsWritable;
    if IsName(name) {
      match v
      case Object(fields) =>
        SortSupported(fields);
        FieldsWrite(Sorted(fields), if name == "" then indent else indent + 1);
        NoneSupported();
      case Array(items) => ArrayWrites(name, items, indent);
      case _ => ScalarWrites(v);
    }
  }

  lemma NoneSupported()
    ensures FieldsSupported(NoFields)
  {
  }

  lemma {:induction false} FieldsWrite(fs: Fields, indent: nat)
    ensures EncodeFields(fs, indent).Some? <==> FieldsSupported(fs)
    decreases FieldsWeight(fs), 0
  {
    hide EncodeValue, Supported;
    if fs.Field? {
      if IsSafeKey(fs.name) { ValueWrites(fs.value, fs.name, indent); }
      FieldsWrite(fs.more, indent);
    }
  }

  lemma WritesExactlySupported(v: Value)
    ensures Encode(v).Some? <==> Supported(v)
  {
    hide EncodeValue, Supported;
    ValueWrites(v, "", 0);
  }
}
