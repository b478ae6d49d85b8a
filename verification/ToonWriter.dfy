/** The writer as it runs: one text buffer that each call appends to. */
module ToonWriter {
  import opened GoText
  import opened ToonText

  lemma {:induction false} RenderedAppend(a: seq<Line>, b: seq<Line>)
    ensures Rendered(a + b) == Rendered(a) + Rendered(b)
    decreases |a|
  {
    hide LineText;
    if a == [] {
      assert a + b == b;
    } else {
      RenderedAppend(a[1..], b);
      assert (a + b)[1..] == a[1..] + b && (a + b)[0] == a[0];
    }
  }

  lemma RenderedOne(line: Line)
    ensures Rendered([line]) == Spaces(line.indent) + line.text + "\n"
  {
    assert [line][1..] == [];
    assert LineText(line) + "\n" + "" == LineText(line) + "\n";
  }

  /** What is done so far, followed by what the rest gives. */
  function Joined<T>(done: seq<T>, rest: Option<seq<T>>): Option<seq<T>> {
    if rest.None? then None else Some(done + rest.value)
  }

  lemma {:induction false} CellsStep(done: seq<string>, items: seq<Value>, k: nat)
    requires k < |items|
    ensures Joined(done, EncodeCells(items[k..])) ==
            if EncodeScalar(items[k]).None? then None
            else Joined(done + [EncodeScalar(items[k]).value], EncodeCells(items[k + 1..]))
  {
    hide EncodeScalar;
    var rest := items[k..];
    assert rest[0] == items[k] && rest[1..] == items[k + 1..];
    var more := EncodeCells(items[k + 1..]);
    if EncodeScalar(items[k]).Some? && more.Some? {
      assert done + ([EncodeScalar(items[k]).value] + more.value) == done + [EncodeScalar(items[k]).value] + more.value;
    }
  }

  method ScalarCells(items: seq<Value>) returns (ok: bool, cells: seq<string>)
    ensures EncodeCells(items) == if ok then Some(cells) else None
  {
    hide EncodeScalar, EncodeCells;
    cells := [];
    assert items[0..] == items;
    assert Joined([], EncodeCells(items)) == EncodeCells(items) by { JoinedNothing(EncodeCells(items)); }
    for k := 0 to |items|
      invariant EncodeCells(items) == Joined(cells, EncodeCells(items[k..]))
    {
      CellsStep(cells, items, k);
      var cell := EncodeScalar(items[k]);
      if cell.None? { return false, []; }
      cells := cells + [cell.value];
    }
    assert EncodeCells(items[|items|..]) == Some([]) by { NoCells(); assert items[|items|..] == []; }
    assert cells + [] == cells;
    ok := true;
  }

  lemma NoCells()
    ensures EncodeCells([]) == Some([])
  {
  }

  lemma JoinedNothing<T>(rest: Option<seq<T>>)
    ensures Joined([], rest) == rest
  {
    if rest.Some? { assert [] + rest.value == rest.value; }
  }

  /* ---- Tables ---- */

  /** One row, walking the item's fields beside the column names. */
  method TableRow(item: Value, names: seq<string>) returns (ok: bool, row: seq<string>)
    ensures EncodeRow(item, names) == if ok then Some(row) else None
  {
    hide EncodeScalar, EncodeCells, Names, FieldValues;
    if !item.Object? || |Names(item.fields)| != |names| { return false, []; }
    row := [];
    var rest, k := item.fields, 0;
    JoinedNothing(EncodeCells(FieldValues(item.fields)));
    while rest.Field?
      invariant k + |Names(rest)| == |names|
      invariant Names(item.fields) == names[..k] + Names(rest)
      invariant EncodeCells(FieldValues(item.fields)) == Joined(row, EncodeCells(FieldValues(rest)))
      decreases rest
    {
      FieldStep(rest, row);
      NameStep(Names(item.fields), names, k, rest);
      if rest.name != names[k] { return false, []; }
      if !IsScalar(rest.value) { ScalarsOnly(rest.value); return false, []; }
      var cell := EncodeScalar(rest.value);
      if cell.None? { return false, []; }
      row := row + [cell.value];
      rest, k := rest.more, k + 1;
    }
    NoCells();
    NoFieldsLeft();
    assert row + [] == row && names[..k] + [] == names;
    ok := true;
  }

  lemma NameStep(all: seq<string>, names: seq<string>, k: nat, rest: Fields)
    requires rest.Field? && k + |Names(rest)| == |names| && all == names[..k] + Names(rest)
    ensures k < |names| && k + 1 + |Names(rest.more)| == |names|
    ensures if rest.name == names[k] then all == names[..k + 1] + Names(rest.more) else all != names
  {
    assert all[k] == rest.name;
    if rest.name == names[k] { assert names[..k] + [rest.name] == names[..k + 1]; }
  }

  lemma NoFieldsLeft()
    ensures Names(NoFields) == [] && FieldValues(NoFields) == []
  {
  }

  lemma ScalarsOnly(v: Value)
    requires !IsScalar(v)
    ensures EncodeScalar(v).None?
  {
  }

  lemma FieldStep(fs: Fields, done: seq<string>)
    requires fs.Field?
    ensures Names(fs) == [fs.name] + Names(fs.more)
    ensures Joined(done, EncodeCells(FieldValues(fs))) ==
            if EncodeScalar(fs.value).None? then None
            else Joined(done + [EncodeScalar(fs.value).value], EncodeCells(FieldValues(fs.more)))
  {
    hide EncodeScalar, EncodeCells;
    CellsStep(done, FieldValues(fs), 0);
    assert FieldValues(fs)[0..] == FieldValues(fs) && FieldValues(fs)[1..] == FieldValues(fs.more);
  }

  lemma RowsStep(done: seq<seq<string>>, items: seq<Value>, names: seq<string>, k: nat)
    requires k < |items|
    ensures Joined(done, EncodeRows(items[k..], names)) ==
            if EncodeRow(items[k], names).None? then None
            else Joined(done + [EncodeRow(items[k], names).value], EncodeRows(items[k + 1..], names))
  {
    hide EncodeRow;
    var rest := items[k..];
    assert rest[0] == items[k] && rest[1..] == items[k + 1..];
    var more := EncodeRows(items[k + 1..], names);
    if EncodeRow(items[k], names).Some? && more.Some? {
      assert done + ([EncodeRow(items[k], names).value] + more.value) ==
             done + [EncodeRow(items[k], names).value] + more.value;
    }
  }

  /** The columns and the rows, when the items have the table's shape. */
  method TabularRows(items: seq<Value>) returns (names: seq<string>, rows: seq<seq<string>>, ok: bool)
    ensures ok ==> items != [] && items[0].Object? && items[0].fields.Field? && names == Names(items[0].fields) &&
                   EncodeRows(items, names) == Some(rows)
    ensures !ok ==> items == [] || !items[0].Object? || items[0].fields.NoFields? ||
                    EncodeRows(items, Names(items[0].fields)).None?
  {
    hide EncodeRow, EncodeRows, EncodeScalar;
    names, rows := [], [];
    if items == [] || !items[0].Object? || items[0].fields.NoFields? { return [], [], false; }
    var rest := items[0].fields;
    while rest.Field?
      invariant Names(items[0].fields) == names + Names(rest)
      invariant forall v | v in FieldValues(rest) :: v in FieldValues(items[0].fields)
      decreases rest
    {
      if !IsScalar(rest.value) {
        FirstRowFails(items, rest.value);
        return [], [], false;
      }
      names, rest := names + [rest.name], rest.more;
    }
    assert names == Names(items[0].fields) && items[0..] == items;
    JoinedNothing(EncodeRows(items, names));
    for k := 0 to |items|
      invariant EncodeRows(items, names) == Joined(rows, EncodeRows(items[k..], names))
    {
      RowsStep(rows, items, names, k);
      var good, row := TableRow(items[k], names);
      if !good { return [], [], false; }
      rows := rows + [row];
    }
    assert EncodeRows(items[|items|..], names) == Some([]) by { NoRows(names); assert items[|items|..] == []; }
    assert rows + [] == rows;
    ok := true;
  }

  lemma NoRows(names: seq<string>)
    ensures EncodeRows([], names) == Some([])
  {
  }

  lemma {:induction false} CellsNeedScalars(items: seq<Value>, v: Value)
    requires v in items && !IsScalar(v)
    ensures EncodeCells(items).None?
    decreases |items|
  {
    if items[0] == v { ScalarsOnly(v); } else { CellsNeedScalars(items[1..], v); }
  }

  lemma FirstRowFails(items: seq<Value>, v: Value)
    requires items != [] && items[0].Object? && v in FieldValues(items[0].fields) && !IsScalar(v)
    ensures EncodeRows(items, Names(items[0].fields)).None?
  {
    hide EncodeCells, EncodeScalar;
    CellsNeedScalars(FieldValues(items[0].fields), v);
  }

  /* ---- The buffer ---- */

  class Writer {
    var text: string

    constructor ()
      ensures text == ""
    {
      text := "";
    }

    method WriteIndent(indent: nat)
      modifies this
      ensures text == old(text) + Spaces(indent)
    {
      for i := 0 to indent
        invariant text == old(text) + Spaces(i)
      {
        text := text + "  ";
        assert Spaces(i) + "  " == Spaces(i + 1);
      }
    }

    method WriteLine(line: Line)
      modifies this
      ensures text == old(text) + Rendered([line])
    {
      WriteIndent(line.indent);
      text := text + (line.text + "\n");
      RenderedOne(line);
      assert text == old(text) + (Spaces(line.indent) + line.text + "\n");
    }

    /** Appends the text of an array, or fails and leaves a text that its caller drops. */
    method WriteArray(name: string, items: seq<Value>, indent: nat) returns (ok: bool)
      modifies this
      ensures ok == EncodeArray(name, items, indent).Some?
      ensures ok ==> text == old(text) + Rendered(EncodeArray(name, items, indent).value)
    {
      hide EncodeCells, EncodeRows, EncodeRow, IsSafeKey, Rendered, IsScalar, EncodeScalar, Names, Itoa, Join;
      if name != "" && !IsSafeKey(name) { return false; }
      if items == [] {
        WriteLine(Line(indent, if name == "" then "[]" else name + "[0]: []"));
        return true;
      }
      if AllScalar(items) {
        var good, cells := ScalarCells(items);
        if !good { return false; }
        WriteLine(Line(indent, ListText(name, cells)));
        return true;
      }
      var names, rows, good := TabularRows(items);
      if !good { return false; }
      if !forall k | k in names :: IsSafeKey(k) { return false; }
      var header, lines := Line(indent, TableHeader(name, |rows|, names)), RowLines(rows, indent + 1);
      WriteLine(header);
      assert [header] + lines[..0] == [header];
      for k := 0 to |rows|
        invariant text == old(text) + Rendered([header] + lines[..k])
      {
        WriteLine(Line(indent + 1, Join(rows[k], ',')));
        RenderedAppend([header] + lines[..k], [lines[k]]);
        assert [header] + lines[..k + 1] == [header] + lines[..k] + [lines[k]];
      }
      assert lines[..|rows|] == lines;
      ok := true;
    }

    method WriteValue(v: Value, name: string, indent: nat) returns (ok: bool)
      requires name == "" ==> indent == 0
      modifies this
      ensures ok == EncodeValue(v, name, indent).Some?
      ensures ok ==> text == old(text) + Rendered(EncodeValue(v, name, indent).value)
      decreases Weight(v)
    {
      hide EncodeArray, EncodeFields, EncodeScalar, IsSafeKey, Rendered, Sorted;
      if v.Object? {
        if name == "" {
          if v.fields.NoFields? { WriteLine(Line(0, "{}")); return true; }
          ok := WriteObject(v.fields, indent);
          return;
        }
        if !IsSafeKey(name) { return false; }
        if v.fields.NoFields? {
          WriteLine(Line(indent, name + ": {}"));
          assert Labelled(name, "{}") == name + ": {}";
          return true;
        }
        var head := Line(indent, name + ":");
        WriteLine(head);
        ok := WriteObject(v.fields, indent + 1);
        if ok { RenderedAppend([head], EncodeFields(Sorted(v.fields), indent + 1).value); }
      } else if v.Array? {
        ok := WriteArray(name, v.items, indent);
        if name != "" && !IsSafeKey(name) { ArrayNeedsKey(name, v.items, indent); }
      } else {
        var encoded := EncodeScalar(v);
        if encoded.None? { return false; }
        if name != "" && !IsSafeKey(name) { return false; }
        WriteLine(Line(indent, Labelled(name, encoded.value)));
        ok := true;
      }
    }

    /** Appends the fields in the order of their names. */
    method WriteObject(fields: Fields, indent: nat) returns (ok: bool)
      modifies this
      ensures ok == EncodeFields(Sorted(fields), indent).Some?
      ensures ok ==> text == old(text) + Rendered(EncodeFields(Sorted(fields), indent).value)
      decreases FieldsWeight(fields)
    {
      hide EncodeValue, IsSafeKey, Rendered, Sorted, EncodeFields;
      var ordered := Sorted(fields);
      var rest := ordered;
      ghost var done: seq<Line> := [];
      JoinedNothing(EncodeFields(ordered, indent));
      NothingRendered();
      while rest.Field?
        invariant FieldsWeight(rest) <= FieldsWeight(fields)
        invariant EncodeFields(ordered, indent) == Joined(done, EncodeFields(rest, indent))
        invariant text == old(text) + Rendered(done)
        decreases rest
      {
        FieldLinesStep(done, rest, indent);
        if !IsSafeKey(rest.name) { return false; }
        SafeKeyIsNamed(rest.name);
        var good := WriteValue(rest.value, rest.name, indent);
        if !good { return false; }
        ghost var block := EncodeValue(rest.value, rest.name, indent).value;
        RenderedAppend(done, block);
        done := done + block;
        rest := rest.more;
      }
      NoFieldLines(indent);
      assert done + [] == done;
      ok := true;
    }
  }

  lemma NothingRendered()
    ensures Rendered([]) == ""
  {
  }

  lemma NoFieldLines(indent: nat)
    ensures EncodeFields(NoFields, indent) == Some([])
  {
  }

  lemma SafeKeyIsNamed(name: string)
    requires IsSafeKey(name)
    ensures name != ""
  {
  }

  lemma ArrayNeedsKey(name: string, items: seq<Value>, indent: nat)
    requires name != "" && !IsSafeKey(name)
    ensures EncodeArray(name, items, indent).None?
  {
  }

  lemma FieldLinesStep(done: seq<Line>, fs: Fields, indent: nat)
    requires fs.Field?
    ensures var block := EncodeValue(fs.value, fs.name, indent);
            Joined(done, EncodeFields(fs, indent)) ==
            if !IsSafeKey(fs.name) || block.None? then None
            else Joined(done + block.value, EncodeFields(fs.more, indent))
  {
    hide EncodeValue, IsSafeKey;
    var block, more := EncodeValue(fs.value, fs.name, indent), EncodeFields(fs.more, indent);
    if block.Some? && more.Some? {
      assert done + (block.value + more.value) == done + block.value + more.value;
    }
  }

  /** The whole encoder. */
  method EncodeTOON(v: Value) returns (text: string, ok: bool)
    ensures Encode(v) == if ok then Some(text) else None
  {
    hide EncodeValue, Rendered, TrimRight;
    var w := new Writer();
    ok := w.WriteValue(v, "", 0);
    if !ok { return "", false; }
    assert w.text == Rendered(EncodeValue(v, "", 0).value);
    text := TrimRight(w.text, '\n');
  }
}
