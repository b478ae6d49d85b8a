/** Scalars, cells and headers read back as they were written. */
module ToonScalars {
  import opened GoText
  import opened ToonText
  import opened ToonReader
  import JsonText

  /** What every written scalar looks like: a string token, or a word free of structure. */
  predicate IsWord(t: string) {
    t != "" && !IsSpace(t[0]) && t[0] !in "[{\"" && forall k | 0 <= k < |t| :: t[k] !in "\n\":,"
  }

  ghost predicate IsToken(t: string) {
    exists s :: t == JsonText.Quote(s)
  }

  ghost predicate IsCell(t: string) {
    IsWord(t) || IsToken(t)
  }

  /** Numbers are literals of JSON, as a JSON reader makes them. */
  predicate HasJsonNumber(v: Value) {
    v.Number? ==> JsonText.IsNumber(v.literal)
  }

  lemma NumberReads(s: string)
    requires JsonText.IsNumber(s)
    ensures ReadScalar(s) == Some(JNumber(s)) && ReadsAsNumber(s) && IsWord(s)
  {
    JsonText.NumberChars(s);
    hide JsonText.IsNumber;
    assert forall k | 0 <= k < |s| :: JsonText.IsNumberChar(s[k]);
    assert TrimJsonLeft(s) == s && TrimJsonRight(s) == s;
  }

  lemma QuoteReads(s: string)
    ensures ReadScalar(JsonText.Quote(s)) == Some(JString(s))
    ensures '\n' !in JsonText.Quote(s)
  {
    hide JsonText.IsStringToken, JsonText.Escape, JsonText.Unescape;
    JsonText.QuoteRoundTrip(s);
    var t := JsonText.Quote(s);
    assert t[|t| - 1] == '"';
    assert TrimJsonRight(t) == t;
    assert '\n' !in t by { assert forall k | 0 <= k < |t| :: t[k] >= ' '; }
  }

  lemma PlainReads(s: string)
    requires !NeedsQuote(s)
    ensures ReadScalar(s) == Some(JString(s)) && IsWord(s)
  {
    hide ReadsAsNumber;
    assert forall k | 0 <= k < |s| :: s[k] !in "\n\r\t\":,";
    assert s[0] !in "[{\"-";
    assert s !in ["true", "false", "null"];
    assert s != "true" && s != "false" && s != "null" by {
      assert ["true", "false", "null"][0] == "true" && ["true", "false", "null"][1] == "false" &&
             ["true", "false", "null"][2] == "null";
    }
  }

  /** A written scalar reads back as its data. */
  lemma ScalarRoundTrip(v: Value)
    requires EncodeScalar(v).Some? && HasJsonNumber(v)
    ensures ReadScalar(EncodeScalar(v).value) == Some(Data(v))
    ensures IsCell(EncodeScalar(v).value) && '\n' !in EncodeScalar(v).value
  {
    hide NeedsQuote, ReadScalar, ReadsAsNumber, JsonText.IsNumber, JsonText.Quote;
    match v
    case Null => WordsRead();
    case Bool(b) => WordsRead();
    case Number(literal) => NumberReads(literal);
    case Str(s) => if NeedsQuote(s) { QuoteReads(s); } else { PlainReads(s); }
    case _ =>
  }

  lemma WordsRead()
    ensures ReadScalar("null") == Some(JNull) && IsWord("null") && '\n' !in "null"
    ensures ReadScalar("true") == Some(JBool(true)) && IsWord("true") && '\n' !in "true"
    ensures ReadScalar("false") == Some(JBool(false)) && IsWord("false") && '\n' !in "false"
  {
  }

  /* ---- Cells ---- */

  lemma {:induction false} WordRuns(t: string, cell: string, rest: string)
    requires forall k | 0 <= k < |t| :: t[k] !in "\","
    ensures Cells(t + rest, cell, false, false) == Cells(rest, cell + t, false, false)
    decreases |t|
  {
    if t == "" {
      assert t + rest == rest && cell + t == cell;
    } else {
      assert (t + rest)[0] == t[0] && (t + rest)[1..] == t[1..] + rest;
      WordRuns(t[1..], cell + [t[0]], rest);
      assert cell + [t[0]] + t[1..] == cell + t;
    }
  }

  lemma {:induction false} InsideRuns(t: string, cell: string, rest: string)
    requires forall k | 0 <= k < |t| :: t[k] !in "\"\\"
    ensures Cells(t + rest, cell, true, false) == Cells(rest, cell + t, true, false)
    decreases |t|
  {
    if t == "" {
      assert t + rest == rest && cell + t == cell;
    } else {
      assert (t + rest)[0] == t[0] && (t + rest)[1..] == t[1..] + rest;
      InsideRuns(t[1..], cell + [t[0]], rest);
      assert cell + [t[0]] + t[1..] == cell + t;
    }
  }

  lemma EscapeCharRuns(c: char, cell: string, rest: string)
    ensures Cells(JsonText.EscapeChar(c) + rest, cell, true, false)
         == Cells(rest, cell + JsonText.EscapeChar(c), true, false)
  {
    var e := JsonText.EscapeChar(c);
    if e == [c] {
      InsideRuns(e, cell, rest);
    } else {
      var s, u := e + rest, e[2..];
      assert s[0] == '\\' && s[1..][0] == e[1] && s[1..][1..] == u + rest;
      assert Cells(s, cell, true, false) == Cells(s[1..], cell + "\\", true, true);
      assert Cells(s[1..], cell + "\\", true, true) == Cells(u + rest, cell + "\\" + [e[1]], true, false);
      InsideRuns(u, cell + "\\" + [e[1]], rest);
      assert cell + "\\" + [e[1]] + u == cell + e;
    }
  }

  lemma {:induction false} EscapeRuns(s: string, cell: string, rest: string)
    ensures Cells(JsonText.Escape(s) + rest, cell, true, false)
         == Cells(rest, cell + JsonText.Escape(s), true, false)
    decreases |s|
  {
    hide Cells, JsonText.EscapeChar;
    if s == "" {
      assert "" + rest == rest && cell + "" == cell;
    } else {
      var e, m := JsonText.EscapeChar(s[0]), JsonText.Escape(s[1..]);
      assert JsonText.Escape(s) + rest == e + (m + rest);
      EscapeCharRuns(s[0], cell, m + rest);
      EscapeRuns(s[1..], cell + e, rest);
      assert cell + e + m == cell + (e + m);
    }
  }

  lemma CellRuns(t: string, rest: string)
    requires IsCell(t)
    ensures Cells(t + rest, "", false, false) == Cells(rest, t, false, false)
  {
    if IsWord(t) {
      WordRuns(t, "", rest);
      assert "" + t == t;
    } else {
      var s :| t == JsonText.Quote(s);
      var e := JsonText.Escape(s);
      TokenRuns(e, rest) by { EscapeRuns(s, "\"", "\"" + rest); }
    }
  }

  lemma QuoteMarkRuns(cell: string, inQuote: bool, rest: string)
    ensures Cells("\"" + rest, cell, inQuote, false) == Cells(rest, cell + "\"", !inQuote, false)
  {
    var s := "\"" + rest;
    assert s[0] == '"' && s[1..] == rest && cell + ['"'] == cell + "\"";
  }

  lemma TokenRuns(e: string, rest: string)
    requires Cells(e + ("\"" + rest), "\"", true, false) == Cells("\"" + rest, "\"" + e, true, false)
    ensures Cells("\"" + e + "\"" + rest, "", false, false) == Cells(rest, "\"" + e + "\"", false, false)
  {
    hide Cells;
    assert "\"" + e + "\"" + rest == "\"" + (e + ("\"" + rest)) && "" + "\"" == "\"";
    QuoteMarkRuns("", false, e + ("\"" + rest));
    QuoteMarkRuns("\"" + e, true, rest);
  }

  /** Joined cells split into the same cells, whatever delimiters their quotes hide. */
  lemma {:induction false} CellsRoundTrip(cells: seq<string>)
    requires cells != [] && forall t | t in cells :: IsCell(t)
    ensures SplitCells(Join(cells, ',')) == Some(cells)
    decreases |cells|
  {
    hide IsCell;
    var s, t := Join(cells, ','), cells[0];
    assert IsCell(t);
    if |cells| == 1 {
      CellRuns(t, "");
      assert t + "" == t && cells == [t];
    } else {
      var more := Join(cells[1..], ',');
      assert s == t + ("," + more);
      CellRuns(t, "," + more);
      assert ("," + more)[0] == ',' && ("," + more)[1..] == more;
      CellsRoundTrip(cells[1..]);
      assert cells == [t] + cells[1..];
    }
  }

  ghost predicate IsDataOf(data: seq<Json>, items: seq<Value>) {
    |data| == |items| && forall k | 0 <= k < |data| :: data[k] == Data(items[k])
  }

  /** Scalars become cells that read back as their data, item by item. */
  lemma {:induction false} ScalarsRoundTrip(items: seq<Value>)
    requires EncodeCells(items).Some? && forall v | v in items :: HasJsonNumber(v)
    ensures var cells := EncodeCells(items).value;
            ReadScalars(cells).Some? && IsDataOf(ReadScalars(cells).value, items) &&
            forall t | t in cells :: IsCell(t) && '\n' !in t
    decreases |items|
  {
    hide EncodeScalar, ReadScalar, IsCell, HasJsonNumber, Data;
    if items != [] {
      ScalarRoundTrip(items[0]);
      ScalarsRoundTrip(items[1..]);
      var cells := EncodeCells(items).value;
      assert cells[0] == EncodeScalar(items[0]).value && cells[1..] == EncodeCells(items[1..]).value;
    }
  }

  /** The line break never occurs in joined text, and a joined row starts as its first cell does. */
  lemma {:induction false} JoinChars(parts: seq<string>, sep: char, c: char)
    requires c != sep && forall t | t in parts :: c !in t
    ensures c !in Join(parts, sep)
    ensures parts != [] && parts[0] != "" ==> Join(parts, sep) != "" && Join(parts, sep)[0] == parts[0][0]
    decreases |parts|
  {
    if |parts| > 1 { JoinChars(parts[1..], sep, c); }
  }
}
