/**
 What a TOON text says, as a grammar: which lines, cells and scalars make up which data, with nothing about how a reader
 goes over them. The reader accepts exactly the texts of this grammar.
 */
module ToonGrammar {
  import opened GoText
  import opened ToonText
  import opened ToonReader
  import opened ToonShapes
  import opened ToonLines
  import JsonText

  /* ---- Lines ---- */

  /** `name[digits]` and what follows. */
  predicate IsHead(s: string, name: string, digits: string, tail: string) {
    IsName(name) && IsDecimal(digits) && s == name + "[" + digits + "]" + tail
  }

  /** `name[n]{column,column}:` */
  ghost predicate IsTableLine(s: string, name: string, n: nat, columns: seq<string>) {
    columns != [] && (forall c | c in columns :: IsSafeKey(c)) && Distinct(columns) &&
    exists digits :: IsHead(s, name, digits, "{" + Join(columns, ',') + "}:") && DecimalValue(digits) == n
  }

  /** `name[n]: rest`, or without the space when nothing follows. */
  ghost predicate IsListLine(s: string, name: string, n: nat, rest: string) {
    exists digits :: DecimalIs(digits, n) &&
      (IsHead(s, name, digits, ": " + rest) || (rest == "" && IsHead(s, name, digits, ":")))
  }

  predicate DecimalIs(digits: string, n: nat) {
    IsDecimal(digits) && DecimalValue(digits) == n
  }

  /** `name: rest`, or without the space when nothing follows. */
  predicate IsKeyLine(s: string, name: string, rest: string) {
    IsSafeKey(name) && (s == name + ": " + rest || (rest == "" && s == name + ":"))
  }

  function NameOf(s: string): string {
    s[..KeyEnd(s)]
  }

  lemma AroundCount(s: string, name: string, digits: string, tail: string)
    requires IsHead(s, name, digits, tail)
    ensures |s| == |name| + |digits| + 2 + |tail| && s[..|name|] == name && s[|name| + 1 + |digits| + 1..] == tail
  {
    hide IsName, IsDecimal;
  }

  lemma CountIs(s: string, k: nat, d: nat, digits: string)
    requires KeyEnd(s) == k && CountEnd(s) == Some(d) && k < d <= |s| && s[k + 1..d] == digits && IsDecimal(digits)
    ensures Count(s) == DecimalValue(digits)
  {
    hide KeyEnd, CountEnd, DecimalValue;
  }

  lemma CountAtOf(s: string, name: string, digits: string, tail: string)
    requires IsHead(s, name, digits, tail)
    ensures IsDecimal(digits) && KeyEnd(s) == |name| && CountEnd(s) == Some(|name| + 1 + |digits|)
    ensures |name| + 1 + |digits| < |s| && s[|name| + 1..|name| + 1 + |digits|] == digits
  {
    hide KeyEnd, CountEnd, IsName, IsDecimal;
    CountAt(name, digits, tail);
  }

  lemma HeadReads(s: string, name: string, digits: string, tail: string)
    requires IsHead(s, name, digits, tail)
    ensures NameOf(s) == name && CountEnd(s) == Some(|name| + 1 + |digits|) && CountEnd(s).value < |s|
    ensures IsDecimal(digits) && Count(s) == DecimalValue(digits) && s[CountEnd(s).value + 1..] == tail
  {
    hide KeyEnd, CountEnd, DecimalValue, IsName, Count, IsHead;
    CountAtOf(s, name, digits, tail);
    AroundCount(s, name, digits, tail);
    CountIs(s, |name|, |name| + 1 + |digits|, digits);
  }

  lemma HeadHas(s: string)
    requires CountEnd(s).Some?
    ensures IsHead(s, NameOf(s), s[KeyEnd(s) + 1..CountEnd(s).value], s[CountEnd(s).value + 1..])
  {
    var k := KeyEnd(s);
    JsonText.DigitsEndRun(s, k + 1);
    var d := CountEnd(s).value;
    hide KeyEnd, CountEnd, IsSafeKey;
    Brackets(s, k, d);
  }

  lemma Brackets(s: string, k: nat, d: nat)
    requires k < d < |s| && s[k] == '[' && s[d] == ']'
    ensures s == s[..k] + "[" + s[k + 1..d] + "]" + s[d + 1..]
  {
    var start, digits, tail := s[..k], s[k + 1..d], s[d + 1..];
    assert start + "[" == s[..k + 1];
    assert s[..k + 1] + digits == s[..d];
    assert s[..d] + "]" == s[..d + 1];
    assert s[..d + 1] + tail == s;
  }

  lemma NoBrace(columns: seq<string>)
    requires forall c | c in columns :: IsSafeKey(c)
    ensures '}' !in Join(columns, ',')
  {
    JoinedNames(columns);
  }

  lemma TableReads(s: string, name: string, n: nat, columns: seq<string>)
    requires IsTableLine(s, name, n, columns)
    ensures TableFields(s).Some? && SplitFields(TableFields(s).value) == columns
    ensures NameOf(s) == name && Count(s) == n
  {
    hide KeyEnd, CountEnd, IsSafeKey, Join, SplitFields, DecimalValue, Count, Distinct, NameOf;
    var joined := Join(columns, ',');
    var digits :| IsHead(s, name, digits, "{" + joined + "}:") && DecimalValue(digits) == n;
    HeadReads(s, name, digits, "{" + joined + "}:");
    NoBrace(columns);
    FieldsSplit(columns);
    TailReads(s, CountEnd(s).value, joined);
  }

  lemma TailReads(s: string, d: nat, fields: string)
    requires d < |s| && s[d + 1..] == "{" + fields + "}:"
    ensures d + 4 <= |s| && s[d + 1] == '{' && s[|s| - 2..] == "}:" && s[d + 2..|s| - 2] == fields
  {
    var tail := "{" + fields + "}:";
    assert |s| == d + 1 + |tail| && forall k | 0 <= k < |tail| :: s[d + 1 + k] == tail[k];
  }

  lemma TableHas(s: string)
    requires TableFields(s).Some? && SplitFields(TableFields(s).value) != []
    ensures CountEnd(s).Some? && IsTableLine(s, NameOf(s), Count(s), SplitFields(TableFields(s).value))
  {
    var fields := TableFields(s).value;
    var columns := SplitFields(fields);
    HeadHas(s);
    ElisionJoin(fields);
    var d := CountEnd(s).value;
    hide KeyEnd, CountEnd, IsSafeKey, Join, Split, DecimalValue;
    assert s[d + 1..] == "{" + fields + "}:" by {
      assert s[d + 1..] == [s[d + 1]] + s[d + 2..|s| - 2] + s[|s| - 2..];
    }
  }

  lemma {:induction false} SplitJoins(s: string, sep: char)
    ensures Join(Split(s, sep), sep) == s
    decreases |s|
  {
    var i := IndexFrom(s, sep, 0);
    if i < |s| {
      var rest := s[i + 1..];
      SplitJoins(rest, sep);
      assert Split(s, sep)[1..] == Split(rest, sep);
      assert s == s[..i] + [sep] + rest;
    }
  }

  lemma ElisionJoin(fields: string)
    ensures Join(Split(fields, ','), ',') == fields
  {
    SplitJoins(fields, ',');
  }

  lemma ListTail(s: string, name: string, digits: string, tail: string, rest: string)
    requires IsHead(s, name, digits, tail) && (tail == ": " + rest || (tail == ":" && rest == ""))
    ensures TableFields(s).None? && ListCells(s) == Some(rest) && NameOf(s) == name && IsDecimal(digits)
    ensures CountEnd(s).Some? && Count(s) == DecimalValue(digits)
  {
    hide KeyEnd, CountEnd, DecimalValue, IsHead, Count, NameOf, AfterColon;
    HeadReads(s, name, digits, tail);
    ColonReads(s, CountEnd(s).value, tail, rest);
  }

  lemma ListReads(s: string, name: string, n: nat, rest: string)
    requires IsListLine(s, name, n, rest)
    ensures TableFields(s).None? && ListCells(s) == Some(rest) && NameOf(s) == name
    ensures CountEnd(s).Some? && Count(s) == n
  {
    hide KeyEnd, CountEnd, DecimalValue, IsHead, Count, NameOf, TableFields, ListCells;
    var digits :| DecimalIs(digits, n) &&
      (IsHead(s, name, digits, ": " + rest) || (rest == "" && IsHead(s, name, digits, ":")));
    ListTail(s, name, digits, if IsHead(s, name, digits, ": " + rest) then ": " + rest else ":", rest);
  }

  lemma ColonReads(s: string, d: nat, tail: string, rest: string)
    requires d < |s| && s[d + 1..] == tail && (tail == ": " + rest || (tail == ":" && rest == ""))
    ensures d + 1 < |s| && s[d + 1] == ':' && AfterColon(s, d + 1) == Some(rest)
  {
    assert s[d + 1] == tail[0];
    if tail == ": " + rest { assert s[d + 2] == tail[1] && s[d + 3..] == tail[2..] == rest; }
  }

  lemma ListHas(s: string)
    requires ListCells(s).Some?
    ensures CountEnd(s).Some? && IsListLine(s, NameOf(s), Count(s), ListCells(s).value)
  {
    HeadHas(s);
    var d, rest := CountEnd(s).value, ListCells(s).value;
    var digits := s[KeyEnd(s) + 1..d];
    hide KeyEnd, CountEnd, IsSafeKey, DecimalValue;
    assert DecimalIs(digits, Count(s));
    if d + 2 == |s| { assert s[d + 1..] == ":"; } else { assert s[d + 1..] == ": " + rest; }
  }

  lemma KeyReads(s: string, name: string, rest: string)
    requires IsKeyLine(s, name, rest)
    ensures TableFields(s).None? && ListCells(s).None? && KeyedRest(s) == Some(rest) && NameOf(s) == name
  {
    if s == name + ": " + rest { KeyedReads(name, rest); } else { KeyAloneReads(name); }
  }

  lemma KeyHas(s: string)
    requires KeyedRest(s).Some?
    ensures IsKeyLine(s, NameOf(s), KeyedRest(s).value)
  {
    var k := KeyEnd(s);
    hide KeyEnd, IsSafeKey;
    if k + 1 == |s| { assert s == s[..k] + ":"; } else { assert s == s[..k] + ": " + s[k + 2..]; }
  }

  /* ---- Cells ---- */

  datatype Quoting = Outside | Inside | Escaped

  /** Where the end of a text stands with respect to quotes. */
  function QuotingAfter(s: string): Quoting {
    if s == "" then Outside
    else
      var before, c := QuotingAfter(s[..|s| - 1]), s[|s| - 1];
      if before.Escaped? then Inside
      else if before.Inside? && c == '\\' then Escaped
      else if c == '"' then (if before.Inside? then Outside else Inside)
      else before
  }

  /** Quotes are closed, and commas stand inside them. */
  predicate IsCellText(s: string) {
    QuotingAfter(s).Outside? && forall k | 0 <= k < |s| :: s[k] == ',' ==> !QuotingAfter(s[..k]).Outside?
  }

  /** A row is its cells with commas between them. */
  predicate AreCells(s: string, cells: seq<string>) {
    cells != [] && s == Join(cells, ',') && forall c | c in cells :: IsCellText(c)
  }

  function ModeOf(q: Quoting): (bool, bool) {
    (!q.Outside?, q.Escaped?)
  }

  lemma QuotingNext(cell: string, c: char)
    ensures QuotingAfter(cell + [c]) ==
            var before := QuotingAfter(cell);
            if before.Escaped? then Inside
            else if before.Inside? && c == '\\' then Escaped
            else if c == '"' then (if before.Inside? then Outside else Inside)
            else before
  {
    assert (cell + [c])[..|cell|] == cell;
  }

  /** Commas of the text so far stand inside quotes. */
  predicate CommasInside(s: string) {
    forall k | 0 <= k < |s| :: s[k] == ',' ==> !QuotingAfter(s[..k]).Outside?
  }

  lemma CommasNext(cell: string, c: char)
    ensures CommasInside(cell + [c]) <==> CommasInside(cell) && (c == ',' ==> !QuotingAfter(cell).Outside?)
  {
    hide QuotingAfter;
    var next := cell + [c];
    assert next[..|cell|] == cell && next[|cell|] == c;
    assert forall k | 0 <= k < |cell| :: next[..k] == cell[..k] && next[k] == cell[k];
  }

  /** The rest of a row, behind what the current cell holds so far. */
  lemma {:induction false} CellsAre(s: string, cell: string)
    requires CommasInside(cell)
    ensures var mode := ModeOf(QuotingAfter(cell));
            var r := Cells(s, cell, mode.0, mode.1); r.Some? ==> AreCells(cell + s, r.value)
    decreases |s|
  {
    hide QuotingAfter;
    if s == "" {
      assert cell + "" == cell;
    } else {
      var c, rest, next := s[0], s[1..], cell + [s[0]];
      QuotingNext(cell, c);
      CommasNext(cell, c);
      assert next + rest == cell + s;
      if c == ',' && QuotingAfter(cell).Outside? {
        NothingQuoted();
        CellsAre(rest, "");
        assert "" + rest == rest;
        assert cell + s == cell + [','] + rest;
        var more := Cells(rest, "", false, false);
        if more.Some? { FirstCell(cell, rest, more.value); }
      } else {
        CellsAre(rest, next);
      }
    }
  }

  lemma NothingQuoted()
    ensures QuotingAfter("") == Outside && CommasInside("")
  {
  }

  lemma FirstCell(cell: string, rest: string, more: seq<string>)
    requires AreCells(rest, more) && IsCellText(cell)
    ensures AreCells(cell + [','] + rest, [cell] + more)
  {
    hide IsCellText;
    assert ([cell] + more)[1..] == more;
  }

  /** The characters of a cell from `k` on only add to it. */
  lemma {:induction false} CellRuns(cell: string, k: nat, tail: string)
    requires CommasInside(cell) && k <= |cell|
    ensures var from, to := ModeOf(QuotingAfter(cell[..k])), ModeOf(QuotingAfter(cell));
            Cells(cell[k..] + tail, cell[..k], from.0, from.1) == Cells(tail, cell, to.0, to.1)
    decreases |cell| - k
  {
    hide QuotingAfter;
    if k == |cell| {
      assert cell[..k] == cell && cell[k..] + tail == tail;
    } else {
      var s := cell[k..] + tail;
      assert s[0] == cell[k] && s[1..] == cell[k + 1..] + tail && cell[..k + 1] == cell[..k] + [cell[k]];
      QuotingNext(cell[..k], cell[k]);
      CellRuns(cell, k + 1, tail);
    }
  }

  lemma {:induction false} CellsSplit(s: string, cells: seq<string>)
    requires AreCells(s, cells)
    ensures SplitCells(s) == Some(cells)
    decreases |cells|
  {
    hide QuotingAfter;
    NothingQuoted();
    var cell := cells[0];
    assert IsCellText(cell) && CommasInside(cell);
    if |cells| == 1 {
      CellRuns(cell, 0, "");
      assert cell[0..] + "" == s && cell[..0] == "" && cells == [cell];
    } else {
      var more := Join(cells[1..], ',');
      var tail := [','] + more;
      CellRuns(cell, 0, tail);
      assert cell[0..] + tail == s && cell[..0] == "" && tail[0] == ',' && tail[1..] == more;
      assert AreCells(more, cells[1..]);
      CellsSplit(more, cells[1..]);
      assert cells == [cell] + cells[1..];
    }
  }

  /** A row splits into these cells exactly when it is these cells with commas between them. */
  lemma CellsExactly(s: string, cells: seq<string>)
    ensures SplitCells(s) == Some(cells) <==> AreCells(s, cells)
  {
    hide QuotingAfter, Cells, AreCells;
    NothingQuoted();
    CellsAre(s, "");
    assert "" + s == s;
    if AreCells(s, cells) { CellsSplit(s, cells); }
  }

  /* ---- Scalars ---- */

  predicate IsJsonSpace(s: string) {
    forall k | 0 <= k < |s| :: JsonText.IsSpace(s[k])
  }

  /** A JSON number, with JSON white space around it. */
  ghost predicate IsNumberText(s: string) {
    exists before, literal, after ::
      s == before + literal + after && IsJsonSpace(before) && IsJsonSpace(after) && JsonText.IsNumber(literal)
  }

  /** A JSON string with JSON white space behind it. */
  ghost predicate IsQuoted(s: string, x: string) {
    exists token, after ::
      s == token + after && IsJsonSpace(after) && JsonText.IsStringToken(token) &&
      JsonText.Unescape(token[1..|token| - 1]) == x
  }

  /** A text that stands for itself. */
  ghost predicate IsBare(s: string) {
    s != "" && s[0] != '"' && s !in ["true", "false", "null"] && !IsNumberText(s) && IsTrimmed(s) &&
    '\n' !in s && '\r' !in s && '\t' !in s
  }

  ghost predicate ScalarSays(s: string, j: Json) {
    match j
    case JNull => s == "null"
    case JBool(b) => s == if b then "true" else "false"
    case JNumber(literal) => s == literal && IsNumberText(s)
    case JString(x) => IsQuoted(s, x) || (s == x && IsBare(s))
    case _ => false
  }

  lemma {:induction false} LeftTrims(s: string) returns (before: string)
    ensures s == before + TrimJsonLeft(s) && IsJsonSpace(before)
    ensures TrimJsonLeft(s) != "" ==> !JsonText.IsSpace(TrimJsonLeft(s)[0])
    decreases |s|
  {
    before := "";
    if s != "" && JsonText.IsSpace(s[0]) {
      var more := LeftTrims(s[1..]);
      before := [s[0]] + more;
    }
  }

  lemma {:induction false} RightTrims(s: string) returns (after: string)
    ensures s == TrimJsonRight(s) + after && IsJsonSpace(after)
    ensures TrimJsonRight(s) != "" ==> !JsonText.IsSpace(TrimJsonRight(s)[|TrimJsonRight(s)| - 1])
    decreases |s|
  {
    after := "";
    if s != "" && JsonText.IsSpace(s[|s| - 1]) {
      var more := RightTrims(s[..|s| - 1]);
      after := more + [s[|s| - 1]];
    }
  }

  lemma {:induction false} LeftOff(before: string, s: string)
    requires IsJsonSpace(before) && s != "" && !JsonText.IsSpace(s[0])
    ensures TrimJsonLeft(before + s) == s
    decreases |before|
  {
    if before == "" {
      assert before + s == s;
    } else {
      assert (before + s)[0] == before[0] && (before + s)[1..] == before[1..] + s;
      LeftOff(before[1..], s);
    }
  }

  lemma {:induction false} RightOff(s: string, after: string)
    requires IsJsonSpace(after) && s != "" && !JsonText.IsSpace(s[|s| - 1])
    ensures TrimJsonRight(s + after) == s
    decreases |after|
  {
    var n := |after| - 1;
    if after == "" {
      assert s + after == s;
    } else {
      assert (s + after)[|s + after| - 1] == after[n] && (s + after)[..|s + after| - 1] == s + after[..n];
      RightOff(s, after[..n]);
    }
  }

  lemma NumberEnds(s: string)
    requires JsonText.IsNumber(s)
    ensures s != "" && !JsonText.IsSpace(s[0]) && !JsonText.IsSpace(s[|s| - 1]) && s[0] != '"'
    ensures s !in ["true", "false", "null"]
  {
    JsonText.NumberChars(s);
    assert s != "";
    assert JsonText.IsNumberChar(s[0]) && JsonText.IsNumberChar(s[|s| - 1]);
  }

  lemma NumberExactly(s: string)
    ensures ReadsAsNumber(s) <==> IsNumberText(s)
  {
    hide JsonText.IsNumber, JsonText.IsSpace, TrimJsonLeft, TrimJsonRight;
    if ReadsAsNumber(s) {
      var before := LeftTrims(s);
      var left := TrimJsonLeft(s);
      var after := RightTrims(left);
      assert s == before + TrimJsonRight(left) + after;
    }
    if before, literal, after :|
      s == before + literal + after && IsJsonSpace(before) && IsJsonSpace(after) && JsonText.IsNumber(literal)
    {
      NumberEnds(literal);
      LeftOff(before, literal + after);
      assert s == before + (literal + after);
      RightOff(literal, after);
    }
  }

  lemma QuotedExactly(s: string)
    requires s != "" && s[0] == '"'
    ensures var token := TrimJsonRight(s);
            (JsonText.IsStringToken(token) <==> exists x :: IsQuoted(s, x)) &&
            forall x | IsQuoted(s, x) :: JsonText.IsStringToken(token) && JsonText.Unescape(token[1..|token| - 1]) == x
  {
    hide JsonText.IsStringBody, JsonText.Unescape, TrimJsonRight, JsonText.IsSpace;
    var after := RightTrims(s);
    if JsonText.IsStringToken(TrimJsonRight(s)) {
      var token := TrimJsonRight(s);
      assert IsQuoted(s, JsonText.Unescape(token[1..|token| - 1]));
    }
    forall x | IsQuoted(s, x)
      ensures JsonText.IsStringToken(TrimJsonRight(s))
      ensures JsonText.Unescape(TrimJsonRight(s)[1..|TrimJsonRight(s)| - 1]) == x
    {
      var token, ws :| s == token + ws && IsJsonSpace(ws) && JsonText.IsStringToken(token) &&
        JsonText.Unescape(token[1..|token| - 1]) == x;
      QuoteIsNoSpace();
      RightOff(token, ws);
    }
  }

  lemma QuoteIsNoSpace()
    ensures !JsonText.IsSpace('"')
  {
  }

  lemma NumberIsNothingElse(s: string)
    requires IsNumberText(s)
    ensures s != "" && s[0] != '"' && s !in ["true", "false", "null"]
  {
    var before, literal, after :|
      s == before + literal + after && IsJsonSpace(before) && IsJsonSpace(after) && JsonText.IsNumber(literal);
    NumberEnds(literal);
    if before == "" && after == "" {
      assert s == literal;
    } else if before != "" {
      assert s[0] == before[0];
    } else {
      assert s[0] == literal[0] && s[|s| - 1] == after[|after| - 1];
    }
  }

  lemma QuotedStarts(s: string, x: string)
    requires IsQuoted(s, x)
    ensures s != "" && s[0] == '"'
  {
  }

  /** A scalar reads as what it says. */
  lemma ScalarExactly(s: string, j: Json)
    ensures ReadScalar(s) == Some(j) <==> ScalarSays(s, j)
  {
    hide JsonText.IsStringToken, JsonText.Unescape, TrimJsonRight, ReadsAsNumber, IsNumberText, IsTrimmed;
    NumberExactly(s);
    if IsNumberText(s) { NumberIsNothingElse(s); }
    if s != "" && s[0] == '"' { QuotedExactly(s); }
    if j.JString? && IsQuoted(s, j.s) { QuotedStarts(s, j.s); }
  }

  /* ---- Rows and arrays ---- */

  ghost predicate AreScalars(cells: seq<string>, values: seq<Json>) {
    |cells| == |values| && forall k | 0 <= k < |cells| :: ScalarSays(cells[k], values[k])
  }

  lemma {:induction false} ScalarsExactly(cells: seq<string>, values: seq<Json>)
    ensures ReadScalars(cells) == Some(values) <==> AreScalars(cells, values)
    decreases |cells|
  {
    hide ReadScalar, ScalarSays;
    if cells != [] && values != [] {
      ScalarExactly(cells[0], values[0]);
      ScalarsExactly(cells[1..], values[1..]);
      assert values == [values[0]] + values[1..];
      assert AreScalars(cells, values) <==> ScalarSays(cells[0], values[0]) && AreScalars(cells[1..], values[1..]) by {
        if ScalarSays(cells[0], values[0]) && AreScalars(cells[1..], values[1..]) {
          forall k | 0 <= k < |cells| ensures ScalarSays(cells[k], values[k]) {
            if k > 0 { assert ScalarSays(cells[1..][k - 1], values[1..][k - 1]); }
          }
        }
        if AreScalars(cells, values) {
          forall k | 0 <= k < |cells| - 1 ensures ScalarSays(cells[1..][k], values[1..][k]) {
            assert ScalarSays(cells[k + 1], values[k + 1]);
          }
        }
      }
    }
  }

  ghost predicate IsRow(columns: seq<string>, values: seq<Json>, m: map<string, Json>) {
    |columns| == |values| && (forall c :: c in m <==> c in columns) &&
    forall k | 0 <= k < |columns| :: columns[k] in m && m[columns[k]] == values[k]
  }

  lemma {:induction false} RowDataIsRow(columns: seq<string>, values: seq<Json>)
    requires |columns| == |values| && Distinct(columns)
    ensures IsRow(columns, values, RowData(columns, values))
    decreases |columns|
  {
    if columns != [] {
      RowDataIsRow(columns[1..], values[1..]);
      var m := RowData(columns, values);
      forall k | 0 <= k < |columns| ensures columns[k] in m && m[columns[k]] == values[k] {
        if k > 0 { assert columns[1..][k - 1] == columns[k]; } else { assert columns[0] !in columns[1..]; }
      }
    }
  }

  lemma OneRow(columns: seq<string>, values: seq<Json>, a: map<string, Json>, b: map<string, Json>)
    requires IsRow(columns, values, a) && IsRow(columns, values, b)
    ensures a == b
  {
    forall c | c in a ensures c in b && a[c] == b[c] {
      var k :| 0 <= k < |columns| && columns[k] == c;
    }
    forall c | c in b ensures c in a {}
  }

  /** A row of a table: one cell for each column, and the object they make. */
  ghost predicate RowSays(text: string, columns: seq<string>, row: Json) {
    exists cells, values ::
      AreCells(text, cells) && AreScalars(cells, values) && row.JObject? && IsRow(columns, values, row.fields)
  }

  lemma RowExactly(text: string, columns: seq<string>, row: Json)
    requires Distinct(columns)
    ensures ReadRow(text, columns) == Some(row) <==> RowSays(text, columns, row)
  {
    hide SplitCells, ReadScalars, AreCells, AreScalars, IsRow, RowData, Distinct;
    if cells, values :|
      AreCells(text, cells) && AreScalars(cells, values) && row.JObject? && IsRow(columns, values, row.fields)
    {
      CellsExactly(text, cells);
      ScalarsExactly(cells, values);
      RowSizes(columns, values, row.fields);
      RowDataIsRow(columns, values);
      OneRow(columns, values, row.fields, RowData(columns, values));
    }
    if ReadRow(text, columns) == Some(row) {
      var cells := SplitCells(text).value;
      var values := ReadScalars(cells).value;
      CellsExactly(text, cells);
      ScalarsExactly(cells, values);
      RowDataIsRow(columns, values);
    }
  }

  lemma RowSizes(columns: seq<string>, values: seq<Json>, m: map<string, Json>)
    requires IsRow(columns, values, m)
    ensures |columns| == |values|
  {
  }

  ghost predicate IsRowLine(line: Line, indent: nat, columns: seq<string>, row: Json) {
    line.indent == indent + 1 && RowSays(line.text, columns, row)
  }

  /** The lines from `i` on are the rows of the table, one step further in. */
  ghost predicate AreRows(lines: seq<Line>, i: nat, indent: nat, columns: seq<string>, rows: seq<Json>) {
    i + |rows| <= |lines| && forall r | 0 <= r < |rows| :: IsRowLine(lines[i + r], indent, columns, rows[r])
  }

  lemma {:induction false} RowsExactly(lines: seq<Line>, i: nat, n: nat, indent: nat, columns: seq<string>,
                                       rows: seq<Json>, k: nat)
    requires i <= |lines| && Distinct(columns)
    ensures ReadRows(lines, i, n, indent, columns) == Got(rows, k) <==>
            |rows| == n && k == i + n && AreRows(lines, i, indent, columns, rows)
    decreases n
  {
    hide ReadRow, RowSays, Distinct;
    if n > 0 && rows != [] && i < |lines| {
      RowExactly(lines[i].text, columns, rows[0]);
      RowsExactly(lines, i + 1, n - 1, indent, columns, rows[1..], k);
      assert rows == [rows[0]] + rows[1..];
      RowsNext(lines, i, indent, columns, rows);
    }
  }

  lemma RowsNext(lines: seq<Line>, i: nat, indent: nat, columns: seq<string>, rows: seq<Json>)
    requires i < |lines| && rows != []
    ensures AreRows(lines, i, indent, columns, rows) <==>
            (IsRowLine(lines[i], indent, columns, rows[0]) && AreRows(lines, i + 1, indent, columns, rows[1..]))
  {
    hide IsRowLine;
    if IsRowLine(lines[i], indent, columns, rows[0]) && AreRows(lines, i + 1, indent, columns, rows[1..]) {
      forall r | 0 <= r < |rows| ensures IsRowLine(lines[i + r], indent, columns, rows[r]) {
        if r > 0 { assert IsRowLine(lines[i + 1 + (r - 1)], indent, columns, rows[1..][r - 1]); }
      }
    }
    if AreRows(lines, i, indent, columns, rows) {
      forall r | 0 <= r < |rows| - 1 ensures IsRowLine(lines[i + 1 + r], indent, columns, rows[1..][r]) {
        assert IsRowLine(lines[i + (r + 1)], indent, columns, rows[r + 1]);
      }
    }
  }

  /** The cells of a list, or `[]` when it is empty. */
  ghost predicate ListSays(rest: string, n: nat, items: seq<Json>) {
    |items| == n &&
    if n == 0 then rest == "[]" else exists cells :: AreCells(rest, cells) && AreScalars(cells, items)
  }

  lemma ListExactly(rest: string, n: nat, items: seq<Json>)
    ensures ReadList(rest, n) == Some(items) <==> ListSays(rest, n, items)
  {
    hide SplitCells, ReadScalars, AreCells, ScalarSays;
    if n > 0 {
      if cells :| AreCells(rest, cells) && AreScalars(cells, items) {
        CellsExactly(rest, cells);
        ScalarsExactly(cells, items);
      }
      if ReadList(rest, n) == Some(items) {
        CellsExactly(rest, SplitCells(rest).value);
        ScalarsExactly(SplitCells(rest).value, items);
      }
    }
  }

  /** An array from line `i` to line `k`: as many rows behind a table header as it says, or one line of scalars. */
  ghost predicate ArraySays(lines: seq<Line>, i: nat, k: nat, indent: nat, name: string, items: seq<Json>)
    requires i < |lines|
  {
    (exists columns :: IsTableLine(lines[i].text, name, |items|, columns) && k == i + 1 + |items| &&
       AreRows(lines, i + 1, indent, columns, items)) ||
    exists rest :: IsListLine(lines[i].text, name, |items|, rest) && k == i + 1 && ListSays(rest, |items|, items)
  }

  lemma ArrayExactly(lines: seq<Line>, i: nat, k: nat, indent: nat, name: string, items: seq<Json>)
    requires i < |lines|
    ensures (ReadArray(lines, i, indent) == Got(items, k) && NameOf(lines[i].text) == name) <==>
            ArraySays(lines, i, k, indent, name, items)
    ensures ArraySays(lines, i, k, indent, name, items) ==> i < k <= |lines|
  {
    hide TableFields, SplitFields, ListCells, Count, ReadRows, ReadList, ListSays, IsTableLine, IsListLine, NameOf;
    var text := lines[i].text;
    if columns :|
      IsTableLine(text, name, |items|, columns) && k == i + 1 + |items| && AreRows(lines, i + 1, indent, columns, items)
    {
      TableReads(text, name, |items|, columns);
      TableColumns(text, name, |items|, columns);
      RowsExactly(lines, i + 1, |items|, indent, columns, items, k);
    }
    if rest :| IsListLine(text, name, |items|, rest) && k == i + 1 && ListSays(rest, |items|, items) {
      ListReads(text, name, |items|, rest);
      ListExactly(rest, |items|, items);
    }
    if ReadArray(lines, i, indent) == Got(items, k) && NameOf(text) == name {
      if TableFields(text).Some? {
        var columns := SplitFields(TableFields(text).value);
        TableHas(text);
        TableColumns(text, name, Count(text), columns);
        RowsExactly(lines, i + 1, Count(text), indent, columns, items, k);
      } else {
        ListHas(text);
        ListExactly(ListCells(text).value, Count(text), items);
        ListSize(ListCells(text).value, Count(text), items);
      }
    }
  }

  lemma ListSize(rest: string, n: nat, items: seq<Json>)
    requires ListSays(rest, n, items)
    ensures |items| == n
  {
  }

  lemma TableColumns(text: string, name: string, n: nat, columns: seq<string>)
    requires IsTableLine(text, name, n, columns)
    ensures Distinct(columns) && columns != []
  {
  }

  /* ---- Fields and blocks ---- */

  /** A field on the lines from `i` to `k`: an array, a scalar or an empty object on one line, or a block further in. */
  ghost predicate FieldSays(lines: seq<Line>, i: nat, k: nat, indent: nat, name: string, v: Json)
    requires i < k <= |lines|
    decreases k - i, 0
  {
    name != "" &&
    ((v.JArray? && ArraySays(lines, i, k, indent, name, v.items)) ||
     exists rest :: IsKeyLine(lines[i].text, name, rest) &&
       if rest == "{}" then k == i + 1 && v == JObject(map[])
       else if rest == "" then
         i + 1 < k && lines[i + 1].indent == indent + 1 && v.JObject? &&
         BlockSays(lines, i + 1, k, indent + 1, v.fields)
       else k == i + 1 && ScalarSays(rest, v))
  }

  /** The fields on the lines from `i` to `k`, each with a name of its own, and nothing more after them. */
  ghost predicate BlockSays(lines: seq<Line>, i: nat, k: nat, indent: nat, m: map<string, Json>)
    requires i <= k <= |lines|
    decreases k - i, 1
  {
    if i == k then m == map[] && (k == |lines| || lines[k].indent < indent)
    else
      lines[i].indent == indent &&
      exists j: nat, name, v, rest :: i < j <= k && FieldSays(lines, i, j, indent, name, v) &&
        BlockSays(lines, j, k, indent, rest) && name !in rest && m == rest[name := v]
  }

  lemma NameIsKey(text: string)
    ensures NameOf(text) != "" <==> KeyEnd(text) != 0
  {
    hide KeyEnd;
  }

  /** A field that is read is a field. */
  lemma {:induction false} FieldHas(lines: seq<Line>, i: nat, indent: nat)
    requires i < |lines| && ReadField(lines, i, indent).Got?
    ensures var r := ReadField(lines, i, indent);
            i < r.next <= |lines| && FieldSays(lines, i, r.next, indent, NameOf(lines[i].text), r.value)
    decreases |lines| - i, 0
  {
    hide TableFields, ListCells, KeyedRest, ReadArray, ReadScalar, ScalarSays, ArraySays, IsKeyLine, NameOf;
    var text, r := lines[i].text, ReadField(lines, i, indent);
    NameIsKey(text);
    if TableFields(text).Some? || ListCells(text).Some? {
      ArrayExactly(lines, i, r.next, indent, NameOf(text), r.value.items);
    } else {
      var rest := KeyedRest(text).value;
      KeyHas(text);
      if rest == "" {
        var m := BlockHas(lines, i + 1, indent + 1, map[]);
        assert map[] + m == m;
      } else if rest != "{}" {
        ScalarExactly(rest, r.value);
      }
    }
  }

  lemma BlockEnds(lines: seq<Line>, i: nat, indent: nat, out: map<string, Json>)
    requires i <= |lines| && (i == |lines| || lines[i].indent < indent)
    ensures BlockSays(lines, i, i, indent, map[]) && ReadObject(lines, i, indent, out) == Got(out, i)
    ensures out + map[] == out
  {
  }

  lemma BlockGrows(lines: seq<Line>, i: nat, j: nat, k: nat, indent: nat, name: string, v: Json,
                   rest: map<string, Json>)
    requires i < j <= k <= |lines| && lines[i].indent == indent && FieldSays(lines, i, j, indent, name, v)
    requires BlockSays(lines, j, k, indent, rest) && name !in rest
    ensures BlockSays(lines, i, k, indent, rest[name := v])
  {
    hide FieldSays;
  }

  lemma ReadNext(lines: seq<Line>, i: nat, indent: nat, out: map<string, Json>)
    requires i < |lines| && lines[i].indent == indent
    ensures var name, field := NameOf(lines[i].text), ReadField(lines, i, indent);
            ReadObject(lines, i, indent, out) ==
            if name in out || field.Failed? then Failed
            else ReadObject(lines, field.next, indent, out[name := field.value])
  {
    hide ReadField;
  }

  lemma AddOne(out: map<string, Json>, name: string, v: Json, rest: map<string, Json>)
    requires name !in out
    ensures out[name := v].Keys !! rest.Keys <==> name !in rest && out.Keys !! rest[name := v].Keys
    ensures name !in rest ==> out[name := v] + rest == out + rest[name := v]
  {
    assert out[name := v].Keys == out.Keys + {name} && rest[name := v].Keys == rest.Keys + {name};
  }

  /** What is read of an object is a block, added to what was read before. */
  lemma {:induction false} BlockHas(lines: seq<Line>, i: nat, indent: nat, out: map<string, Json>)
    returns (m: map<string, Json>)
    requires i <= |lines| && ReadObject(lines, i, indent, out).Got?
    ensures var r := ReadObject(lines, i, indent, out);
            i <= r.next <= |lines| && BlockSays(lines, i, r.next, indent, m) && out.Keys !! m.Keys && r.value == out + m
    decreases |lines| - i, 1
  {
    if i == |lines| || lines[i].indent < indent {
      m := map[];
      BlockEnds(lines, i, indent, out);
    } else {
      assert lines[i].indent == indent;
      hide FieldSays, ReadField, BlockSays, ReadObject, NameOf;
      var name, field := NameOf(lines[i].text), ReadField(lines, i, indent);
      ReadNext(lines, i, indent, out);
      FieldHas(lines, i, indent);
      var rest := BlockHas(lines, field.next, indent, out[name := field.value]);
      AddOne(out, name, field.value, rest);
      m := rest[name := field.value];
      BlockGrows(lines, i, field.next, ReadObject(lines, i, indent, out).next, indent, name, field.value, rest);
    }
  }

  /** A field is read as what it says. */
  lemma {:induction false} FieldReads(lines: seq<Line>, i: nat, k: nat, indent: nat, name: string, v: Json)
    requires i < k <= |lines| && FieldSays(lines, i, k, indent, name, v)
    ensures ReadField(lines, i, indent) == Got(v, k) && NameOf(lines[i].text) == name
    decreases k - i, 0
  {
    hide TableFields, ListCells, KeyedRest, ReadArray, ReadScalar, ScalarSays, ArraySays, IsKeyLine, NameOf, BlockSays;
    var text := lines[i].text;
    NameIsKey(text);
    if v.JArray? && ArraySays(lines, i, k, indent, name, v.items) {
      ArrayExactly(lines, i, k, indent, name, v.items);
      ArrayIsShaped(lines, i, indent);
    } else {
      var rest :| IsKeyLine(text, name, rest) &&
        if rest == "{}" then k == i + 1 && v == JObject(map[])
        else if rest == "" then
          i + 1 < k && lines[i + 1].indent == indent + 1 && v.JObject? &&
          BlockSays(lines, i + 1, k, indent + 1, v.fields)
        else k == i + 1 && ScalarSays(rest, v);
      KeyReads(text, name, rest);
      if rest == "" {
        BlockReads(lines, i + 1, k, indent + 1, map[], v.fields);
        assert map[] + v.fields == v.fields;
      } else if rest != "{}" {
        ScalarExactly(rest, v);
      }
    }
  }

  lemma ArrayIsShaped(lines: seq<Line>, i: nat, indent: nat)
    requires i < |lines| && ReadArray(lines, i, indent).Got?
    ensures TableFields(lines[i].text).Some? || ListCells(lines[i].text).Some?
  {
    hide TableFields, ListCells;
  }

  lemma BlockShrinks(lines: seq<Line>, i: nat, k: nat, indent: nat, m: map<string, Json>)
    returns (j: nat, name: string, v: Json, rest: map<string, Json>)
    requires i < k <= |lines| && BlockSays(lines, i, k, indent, m)
    ensures i < j <= k && lines[i].indent == indent && FieldSays(lines, i, j, indent, name, v)
    ensures BlockSays(lines, j, k, indent, rest) && name !in rest && m == rest[name := v]
  {
    hide FieldSays;
    j, name, v, rest :| i < j <= k && FieldSays(lines, i, j, indent, name, v) &&
      BlockSays(lines, j, k, indent, rest) && name !in rest && m == rest[name := v];
  }

  lemma {:induction false} BlockReads(lines: seq<Line>, i: nat, k: nat, indent: nat, out: map<string, Json>,
                                      m: map<string, Json>)
    requires i <= k <= |lines| && BlockSays(lines, i, k, indent, m) && out.Keys !! m.Keys
    ensures ReadObject(lines, i, indent, out) == Got(out + m, k)
    decreases k - i, 1
  {
    if i == k {
      BlockEnds(lines, i, indent, out);
    } else {
      hide FieldSays, ReadField, BlockSays, ReadObject, NameOf;
      var j, name, v, rest := BlockShrinks(lines, i, k, indent, m);
      FieldReads(lines, i, j, indent, name, v);
      ReadNext(lines, i, indent, out);
      assert name in m.Keys;
      AddOne(out, name, v, rest);
      BlockReads(lines, j, k, indent, out[name := v], rest);
    }
  }

  /* ---- Texts ---- */

  /** A scalar alone on its line: it is quoted, or it starts no array and holds no colon. */
  predicate IsAlone(text: string) {
    text !in ["{}", "[]"] && (text == "" || text[0] == '"' || (text[0] != '[' && ':' !in text))
  }

  ghost predicate RootSays(lines: seq<Line>, j: Json) {
    lines != [] && lines[0].indent == 0 &&
    var text := lines[0].text;
    if text == "{}" then |lines| == 1 && j == JObject(map[])
    else if text == "[]" then |lines| == 1 && j == JArray([])
    else if IsAlone(text) then |lines| == 1 && ScalarSays(text, j)
    else if text[0] == '[' then j.JArray? && ArraySays(lines, 0, |lines|, 0, "", j.items)
    else j.JObject? && BlockSays(lines, 0, |lines|, 0, j.fields)
  }

  /** A text line by line: two spaces for every step in, and nothing blank. Line breaks at the end do not count. */
  ghost predicate IsTextOf(s: string, lines: seq<Line>) {
    lines != [] && TrimRight(s, '\n') == Join(Texts(lines), '\n') &&
    forall l | l in lines :: !IsBlank(l.text) && l.text[0] != ' ' && '\n' !in l.text
  }

  /** What a text says. */
  ghost predicate Says(s: string, j: Json) {
    exists lines :: IsTextOf(s, lines) && RootSays(lines, j)
  }

  lemma BracketHasNoName(text: string)
    requires text != "" && text[0] == '['
    ensures NameOf(text) == ""
  {
  }

  lemma RootExactly(lines: seq<Line>, j: Json)
    requires lines != [] && lines[0].indent == 0
    ensures ReadRoot(lines, 0) == Got(j, |lines|) <==> RootSays(lines, j)
  {
    hide ReadScalar, ScalarSays, ReadArray, ArraySays, ReadObject, BlockSays, NameOf;
    var text := lines[0].text;
    ScalarExactly(text, j);
    if text !in ["{}", "[]"] && !IsAlone(text) {
      if text[0] == '[' {
        BracketHasNoName(text);
        if j.JArray? { ArrayExactly(lines, 0, |lines|, 0, "", j.items); }
      } else if j.JObject? {
        if BlockSays(lines, 0, |lines|, 0, j.fields) {
          BlockReads(lines, 0, |lines|, 0, map[], j.fields);
          assert map[] + j.fields == j.fields;
        }
        if ReadObject(lines, 0, 0, map[]) == Got(j.fields, |lines|) {
          var m := BlockHas(lines, 0, 0, map[]);
          assert map[] + m == m;
        }
      }
    }
  }

  /* ---- Scanning ---- */

  predicate IsLineText(t: string) {
    !IsBlank(t) && t[0] != ' ' && '\n' !in t
  }

  lemma LineReads(line: Line)
    requires IsLineText(line.text)
    ensures ScanLine(LineText(line)) == Some(line)
  {
    var raw, m := LineText(line), 2 * line.indent;
    var k: nat :| k < |line.text| && !IsSpace(line.text[k]);
    hide IsSpace;
    assert raw[m] == line.text[0] && raw[m..] == line.text;
    RunOf(raw, ' ', 0, m);
    assert raw[m + k] == line.text[k];
  }

  lemma SpacesThen(raw: string, n: nat)
    requires n <= |raw| && n % 2 == 0 && forall k | 0 <= k < n :: raw[k] == ' '
    ensures raw == Spaces(n / 2) + raw[n..]
  {
    assert raw[..n] == Spaces(n / 2);
  }

  lemma VisibleBehind(raw: string, n: nat)
    requires n <= |raw| && !IsBlank(raw) && forall k | 0 <= k < n :: raw[k] == ' '
    ensures !IsBlank(raw[n..])
  {
    SpaceIsSpace();
    var k: nat :| k < |raw| && !IsSpace(raw[k]);
    hide IsSpace;
    assert raw[n..][k - n] == raw[k];
  }

  lemma LineHas(raw: string)
    requires ScanLine(raw).Some? && '\n' !in raw
    ensures raw == LineText(ScanLine(raw).value) && IsLineText(ScanLine(raw).value.text)
  {
    hide IsBlank, Spaces;
    var n := RunEnd(raw, ' ', 0);
    RunIs(raw, ' ', 0);
    SpacesThen(raw, n);
    VisibleBehind(raw, n);
    NotEmpty(raw[n..]);
  }

  lemma NotEmpty(t: string)
    ensures !IsBlank(t) ==> t != ""
  {
  }

  lemma LineExactly(raw: string, line: Line)
    requires '\n' !in raw
    ensures ScanLine(raw) == Some(line) <==> raw == LineText(line) && IsLineText(line.text)
  {
    hide ScanLine, IsLineText, LineText;
    if raw == LineText(line) && IsLineText(line.text) { LineReads(line); }
    if ScanLine(raw) == Some(line) { LineHas(raw); }
  }

  lemma {:induction false} LinesExactly(raw: seq<string>, lines: seq<Line>)
    requires forall r | r in raw :: '\n' !in r
    ensures ScanAll(raw) == Some(lines) <==> raw == Texts(lines) && forall l | l in lines :: IsLineText(l.text)
    decreases |raw|
  {
    hide ScanLine, LineText, IsLineText;
    if raw != [] && lines != [] {
      LineExactly(raw[0], lines[0]);
      LinesExactly(raw[1..], lines[1..]);
      assert raw == [raw[0]] + raw[1..] && lines == [lines[0]] + lines[1..];
      assert Texts(lines)[0] == LineText(lines[0]) && Texts(lines)[1..] == Texts(lines[1..]);
    }
  }

  lemma {:induction false} TextsAreWhole(lines: seq<Line>)
    requires forall l | l in lines :: IsLineText(l.text)
    ensures forall t | t in Texts(lines) :: '\n' !in t
    decreases |lines|
  {
    if lines != [] {
      LineIsWhole(lines[0]);
      TextsAreWhole(lines[1..]);
    }
  }

  lemma LineIsWhole(line: Line)
    requires IsLineText(line.text)
    ensures '\n' !in LineText(line)
  {
  }

  lemma SomethingVisible(lines: seq<Line>)
    requires lines != [] && IsLineText(lines[0].text)
    ensures !IsBlank(Join(Texts(lines), '\n'))
  {
    var t := lines[0].text;
    var k: nat :| k < |t| && !IsSpace(t[k]);
    var s := Join(Texts(lines), '\n');
    assert LineText(lines[0]) <= s;
    assert s[2 * lines[0].indent + k] == t[k];
  }

  lemma {:induction false} SplitParts(s: string, sep: char)
    ensures forall p | p in Split(s, sep) :: sep !in p
    decreases |s|
  {
    var i := IndexFrom(s, sep, 0);
    IndexFromMisses(s, sep, 0);
    if i < |s| { SplitParts(s[i + 1..], sep); }
  }

  lemma ScansExactly(s: string, lines: seq<Line>)
    ensures ScanLines(s) == Some(lines) <==> IsTextOf(s, lines)
  {
    hide ScanAll, Split, Join, Texts, IsBlank, LineText;
    var body := TrimRight(s, '\n');
    SplitJoins(body, '\n');
    SplitParts(body, '\n');
    LinesExactly(Split(body, '\n'), lines);
    if IsTextOf(s, lines) {
      assert forall l | l in lines :: IsLineText(l.text);
      TextsAreWhole(lines);
      SomethingVisible(lines);
      TextsNonempty(lines);
      SplitJoin(Texts(lines), '\n');
    }
    if ScanLines(s) == Some(lines) {
      assert forall l | l in lines :: IsLineText(l.text);
      if lines == [] { NoTexts(); }
    }
  }

  lemma TextsNonempty(lines: seq<Line>)
    ensures lines != [] ==> Texts(lines) != []
  {
  }

  lemma NoTexts()
    ensures Texts([]) == []
  {
  }

  /** The decoder accepts a text as this data exactly when the text says it. */
  lemma DecodesExactly(s: string, j: Json)
    ensures Decode(s) == Some(j) <==> Says(s, j)
  {
    hide ScanLines, ReadRoot, IsTextOf, RootSays;
    if lines :| IsTextOf(s, lines) && RootSays(lines, j) {
      ScansExactly(s, lines);
      RootStarts(lines, j);
      RootExactly(lines, j);
    }
    if Decode(s) == Some(j) {
      var lines := ScanLines(s).value;
      ScansExactly(s, lines);
      RootExactly(lines, j);
    }
  }

  lemma RootStarts(lines: seq<Line>, j: Json)
    requires RootSays(lines, j)
    ensures lines != [] && lines[0].indent == 0
  {
    hide ScalarSays, ArraySays, BlockSays;
  }
}
