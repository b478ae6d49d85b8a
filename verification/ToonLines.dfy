/** Lines survive being rendered as text and scanned again. */
module ToonLines {
  import opened GoText
  import opened ToonText
  import opened ToonReader
  import opened ToonScalars
  import opened ToonShapes
  import JsonText

  predicate IsCleanText(t: string) {
    t != "" && !IsSpace(t[0]) && '\n' !in t
  }

  predicate IsClean(lines: seq<Line>) {
    forall k | 0 <= k < |lines| :: IsCleanText(lines[k].text)
  }

  function Texts(lines: seq<Line>): (ts: seq<string>)
    ensures |ts| == |lines|
  {
    if lines == [] then [] else [LineText(lines[0])] + Texts(lines[1..])
  }

  lemma LineScans(line: Line)
    requires IsCleanText(line.text)
    ensures ScanLine(LineText(line)) == Some(line) && '\n' !in LineText(line)
    ensures LineText(line) != "" && LineText(line)[|LineText(line)| - 1] != '\n'
  {
    hide IsSpace;
    var n, s := 2 * line.indent, LineText(line);
    assert s[n] == line.text[0] && s[n..] == line.text;
    assert !IsBlank(s);
    assert line.text[0] != ' ' by { assert IsSpace(' ') by { SpaceIsSpace(); } }
    RunOf(s, ' ', 0, n);
  }

  lemma SpaceIsSpace()
    ensures IsSpace(' ')
  {
  }

  lemma {:induction false} TextsScan(lines: seq<Line>)
    requires IsClean(lines)
    ensures ScanAll(Texts(lines)) == Some(lines) && forall t | t in Texts(lines) :: '\n' !in t
    decreases |lines|
  {
    hide ScanLine, LineText, IsCleanText;
    if lines != [] {
      LineScans(lines[0]);
      TextsScan(lines[1..]);
      assert Texts(lines)[1..] == Texts(lines[1..]) && lines == [lines[0]] + lines[1..];
    }
  }

  lemma {:induction false} RenderedJoins(lines: seq<Line>)
    requires lines != [] && IsClean(lines)
    ensures var s := Join(Texts(lines), '\n');
            Rendered(lines) == s + "\n" && s != "" && s[|s| - 1] != '\n' && !IsBlank(s)
    decreases |lines|
  {
    hide LineText, IsCleanText, ScanLine;
    var s, first := Join(Texts(lines), '\n'), LineText(lines[0]);
    LineScans(lines[0]);
    if |lines| == 1 {
      assert Texts(lines) == [first];
      NotBlank(lines[0], "");
      assert first + "" == first;
    } else {
      RenderedJoins(lines[1..]);
      var more := Join(Texts(lines[1..]), '\n');
      assert Texts(lines)[1..] == Texts(lines[1..]);
      assert s == first + ("\n" + more);
      NotBlank(lines[0], "\n" + more);
      assert Rendered(lines) == first + "\n" + (more + "\n");
    }
  }

  lemma NotBlank(line: Line, rest: string)
    requires IsCleanText(line.text)
    ensures !IsBlank(LineText(line) + rest)
  {
    assert (LineText(line) + rest)[2 * line.indent] == line.text[0];
  }

  /** Rendering clean lines, dropping the last line break and scanning the text gives the same lines. */
  lemma LinesRoundTrip(lines: seq<Line>)
    requires lines != [] && IsClean(lines)
    ensures ScanLines(TrimRight(Rendered(lines), '\n')) == Some(lines)
  {
    hide Join, Split, ScanLine, LineText, IsCleanText, IsBlank, Rendered;
    var s := Join(Texts(lines), '\n');
    RenderedJoins(lines);
    assert (s + "\n")[..|s|] == s;
    assert TrimRight(s, '\n') == s;
    assert TrimRight(s + "\n", '\n') == s;
    TextsScan(lines);
    SplitJoin(Texts(lines), '\n');
  }

  /* ---- Every written line is clean ---- */

  lemma CleanAppend(a: seq<Line>, b: seq<Line>)
    requires IsClean(a) && IsClean(b)
    ensures IsClean(a + b)
  {
    hide IsCleanText;
    forall k | 0 <= k < |a + b| ensures IsCleanText((a + b)[k].text) {
      assert (a + b)[k] == if k < |a| then a[k] else b[k - |a|];
    }
  }

  lemma CleanOne(line: Line)
    requires IsCleanText(line.text)
    ensures IsClean([line])
  {
  }

  lemma CleanCell(t: string)
    requires IsCell(t) && '\n' !in t
    ensures IsCleanText(t)
  {
    if IsToken(t) {
      var s :| t == JsonText.Quote(s);
      assert t[0] == '"';
    }
  }

  lemma CleanHead(name: string, text: string)
    requires IsSafeKey(name) && '\n' !in text
    ensures IsCleanText(name + text)
  {
    assert (name + text)[0] == name[0];
  }

  lemma CleanDigits(n: nat)
    ensures '\n' !in Itoa(n)
  {
  }

  lemma CleanBracket(name: string, n: nat, text: string)
    requires IsName(name) && '\n' !in text
    ensures IsCleanText(name + "[" + Itoa(n) + "]" + text)
  {
    hide Itoa, IsSafeKey;
    CleanDigits(n);
    var rest := "[" + Itoa(n) + "]" + text;
    assert '\n' !in rest;
    assert name + "[" + Itoa(n) + "]" + text == name + rest;
    if name != "" { CleanHead(name, rest); } else { assert name + rest == rest && rest[0] == '['; }
  }

  lemma CleanRow(cells: seq<string>)
    requires cells != [] && forall t | t in cells :: IsCell(t) && '\n' !in t
    ensures IsCleanText(Join(cells, ','))
  {
    hide IsCell;
    assert cells[0] in cells;
    CleanCell(cells[0]);
    JoinChars(cells, ',', '\n');
  }
}
