/** The run-length elider: a run of identical lines becomes its first line and a marker with the exact count. */
module RepetitionElision {
  import opened GoText
  import Elision

  const MIN_RUN := 3
  const MIN_BYTES := 200
  const PREFIX := "\U{2026} caveman: "
  const MARKER_TEXT := "identical lines elided \U{2026}"

  function Marker(n: nat): string {
    PREFIX + Itoa(n) + " " + MARKER_TEXT
  }

  predicate StartsAsMarker(line: string) {
    PREFIX <= line
  }

  predicate IsCollapsible(line: string) {
    !IsBlank(line) && !StartsAsMarker(line)
  }

  function Copies(line: string, n: nat): (copies: seq<string>)
    ensures |copies| == n
  {
    if n == 0 then [] else [line] + Copies(line, n - 1)
  }

  lemma {:induction false} CopiesAre(lines: seq<string>, line: string, i: nat, j: nat)
    requires i <= j <= |lines| && forall k | i <= k < j :: lines[k] == line
    ensures lines[i..j] == Copies(line, j - i)
    decreases j - i
  {
    if i < j { CopiesAre(lines, line, i + 1, j); }
  }

  /** The end of the run of identical lines that starts at `i`. */
  function RunOfLines(lines: seq<string>, i: nat, j: nat): (end: nat)
    requires i < j <= |lines| && forall k | i <= k < j :: lines[k] == lines[i]
    ensures j <= end <= |lines| && (end < |lines| ==> lines[end] != lines[i])
    ensures forall k | i <= k < end :: lines[k] == lines[i]
    decreases |lines| - j
  {
    if j < |lines| && lines[j] == lines[i] then RunOfLines(lines, i, j + 1) else j
  }

  /** What one run becomes. */
  function Run(line: string, n: nat): seq<string>
    requires n > 0
  {
    if n >= MIN_RUN && IsCollapsible(line) then [line, Marker(n - 1)] else Copies(line, n)
  }

  function Collapse(lines: seq<string>): seq<string>
    decreases |lines|
  {
    if lines == [] then []
    else
      var n := RunOfLines(lines, 0, 1);
      Run(lines[0], n) + Collapse(lines[n..])
  }

  /** Whether some run is collapsed. */
  predicate Collapses(lines: seq<string>)
    decreases |lines|
  {
    lines != [] &&
    var n := RunOfLines(lines, 0, 1);
    ((n >= MIN_RUN && IsCollapsible(lines[0])) || Collapses(lines[n..]))
  }

  /** A line that stands three times in a row and may be collapsed. */
  predicate IsTriple(lines: seq<string>, i: nat) {
    i + 2 < |lines| && lines[i] == lines[i + 1] == lines[i + 2] && IsCollapsible(lines[i])
  }

  predicate HasTriple(lines: seq<string>) {
    exists i: nat | i < |lines| :: IsTriple(lines, i)
  }

  function Compressed(input: string): Option<string> {
    var lines := Split(input, '\n');
    var result := Join(Collapse(lines), '\n');
    if ByteLength(input) < MIN_BYTES || !Collapses(lines) || ByteLength(result) >= ByteLength(input) then None
    else Some(result)
  }

  /* ---- Stability ---- */

  lemma MarkerHasPrefix(n: nat)
    ensures StartsAsMarker(Marker(n)) && !IsCollapsible(Marker(n)) && '\n' !in Marker(n)
  {
    var digits := Itoa(n);
    hide Itoa;
    assert '\n' !in digits;
  }

  lemma CollapseStarts(lines: seq<string>)
    requires lines != []
    ensures Collapse(lines) != [] && Collapse(lines)[0] == lines[0]
  {
    hide IsCollapsible, Marker;
  }

  /** The output has no run left to collapse, not even where two runs meet. */
  lemma {:induction false} CollapseLeavesNoTriple(lines: seq<string>, i: nat)
    ensures !IsTriple(Collapse(lines), i)
    decreases |lines|
  {
    hide Marker, IsCollapsible, Run, RunOfLines, IsTriple;
    if lines == [] {
      assert !IsTriple([], i) by { NoTripleInNothing(i); }
    } else {
      var n := RunOfLines(lines, 0, 1);
      var run, rest := Run(lines[0], n), Collapse(lines[n..]);
      if i >= |run| {
        CollapseLeavesNoTriple(lines[n..], i - |run|);
        TripleInTail(run, rest, i);
      } else {
        if lines[n..] != [] { CollapseStarts(lines[n..]); } else { NothingCollapses(); }
        RunHasNoTriple(lines[0], n, rest, i);
      }
    }
  }

  lemma NoTripleInNothing(i: nat)
    ensures !IsTriple([], i)
  {
  }

  lemma TripleInTail(a: seq<string>, b: seq<string>, i: nat)
    requires i >= |a|
    ensures IsTriple(a + b, i) <==> IsTriple(b, i - |a|)
  {
    hide IsCollapsible;
    assert forall k | |a| <= k < |a + b| :: (a + b)[k] == b[k - |a|];
  }

  lemma {:induction false} CopiesHold(line: string, n: nat)
    ensures forall k | 0 <= k < n :: Copies(line, n)[k] == line
    decreases n
  {
    if n > 0 { CopiesHold(line, n - 1); }
  }

  lemma RunHasNoTriple(line: string, n: nat, rest: seq<string>, i: nat)
    requires n > 0 && i < |Run(line, n)| && (rest != [] ==> rest[0] != line)
    ensures !IsTriple(Run(line, n) + rest, i)
  {
    hide Marker, IsCollapsible;
    var run := Run(line, n);
    var s := run + rest;
    MarkerHasPrefix(n - 1);
    if n >= MIN_RUN && IsCollapsible(line) {
      assert s[0] == line && s[1] == Marker(n - 1) && s[0] != s[1];
    } else {
      CopiesHold(line, n);
      assert forall k | 0 <= k < n :: s[k] == line;
      if rest != [] { assert s[n] == rest[0]; }
    }
  }

  lemma {:induction false} NoTripleNoChange(lines: seq<string>)
    requires !HasTriple(lines)
    ensures Collapse(lines) == lines && !Collapses(lines)
    decreases |lines|
  {
    hide Marker, IsCollapsible, HasTriple, Copies, RunOfLines, Run;
    if lines != [] {
      var n := RunOfLines(lines, 0, 1);
      NoTripleInRest(lines, n);
      CopiesAre(lines, lines[0], 0, n);
      NoTripleNoChange(lines[n..]);
      assert lines[..n] + lines[n..] == lines;
    }
  }

  lemma NoTripleInRest(lines: seq<string>, n: nat)
    requires 0 < n <= |lines| && !HasTriple(lines) && forall k | 0 <= k < n :: lines[k] == lines[0]
    ensures !HasTriple(lines[n..])
    ensures !(n >= MIN_RUN && IsCollapsible(lines[0])) && Run(lines[0], n) == Copies(lines[0], n)
  {
    hide IsCollapsible, Copies, Marker;
    forall i: nat | i < |lines[n..]| ensures !IsTriple(lines[n..], i) { assert !IsTriple(lines, n + i); }
    assert !IsTriple(lines, 0);
  }

  /** Lines hold no line break, and neither do markers. */
  lemma {:induction false} CollapseKeepsLines(lines: seq<string>)
    requires forall l | l in lines :: '\n' !in l
    ensures forall l | l in Collapse(lines) :: '\n' !in l
    decreases |lines|
  {
    hide Marker, IsCollapsible, RunOfLines, Run;
    if lines != [] {
      var n := RunOfLines(lines, 0, 1);
      CollapseKeepsLines(lines[n..]);
      assert lines[0] in lines;
      RunKeepsLine(lines[0], n);
    }
  }

  lemma RunKeepsLine(line: string, n: nat)
    requires n > 0 && '\n' !in line
    ensures forall l | l in Run(line, n) :: '\n' !in l
  {
    hide Marker, IsCollapsible;
    MarkerHasPrefix(n - 1);
    CopiesHold(line, n);
  }

  /** Compressing any accepted output again declines, whatever lines the input had. */
  lemma SecondPassDeclines(input: string)
    requires Compressed(input).Some?
    ensures Compressed(Compressed(input).value) == None
  {
    hide Split, Join, Collapse, Collapses, IsTriple;
    var lines := Split(input, '\n');
    Elision.SplitMakesLines(input);
    CollapseKeepsLines(lines);
    CollapseNotEmpty(lines);
    SplitJoin(Collapse(lines), '\n');
    forall i: nat | i < |Collapse(lines)| ensures !IsTriple(Collapse(lines), i) { CollapseLeavesNoTriple(lines, i); }
    NoTripleNoChange(Collapse(lines));
  }

  lemma CollapseNotEmpty(lines: seq<string>)
    requires lines != []
    ensures Collapse(lines) != []
  {
    CollapseStarts(lines);
  }

  /* ---- Reversibility ---- */

  function DigitRun(s: string): string {
    if s != "" && '0' <= s[0] <= '9' then [s[0]] + DigitRun(s[1..]) else ""
  }

  lemma {:induction false} DigitRunDigits(s: string)
    ensures forall k | 0 <= k < |DigitRun(s)| :: '0' <= DigitRun(s)[k] <= '9'
  {
    if s != "" && '0' <= s[0] <= '9' { DigitRunDigits(s[1..]); }
  }

  /** The count of a marker line. */
  function ParseMarker(line: string): Option<nat> {
    if PREFIX <= line then
      var digits := DigitRun(line[|PREFIX|..]);
      DigitRunDigits(line[|PREFIX|..]);
      if line == Marker(DecimalValue(digits)) then Some(DecimalValue(digits)) else None
    else None
  }

  lemma {:induction false} DigitRunStops(digits: string, rest: string)
    requires (forall k | 0 <= k < |digits| :: '0' <= digits[k] <= '9') && (rest != "" ==> !('0' <= rest[0] <= '9'))
    ensures DigitRun(digits + rest) == digits
    decreases |digits|
  {
    if digits == "" {
      assert digits + rest == rest;
    } else {
      assert (digits + rest)[1..] == digits[1..] + rest;
      DigitRunStops(digits[1..], rest);
    }
  }

  lemma MarkerParses(n: nat)
    ensures ParseMarker(Marker(n)) == Some(n)
  {
    var digits := Itoa(n);
    assert forall k | 0 <= k < |digits| :: '0' <= digits[k] <= '9';
    ItoaRoundTrip(n);
    hide Itoa;
    assert Marker(n)[|PREFIX|..] == digits + (" " + MARKER_TEXT);
    DigitRunStops(digits, " " + MARKER_TEXT);
  }

  /** A marker that a collapsed run can leave behind: after a line that may be collapsed, for at least as many more
      copies as the shortest run has. */
  predicate IsRunMarker(line: string, marker: string) {
    IsCollapsible(line) && ParseMarker(marker).Some? && ParseMarker(marker).value + 1 >= MIN_RUN
  }

  /** Replaces every marker of a run by that many more copies of the line before it. */
  function Expand(lines: seq<string>): seq<string>
    decreases |lines|
  {
    if lines == [] then []
    else if |lines| > 1 && IsRunMarker(lines[0], lines[1]) then
      Copies(lines[0], ParseMarker(lines[1]).value + 1) + Expand(lines[2..])
    else [lines[0]] + Expand(lines[1..])
  }

  /** Wherever a line of the input reads as the marker of a run, it follows a run that is collapsed and so gets a marker
      of its own. */
  predicate IsRestorable(lines: seq<string>) {
    forall i | 0 <= i < |lines| - 1 && IsRunMarker(lines[i], lines[i + 1]) :: i >= 2 && IsTriple(lines, i - 2)
  }

  lemma PlainIsNoMarker(line: string)
    requires !StartsAsMarker(line)
    ensures ParseMarker(line).None?
  {
  }

  lemma Associate(a: seq<string>, b: seq<string>, c: seq<string>)
    ensures (a + b) + c == a + (b + c)
  {
  }

  lemma PlainFirst(line: string, n: nat, rest: seq<string>)
    requires rest == [] || !IsRunMarker(line, rest[0])
    ensures var more := Copies(line, n) + rest; more == [] || !IsRunMarker(line, more[0])
  {
    hide ParseMarker, StartsAsMarker;
    if n == 0 { assert Copies(line, 0) + rest == rest; } else { assert (Copies(line, n) + rest)[0] == line; }
    if !StartsAsMarker(line) { PlainIsNoMarker(line); }
  }

  lemma CopiesStep(line: string, n: nat)
    requires n > 0
    ensures Copies(line, n) == [line] + Copies(line, n - 1)
  {
  }

  /** Lines that are followed by no marker of a run expand to themselves. */
  lemma {:induction false} ExpandPlain(line: string, n: nat, rest: seq<string>)
    requires rest == [] || !IsRunMarker(line, rest[0])
    ensures Expand(Copies(line, n) + rest) == Copies(line, n) + Expand(rest)
    decreases n
  {
    if n == 0 {
      assert Copies(line, 0) + rest == rest;
    } else {
      hide IsRunMarker, Expand, Copies;
      var c := Copies(line, n - 1);
      CopiesStep(line, n);
      ExpandPlain(line, n - 1, rest);
      PlainFirst(line, n - 1, rest);
      ExpandShown(line, c + rest);
      Associate([line], c, rest);
      Associate([line], c, Expand(rest));
    }
  }

  lemma ExpandShown(line: string, more: seq<string>)
    requires more == [] || !IsRunMarker(line, more[0])
    ensures Expand([line] + more) == [line] + Expand(more)
  {
    hide IsRunMarker;
    var s := [line] + more;
    assert s[1..] == more;
  }

  lemma ExpandCounted(line: string, marker: string, rest: seq<string>)
    requires IsRunMarker(line, marker)
    ensures Expand([line, marker] + rest) == Copies(line, ParseMarker(marker).value + 1) + Expand(rest)
  {
    hide ParseMarker, Copies;
    var s := [line, marker] + rest;
    assert s[1] == marker && s[2..] == rest;
  }

  /** A run expands to its lines, whatever follows a collapsed one, unless a marker of a run follows one that is not. */
  lemma ExpandRun(line: string, n: nat, rest: seq<string>)
    requires n > 0 && ((n >= MIN_RUN && IsCollapsible(line)) || rest == [] || !IsRunMarker(line, rest[0]))
    ensures Expand(Run(line, n) + rest) == Copies(line, n) + Expand(rest)
  {
    hide Marker, IsCollapsible, ParseMarker, Expand, Copies;
    if n >= MIN_RUN && IsCollapsible(line) {
      MarkerParses(n - 1);
      ExpandCounted(line, Marker(n - 1), rest);
    } else {
      ExpandPlain(line, n, rest);
    }
  }

  /** After a run that is not collapsed, a marker of a run is expanded as if it were its marker. */
  lemma MarkerIsTaken(line: string, n: nat, rest: seq<string>)
    requires 0 < n < MIN_RUN && rest != [] && IsRunMarker(line, rest[0]) && rest[0] != line
    ensures var e := Expand(Run(line, n) + rest); |e| > n && e[n] == line
  {
    hide ParseMarker, IsCollapsible, Expand, Copies;
    var more := [line, rest[0]] + rest[1..];
    assert Run(line, n) + rest == Copies(line, n - 1) + more by { CopiesSnoc(line, n); }
    PlainFirst(line, 1, []);
    assert Copies(line, 1) + [] == [line] by { CopiesHold(line, 1); }
    ExpandPlain(line, n - 1, more);
    ExpandCounted(line, rest[0], rest[1..]);
    CopiesHold(line, ParseMarker(rest[0]).value + 1);
  }

  lemma CopiesSnoc(line: string, n: nat)
    requires n > 0
    ensures Copies(line, n) == Copies(line, n - 1) + [line]
  {
    CopiesHold(line, n);
    CopiesHold(line, n - 1);
  }

  /** The first run aside, the lines are restorable when the rest is. */
  lemma RestorableRest(lines: seq<string>, n: nat)
    requires 0 < n <= |lines| && (forall k | 0 <= k < n :: lines[k] == lines[0]) &&
             (n < |lines| ==> lines[n] != lines[0])
    ensures IsRestorable(lines) <==>
            IsRestorable(lines[n..]) &&
            (n == |lines| || (n >= MIN_RUN && IsCollapsible(lines[0])) || !IsRunMarker(lines[0], lines[n]))
  {
    hide IsCollapsible, ParseMarker;
    var rest := lines[n..];
    forall i | 0 <= i < n - 1 ensures !IsRunMarker(lines[i], lines[i + 1]) {
      PlainFirst(lines[0], 1, []);
      CopiesHold(lines[0], 1);
    }
    forall i | 0 <= i < |rest| - 1 && IsRunMarker(rest[i], rest[i + 1])
      ensures (i >= 2 && IsTriple(rest, i - 2)) <==> (n + i >= 2 && IsTriple(lines, n + i - 2))
    {
      if i >= 2 { assert rest[i - 2] == lines[n + i - 2]; }
    }
    if n < |lines| && IsRunMarker(lines[0], lines[n]) {
      assert IsRunMarker(lines[n - 1], lines[n - 1 + 1]);
      assert n >= 3 && IsCollapsible(lines[0]) <==> n - 1 >= 2 && IsTriple(lines, n - 1 - 2);
    }
    if IsRestorable(lines) {
      forall i | 0 <= i < |rest| - 1 && IsRunMarker(rest[i], rest[i + 1]) ensures i >= 2 && IsTriple(rest, i - 2) {
        assert IsRunMarker(lines[n + i], lines[n + i + 1]);
      }
    }
    if IsRestorable(rest) {
      forall i | n <= i < |lines| - 1 && IsRunMarker(lines[i], lines[i + 1]) ensures i >= 2 && IsTriple(lines, i - 2) {
        assert IsRunMarker(rest[i - n], rest[i - n + 1]);
      }
    }
  }

  /** Expanding the markers gives the input lines back exactly when they are restorable. */
  lemma {:induction false} ExpandUndoesCollapseExactly(lines: seq<string>)
    ensures Expand(Collapse(lines)) == lines <==> IsRestorable(lines)
    decreases |lines|
  {
    hide Expand, Run, IsRunMarker, Copies, IsRestorable;
    if lines == [] {
      ExpandNothing();
    } else {
      var n := RunOfLines(lines, 0, 1);
      var line, rest := lines[0], lines[n..];
      ExpandUndoesCollapseExactly(rest);
      RestorableRest(lines, n);
      if rest != [] { CollapseStarts(rest); } else { NothingCollapses(); }
      CopiesAre(lines, line, 0, n);
      assert lines == Copies(line, n) + rest;
      if (n >= MIN_RUN && IsCollapsible(line)) || rest == [] || !IsRunMarker(line, rest[0]) {
        ExpandRun(line, n, Collapse(rest));
        var e := Expand(Collapse(rest));
        assert (Copies(line, n) + e)[n..] == e && (Copies(line, n) + rest)[n..] == rest;
      } else {
        CollapsibleOnly(line, rest[0]);
        MarkerIsTaken(line, n, Collapse(rest));
      }
    }
  }

  lemma CollapsibleOnly(line: string, marker: string)
    requires IsRunMarker(line, marker)
    ensures IsCollapsible(line)
  {
  }

  lemma ExpandNothing()
    ensures Expand([]) == [] && IsRestorable([])
  {
  }

  function ExpandText(text: string): string {
    Join(Expand(Split(text, '\n')), '\n')
  }

  lemma {:induction false} ExpandKeepsLines(lines: seq<string>)
    requires forall l | l in lines :: '\n' !in l
    ensures forall l | l in Expand(lines) :: '\n' !in l
    ensures lines != [] ==> Expand(lines) != []
    decreases |lines|
  {
    hide IsCollapsible, ParseMarker;
    if lines != [] {
      if |lines| > 1 && IsRunMarker(lines[0], lines[1]) {
        ExpandKeepsLines(lines[2..]);
        CopiesHold(lines[0], ParseMarker(lines[1]).value + 1);
      } else {
        ExpandKeepsLines(lines[1..]);
      }
    }
  }

  /** Expanding an accepted output gives the input back, byte for byte, exactly when its lines are restorable. */
  lemma ExpandRestoresExactly(input: string)
    requires Compressed(input).Some?
    ensures ExpandText(Compressed(input).value) == input <==> IsRestorable(Split(input, '\n'))
  {
    hide Split, Join, Collapse, Expand, Collapses, IsRestorable;
    var lines := Split(input, '\n');
    Elision.SplitMakesLines(input);
    CollapseKeepsLines(lines);
    CollapseNotEmpty(lines);
    SplitJoin(Collapse(lines), '\n');
    ExpandUndoesCollapseExactly(lines);
    ExpandKeepsLines(Collapse(lines));
    SplitJoin(Expand(Collapse(lines)), '\n');
  }

  /** So it does whenever no input line starts as a marker does. */
  lemma ExpandRestoresInput(input: string)
    requires Compressed(input).Some? && forall l | l in Split(input, '\n') :: !StartsAsMarker(l)
    ensures ExpandText(Compressed(input).value) == input
  {
    hide Split, Collapses, Collapse, Expand, ParseMarker;
    ExpandRestoresExactly(input);
    var lines := Split(input, '\n');
    forall i | 0 <= i < |lines| - 1 ensures !IsRunMarker(lines[i], lines[i + 1]) {
      assert lines[i + 1] in lines;
      PlainIsNoMarker(lines[i + 1]);
    }
  }

  lemma {:induction false} JoinBytes(parts: seq<string>, more: seq<string>)
    requires parts != [] && more != []
    ensures ByteLength(Join(parts + more, '\n')) == ByteLength(Join(parts, '\n')) + 1 + ByteLength(Join(more, '\n'))
    decreases |parts|
  {
    hide ByteLength;
    var all := parts + more;
    assert all[1..] == parts[1..] + more;
    if |parts| == 1 {
      assert all[1..] == more;
      LineBytes(parts[0], Join(more, '\n'));
    } else {
      JoinBytes(parts[1..], more);
      LineBytes(parts[0], Join(parts[1..], '\n'));
      LineBytes(parts[0], Join(all[1..], '\n'));
    }
  }

  lemma LineBytes(line: string, rest: string)
    ensures ByteLength(line + ['\n'] + rest) == ByteLength(line) + 1 + ByteLength(rest)
  {
    BytesAdd(line + ['\n'], rest);
    BytesAdd(line, ['\n']);
  }

  lemma SinglesStay(a: string, b: string, rest: seq<string>)
    requires a != b && (rest == [] || rest[0] != b)
    ensures Collapse([a, b] + rest) == [a, b] + Collapse(rest) && Collapses([a, b] + rest) == Collapses(rest)
  {
    hide Marker, IsCollapsible, Collapse, Collapses;
    var s := [a, b] + rest;
    assert s[0..] == s && s[2..] == rest;
    CollapseRun(s, 0, 1);
    CollapseRun(s, 1, 2);
    CopiesAre(s, a, 0, 1);
    CopiesAre(s, b, 1, 2);
    assert [a] + ([b] + Collapse(rest)) == [a, b] + Collapse(rest);
  }

  lemma RunBecomesMarker(line: string, n: nat, rest: seq<string>)
    requires n >= MIN_RUN && IsCollapsible(line) && (rest == [] || rest[0] != line)
    ensures Collapse(Copies(line, n) + rest) == [line, Marker(n - 1)] + Collapse(rest) &&
            Collapses(Copies(line, n) + rest)
  {
    hide Marker, IsCollapsible, Collapse, Collapses, Copies;
    var s := Copies(line, n) + rest;
    CopiesHold(line, n);
    assert forall k | 0 <= k < n :: s[k] == line;
    assert s[0..] == s && s[n..] == rest;
    CollapseRun(s, 0, n);
  }

  /** No other way of expanding could help: a run, and its first line with a marker that the input already held, become
      the same output. */
  lemma OutputIsShared(line: string, n: nat, rest: seq<string>)
    requires IsCollapsible(line) && n + 1 >= MIN_RUN && (rest == [] || (rest[0] != line && rest[0] != Marker(n)))
    ensures [line, Marker(n)] + rest != Copies(line, n + 1) + rest
    ensures Collapse([line, Marker(n)] + rest) == Collapse(Copies(line, n + 1) + rest)
  {
    MarkerHasPrefix(n);
    hide Marker, IsCollapsible, Collapse, Copies;
    SinglesStay(line, Marker(n), rest);
    RunBecomesMarker(line, n + 1, rest);
    CopiesHold(line, n + 1);
    assert ([line, Marker(n)] + rest)[1] != (Copies(line, n + 1) + rest)[1];
  }

  /** A line, a line that reads as its marker, and then a run. */
  function Misread(line: string, marker: string, long: string): seq<string> {
    [line, marker] + Copies(long, 3)
  }

  lemma MisreadCollapses(line: string, marker: string, long: string)
    requires IsRunMarker(line, marker) && IsCollapsible(long)
    ensures var lines := Misread(line, marker, long);
            Collapses(lines) && Collapse(lines) == [line, marker] + [long, Marker(2)] && !IsRestorable(lines)
  {
    var lines := Misread(line, marker, long);
    if !StartsAsMarker(marker) { PlainIsNoMarker(marker); }
    assert IsRunMarker(lines[0], lines[1]) && line != marker && long != marker;
    hide Marker, IsCollapsible, StartsAsMarker, IsRunMarker, Collapse, Collapses, Copies;
    CopiesHold(long, 3);
    SinglesStay(line, marker, Copies(long, 3));
    RunBecomesMarker(long, 3, []);
    assert Copies(long, 3) + [] == Copies(long, 3);
    NothingCollapses();
    assert [long, Marker(2)] + [] == [long, Marker(2)];
  }

  lemma MisreadShrinks(line: string, marker: string, long: string)
    requires ByteLength(Marker(2)) < ByteLength(long)
    ensures ByteLength(Join([line, marker] + [long, Marker(2)], '\n')) <
            ByteLength(Join(Misread(line, marker, long), '\n'))
    ensures ByteLength(Join(Misread(line, marker, long), '\n')) >= ByteLength(long)
  {
    hide Marker, ByteLength;
    CopiesHold(long, 3);
    assert Copies(long, 3) == [long, long, long];
    JoinBytes([line, marker], [long, long, long]);
    JoinBytes([line, marker], [long, Marker(2)]);
    JoinBytes([long], [long, long]);
    JoinBytes([long], [long]);
    JoinBytes([long], [Marker(2)]);
    assert [long] + [long, long] == [long, long, long] && [long] + [long] == [long, long];
    assert [long] + [Marker(2)] == [long, Marker(2)];
  }

  lemma MisreadIsAccepted(line: string, marker: string, long: string)
    requires IsRunMarker(line, marker) && IsCollapsible(long) && '\n' !in line && '\n' !in marker && '\n' !in long
    requires ByteLength(Marker(2)) < ByteLength(long) && ByteLength(long) >= MIN_BYTES
    ensures var input := Join(Misread(line, marker, long), '\n');
            Compressed(input).Some? && ExpandText(Compressed(input).value) != input
  {
    hide Marker, IsCollapsible, IsRunMarker, IsRestorable, ByteLength, Join, Split, Collapse, Collapses;
    var lines := Misread(line, marker, long);
    CopiesHold(long, 3);
    assert forall l | l in lines :: l == line || l == marker || l == long;
    SplitJoin(lines, '\n');
    MisreadCollapses(line, marker, long);
    MisreadShrinks(line, marker, long);
    ExpandRestoresExactly(Join(lines, '\n'));
  }

  /** Otherwise it fails, on inputs that are accepted too: a line that reads as the marker of two more copies, after a
      line that stands alone, is expanded although no run stood there. */
  lemma MarkerInInputIsExpanded()
    ensures var long := seq(200, _ => 'x');
            var input := Join(Misread("a", Marker(2), long), '\n');
            Compressed(input).Some? && ExpandText(Compressed(input).value) != input
  {
    var long := seq(200, _ => 'x');
    MarkerHasPrefix(2);
    MarkerParses(2);
    assert "a"[0] != PREFIX[0] && long[0] != PREFIX[0] && !IsSpace("a"[0]) && !IsSpace(long[0]);
    assert IsCollapsible("a") && IsCollapsible(long);
    assert |Itoa(2)| == 1 && |Marker(2)| < 50;
    hide Marker, ParseMarker, IsCollapsible, ByteLength, Compressed, ExpandText, Join;
    BytesBound(long);
    BytesBound(Marker(2));
    MisreadIsAccepted("a", Marker(2), long);
  }

  lemma RunsShrink(line: string, long: string)
    requires ByteLength(Marker(2)) < ByteLength(long)
    ensures ByteLength(Join([line, Marker(2)] + [long, Marker(2)], '\n')) <
            ByteLength(Join(Copies(line, 3) + Copies(long, 3), '\n'))
    ensures ByteLength(Join(Copies(line, 3) + Copies(long, 3), '\n')) >= ByteLength(long)
  {
    hide Marker, ByteLength;
    CopiesHold(line, 3);
    CopiesHold(long, 3);
    JoinBytes(Copies(line, 3), Copies(long, 3));
    JoinBytes([line, Marker(2)], [long, Marker(2)]);
    TripleBytes(line);
    TripleBytes(long);
    JoinBytes([line], [Marker(2)]);
    JoinBytes([long], [Marker(2)]);
    assert [line] + [Marker(2)] == [line, Marker(2)] && [long] + [Marker(2)] == [long, Marker(2)];
  }

  lemma TripleBytes(line: string)
    ensures ByteLength(Join(Copies(line, 3), '\n')) == 3 * ByteLength(line) + 2
  {
    hide ByteLength;
    CopiesHold(line, 3);
    JoinBytes([line], [line, line]);
    JoinBytes([line], [line]);
    assert [line] + [line] == [line, line] && [line] + [line, line] == [line, line, line] == Copies(line, 3);
  }

  lemma LinesAccepted(lines: seq<string>)
    requires lines != [] && (forall l | l in lines :: '\n' !in l) && Collapses(lines)
    requires ByteLength(Join(lines, '\n')) >= MIN_BYTES
    requires ByteLength(Join(Collapse(lines), '\n')) < ByteLength(Join(lines, '\n'))
    ensures Compressed(Join(lines, '\n')) == Some(Join(Collapse(lines), '\n'))
  {
    hide Collapse, Collapses, ByteLength, Join, Split;
    SplitJoin(lines, '\n');
  }

  lemma TextsDiffer(a: seq<string>, b: seq<string>)
    requires a != [] && b != [] && a != b && (forall l | l in a :: '\n' !in l) && forall l | l in b :: '\n' !in l
    ensures Join(a, '\n') != Join(b, '\n')
  {
    hide Join, Split;
    SplitJoin(a, '\n');
    SplitJoin(b, '\n');
  }

  lemma CopiesAreLines(line: string, long: string)
    requires '\n' !in line && '\n' !in long
    ensures var lines := Copies(line, 3) + Copies(long, 3); lines != [] && forall l | l in lines :: '\n' !in l
    ensures var lines := Misread(line, Marker(2), long); lines != [] && forall l | l in lines :: '\n' !in l
    ensures Copies(long, 3)[0] == long
  {
    MarkerHasPrefix(2);
    hide Marker;
    CopiesHold(line, 3);
    CopiesHold(long, 3);
  }

  /** Two accepted texts with one output, so that no expander restores both. */
  lemma AcceptedOutputIsShared(line: string, long: string)
    requires IsCollapsible(line) && IsCollapsible(long) && line != long && '\n' !in line && '\n' !in long
    requires ByteLength(Marker(2)) < ByteLength(long) && ByteLength(long) >= MIN_BYTES
    ensures var a, b := Join(Misread(line, Marker(2), long), '\n'), Join(Copies(line, 3) + Copies(long, 3), '\n');
            a != b && Compressed(a).Some? && Compressed(a) == Compressed(b)
  {
    MarkerHasPrefix(2);
    MarkerParses(2);
    assert IsRunMarker(line, Marker(2));
    hide Marker, ParseMarker, IsCollapsible, IsRestorable, IsRunMarker, ByteLength, Join, Split, Collapse, Collapses,
         Copies, Compressed;
    CopiesAreLines(line, long);
    MisreadCollapses(line, Marker(2), long);
    OutputIsShared(line, 2, Copies(long, 3));
    RunBecomesMarker(line, 3, Copies(long, 3));
    MisreadShrinks(line, Marker(2), long);
    RunsShrink(line, long);
    LinesAccepted(Misread(line, Marker(2), long));
    LinesAccepted(Copies(line, 3) + Copies(long, 3));
    TextsDiffer(Misread(line, Marker(2), long), Copies(line, 3) + Copies(long, 3));
  }

  /* ---- The elider as it runs ---- */

  method Compress(input: string) returns (result: string, ok: bool)
    ensures Compressed(input) == if ok then Some(result) else None
  {
    hide Marker, IsCollapsible, Split, Join, ByteLength, Collapse, Collapses, Run;
    if ByteLength(input) < MIN_BYTES { return "", false; }
    var lines := Split(input, '\n');
    var out: seq<string> := [];
    var collapsed := false;
    var i := 0;
    assert lines[0..] == lines;
    while i < |lines|
      invariant i <= |lines| && Collapse(lines) == out + Collapse(lines[i..])
      invariant Collapses(lines) == (collapsed || Collapses(lines[i..]))
      decreases |lines| - i
    {
      var j := i + 1;
      while j < |lines| && lines[j] == lines[i]
        invariant i < j <= |lines| && forall k | i <= k < j :: lines[k] == lines[i]
        decreases |lines| - j
      {
        j := j + 1;
      }
      CollapseRun(lines, i, j);
      var run := EmitRun(lines, i, j);
      assert out + (run + Collapse(lines[j..])) == out + run + Collapse(lines[j..]);
      out := out + run;
      if j - i >= MIN_RUN && IsCollapsible(lines[i]) { collapsed := true; }
      i := j;
    }
    assert lines[|lines|..] == [] && out + [] == out;
    NothingCollapses();
    if !collapsed { return "", false; }
    var text := Join(out, '\n');
    if ByteLength(text) >= ByteLength(input) { return "", false; }
    result, ok := text, true;
  }

  /** The first line of a run, then its marker or its other lines. */
  method EmitRun(lines: seq<string>, i: nat, j: nat) returns (out: seq<string>)
    requires i < j <= |lines| && forall k | i <= k < j :: lines[k] == lines[i]
    ensures out == Run(lines[i], j - i)
  {
    hide Marker, IsCollapsible;
    out := [lines[i]];
    if j - i >= MIN_RUN && IsCollapsible(lines[i]) {
      out := out + [Marker(j - i - 1)];
    } else {
      for k := i + 1 to j
        invariant out == lines[i..k]
      {
        out := out + [lines[k]];
      }
      CopiesAre(lines, lines[i], i, j);
    }
  }

  lemma NothingCollapses()
    ensures Collapse([]) == [] && !Collapses([])
  {
  }

  lemma CollapseRun(lines: seq<string>, i: nat, j: nat)
    requires i < j <= |lines| && (forall k | i <= k < j :: lines[k] == lines[i]) &&
             (j < |lines| ==> lines[j] != lines[i])
    ensures Collapse(lines[i..]) == Run(lines[i], j - i) + Collapse(lines[j..])
    ensures Collapses(lines[i..]) <==> (j - i >= MIN_RUN && IsCollapsible(lines[i])) || Collapses(lines[j..])
  {
    hide Marker, IsCollapsible;
    var s := lines[i..];
    RunOfLinesIs(s, 1, j - i);
    assert s[j - i..] == lines[j..];
  }

  lemma {:induction false} RunOfLinesIs(s: seq<string>, j: nat, n: nat)
    requires 0 < j <= n <= |s| && (forall k | 0 <= k < n :: s[k] == s[0]) && (n < |s| ==> s[n] != s[0])
    ensures RunOfLines(s, 0, j) == n
    decreases n - j
  {
    if j < n { RunOfLinesIs(s, j + 1, n); }
  }
}
