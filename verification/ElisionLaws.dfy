/** When the line-oriented eliders act, and on which lines, said of the lines themselves. */
module ElisionLaws {
  import opened GoText
  import opened Elision
  import DiffElision
  import RepetitionElision
  import LogElision

  /* ---- Diffs ---- */

  /** A changed line, a header, or a marker of an earlier pass. */
  predicate IsChangeOrHeader(line: string) {
    "+" <= line || "-" <= line || Contains(line, "context lines elided (caveman)") ||
    exists p | p in ["diff --git ", "index ", "--- ", "+++ ", "@@ ", "similarity index ", "dissimilarity index ",
                     "rename from ", "rename to ", "copy from ", "copy to ", "old mode ", "new mode ",
                     "new file mode ", "deleted file mode ", "Binary files ", "GIT binary patch", "\\"] :: p <= line
  }

  lemma AnchorExactly(line: string)
    ensures DiffElision.IsAnchor(line) <==> IsChangeOrHeader(line)
  {
    hide Contains;
  }

  /** A line of a diff stays exactly when a changed line or a header stands within two lines of it. */
  lemma DiffKeepsExactly(lines: seq<string>, j: nat)
    requires j < |lines|
    ensures DiffElision.Keep(lines)[j] <==>
            exists i: int | 0 <= i < |lines| && j - 2 <= i <= j + 2 :: IsChangeOrHeader(lines[i])
  {
    hide DiffElision.IsAnchor, IsChangeOrHeader;
    forall i | 0 <= i < |lines| ensures DiffElision.IsAnchor(lines[i]) <==> IsChangeOrHeader(lines[i]) {
      AnchorExactly(lines[i]);
    }
  }

  predicate IsBreak(input: string, crlf: bool, k: nat) {
    k < |input| && input[k] == '\n' && (crlf ==> k > 0 && input[k - 1] == '\r')
  }

  function Breaks(input: string, crlf: bool): (ks: set<nat>) {
    set k: nat | k < |input| && IsBreak(input, crlf, k)
  }

  lemma {:induction false} BreaksCount(input: string, crlf: bool)
    ensures DiffElision.CountBreaks(input, crlf) == |Breaks(input, crlf)|
    decreases |input|
  {
    if input != "" {
      var n := |input| - 1;
      BreaksCount(input[..n], crlf);
      var rest := Breaks(input[..n], crlf);
      forall k: nat | k < n ensures IsBreak(input[..n], crlf, k) <==> IsBreak(input, crlf, k) {}
      if IsBreak(input, crlf, n) {
        assert Breaks(input, crlf) == rest + {n};
      } else {
        assert Breaks(input, crlf) == rest;
      }
    }
  }

  /** A marker ends in a carriage return exactly when more than half of the line breaks have one. */
  lemma CrExactly(input: string)
    ensures DiffElision.CrSuffix(input) == (if 2 * |Breaks(input, true)| > |Breaks(input, false)| then "\r" else "")
  {
    hide Breaks;
    BreaksCount(input, false);
    BreaksCount(input, true);
    FewerCr(input);
  }

  lemma FewerCr(input: string)
    ensures |Breaks(input, true)| <= |Breaks(input, false)|
  {
    forall k | k in Breaks(input, true) ensures k in Breaks(input, false) { assert IsBreak(input, false, k); }
    var more := Breaks(input, false) - Breaks(input, true);
    assert Breaks(input, false) == Breaks(input, true) + more;
  }

  predicate HasDroppedPair(keep: seq<bool>, start: nat) {
    exists k | start <= k < |keep| - 1 :: !keep[k] && !keep[k + 1]
  }

  lemma {:induction false} FewerPieces(keep: seq<bool>, i: nat, start: nat)
    requires start <= i <= |keep| && forall k | start <= k < i :: !keep[k]
    ensures |PiecesFrom(keep, i, start)| <= |keep| - start
    ensures |PiecesFrom(keep, i, start)| < |keep| - start <==> HasDroppedPair(keep, start)
    decreases |keep| - i
  {
    if start + 2 <= i { assert !keep[start] && !keep[start + 1]; }
    if i < |keep| {
      if keep[i] {
        FewerPieces(keep, i + 1, i + 1);
        if HasDroppedPair(keep, start) && i < start + 2 {
          var k :| start <= k < |keep| - 1 && !keep[k] && !keep[k + 1];
          assert k >= i + 1;
        }
      } else {
        FewerPieces(keep, i + 1, start);
      }
    }
  }

  /** A diff is elided exactly when it has at least twelve lines and two neighbouring ones go. */
  lemma DiffElidesExactly(input: string)
    ensures var lines := SplitLines(input).0;
            DiffElision.Elide(input).Some? <==> |lines| >= 12 && HasDroppedPair(DiffElision.Keep(lines), 0)
  {
    hide SplitLines, JoinLines, DiffElision.Keep, DiffElision.CrSuffix;
    FewerPieces(DiffElision.Keep(SplitLines(input).0), 0, 0);
  }

  /* ---- Repeated lines ---- */

  /** Three identical lines in a row that are not blank and not markers themselves. */
  predicate IsRun(lines: seq<string>, i: nat) {
    i + 2 < |lines| && lines[i] == lines[i + 1] == lines[i + 2] && !IsBlank(lines[i]) &&
    !("\U{2026} caveman: " <= lines[i])
  }

  lemma {:induction false} RunsCollapse(lines: seq<string>, i: nat)
    requires RepetitionElision.IsTriple(lines, i)
    ensures RepetitionElision.Collapses(lines)
    decreases |lines|
  {
    hide RepetitionElision.IsCollapsible;
    var n := RepetitionElision.RunOfLines(lines, 0, 1);
    if i < n {
      assert lines[i] == lines[0];
      assert n != i + 1 && n != i + 2;
    } else {
      assert lines[n..][i - n] == lines[i] && lines[n..][i + 1 - n] == lines[i + 1];
      assert lines[n..][i + 2 - n] == lines[i + 2];
      RunsCollapse(lines[n..], i - n);
    }
  }

  lemma {:induction false} CollapsesHasRun(lines: seq<string>) returns (i: nat)
    requires RepetitionElision.Collapses(lines)
    ensures RepetitionElision.IsTriple(lines, i)
    decreases |lines|
  {
    hide RepetitionElision.IsCollapsible;
    var n := RepetitionElision.RunOfLines(lines, 0, 1);
    i := 0;
    if !(n >= 3 && RepetitionElision.IsCollapsible(lines[0])) {
      var k := CollapsesHasRun(lines[n..]);
      i := n + k;
    }
  }

  /** A text is compressed exactly when it has two hundred bytes, some line stands three times in a row, and the result
      is smaller. */
  lemma RepetitionActsExactly(input: string)
    ensures var lines := Split(input, '\n');
            RepetitionElision.Compressed(input).Some? <==>
            (ByteLength(input) >= 200 && (exists i: nat :: IsRun(lines, i)) &&
             ByteLength(Join(RepetitionElision.Collapse(lines), '\n')) < ByteLength(input))
  {
    hide Split, Join, IsBlank, ByteLength, RepetitionElision.Collapse, RepetitionElision.Collapses;
    var lines := Split(input, '\n');
    forall i: nat ensures IsRun(lines, i) <==> RepetitionElision.IsTriple(lines, i) {}
    if RepetitionElision.Collapses(lines) { var i := CollapsesHasRun(lines); }
    if i: nat :| RepetitionElision.IsTriple(lines, i) { RunsCollapse(lines, i); }
  }

  /* ---- Logs ---- */

  /** The lines from `a` to `b` are dropped, and the lines around them are not. */
  predicate IsDroppedRun(keep: seq<bool>, a: nat, b: nat) {
    a < b <= |keep| && (forall k | a <= k < b :: !keep[k]) && (a > 0 ==> keep[a - 1]) && (b < |keep| ==> keep[b])
  }

  /** Three lines or more are worth a marker, and fewer when it says something and halves them. */
  predicate IsWorthMarker(run: seq<string>, summarize: LogElision.Summarize) {
    var text := "\U{2026} " + Itoa(|run|) + " " + "lines elided (caveman)" + (": " + summarize(run) + " " + "\U{2026}");
    |run| >= 3 || (summarize(run) != "" && 2 * ByteLength(text) <= ByteLength(Join(run, '\n')) + 1)
  }

  /** The bytes of a run are those of its lines with a line break after each. */
  lemma {:induction false} RunBytesAre(run: seq<string>)
    requires run != []
    ensures LogElision.RunBytes(run) == ByteLength(Join(run, '\n')) + 1
    decreases |run|
  {
    if |run| > 1 {
      RunBytesAre(run[1..]);
      BytesAdd(run[0] + ['\n'], Join(run[1..], '\n'));
      BytesAdd(run[0], ['\n']);
      assert ['\n'][1..] == "";
      assert run[0] + ['\n'] + Join(run[1..], '\n') == Join(run, '\n');
    } else {
      assert run[1..] == [];
    }
  }

  lemma MarkerText(n: nat, summary: string)
    requires summary != ""
    ensures LogElision.Marker(n, summary) ==
            "\U{2026} " + Itoa(n) + " " + "lines elided (caveman)" + (": " + summary + " " + "\U{2026}")
  {
    var digits := Itoa(n);
    hide Itoa;
  }

  lemma WorthExactly(run: seq<string>, summarize: LogElision.Summarize)
    requires run != []
    ensures LogElision.IsWorth(run, summarize) <==> IsWorthMarker(run, summarize)
  {
    hide ByteLength, Itoa, LogElision.RunBytes, LogElision.Marker;
    RunBytesAre(run);
    if summarize(run) != "" { MarkerText(|run|, summarize(run)); }
  }

  lemma {:induction false} ShownRunHas(a: nat, b: nat, k: nat)
    requires a <= k < b
    ensures Shown(k) in LogElision.ShownRun(a, b)
    decreases b - a
  {
    if a < k { ShownRunHas(a + 1, b, k); }
  }

  lemma {:induction false} RunIsPieces(lines: seq<string>, keep: seq<bool>, i: nat, start: nat, a: nat, b: nat,
                                       summarize: LogElision.Summarize)
    requires |keep| == |lines| && start <= i <= |lines| && (forall k | start <= k < i :: !keep[k])
    requires IsDroppedRun(keep, a, b) && start <= a && i <= b && (start > 0 ==> keep[start - 1])
    ensures forall p | p in LogElision.RunPieces(lines, a, b, summarize) ::
              p in LogElision.LogPiecesFrom(lines, keep, i, start, summarize)
    decreases |lines| - i
  {
    hide LogElision.RunPieces;
    if i < |lines| {
      if keep[i] {
        if i == b {
          assert start == a;
        } else {
          RunIsPieces(lines, keep, i + 1, i + 1, a, b, summarize);
        }
      } else {
        RunIsPieces(lines, keep, i + 1, start, a, b, summarize);
      }
    } else {
      assert start == a;
    }
  }

  /** A run of dropped lines becomes one marker when it is worth it, and otherwise its lines are shown. */
  lemma LogElidesExactly(lines: seq<string>, keep: seq<bool>, a: nat, b: nat, summarize: LogElision.Summarize)
    requires |keep| == |lines| && IsDroppedRun(keep, a, b)
    ensures var pieces := LogElision.LogPieces(lines, keep, summarize);
            if IsWorthMarker(lines[a..b], summarize) then Gap(a, b - a) in pieces
            else forall k | a <= k < b :: Shown(k) in pieces
  {
    hide LogElision.LogPiecesFrom, IsWorthMarker, LogElision.IsWorth;
    WorthExactly(lines[a..b], summarize);
    RunIsPieces(lines, keep, 0, 0, a, b, summarize);
    forall k | a <= k < b ensures Shown(k) in LogElision.ShownRun(a, b) { ShownRunHas(a, b, k); }
  }
}
