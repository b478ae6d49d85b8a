/** Which elided views of a file listing get true line numbers back. */
module ListingViews {
  import opened GoText
  import opened Elision
  import opened ListingNumbers
  import DiffElision
  import JsonText
  import RepetitionElision

  /** The marker of the diff elider states its count. */
  lemma DiffMarkerCounts(n: nat, cr: string)
    ensures ElidedCount(DiffElision.Marker(n) + cr) == Some(n)
  {
    var head, words, what := ELLIPSIS + " ", "context ", "lines elided (caveman)";
    assert forall k | 0 <= k < |head| :: !JsonText.IsDigit(head[k]);
    assert forall k | 0 <= k < |words| :: IsWordChar(words[k]);
    assert what in ELISIONS by { assert ELISIONS[0] == what; }
    assert DiffElision.MARKER_TEXT == words + what;
    hide Itoa, ElidedCount;
    MarkerStatesCount(head, n, words, what, DiffElision.MARKER_TEXT, " " + ELLIPSIS, cr);
  }

  lemma DiffMarkerShows(n: nat, cr: string)
    ensures !IsBlank(DiffElision.Marker(n) + cr)
  {
    hide Itoa;
    assert (DiffElision.Marker(n) + cr)[0] == ELLIPSIS[0];
  }

  /** The marker of the run-length elider states its count. */
  lemma RepetitionMarkerCounts(n: nat)
    ensures ElidedCount(RepetitionElision.Marker(n)) == Some(n)
  {
    var head, words, what := RepetitionElision.PREFIX, "identical ", "lines elided \U{2026}";
    assert forall k | 0 <= k < |head| :: !JsonText.IsDigit(head[k]);
    assert forall k | 0 <= k < |words| :: IsWordChar(words[k]);
    assert what in ELISIONS by { assert ELISIONS[3] == what; }
    assert RepetitionElision.MARKER_TEXT == words + what;
    hide Itoa, ElidedCount;
    MarkerStatesCount(head, n, words, what, RepetitionElision.MARKER_TEXT, "", "");
    NothingAdded(RepetitionElision.Marker(n));
  }

  lemma NothingAdded(s: string)
    ensures s + "" + "" == s
  {
  }

  /** Line numbers come back truly on every view of the diff elider none of whose markers equals a line of the
      source. */
  lemma DiffViewRestoresNumbers(lines: seq<string>, cr: string, numbers: seq<nat>, q: nat)
    requires lines != []
    requires forall p | p in Pieces(DiffElision.Keep(lines)) && p.Gap? :: DiffElision.Marker(p.count) + cr !in lines
    requires Restore(lines, numbers, DiffElision.View(lines, cr)).Some?
    requires var pieces := Pieces(DiffElision.Keep(lines));
             q < |pieces| && pieces[q].Shown? && pieces[q].index < |lines| && !IsBlank(lines[pieces[q].index])
    ensures var k := Pieces(DiffElision.Keep(lines))[q].index;
            k < |numbers| && |Restore(lines, numbers, DiffElision.View(lines, cr)).value| > q &&
            Restore(lines, numbers, DiffElision.View(lines, cr)).value[q] == Itoa(numbers[k]) + "\t" + lines[k]
  {
    hide Pieces, Restore, Itoa, Tiles, DiffElision.Marker, DiffElision.Keep, DiffElision.View, IsBlank, ElidedCount;
    var pieces, view := Pieces(DiffElision.Keep(lines)), DiffElision.View(lines, cr);
    DiffElision.ViewKeepsChanges(lines, cr);
    forall r | 0 <= r < |pieces| ensures IsBodyLine(lines, pieces[r], view[r]) {
      if pieces[r].Gap? {
        DiffMarkerCounts(pieces[r].count, cr);
        DiffMarkerShows(pieces[r].count, cr);
      }
    }
    RestoredNumbersAreTrue(lines, numbers, pieces, view, q);
  }

  /* ---- Runs ---- */

  /** A run of `n` lines from line `at` on: its first line and a marker for the others, or every line. */
  function RunPieces(line: string, n: nat, at: nat): seq<Piece> {
    if n >= RepetitionElision.MIN_RUN && RepetitionElision.IsCollapsible(line) then [Shown(at), Gap(at + 1, n - 1)]
    else seq(n, i requires 0 <= i < n => Shown(at + i))
  }

  /** What the run-length elider does to the lines from `at` on. */
  function CollapsePieces(lines: seq<string>, at: nat): seq<Piece>
    requires at <= |lines|
    decreases |lines| - at
  {
    if at == |lines| then []
    else
      var n := RepetitionElision.RunOfLines(lines[at..], 0, 1);
      RunPieces(lines[at], n, at) + CollapsePieces(lines, at + n)
  }

  /** A line of the view is the line it shows, or the marker of the lines it counts. */
  predicate IsCollapsed(lines: seq<string>, p: Piece, line: string) {
    if p.Shown? then p.index < |lines| && line == lines[p.index]
    else p.count > 0 && line == RepetitionElision.Marker(p.count)
  }

  predicate AreCollapsed(lines: seq<string>, pieces: seq<Piece>, view: seq<string>) {
    |pieces| == |view| && forall r | 0 <= r < |pieces| :: IsCollapsed(lines, pieces[r], view[r])
  }

  lemma CollapsedThen(lines: seq<string>, pieces: seq<Piece>, view: seq<string>, pieces': seq<Piece>,
                      view': seq<string>)
    requires AreCollapsed(lines, pieces, view) && AreCollapsed(lines, pieces', view')
    ensures AreCollapsed(lines, pieces + pieces', view + view')
  {
    hide IsCollapsed;
  }

  lemma {:induction false} EachShown(n: nat, at: nat)
    ensures Tiles(seq(n, i requires 0 <= i < n => Shown(at + i)), at, at + n)
    decreases n
  {
    var pieces := seq(n, i requires 0 <= i < n => Shown(at + i));
    if n > 0 {
      EachShown(n - 1, at + 1);
      assert pieces[1..] == seq(n - 1, i requires 0 <= i < n - 1 => Shown(at + 1 + i));
    }
  }

  lemma RunShows(lines: seq<string>, at: nat, n: nat)
    requires at + n <= |lines| && n > 0 && forall k | at <= k < at + n :: lines[k] == lines[at]
    ensures var pieces, run := RunPieces(lines[at], n, at), RepetitionElision.Run(lines[at], n);
            Tiles(pieces, at, at + n) && AreCollapsed(lines, pieces, run)
  {
    hide RepetitionElision.IsCollapsible, RepetitionElision.Marker;
    RepetitionElision.CopiesHold(lines[at], n);
    EachShown(n, at);
    if n >= RepetitionElision.MIN_RUN && RepetitionElision.IsCollapsible(lines[at]) {
      var gap := [Gap(at + 1, n - 1)];
      assert RunPieces(lines[at], n, at)[1..] == gap && gap[1..] == [];
      assert Tiles(gap, at + 1, at + n);
    }
  }

  /** The first of the runs from `at` on. */
  lemma NextRun(lines: seq<string>, at: nat) returns (n: nat)
    requires at < |lines|
    ensures n > 0 && at + n <= |lines| && forall k | at <= k < at + n :: lines[k] == lines[at]
    ensures CollapsePieces(lines, at) == RunPieces(lines[at], n, at) + CollapsePieces(lines, at + n)
    ensures RepetitionElision.Collapse(lines[at..]) ==
            RepetitionElision.Run(lines[at], n) + RepetitionElision.Collapse(lines[at + n..])
  {
    hide RunPieces, RepetitionElision.Run;
    n := RepetitionElision.RunOfLines(lines[at..], 0, 1);
    assert forall k | at <= k < at + n :: lines[k] == lines[at..][k - at];
    assert lines[at..][n..] == lines[at + n..];
  }

  /** The pieces from `at` on tile the lines, and the view shows them. */
  ghost predicate ShowsFrom(lines: seq<string>, at: nat, pieces: seq<Piece>, view: seq<string>) {
    Tiles(pieces, at, |lines|) && AreCollapsed(lines, pieces, view)
  }

  lemma RunThen(lines: seq<string>, at: nat, n: nat, pieces: seq<Piece>, view: seq<string>)
    requires n > 0 && at + n <= |lines| && (forall k | at <= k < at + n :: lines[k] == lines[at])
    requires ShowsFrom(lines, at + n, pieces, view)
    ensures ShowsFrom(lines, at, RunPieces(lines[at], n, at) + pieces, RepetitionElision.Run(lines[at], n) + view)
  {
    hide RunPieces, AreCollapsed, Tiles, RepetitionElision.Run;
    RunShows(lines, at, n);
    TilesThen(RunPieces(lines[at], n, at), pieces, at, at + n, |lines|);
    CollapsedThen(lines, RunPieces(lines[at], n, at), RepetitionElision.Run(lines[at], n), pieces, view);
  }

  /** The view tiles the lines, run by run. */
  lemma {:induction false} CollapseShows(lines: seq<string>, at: nat)
    requires at <= |lines|
    ensures ShowsFrom(lines, at, CollapsePieces(lines, at), RepetitionElision.Collapse(lines[at..]))
    decreases |lines| - at
  {
    hide ShowsFrom, CollapsePieces, RunPieces, RepetitionElision.Run, RepetitionElision.Collapse;
    if at == |lines| {
      NothingShows(lines);
    } else {
      var n := NextRun(lines, at);
      CollapseShows(lines, at + n);
      RunThen(lines, at, n, CollapsePieces(lines, at + n), RepetitionElision.Collapse(lines[at + n..]));
    }
  }

  lemma NothingShows(lines: seq<string>)
    ensures ShowsFrom(lines, |lines|, CollapsePieces(lines, |lines|), RepetitionElision.Collapse(lines[|lines|..]))
  {
    assert lines[|lines|..] == [];
    RepetitionElision.NothingCollapses();
  }

  lemma RepetitionMarkerShows(n: nat)
    ensures !IsBlank(RepetitionElision.Marker(n))
  {
    hide Itoa;
    assert RepetitionElision.Marker(n)[0] == ELLIPSIS[0];
  }

  /** Line numbers come back truly on every view of the run-length elider none of whose markers equals a line of the
      source. */
  lemma RepetitionViewRestoresNumbers(lines: seq<string>, numbers: seq<nat>, q: nat)
    requires lines != []
    requires forall p | p in CollapsePieces(lines, 0) && p.Gap? :: RepetitionElision.Marker(p.count) !in lines
    requires Restore(lines, numbers, RepetitionElision.Collapse(lines)).Some?
    requires var pieces := CollapsePieces(lines, 0);
             q < |pieces| && pieces[q].Shown? && pieces[q].index < |lines| && !IsBlank(lines[pieces[q].index])
    ensures var k := CollapsePieces(lines, 0)[q].index;
            k < |numbers| && |Restore(lines, numbers, RepetitionElision.Collapse(lines)).value| > q &&
            Restore(lines, numbers, RepetitionElision.Collapse(lines)).value[q] == Itoa(numbers[k]) + "\t" + lines[k]
  {
    hide CollapsePieces, Restore, Itoa, Tiles, RepetitionElision.Marker, RepetitionElision.Collapse, IsBlank,
         ElidedCount;
    var pieces, view := CollapsePieces(lines, 0), RepetitionElision.Collapse(lines);
    assert lines[0..] == lines;
    CollapseShows(lines, 0);
    forall r | 0 <= r < |pieces| ensures IsBodyLine(lines, pieces[r], view[r]) {
      assert IsCollapsed(lines, pieces[r], view[r]);
      if pieces[r].Gap? {
        RepetitionMarkerCounts(pieces[r].count);
        RepetitionMarkerShows(pieces[r].count);
      }
    }
    assert IsCollapsed(lines, pieces[q], view[q]);
    RestoredNumbersAreTrue(lines, numbers, pieces, view, q);
  }
}
