/**
 The keep-and-flush loop of the log elider: kept lines go out as they are, a run of dropped lines becomes one marker
 with its exact count, or goes out as it is when a marker would not pay. Which lines are kept and how a run is
 summarized are inputs.
 */
module LogElision {
  import opened GoText
  import opened Elision
  import opened ListingNumbers
  import JsonText

  const MIN_ELIDE_UNITS := 3

  const ELIDED := "lines elided (caveman)"

  function Closing(summary: string): string {
    if summary == "" then " " + ELLIPSIS else ": " + summary + " " + ELLIPSIS
  }

  function Marker(n: nat, summary: string): string {
    (ELLIPSIS + " ") + Itoa(n) + " " + ELIDED + Closing(summary)
  }

  /** A run of three or more always becomes a marker, a shorter one only when that halves it and says something. */
  predicate WorthEliding(units: nat, markerBytes: nat, elidedBytes: nat, summary: string) {
    units >= MIN_ELIDE_UNITS || (summary != "" && 2 * markerBytes <= elidedBytes)
  }

  /** The bytes of a run with its line breaks. */
  function RunBytes(run: seq<string>): nat {
    if run == [] then 0 else ByteLength(run[0]) + 1 + RunBytes(run[1..])
  }

  type Summarize = seq<string> -> string

  predicate IsWorth(run: seq<string>, summarize: Summarize) {
    WorthEliding(|run|, ByteLength(Marker(|run|, summarize(run))), RunBytes(run), summarize(run))
  }

  /** What a run of dropped lines turns into. */
  function Flushed(run: seq<string>, summarize: Summarize, cr: string): seq<string> {
    if run == [] then []
    else if IsWorth(run, summarize) then [Marker(|run|, summarize(run)) + cr]
    else run
  }

  /** The view of the lines from `i` on, when the lines since `start` are dropped and not yet flushed. */
  function ViewFrom(lines: seq<string>, keep: seq<bool>, i: nat, start: nat, summarize: Summarize,
                    cr: string): seq<string>
    requires |keep| == |lines| && start <= i <= |lines|
    decreases |lines| - i
  {
    if i == |lines| then Flushed(lines[start..i], summarize, cr)
    else if keep[i] then
      Flushed(lines[start..i], summarize, cr) + [lines[i]] + ViewFrom(lines, keep, i + 1, i + 1, summarize, cr)
    else ViewFrom(lines, keep, i + 1, start, summarize, cr)
  }

  function View(lines: seq<string>, keep: seq<bool>, summarize: Summarize, cr: string): seq<string>
    requires |keep| == |lines|
  {
    ViewFrom(lines, keep, 0, 0, summarize, cr)
  }

  /* ---- The view, piece by piece ---- */

  function ShownRun(a: nat, b: nat): (pieces: seq<Piece>)
    requires a <= b
    ensures |pieces| == b - a
    decreases b - a
  {
    if a == b then [] else [Shown(a)] + ShownRun(a + 1, b)
  }

  function RunPieces(lines: seq<string>, start: nat, i: nat, summarize: Summarize): seq<Piece>
    requires start <= i <= |lines|
  {
    if start < i && IsWorth(lines[start..i], summarize) then [Gap(start, i - start)] else ShownRun(start, i)
  }

  function LogPiecesFrom(lines: seq<string>, keep: seq<bool>, i: nat, start: nat, summarize: Summarize): seq<Piece>
    requires |keep| == |lines| && start <= i <= |lines|
    decreases |lines| - i
  {
    if i == |lines| then RunPieces(lines, start, i, summarize)
    else if keep[i] then
      RunPieces(lines, start, i, summarize) + [Shown(i)] + LogPiecesFrom(lines, keep, i + 1, i + 1, summarize)
    else LogPiecesFrom(lines, keep, i + 1, start, summarize)
  }

  function LogPieces(lines: seq<string>, keep: seq<bool>, summarize: Summarize): seq<Piece>
    requires |keep| == |lines|
  {
    LogPiecesFrom(lines, keep, 0, 0, summarize)
  }

  /** What stands in the view for a piece. */
  predicate IsRendered(lines: seq<string>, p: Piece, line: string, summarize: Summarize, cr: string) {
    First(p) + Size(p) <= |lines| &&
    if p.Shown? then line == lines[p.index]
    else p.count > 0 && line == Marker(p.count, summarize(lines[p.first..p.first + p.count])) + cr
  }

  /** A view and its pieces correspond, one line to one piece. */
  predicate Corresponds(lines: seq<string>, pieces: seq<Piece>, view: seq<string>, summarize: Summarize, cr: string) {
    |view| == |pieces| && forall q | 0 <= q < |pieces| :: IsRendered(lines, pieces[q], view[q], summarize, cr)
  }

  lemma CorrespondsAppend(lines: seq<string>, a: seq<Piece>, u: seq<string>, b: seq<Piece>, v: seq<string>,
                          summarize: Summarize, cr: string)
    requires Corresponds(lines, a, u, summarize, cr) && Corresponds(lines, b, v, summarize, cr)
    ensures Corresponds(lines, a + b, u + v, summarize, cr)
  {
    hide IsRendered;
    forall q | 0 <= q < |a + b| ensures IsRendered(lines, (a + b)[q], (u + v)[q], summarize, cr) {
      if q >= |a| { assert (a + b)[q] == b[q - |a|] && (u + v)[q] == v[q - |a|]; }
    }
  }

  lemma {:induction false} TilesAppend(a: seq<Piece>, b: seq<Piece>, x: nat, y: nat, z: nat)
    requires Tiles(a, x, y) && Tiles(b, y, z)
    ensures Tiles(a + b, x, z)
    decreases |a|
  {
    if a == [] {
      assert a + b == b;
    } else {
      TilesAppend(a[1..], b, x + Size(a[0]), y, z);
      assert (a + b)[1..] == a[1..] + b;
    }
  }

  lemma {:induction false} ShownRunTiles(lines: seq<string>, a: nat, b: nat, summarize: Summarize, cr: string)
    requires a <= b <= |lines|
    ensures Tiles(ShownRun(a, b), a, b) && Corresponds(lines, ShownRun(a, b), lines[a..b], summarize, cr)
    decreases b - a
  {
    if a < b {
      ShownRunTiles(lines, a + 1, b, summarize, cr);
      assert ShownRun(a, b)[1..] == ShownRun(a + 1, b);
      CorrespondsAppend(lines, [Shown(a)], [lines[a]], ShownRun(a + 1, b), lines[a + 1..b], summarize, cr);
      assert [lines[a]] + lines[a + 1..b] == lines[a..b];
    }
  }

  lemma GapTiles(lines: seq<string>, start: nat, i: nat, summarize: Summarize, cr: string)
    requires start < i <= |lines|
    ensures Tiles([Gap(start, i - start)], start, i)
    ensures Corresponds(lines, [Gap(start, i - start)], [Marker(i - start, summarize(lines[start..i])) + cr],
                        summarize, cr)
  {
    hide Marker;
    assert [Gap(start, i - start)][1..] == [];
    assert lines[start..start + (i - start)] == lines[start..i];
  }

  lemma RunTiles(lines: seq<string>, start: nat, i: nat, summarize: Summarize, cr: string)
    requires start <= i <= |lines|
    ensures Tiles(RunPieces(lines, start, i, summarize), start, i)
    ensures Corresponds(lines, RunPieces(lines, start, i, summarize), Flushed(lines[start..i], summarize, cr),
                        summarize, cr)
  {
    hide IsWorth, Marker, Tiles, Corresponds, ShownRun;
    if start < i && IsWorth(lines[start..i], summarize) {
      GapTiles(lines, start, i, summarize, cr);
    } else {
      ShownRunTiles(lines, start, i, summarize, cr);
      if start == i { assert lines[start..i] == []; }
    }
  }

  /** Every line is shown once or counted once by the marker that stands for its run. */
  lemma {:induction false} ViewTiles(lines: seq<string>, keep: seq<bool>, i: nat, start: nat, summarize: Summarize,
                                     cr: string)
    requires |keep| == |lines| && start <= i <= |lines|
    ensures Tiles(LogPiecesFrom(lines, keep, i, start, summarize), start, |lines|)
    ensures Corresponds(lines, LogPiecesFrom(lines, keep, i, start, summarize),
                        ViewFrom(lines, keep, i, start, summarize, cr), summarize, cr)
    decreases |lines| - i
  {
    hide RunPieces, Flushed, Tiles, Corresponds;
    RunTiles(lines, start, i, summarize, cr);
    if i < |lines| {
      if keep[i] {
        ViewTiles(lines, keep, i + 1, i + 1, summarize, cr);
        OneShown(lines, i, summarize, cr);
        var run, flushed := RunPieces(lines, start, i, summarize), Flushed(lines[start..i], summarize, cr);
        TilesAppend(run, [Shown(i)], start, i, i + 1);
        CorrespondsAppend(lines, run, flushed, [Shown(i)], [lines[i]], summarize, cr);
        TilesAppend(run + [Shown(i)], LogPiecesFrom(lines, keep, i + 1, i + 1, summarize), start, i + 1, |lines|);
        CorrespondsAppend(lines, run + [Shown(i)], flushed + [lines[i]],
                          LogPiecesFrom(lines, keep, i + 1, i + 1, summarize),
                          ViewFrom(lines, keep, i + 1, i + 1, summarize, cr), summarize, cr);
      } else {
        ViewTiles(lines, keep, i + 1, start, summarize, cr);
      }
    }
  }

  lemma OneShown(lines: seq<string>, i: nat, summarize: Summarize, cr: string)
    requires i < |lines|
    ensures Tiles([Shown(i)], i, i + 1) && Corresponds(lines, [Shown(i)], [lines[i]], summarize, cr)
  {
    assert [Shown(i)][1..] == [];
  }

  /** A kept line is never part of a gap. */
  lemma {:induction false} KeptIsShown(lines: seq<string>, keep: seq<bool>, i: nat, start: nat, summarize: Summarize,
                                       k: nat)
    requires |keep| == |lines| && start <= i <= k < |lines| && keep[k]
    ensures Shown(k) in LogPiecesFrom(lines, keep, i, start, summarize)
    decreases |lines| - i
  {
    hide RunPieces;
    if i == k {
      var run, rest := RunPieces(lines, start, i, summarize), LogPiecesFrom(lines, keep, i + 1, i + 1, summarize);
      assert (run + [Shown(i)] + rest)[|run|] == Shown(i);
    } else if keep[i] {
      KeptIsShown(lines, keep, i + 1, i + 1, summarize, k);
    } else {
      KeptIsShown(lines, keep, i + 1, start, summarize, k);
    }
  }

  /** The view: kept lines in place, and markers whose counts are exactly the lines they replaced, so that shown lines
      and counts add up to the input. */
  lemma ViewIsExact(lines: seq<string>, keep: seq<bool>, summarize: Summarize, cr: string)
    requires |keep| == |lines|
    ensures var pieces := LogPieces(lines, keep, summarize);
            Tiles(pieces, 0, |lines|) && Counted(pieces) == |lines| &&
            Corresponds(lines, pieces, View(lines, keep, summarize, cr), summarize, cr) &&
            forall k | 0 <= k < |lines| && keep[k] :: Shown(k) in pieces
  {
    ViewTiles(lines, keep, 0, 0, summarize, cr);
    TilesConserve(LogPieces(lines, keep, summarize), 0, |lines|);
    forall k | 0 <= k < |lines| && keep[k] ensures Shown(k) in LogPieces(lines, keep, summarize) {
      KeptIsShown(lines, keep, 0, 0, summarize, k);
    }
  }

  /* ---- Line numbers behind the elider ---- */

  lemma MarkerCounts(n: nat, summary: string, cr: string)
    ensures ElidedCount(Marker(n, summary) + cr) == Some(n)
  {
    var head := ELLIPSIS + " ";
    assert forall k | 0 <= k < |head| :: !JsonText.IsDigit(head[k]);
    assert ELIDED in ELISIONS by { assert ELISIONS[0] == ELIDED; }
    hide Itoa, ElidedCount, Closing;
    MarkerStatesCount(head, n, "", ELIDED, ELIDED, Closing(summary), cr);
  }

  lemma MarkerShows(n: nat, summary: string, cr: string)
    ensures !IsBlank(Marker(n, summary) + cr)
  {
    hide Itoa;
    assert (Marker(n, summary) + cr)[0] == ELLIPSIS[0];
  }

  /** A marker of the view is not also a line of the source. */
  predicate IsMarkerApart(lines: seq<string>, pieces: seq<Piece>, view: seq<string>, r: nat) {
    r < |pieces| && r < |view| && pieces[r].Gap? ==> view[r] !in lines
  }

  /** Line numbers are put back truly on every view of the log elider, unless a marker equals a line of the source. */
  lemma ViewRestoresNumbers(lines: seq<string>, keep: seq<bool>, summarize: Summarize, cr: string, note: seq<string>,
                            numbers: seq<nat>, q: nat)
    requires |keep| == |lines| > 0
    requires forall r | 0 <= r < |View(lines, keep, summarize, cr)| ::
             IsMarkerApart(lines, LogPieces(lines, keep, summarize), View(lines, keep, summarize, cr), r)
    requires Restore(lines, numbers, View(lines, keep, summarize, cr) + note).Some?
    requires var pieces := LogPieces(lines, keep, summarize);
             q < |pieces| && pieces[q].Shown? && pieces[q].index < |lines| && !IsBlank(lines[pieces[q].index])
    ensures var k := LogPieces(lines, keep, summarize)[q].index;
            |Restore(lines, numbers, View(lines, keep, summarize, cr) + note).value| > q && k < |numbers| &&
            Restore(lines, numbers, View(lines, keep, summarize, cr) + note).value[q] ==
              Itoa(numbers[k]) + "\t" + lines[k]
  {
    hide LogPieces, View, Restore, Itoa, Tiles, Marker, IsBlank, ElidedCount;
    var pieces, view := LogPieces(lines, keep, summarize), View(lines, keep, summarize, cr);
    ViewIsExact(lines, keep, summarize, cr);
    var body := view + note;
    forall r | 0 <= r < |pieces| ensures IsBodyLine(lines, pieces[r], body[r]) {
      assert body[r] == view[r] && IsRendered(lines, pieces[r], view[r], summarize, cr);
      if pieces[r].Gap? {
        var summary := summarize(lines[pieces[r].first..pieces[r].first + pieces[r].count]);
        MarkerCounts(pieces[r].count, summary, cr);
        MarkerShows(pieces[r].count, summary, cr);
        assert IsMarkerApart(lines, pieces, view, r);
      }
    }
    assert IsRendered(lines, pieces[q], view[q], summarize, cr);
    RestoredNumbersAreTrue(lines, numbers, pieces, body, q);
  }

  /* ---- The loop as it runs ---- */

  /** The output so far, the run of dropped lines that waits, and the bytes that markers have replaced. */
  class Flusher {
    var out: seq<string>
    var run: seq<string>
    var elidedBytes: nat

    constructor ()
      ensures out == [] && run == [] && elidedBytes == 0
    {
      out, run, elidedBytes := [], [], 0;
    }

    method Flush(summarize: Summarize, cr: string)
      modifies this
      ensures out == old(out) + Flushed(old(run), summarize, cr) && run == []
      ensures elidedBytes == old(elidedBytes) +
              if old(run) != [] && IsWorth(old(run), summarize) then RunBytes(old(run)) else 0
    {
      hide Marker;
      if run == [] {
        assert out + [] == out;
        return;
      }
      var runBytes := 0;
      assert run[0..] == run;
      for i := 0 to |run|
        invariant run == old(run) && out == old(out) && elidedBytes == old(elidedBytes)
        invariant RunBytes(run) == runBytes + RunBytes(run[i..])
      {
        assert run[i..][0] == run[i] && run[i..][1..] == run[i + 1..];
        runBytes := runBytes + ByteLength(run[i]) + 1;
      }
      var summary := summarize(run);
      var marker := Marker(|run|, summary);
      if !WorthEliding(|run|, ByteLength(marker), runBytes, summary) {
        out, run := out + run, [];
        return;
      }
      out := out + [marker + cr];
      elidedBytes := elidedBytes + runBytes;
      run := [];
    }
  }

  /** Shows kept lines and flushes the run before each of them and at the end. */
  method ElideLines(lines: seq<string>, keep: seq<bool>, summarize: Summarize, cr: string)
    returns (out: seq<string>, elidedBytes: nat)
    requires |keep| == |lines|
    ensures out == View(lines, keep, summarize, cr)
  {
    hide Flushed, IsWorth, RunBytes;
    var f := new Flusher();
    ghost var start: nat := 0;
    for i := 0 to |lines|
      invariant start <= i && f.run == lines[start..i]
      invariant View(lines, keep, summarize, cr) == f.out + ViewFrom(lines, keep, i, start, summarize, cr)
    {
      if keep[i] {
        ghost var before, flushed := f.out, Flushed(f.run, summarize, cr);
        f.Flush(summarize, cr);
        f.out := f.out + [lines[i]];
        start := i + 1;
        ghost var rest := ViewFrom(lines, keep, i + 1, i + 1, summarize, cr);
        assert before + (flushed + [lines[i]] + rest) == f.out + rest;
      } else {
        f.run := f.run + [lines[i]];
      }
    }
    f.Flush(summarize, cr);
    out, elidedBytes := f.out, f.elidedBytes;
  }
}
