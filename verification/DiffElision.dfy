/** The unified-diff elider: headers and changed lines with two lines around them stay, runs of context are counted. */
module DiffElision {
  import opened GoText
  import opened Elision

  const KEEP_CONTEXT := 2
  const MIN_LINES := 12

  const MARKER_TEXT := "context lines elided (caveman)"
  const HEADER_PREFIXES := [
    "diff --git ", "index ", "--- ", "+++ ", "@@ ", "similarity index ", "dissimilarity index ", "rename from ",
    "rename to ", "copy from ", "copy to ", "old mode ", "new mode ", "new file mode ", "deleted file mode ",
    "Binary files ", "GIT binary patch", "\\"
  ]

  predicate IsStructural(line: string) {
    (exists p | p in HEADER_PREFIXES :: p <= line) || (line != "" && (line[0] == '+' || line[0] == '-'))
  }

  predicate IsAnchor(line: string) {
    IsStructural(line) || Contains(line, MARKER_TEXT)
  }

  function Marker(n: nat): string {
    (ELLIPSIS + " ") + Itoa(n) + " " + MARKER_TEXT + (" " + ELLIPSIS)
  }

  /** A line among the first `n` that anchors line `j`. */
  predicate IsNear(lines: seq<string>, n: nat, j: nat)
    requires n <= |lines|
  {
    exists i | 0 <= i < n :: IsAnchor(lines[i]) && i - KEEP_CONTEXT <= j <= i + KEEP_CONTEXT
  }

  function Keep(lines: seq<string>): (keep: seq<bool>)
    ensures |keep| == |lines|
  {
    seq(|lines|, j requires 0 <= j < |lines| => IsNear(lines, |lines|, j))
  }

  function RenderPiece(lines: seq<string>, p: Piece, cr: string): string {
    if p.Gap? then Marker(p.count) + cr else if p.index < |lines| then lines[p.index] else ""
  }

  function Render(lines: seq<string>, pieces: seq<Piece>, cr: string): (out: seq<string>)
    ensures |out| == |pieces|
  {
    seq(|pieces|, q requires 0 <= q < |pieces| => RenderPiece(lines, pieces[q], cr))
  }

  function View(lines: seq<string>, cr: string): seq<string> {
    Render(lines, Pieces(Keep(lines)), cr)
  }

  /** The ending of a synthesized line: a carriage return when most line breaks have one. */
  function CrSuffix(input: string): string {
    if CountBreaks(input, false) > 0 && CountBreaks(input, true) * 2 > CountBreaks(input, false) then "\r" else ""
  }

  function CountBreaks(input: string, crlf: bool): nat {
    if input == "" then 0
    else
      var n := |input| - 1;
      (if input[n] == '\n' && (!crlf || (n > 0 && input[n - 1] == '\r')) then 1 else 0) + CountBreaks(input[..n], crlf)
  }

  function Elide(input: string): Option<string> {
    var (lines, trailing) := SplitLines(input);
    var out := View(lines, CrSuffix(input));
    if |lines| < MIN_LINES || |out| == |lines| then None else Some(JoinLines(out, trailing))
  }

  /* ---- What is kept ---- */

  /** Headers, changed lines and earlier markers stay with the two lines before and after them, in their order, and
      every other line is counted by exactly one marker, so shown lines and counts add up to the input. */
  lemma ViewKeepsChanges(lines: seq<string>, cr: string)
    ensures var pieces := Pieces(Keep(lines));
            |View(lines, cr)| == |pieces| && Tiles(pieces, 0, |lines|) && Counted(pieces) == |lines| &&
            (forall i, j | 0 <= i < |lines| && IsAnchor(lines[i]) && 0 <= j < |lines| &&
              i - KEEP_CONTEXT <= j <= i + KEEP_CONTEXT ::
               Shown(j) in pieces) &&
            (forall q | 0 <= q < |pieces| ::
               First(pieces[q]) + Size(pieces[q]) <= |lines| &&
               View(lines, cr)[q] == if pieces[q].Shown? then lines[pieces[q].index]
                 else Marker(pieces[q].count) + cr) &&
            (forall q, r | 0 <= q < r < |pieces| :: First(pieces[q]) < First(pieces[r]))
  {
    hide Pieces, IsAnchor, Marker;
    var keep, pieces := Keep(lines), Pieces(Keep(lines));
    ViewIsExact(keep);
    forall i, j | 0 <= i < |lines| && IsAnchor(lines[i]) && 0 <= j < |lines| &&
      i - KEEP_CONTEXT <= j <= i + KEEP_CONTEXT
      ensures Shown(j) in pieces
    {
      assert IsNear(lines, |lines|, j);
      assert keep[j];
    }
    forall q | 0 <= q < |pieces| ensures First(pieces[q]) + Size(pieces[q]) <= |lines| {
      assert Matches(pieces[q], keep);
    }
    forall q, r | 0 <= q < r < |pieces| ensures First(pieces[q]) < First(pieces[r]) {
      TileAt(pieces, 0, |lines|, q);
      ShownInOrder(pieces, 0, |lines|, q, r);
    }
  }

  /* ---- Stability ---- */

  lemma MarkerIsAnchor(n: nat, cr: string)
    ensures IsAnchor(Marker(n) + cr) && Marker(n) != ""
  {
    hide IsStructural, Contains, Itoa;
    var a, b := ELLIPSIS + " " + Itoa(n) + " ", " " + ELLIPSIS + cr;
    ContainsMiddle(a, MARKER_TEXT, b);
    assert Marker(n) + cr == a + MARKER_TEXT + b;
  }

  lemma MarkerIsOneLine(n: nat)
    ensures '\n' !in Marker(n)
  {
    var digits := Itoa(n);
    hide Itoa;
    assert '\n' !in digits;
  }

  /** A kept line has its anchor within two places in the view as well. */
  lemma AnchorStaysNear(lines: seq<string>, q: nat, j: nat, i: nat)
    requires i < |lines| && j < |lines| && IsAnchor(lines[i]) && i - KEEP_CONTEXT <= j <= i + KEEP_CONTEXT
    requires q < |Pieces(Keep(lines))| && Pieces(Keep(lines))[q] == Shown(j)
    ensures exists r :: 0 <= r < |Pieces(Keep(lines))| && r - KEEP_CONTEXT <= q <= r + KEEP_CONTEXT &&
                        Pieces(Keep(lines))[r] == Shown(i)
  {
    hide Pieces, IsAnchor;
    var keep := Keep(lines);
    forall k | 0 <= k < |lines| && i - KEEP_CONTEXT <= k <= i + KEEP_CONTEXT ensures keep[k] {
      assert IsNear(lines, |lines|, k);
    }
    NeighbourShown(keep, q, j);
    if i == j + 2 { NeighbourShown(keep, q + 1, j + 1); }
    if i + 2 == j { NeighbourShown(keep, q - 1, j - 1); }
    var r := q + i - j;
    assert Pieces(keep)[r] == Shown(i);
  }

  lemma EverythingStays(lines: seq<string>, cr: string, q: nat)
    requires q < |View(lines, cr)|
    ensures Keep(View(lines, cr))[q]
  {
    hide Pieces, IsAnchor, Marker, Keep;
    var out, pieces := View(lines, cr), Pieces(Keep(lines));
    ViewIsExact(Keep(lines));
    var r := q;
    if pieces[q].Gap? {
      MarkerIsAnchor(pieces[q].count, cr);
    } else {
      var j := pieces[q].index;
      assert Matches(pieces[q], Keep(lines));
      KeptHasAnchor(lines, j);
      var i :| 0 <= i < |lines| && IsAnchor(lines[i]) && i - KEEP_CONTEXT <= j <= i + KEEP_CONTEXT;
      AnchorStaysNear(lines, q, j, i);
      r :| 0 <= r < |pieces| && r - KEEP_CONTEXT <= q <= r + KEEP_CONTEXT && pieces[r] == Shown(i);
    }
    assert IsAnchor(out[r]);
    KeptByAnchor(out, r, q);
  }

  lemma KeptHasAnchor(lines: seq<string>, j: nat)
    requires j < |lines| && Keep(lines)[j]
    ensures exists i | 0 <= i < |lines| :: IsAnchor(lines[i]) && i - KEEP_CONTEXT <= j <= i + KEEP_CONTEXT
  {
    hide IsAnchor;
  }

  lemma KeptByAnchor(lines: seq<string>, i: nat, j: nat)
    requires i < |lines| && j < |lines| && IsAnchor(lines[i]) && i - KEEP_CONTEXT <= j <= i + KEEP_CONTEXT
    ensures Keep(lines)[j]
  {
    hide IsAnchor;
    assert IsNear(lines, |lines|, j);
  }

  /** A view keeps the properties of lines, so it splits the same way again. */
  lemma ViewIsLines(lines: seq<string>, trailing: bool, cr: string)
    requires AreLines(lines, trailing) && '\n' !in cr && |lines| > 1
    ensures AreLines(View(lines, cr), trailing)
  {
    hide Pieces, IsAnchor, Marker, Keep;
    var out, pieces := View(lines, cr), Pieces(Keep(lines));
    ViewIsExact(Keep(lines));
    assert pieces != [];
    forall q | 0 <= q < |out| ensures '\n' !in out[q] && (pieces[q].Gap? ==> out[q] != "") {
      if pieces[q].Gap? {
        MarkerIsAnchor(pieces[q].count, cr);
        MarkerIsOneLine(pieces[q].count);
      } else {
        assert Matches(pieces[q], Keep(lines));
        assert lines[pieces[q].index] in lines;
      }
    }
    TileAt(pieces, 0, |lines|, |pieces| - 1);
  }

  lemma BreaksOfCr(input: string)
    ensures '\n' !in CrSuffix(input)
  {
  }

  /** A second pass over the output keeps everything and declines. */
  lemma SecondPassDeclines(input: string)
    requires Elide(input).Some?
    ensures Elide(Elide(input).value) == None
  {
    hide SplitLines, JoinLines, View, CrSuffix, Keep;
    var (lines, trailing) := SplitLines(input);
    var cr := CrSuffix(input);
    var out := View(lines, cr);
    SplitLinesAreLines(input);
    BreaksOfCr(input);
    ViewIsLines(lines, trailing, cr);
    LinesRoundTrip(out, trailing);
    var again := JoinLines(out, trailing);
    forall q | 0 <= q < |out| ensures Keep(out)[q] { EverythingStays(lines, cr, q); }
    NothingDropped(out, CrSuffix(again));
  }

  lemma NothingDropped(lines: seq<string>, cr: string)
    requires forall q | 0 <= q < |lines| :: Keep(lines)[q]
    ensures |View(lines, cr)| == |lines|
  {
    hide Keep;
    AllShown(Keep(lines), 0);
  }

  /* ---- The elider as it runs ---- */

  method Compress(input: string) returns (result: string, ok: bool)
    ensures Elide(input) == if ok then Some(result) else None
  {
    hide SplitLines, JoinLines, CrSuffix, IsAnchor, Marker, IsNear;
    var (lines, trailing) := SplitLines(input);
    if |lines| < MIN_LINES { return "", false; }
    var cr := CrSuffix(input);
    var n := |lines|;
    var keep := new bool[n](_ => false);
    NothingNear(lines);
    for i := 0 to n
      invariant forall j | 0 <= j < n :: keep[j] == IsNear(lines, i, j)
    {
      if IsAnchor(lines[i]) {
        var lo := if i < KEEP_CONTEXT then 0 else i - KEEP_CONTEXT;
        var hi := if n - 1 < i + KEEP_CONTEXT then n - 1 else i + KEEP_CONTEXT;
        for j := lo to hi + 1
          invariant forall k | 0 <= k < n :: keep[k] == (IsNear(lines, i, k) || lo <= k < j)
        {
          keep[j] := true;
        }
      }
      forall j | 0 <= j < n ensures keep[j] == IsNear(lines, i + 1, j) { NearStep(lines, i, j); }
    }
    assert keep[..] == Keep(lines);
    var out := ViewLoop(lines, keep, cr);
    if |out| == |lines| { return "", false; }
    result, ok := JoinLines(out, trailing), true;
  }

  lemma NothingNear(lines: seq<string>)
    ensures forall j | 0 <= j < |lines| :: !IsNear(lines, 0, j)
  {
  }

  lemma NearStep(lines: seq<string>, i: nat, j: nat)
    requires i < |lines|
    ensures IsNear(lines, i + 1, j) <==>
            IsNear(lines, i, j) || (IsAnchor(lines[i]) && i - KEEP_CONTEXT <= j <= i + KEEP_CONTEXT)
  {
    hide IsAnchor;
    if IsNear(lines, i + 1, j) {
      var k :| 0 <= k < i + 1 && IsAnchor(lines[k]) && k - KEEP_CONTEXT <= j <= k + KEEP_CONTEXT;
      if k < i { assert IsNear(lines, i, j); }
    }
  }

  /** Shows kept lines and puts one marker with the exact count in place of each run of dropped ones. */
  method ViewLoop(lines: seq<string>, keep: array<bool>, cr: string) returns (out: seq<string>)
    requires keep.Length == |lines|
    ensures out == Render(lines, Pieces(keep[..]), cr)
  {
    hide Marker;
    var dropped := 0;
    out := [];
    ghost var done: seq<Piece> := [];
    ghost var ks := keep[..];
    for i := 0 to |lines|
      invariant dropped <= i && ks == keep[..] && Pieces(ks) == done + PiecesFrom(ks, i, i - dropped)
      invariant out == Render(lines, done, cr)
    {
      if keep[i] {
        if dropped > 0 {
          out := out + [Marker(dropped) + cr];
          done := done + [Gap(i - dropped, dropped)];
          dropped := 0;
        }
        out := out + [lines[i]];
        done := done + [Shown(i)];
      } else {
        dropped := dropped + 1;
      }
    }
    if dropped > 0 {
      out := out + [Marker(dropped) + cr];
      done := done + [Gap(|lines| - dropped, dropped)];
    }
    assert done == Pieces(ks);
  }
}
