/**
 What the line-oriented eliders share: text as lines, and a view in which every line is either shown or counted by
 exactly one marker.
 */
module Elision {
  import opened GoText

  const NEWLINE := '\n'

  /* ---- Lines ---- */

  /** The lines of a text, and whether it ended with a line break. */
  function SplitLines(input: string): (r: (seq<string>, bool))
    ensures r.0 != []
  {
    if input != "" && input[|input| - 1] == NEWLINE then (Split(input[..|input| - 1], NEWLINE), true)
    else (Split(input, NEWLINE), false)
  }

  function JoinLines(lines: seq<string>, trailing: bool): string {
    Join(lines, NEWLINE) + if trailing then "\n" else ""
  }

  /** Lines as splitting makes them: no line break inside, and a text without a final one does not end in an empty
      line. */
  predicate AreLines(lines: seq<string>, trailing: bool) {
    lines != [] && (forall l | l in lines :: NEWLINE !in l) && (trailing || |lines| == 1 || lines[|lines| - 1] != "")
  }

  lemma {:induction false} SplitMakesLines(s: string)
    ensures var lines := Split(s, NEWLINE);
            (forall l | l in lines :: NEWLINE !in l) && Join(lines, NEWLINE) == s
    decreases |s|
  {
    var i := IndexFrom(s, NEWLINE, 0);
    IndexFromMisses(s, NEWLINE, 0);
    if i < |s| {
      var rest := s[i + 1..];
      SplitMakesLines(rest);
      var lines := Split(s, NEWLINE);
      assert lines[1..] == Split(rest, NEWLINE) && lines[0] == s[..i];
      assert s == s[..i] + [NEWLINE] + rest;
    }
  }

  /** A text that does not end in a line break ends in a line that is not empty. */
  lemma {:induction false} LastPart(s: string)
    requires s != "" && s[|s| - 1] != NEWLINE
    ensures var lines := Split(s, NEWLINE); lines[|lines| - 1] != ""
    decreases |s|
  {
    var i := IndexFrom(s, NEWLINE, 0);
    if i < |s| {
      var rest := s[i + 1..];
      assert rest != "" && rest[|rest| - 1] == s[|s| - 1];
      LastPart(rest);
      var lines := Split(s, NEWLINE);
      assert lines[|lines| - 1] == Split(rest, NEWLINE)[|lines| - 2];
    }
  }

  lemma SplitLinesAreLines(input: string)
    ensures var (lines, trailing) := SplitLines(input); AreLines(lines, trailing) && JoinLines(lines, trailing) == input
  {
    hide Split, Join;
    if input != "" && input[|input| - 1] == NEWLINE {
      var body := input[..|input| - 1];
      SplitMakesLines(body);
      assert input == body + "\n";
    } else {
      SplitMakesLines(input);
      assert Join(Split(input, NEWLINE), NEWLINE) + "" == input;
      if input != "" { LastPart(input); } else { EmptySplit(); }
    }
  }

  lemma EmptySplit()
    ensures Split("", NEWLINE) == [""]
  {
  }

  lemma {:induction false} JoinEnds(lines: seq<string>)
    requires lines != []
    ensures var s := Join(lines, NEWLINE);
            (lines[|lines| - 1] != "" ==> s != "" && s[|s| - 1] == lines[|lines| - 1][|lines[|lines| - 1]| - 1])
    ensures |lines| == 1 ==> Join(lines, NEWLINE) == lines[0]
    decreases |lines|
  {
    if |lines| > 1 {
      JoinEnds(lines[1..]);
      assert lines[1..][|lines| - 2] == lines[|lines| - 1];
    }
  }

  /** Splitting undoes joining for lines as splitting makes them. */
  lemma LinesRoundTrip(lines: seq<string>, trailing: bool)
    requires AreLines(lines, trailing)
    ensures SplitLines(JoinLines(lines, trailing)) == (lines, trailing)
  {
    hide Split, Join;
    var s := Join(lines, NEWLINE);
    SplitJoin(lines, NEWLINE);
    JoinEnds(lines);
    if trailing {
      assert (s + "\n")[..|s|] == s;
    } else {
      assert s + "" == s;
      assert lines[|lines| - 1] in lines;
      if lines[|lines| - 1] != "" { assert NEWLINE !in lines[|lines| - 1]; }
    }
  }

  /* ---- Views ---- */

  /** One part of a view: a line that is shown, or a run of lines that one marker counts. */
  datatype Piece = Shown(index: nat) | Gap(first: nat, count: nat)

  /** The pieces from line `i` on, when the lines since `start` are dropped and not yet counted. */
  function PiecesFrom(keep: seq<bool>, i: nat, start: nat): seq<Piece>
    requires start <= i <= |keep|
    decreases |keep| - i
  {
    var gap := if start < i then [Gap(start, i - start)] else [];
    if i == |keep| then gap
    else if keep[i] then gap + [Shown(i)] + PiecesFrom(keep, i + 1, i + 1)
    else PiecesFrom(keep, i + 1, start)
  }

  function Pieces(keep: seq<bool>): seq<Piece> {
    PiecesFrom(keep, 0, 0)
  }

  function Size(p: Piece): nat {
    if p.Shown? then 1 else p.count
  }

  function First(p: Piece): nat {
    if p.Shown? then p.index else p.first
  }

  /** The pieces cover the lines from `a` to `b` in order, each line once. */
  predicate Tiles(pieces: seq<Piece>, a: nat, b: nat)
    decreases |pieces|
  {
    if pieces == [] then a == b
    else First(pieces[0]) == a && Size(pieces[0]) > 0 && Tiles(pieces[1..], a + Size(pieces[0]), b)
  }

  /** Shown lines are kept ones and counted lines are dropped ones. */
  predicate Matches(p: Piece, keep: seq<bool>) {
    First(p) + Size(p) <= |keep| && forall k | First(p) <= k < First(p) + Size(p) :: keep[k] == p.Shown?
  }

  lemma {:induction false} PiecesTile(keep: seq<bool>, i: nat, start: nat)
    requires start <= i <= |keep| && forall k | start <= k < i :: !keep[k]
    ensures Tiles(PiecesFrom(keep, i, start), start, |keep|)
    ensures forall p | p in PiecesFrom(keep, i, start) :: Matches(p, keep)
    decreases |keep| - i
  {
    var pieces := PiecesFrom(keep, i, start);
    if i < |keep| {
      if keep[i] {
        var rest := PiecesFrom(keep, i + 1, i + 1);
        PiecesTile(keep, i + 1, i + 1);
        if start < i {
          assert pieces[1..] == [Shown(i)] + rest && pieces[1..][1..] == rest;
        } else {
          assert pieces[1..] == rest;
        }
      } else {
        PiecesTile(keep, i + 1, start);
      }
    } else if start < i {
      assert pieces[1..] == [];
    }
  }

  lemma {:induction false} TilesThen(pieces: seq<Piece>, more: seq<Piece>, a: nat, b: nat, c: nat)
    requires Tiles(pieces, a, b) && Tiles(more, b, c)
    ensures Tiles(pieces + more, a, c)
    decreases |pieces|
  {
    if pieces == [] {
      assert pieces + more == more;
    } else {
      assert (pieces + more)[1..] == pieces[1..] + more;
      TilesThen(pieces[1..], more, a + Size(pieces[0]), b, c);
    }
  }

  function Counted(pieces: seq<Piece>): nat {
    if pieces == [] then 0 else Size(pieces[0]) + Counted(pieces[1..])
  }

  /** Shown lines and marker counts together are exactly the lines there were. */
  lemma {:induction false} TilesConserve(pieces: seq<Piece>, a: nat, b: nat)
    requires Tiles(pieces, a, b)
    ensures a + Counted(pieces) == b
    decreases |pieces|
  {
    if pieces != [] { TilesConserve(pieces[1..], a + Size(pieces[0]), b); }
  }

  lemma {:induction false} TilesCover(pieces: seq<Piece>, a: nat, b: nat, k: nat)
    requires Tiles(pieces, a, b) && a <= k < b
    ensures exists p | p in pieces :: First(p) <= k < First(p) + Size(p)
    decreases |pieces|
  {
    if k < a + Size(pieces[0]) {
      assert pieces[0] in pieces;
    } else {
      TilesCover(pieces[1..], a + Size(pieces[0]), b, k);
      var p :| p in pieces[1..] && First(p) <= k < First(p) + Size(p);
      assert p in pieces;
    }
  }

  /** The view of a keep decision is complete and exact: every line is shown or counted once, by what was decided. */
  lemma ViewIsExact(keep: seq<bool>)
    ensures Tiles(Pieces(keep), 0, |keep|) && Counted(Pieces(keep)) == |keep|
    ensures forall p | p in Pieces(keep) :: Matches(p, keep)
    ensures forall k | 0 <= k < |keep| && keep[k] :: Shown(k) in Pieces(keep)
  {
    PiecesTile(keep, 0, 0);
    TilesConserve(Pieces(keep), 0, |keep|);
    forall k | 0 <= k < |keep| && keep[k] ensures Shown(k) in Pieces(keep) {
      TilesCover(Pieces(keep), 0, |keep|, k);
      var p :| p in Pieces(keep) && First(p) <= k < First(p) + Size(p);
      assert Matches(p, keep);
    }
  }

  /** Neighbouring pieces meet: the next one starts where this one ends. */
  lemma {:induction false} TileAt(pieces: seq<Piece>, a: nat, b: nat, q: nat)
    requires Tiles(pieces, a, b) && q < |pieces|
    ensures a <= First(pieces[q]) && 0 < Size(pieces[q]) && First(pieces[q]) + Size(pieces[q]) <= b
    ensures q == 0 ==> First(pieces[q]) == a
    ensures if q + 1 < |pieces| then First(pieces[q + 1]) == First(pieces[q]) + Size(pieces[q])
            else First(pieces[q]) + Size(pieces[q]) == b
    decreases |pieces|
  {
    if q > 0 {
      TileAt(pieces[1..], a + Size(pieces[0]), b, q - 1);
    } else if |pieces| > 1 {
      TileAt(pieces[1..], a + Size(pieces[0]), b, 0);
    }
  }

  /** Beside a shown line, a neighbour that is kept is shown too, right next to it. */
  lemma NeighbourShown(keep: seq<bool>, q: nat, j: nat)
    requires q < |Pieces(keep)| && Pieces(keep)[q] == Shown(j)
    ensures j + 1 < |keep| && keep[j + 1] ==> q + 1 < |Pieces(keep)| && Pieces(keep)[q + 1] == Shown(j + 1)
    ensures 0 < j <= |keep| && keep[j - 1] ==> q > 0 && Pieces(keep)[q - 1] == Shown(j - 1)
  {
    hide Pieces;
    ViewIsExact(keep);
    var pieces := Pieces(keep);
    TileAt(pieces, 0, |keep|, q);
    if j + 1 < |keep| && keep[j + 1] {
      TileAt(pieces, 0, |keep|, q + 1);
      assert Matches(pieces[q + 1], keep);
    }
    if 0 < j && keep[j - 1] {
      TileAt(pieces, 0, |keep|, q - 1);
      assert Matches(pieces[q - 1], keep);
    }
  }

  lemma {:induction false} AllShown(keep: seq<bool>, i: nat)
    requires i <= |keep| && forall k | i <= k < |keep| :: keep[k]
    ensures |PiecesFrom(keep, i, i)| == |keep| - i
    decreases |keep| - i
  {
    if i < |keep| { AllShown(keep, i + 1); }
  }

  /** Shown lines stand in the order of the text. */
  lemma {:induction false} ShownInOrder(pieces: seq<Piece>, a: nat, b: nat, q: nat, r: nat)
    requires Tiles(pieces, a, b) && q < r < |pieces|
    ensures First(pieces[q]) + Size(pieces[q]) <= First(pieces[r])
    decreases r
  {
    TileAt(pieces, a, b, r - 1);
    if q < r - 1 { ShownInOrder(pieces, a, b, q, r - 1); }
  }
}
