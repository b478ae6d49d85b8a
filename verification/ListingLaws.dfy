/** Which texts are listings, and what every line of a restored view is. */
module ListingLaws {
  import opened GoText
  import opened Elision
  import opened ListingNumbers
  import JsonText

  /* ---- Gutters ---- */

  predicate IsAll(s: string, c: char) {
    forall k | 0 <= k < |s| :: s[k] == c
  }

  /** Spaces, one to twelve digits, and a tab, ` | `, `: ` or the end of the line. */
  predicate IsGutter(line: string, spaces: string, digits: string, mark: string, rest: string) {
    line == spaces + digits + mark + rest && IsAll(spaces, ' ') && IsDecimal(digits) && |digits| <= 12 &&
    (mark in ["\t", " | ", ": "] || (mark == "" && rest == ""))
  }

  ghost predicate HasGutter(line: string, n: nat, rest: string) {
    exists spaces, digits, mark :: IsGutter(line, spaces, digits, mark, rest) && DecimalValue(digits) == n
  }

  /** What is read behind the digits. */
  lemma MarkReads(line: string, d: nat, mark: string, rest: string)
    requires d <= |line| && line[d..] == mark + rest && (mark in ["\t", " | ", ": "] || (mark == "" && rest == ""))
    ensures d < |line| && line[d] == '\t' <==> mark == "\t"
    ensures OccursAt(line, " | ", d) <==> mark == " | "
    ensures OccursAt(line, ": ", d) <==> mark == ": "
    ensures (d == |line| <==> mark == "") && |mark| <= |line| - d && line[d + |mark|..] == rest
  {
    assert forall k | 0 <= k < |mark| :: line[d + k] == mark[k];
    assert forall k | 0 <= k < |rest| :: line[d + |mark| + k] == rest[k];
  }

  lemma DigitsAt(line: string, spaces: string, digits: string, mark: string, rest: string)
    requires IsGutter(line, spaces, digits, mark, rest)
    ensures RunEnd(line, ' ', 0) == |spaces| && JsonText.DigitsEnd(line, |spaces|) == |spaces| + |digits|
    ensures line[|spaces|..|spaces| + |digits|] == digits && line[|spaces| + |digits|..] == mark + rest
  {
    var i, d := |spaces|, |spaces| + |digits|;
    assert forall k | i <= k < d :: line[k] == digits[k - i];
    assert line[d..] == mark + rest;
    assert d < |line| ==> line[d] == mark[0];
    RunOf(line, ' ', 0, i);
    JsonText.DigitsEndAt(line, i, d);
  }

  lemma GutterReads(line: string, spaces: string, digits: string, mark: string, rest: string)
    requires IsGutter(line, spaces, digits, mark, rest)
    ensures ReadGutter(line) == Numbered(DecimalValue(digits), rest)
  {
    hide DecimalValue, OccursAt;
    DigitsAt(line, spaces, digits, mark, rest);
    MarkReads(line, |spaces| + |digits|, mark, rest);
  }

  function MarkAt(line: string, d: nat): string
    requires d <= |line|
  {
    if d < |line| && line[d] == '\t' then "\t" else if OccursAt(line, " | ", d) then " | "
    else if OccursAt(line, ": ", d) then ": " else ""
  }

  lemma Parts(line: string, i: nat, d: nat, mark: string)
    requires i <= d <= d + |mark| <= |line| && line[d..d + |mark|] == mark
    ensures line == line[..i] + line[i..d] + mark + line[d + |mark|..]
  {
  }

  lemma MarkIs(line: string, d: nat)
    requires d <= |line|
    ensures var mark := MarkAt(line, d); d + |mark| <= |line| && line[d..d + |mark|] == mark
  {
  }

  /** What is read, by the end of the spaces and the end of the digits. */
  lemma GutterByMark(line: string) returns (i: nat, d: nat)
    requires ReadGutter(line).Numbered?
    ensures i < d <= |line| && d - i <= 12 && IsAll(line[..i], ' ') && IsDecimal(line[i..d])
    ensures d + |MarkAt(line, d)| <= |line| && (MarkAt(line, d) == "" ==> d == |line|)
    ensures ReadGutter(line) == Numbered(DecimalValue(line[i..d]), line[d + |MarkAt(line, d)|..])
  {
    hide DecimalValue, OccursAt;
    RunIs(line, ' ', 0);
    i := RunEnd(line, ' ', 0);
    JsonText.DigitsEndRun(line, i);
    d := JsonText.DigitsEnd(line, i);
    MarkIs(line, d);
    assert d == |line| ==> line[d..] == "";
  }

  lemma MarkIsKnown(line: string, d: nat)
    requires d <= |line|
    ensures MarkAt(line, d) in ["\t", " | ", ": "] || MarkAt(line, d) == ""
  {
  }

  lemma GutterHas(line: string)
    requires ReadGutter(line).Numbered?
    ensures HasGutter(line, ReadGutter(line).number, ReadGutter(line).rest)
  {
    var i, d := GutterByMark(line);
    hide ReadGutter, MarkAt, DecimalValue;
    var mark := MarkAt(line, d);
    MarkIs(line, d);
    MarkIsKnown(line, d);
    Parts(line, i, d, mark);
    var rest := line[d + |mark|..];
    assert mark == "" ==> rest == "";
    assert IsGutter(line, line[..i], line[i..d], mark, rest);
  }

  /** A line has this number and this text exactly when it has this form. */
  lemma GutterReadsExactly(line: string, n: nat, rest: string)
    ensures ReadGutter(line) == Numbered(n, rest) <==> HasGutter(line, n, rest)
  {
    hide DecimalValue, ReadGutter;
    if spaces, digits, mark :| IsGutter(line, spaces, digits, mark, rest) && DecimalValue(digits) == n {
      GutterReads(line, spaces, digits, mark, rest);
    }
    if ReadGutter(line).Numbered? { GutterHas(line); }
  }

  /* ---- Listings ---- */

  function NumberedLines(lines: seq<string>, i: nat): (ks: set<nat>) {
    set k: nat | i <= k < |lines| && ReadGutter(lines[k]).Numbered?
  }

  /** From line `i` on every line is numbered or blank, and the numbers grow beyond `previous`. */
  predicate AreGrowing(lines: seq<string>, i: nat, previous: nat) {
    (forall k | i <= k < |lines| :: ReadGutter(lines[k]).Numbered? || IsBlank(lines[k])) &&
    (forall k | i <= k < |lines| && ReadGutter(lines[k]).Numbered? :: previous < ReadGutter(lines[k]).number) &&
    forall j, k | i <= j < k < |lines| && ReadGutter(lines[j]).Numbered? && ReadGutter(lines[k]).Numbered? ::
      ReadGutter(lines[j]).number < ReadGutter(lines[k]).number
  }

  lemma NumberedNext(lines: seq<string>, i: nat)
    requires i < |lines|
    ensures |NumberedLines(lines, i)| == |NumberedLines(lines, i + 1)| + if ReadGutter(lines[i]).Numbered? then 1 else 0
  {
    hide ReadGutter;
    var rest := NumberedLines(lines, i + 1);
    if ReadGutter(lines[i]).Numbered? {
      assert NumberedLines(lines, i) == rest + {i};
    } else {
      assert NumberedLines(lines, i) == rest;
    }
  }

  lemma {:induction false} StripsExactly(lines: seq<string>, i: nat, previous: nat)
    requires i <= |lines|
    ensures Strip(lines, i, previous).Listing? <==> AreGrowing(lines, i, previous)
    ensures Strip(lines, i, previous).Listing? ==> Strip(lines, i, previous).numbered == |NumberedLines(lines, i)|
    decreases |lines| - i
  {
    hide ReadGutter, IsBlank;
    if i < |lines| {
      var g := ReadGutter(lines[i]);
      StripsExactly(lines, i + 1, if g.Numbered? then g.number else previous);
      NumberedNext(lines, i);
    } else {
      assert NumberedLines(lines, i) == {};
    }
  }

  /** A text is a listing exactly when it has at least eight numbered lines, the numbers are positive and grow, and
      every other line is blank. */
  lemma ListingExactly(lines: seq<string>)
    ensures SplitListing(lines).Listing? <==>
            (|NumberedLines(lines, 0)| >= 8 && AreGrowing(lines, 0, 0))
  {
    hide ReadGutter, IsBlank, Strip, AreGrowing;
    StripsExactly(lines, 0, 0);
    NumberedAreLines(lines);
  }

  lemma {:induction false} FewBelow(ks: set<nat>, n: nat)
    requires forall k | k in ks :: k < n
    ensures |ks| <= n
    decreases n
  {
    if n > 0 { FewBelow(ks - {n - 1}, n - 1); } else { assert ks == {}; }
  }

  lemma NumberedAreLines(lines: seq<string>)
    ensures |NumberedLines(lines, 0)| <= |lines|
  {
    hide ReadGutter;
    FewBelow(NumberedLines(lines, 0), |lines|);
  }

  lemma {:induction false} StripRepeats(lines: seq<string>, i: nat, previous: nat, k: nat)
    requires i <= k < |lines| && Strip(lines, i, previous).Listing? && ReadGutter(lines[k]).NoGutter?
    ensures var r := Strip(lines, i, previous).numbers;
            |r| == |lines| - i && r[k - i] == if k == i then previous else r[k - i - 1]
    decreases k - i
  {
    hide ReadGutter, IsBlank;
    StripSizes(lines, i, previous);
    var g := ReadGutter(lines[i]);
    var number := if g.Numbered? then g.number else previous;
    if i < k {
      StripRepeats(lines, i + 1, number, k);
    }
  }

  /** A blank line without a number has the number of the line before it. */
  lemma BlankRepeats(lines: seq<string>, k: nat)
    requires SplitListing(lines).Listing? && k < |lines| && ReadGutter(lines[k]).NoGutter?
    ensures var r := SplitListing(lines).numbers;
            |r| == |lines| && r[k] == if k == 0 then 0 else r[k - 1]
  {
    hide ReadGutter, IsBlank, Strip;
    StripRepeats(lines, 0, 0, k);
  }

  /* ---- Every line of a restored view ---- */

  predicate AreAscending(numbers: seq<nat>) {
    forall j, k | 0 <= j < k < |numbers| :: numbers[j] <= numbers[k]
  }

  /** A line with its number, unless it is blank and the number is not beyond `last`. */
  predicate IsLineFor(out: string, line: string, number: nat, last: nat) {
    out == if IsBlank(line) && number <= last then line else Itoa(number) + "\t" + line
  }

  lemma PlacesFirst(source: seq<string>, numbers: seq<nat>, p: Piece, line: string)
    requires |numbers| >= |source| > 0 && IsBodyLine(source, p, line)
    requires Size(p) > 0 && First(p) + Size(p) <= |source|
    ensures var placed := Place(source, numbers, line, First(p));
            placed.number == numbers[First(p)] && placed.cursor == First(p) + Size(p) &&
            (placed.traced <==> p.Shown? && !IsBlank(line))
  {
    hide ElidedCount, IsBlank;
    if p.Gap? { NoMatch(source, line, First(p)); }
  }

  lemma BodyRest(source: seq<string>, pieces: seq<Piece>, body: seq<string>)
    requires IsBody(source, pieces, body) && pieces != []
    ensures IsBodyLine(source, pieces[0], body[0]) && IsBody(source, pieces[1..], body[1..])
  {
    hide IsBodyLine;
    forall k | 0 <= k < |pieces| - 1 ensures IsBodyLine(source, pieces[1..][k], body[1..][k]) {
      assert IsBodyLine(source, pieces[k + 1], body[k + 1]);
    }
  }

  lemma {:induction false} LinesFollow(source: seq<string>, numbers: seq<nat>, pieces: seq<Piece>, body: seq<string>,
                                       cursor: nat, last: nat, q: nat)
    requires |numbers| >= |source| > 0 && IsBody(source, pieces, body) && Tiles(pieces, cursor, |source|)
    requires AreAscending(numbers) && q < |pieces| && (cursor < |numbers| ==> last <= numbers[cursor])
    ensures First(pieces[q]) < |numbers| && (q > 0 ==> First(pieces[q - 1]) < |numbers|)
    ensures IsLineFor(RestoreFrom(source, numbers, body, cursor, last).lines[q], body[q], numbers[First(pieces[q])],
                      if q == 0 then last else numbers[First(pieces[q - 1])])
    decreases |pieces|
  {
    hide IsBodyLine, Itoa, IsBlank, Place;
    BodyRest(source, pieces, body);
    TileAt(pieces, cursor, |source|, 0);
    PlacesFirst(source, numbers, pieces[0], body[0]);
    var p := Place(source, numbers, body[0], cursor);
    if q > 0 {
      assert LastAfter(body[0], p.number, last) == p.number;
      TileAt(pieces, cursor, |source|, q);
      LinesFollow(source, numbers, pieces[1..], body[1..], p.cursor, p.number, q - 1);
    }
  }

  lemma ListingAscends(listing: seq<string>)
    requires SplitListing(listing).Listing?
    ensures AreAscending(SplitListing(listing).numbers) && |SplitListing(listing).numbers| == |listing|
    ensures |SplitListing(listing).source| == |listing| > 0
  {
    hide ReadGutter, IsBlank, Strip, IsAligned;
    assert |listing| > 0;
    ListingAlignsAt(listing, 0);
    var numbers := SplitListing(listing).numbers;
    forall j, k | 0 <= j < k < |numbers| ensures numbers[j] <= numbers[k] { ListingAligns(listing, j, k); }
  }

  /** Every line of the restored view, markers and blank lines included. A marker gets the number of the first line it
      replaced, a kept line its own, and a blank one is bare when it has no number beyond the line before it. */
  lemma EveryLineRestored(listing: seq<string>, pieces: seq<Piece>, body: seq<string>, q: nat)
    requires SplitListing(listing).Listing?
    requires var l := SplitListing(listing);
             IsBody(l.source, pieces, body) && Tiles(pieces, 0, |l.source|) && |l.source| == |listing| > 0 &&
             Restore(l.source, l.numbers, body).Some?
    requires q < |pieces|
    ensures var numbers := SplitListing(listing).numbers;
            First(pieces[q]) < |numbers| && (q > 0 ==> First(pieces[q - 1]) < |numbers|) &&
            |Restore(SplitListing(listing).source, numbers, body).value| == |body| &&
            IsLineFor(Restore(SplitListing(listing).source, numbers, body).value[q], body[q],
                      numbers[First(pieces[q])], if q == 0 then 0 else numbers[First(pieces[q - 1])])
  {
    hide SplitListing, RestoreFrom, IsBodyLine, IsLineFor, AreAscending;
    ListingAscends(listing);
    var l := SplitListing(listing);
    TileAt(pieces, 0, |l.source|, 0);
    LinesFollow(l.source, l.numbers, pieces, body, 0, 0, q);
  }

  /** A kept blank line that had a number gets it back. */
  lemma BlankNumberSurvives(listing: seq<string>, pieces: seq<Piece>, body: seq<string>, q: nat)
    requires SplitListing(listing).Listing?
    requires var l := SplitListing(listing);
             IsBody(l.source, pieces, body) && Tiles(pieces, 0, |l.source|) && |l.source| == |listing| > 0 &&
             Restore(l.source, l.numbers, body).Some?
    requires q < |pieces| && pieces[q].Shown? && pieces[q].index < |listing|
    requires ReadGutter(listing[pieces[q].index]).Numbered?
    ensures var l := SplitListing(listing);
            |Restore(l.source, l.numbers, body).value| == |body| && Restore(l.source, l.numbers, body).value[q] ==
              Itoa(ReadGutter(listing[pieces[q].index]).number) + "\t" + body[q]
  {
    hide ReadGutter, SplitListing, Restore, IsBodyLine, IsBlank, Itoa;
    EveryLineRestored(listing, pieces, body, q);
    var k, l := pieces[q].index, SplitListing(listing);
    if q > 0 {
      TileAt(pieces, 0, |l.source|, q - 1);
      ListingAligns(listing, First(pieces[q - 1]), k);
    } else {
      ListingAlignsAt(listing, k);
      FirstIsPositive(listing, k);
    }
  }

  lemma FirstIsPositive(listing: seq<string>, k: nat)
    requires SplitListing(listing).Listing? && k < |listing| && ReadGutter(listing[k]).Numbered?
    ensures ReadGutter(listing[k]).number > 0
  {
    hide ReadGutter, IsBlank, Strip;
    StripsExactly(listing, 0, 0);
  }

  /** A kept blank line without a number stays bare exactly when the line before it was written with the number it
      has. */
  lemma BlankStaysBareExactly(listing: seq<string>, pieces: seq<Piece>, body: seq<string>, q: nat)
    requires SplitListing(listing).Listing?
    requires var l := SplitListing(listing);
             IsBody(l.source, pieces, body) && Tiles(pieces, 0, |l.source|) && |l.source| == |listing| > 0 &&
             Restore(l.source, l.numbers, body).Some?
    requires 0 < q < |pieces| && pieces[q].Shown? && pieces[q].index < |listing|
    requires ReadGutter(listing[pieces[q].index]).NoGutter?
    ensures var l := SplitListing(listing);
            |Restore(l.source, l.numbers, body).value| == |body| && First(pieces[q - 1]) < |l.numbers| &&
            0 < pieces[q].index < |l.numbers| &&
            (Restore(l.source, l.numbers, body).value[q] == body[q] <==>
             l.numbers[pieces[q].index - 1] == l.numbers[First(pieces[q - 1])])
  {
    hide ReadGutter, SplitListing, Restore, IsBlank, IsBodyLine, IsLineFor, Tiles, IsAligned, AreAscending;
    EveryLineRestored(listing, pieces, body, q);
    var k, l := pieces[q].index, SplitListing(listing);
    TileAt(pieces, 0, |l.source|, q - 1);
    BlankRepeats(listing, k);
    ListingAscends(listing);
    BlankSource(listing, k);
    BodyLineIs(l.source, pieces, body, q);
    BareExactly(Restore(l.source, l.numbers, body).value[q], body[q], l.numbers[k], l.numbers[First(pieces[q - 1])]);
    AscendingAt(l.numbers, First(pieces[q - 1]), k - 1);
  }

  lemma AscendingAt(numbers: seq<nat>, j: nat, k: nat)
    requires AreAscending(numbers) && j <= k < |numbers|
    ensures numbers[j] <= numbers[k]
  {
  }

  lemma BlankSource(listing: seq<string>, k: nat)
    requires SplitListing(listing).Listing? && k < |listing| && ReadGutter(listing[k]).NoGutter?
    ensures |SplitListing(listing).source| == |listing| && IsBlank(SplitListing(listing).source[k])
  {
    hide SplitListing, ReadGutter;
    ListingAlignsAt(listing, k);
    EmptyIsBlank();
  }

  lemma BareExactly(out: string, line: string, number: nat, last: nat)
    requires IsLineFor(out, line, number, last) && IsBlank(line)
    ensures out == line <==> number <= last
  {
    hide Itoa;
    assert |Itoa(number) + "\t" + line| > |line|;
  }

  /* ---- When a view is restored ---- */

  function Visible(body: seq<string>): nat {
    if body == [] then 0 else (if IsBlank(body[0]) then 0 else 1) + Visible(body[1..])
  }

  /** How many visible lines of the body are lines of the source. */
  function Traced(pieces: seq<Piece>, body: seq<string>): nat
    requires |body| >= |pieces|
  {
    if pieces == [] then 0
    else (if pieces[0].Shown? && !IsBlank(body[0]) then 1 else 0) + Traced(pieces[1..], body[1..])
  }

  lemma {:induction false} NothingFollows(source: seq<string>, numbers: seq<nat>, body: seq<string>, last: nat)
    requires |numbers| >= |source| > 0
    ensures RestoreFrom(source, numbers, body, |source|, last).traceable == 0
    ensures RestoreFrom(source, numbers, body, |source|, last).tracked == Visible(body)
    decreases |body|
  {
    hide IsBlank, ElidedCount, Written;
    if body != [] {
      var p := Place(source, numbers, body[0], |source|);
      NothingFollows(source, numbers, body[1..], LastAfter(body[0], p.number, last));
    }
  }

  lemma {:induction false} CountsFollow(source: seq<string>, numbers: seq<nat>, pieces: seq<Piece>, body: seq<string>,
                                        cursor: nat, last: nat)
    requires |numbers| >= |source| > 0 && IsBody(source, pieces, body) && Tiles(pieces, cursor, |source|)
    ensures RestoreFrom(source, numbers, body, cursor, last).traceable == Traced(pieces, body)
    ensures RestoreFrom(source, numbers, body, cursor, last).tracked == Visible(body)
    decreases |pieces|
  {
    hide IsBodyLine, IsBlank, Place, Written;
    if pieces == [] {
      NothingFollows(source, numbers, body, last);
    } else {
      BodyRest(source, pieces, body);
      TileAt(pieces, cursor, |source|, 0);
      PlacesFirst(source, numbers, pieces[0], body[0]);
      var p := Place(source, numbers, body[0], cursor);
      CountsFollow(source, numbers, pieces[1..], body[1..], p.cursor, LastAfter(body[0], p.number, last));
    }
  }

  /** A view is restored exactly when at least half of its visible lines are lines of the source. */
  lemma RestoresExactly(source: seq<string>, numbers: seq<nat>, pieces: seq<Piece>, body: seq<string>)
    requires |numbers| >= |source| > 0 && IsBody(source, pieces, body) && Tiles(pieces, 0, |source|)
    ensures Restore(source, numbers, body).Some? <==> 2 * Traced(pieces, body) >= Visible(body)
  {
    hide RestoreFrom, IsBodyLine, IsBlank;
    CountsFollow(source, numbers, pieces, body, 0, 0);
  }

  /* ---- Lines that state no count ---- */

  lemma {:induction false} CountIsElision(s: string, i: nat)
    requires i <= |s| && CountFrom(s, i).Some?
    ensures exists what | what in ELISIONS :: Contains(s, what)
    decreases |s| - i
  {
    if StatesCount(s, i) {
      var d := JsonText.DigitsEnd(s, i);
      var j :| d < j <= |s| && IsElided(s, j);
      var what :| what in ELISIONS && OccursAt(s, what, j);
      assert Contains(s, what);
    } else {
      CountIsElision(s, i + 1);
    }
  }

  /** Only a line that says lines, rows or sections were elided states a count. */
  lemma CountNeedsElision(s: string)
    requires ElidedCount(s).Some?
    ensures exists what |
              what in ["lines elided (caveman)", "rows elided (caveman)", "sections elided (caveman)",
                       "lines elided \U{2026}", "rows elided \U{2026}", "sections elided \U{2026}"] ::
              Contains(s, what)
  {
    CountIsElision(s, 0);
  }

  /* ---- A blank line that gets the number of another ---- */

  const SIX := ["a", "b", "c", "", "d", "e"]

  function ThreeGone(): string {
    "\U{2026} " + Itoa(3) + " " + "lines elided (caveman)" + " \U{2026}" + ""
  }

  lemma ThreeElided()
    ensures ElidedCount(ThreeGone()) == Some(3) && !IsBlank(ThreeGone()) && ThreeGone() !in SIX
  {
    hide ElidedCount, Itoa;
    MarkerStatesCount("\U{2026} ", 3, "", "lines elided (caveman)", "lines elided (caveman)", " \U{2026}", "");
    assert !IsSpace(ThreeGone()[0]) && |ThreeGone()| > 1;
  }

  lemma ThreeIsBody()
    ensures IsBody(SIX, [Gap(0, 3), Shown(3), Shown(4), Shown(5)], [ThreeGone(), "", "d", "e"])
    ensures Tiles([Gap(0, 3), Shown(3), Shown(4), Shown(5)], 0, 6)
  {
    ThreeElided();
    hide ElidedCount, IsBlank, ThreeGone;
    var pieces := [Gap(0, 3), Shown(3), Shown(4), Shown(5)];
    assert pieces[1..] == [Shown(3), Shown(4), Shown(5)] && pieces[1..][1..] == [Shown(4), Shown(5)];
    assert pieces[1..][1..][1..] == [Shown(5)] && pieces[1..][1..][1..][1..] == [];
  }

  /** Behind a dropped run, a blank line that had no number is written with the number of the last line dropped. */
  lemma BlankMayGetNumber(numbers: seq<nat>)
    requires numbers == [1, 2, 3, 3, 4, 5]
    ensures Restore(SIX, numbers, [ThreeGone(), "", "d", "e"]).Some?
    ensures Restore(SIX, numbers, [ThreeGone(), "", "d", "e"]).value[1] == "3\t"
  {
    hide IsBlank, RestoreFrom, IsLineFor, ThreeGone, Traced, Visible, Tiles, IsBodyLine;
    var pieces, body := [Gap(0, 3), Shown(3), Shown(4), Shown(5)], [ThreeGone(), "", "d", "e"];
    ThreeIsBody();
    EmptyIsBlank();
    LinesFollow(SIX, numbers, pieces, body, 0, 0, 1);
    RestoresExactly(SIX, numbers, pieces, body);
    TracedTwo();
    ThreeIsWritten(Restore(SIX, numbers, body).value[1]);
  }

  lemma ThreeIsWritten(out: string)
    requires IsLineFor(out, "", 3, 1)
    ensures out == "3\t"
  {
    assert Itoa(3) == "3";
  }

  lemma TracedTwo()
    ensures 2 * Traced([Gap(0, 3), Shown(3), Shown(4), Shown(5)], [ThreeGone(), "", "d", "e"]) >=
            Visible([ThreeGone(), "", "d", "e"])
  {
    var pieces, body := [Gap(0, 3), Shown(3), Shown(4), Shown(5)], [ThreeGone(), "", "d", "e"];
    EmptyIsBlank();
    assert !IsBlank("d") && !IsBlank("e") by { assert !IsSpace("d"[0]) && !IsSpace("e"[0]); }
    hide IsBlank;
    assert pieces[1..] == [Shown(3), Shown(4), Shown(5)] && body[1..] == ["", "d", "e"];
    assert pieces[1..][1..] == [Shown(4), Shown(5)] && body[1..][1..] == ["d", "e"];
    assert pieces[1..][1..][1..] == [Shown(5)] && body[1..][1..][1..] == ["e"];
    assert Traced([Shown(5)], ["e"]) == 1 && Visible(["e"]) == 1;
    assert Traced([Shown(4), Shown(5)], ["d", "e"]) == 2 && Visible(["d", "e"]) == 2;
    assert Traced([Shown(3), Shown(4), Shown(5)], ["", "d", "e"]) == 2 && Visible(["", "d", "e"]) == 2;
    assert Visible(body) <= 3 && Traced(pieces, body) == 2;
  }
}
