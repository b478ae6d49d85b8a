/**
 Line numbers of a file listing: taken off before a compressor runs and put back afterwards, where every line that
 survived must carry the number it had.
 */
module ListingNumbers {
  import opened GoText
  import opened Elision
  import JsonText

  /* ---- The count a marker states ---- */

  predicate IsWordChar(c: char) {
    'a' <= c <= 'z' || c == ' '
  }

  /** `(?:lines|rows|sections) elided (?:\(caveman\)|…)`, spelled out. */
  const ELISIONS := [
    "lines elided (caveman)", "rows elided (caveman)", "sections elided (caveman)",
    "lines elided \U{2026}", "rows elided \U{2026}", "sections elided \U{2026}"
  ]

  predicate IsElided(s: string, j: nat) {
    exists what | what in ELISIONS :: OccursAt(s, what, j)
  }

  /** `(\d+) [a-z ]*` at `i`, followed by what says that something was elided. */
  predicate StatesCount(s: string, i: nat)
    requires i < |s|
  {
    var d := JsonText.DigitsEnd(s, i);
    d > i && d < |s| && s[d] == ' ' &&
    exists j | d < j <= |s| :: IsElided(s, j) && forall k | d < k < j :: IsWordChar(s[k])
  }

  /** The count of the leftmost match from `i` on. */
  function CountFrom(s: string, i: nat): Option<nat>
    requires i <= |s|
    decreases |s| - i
  {
    if i == |s| then None
    else if StatesCount(s, i) then
      JsonText.DigitsEndRun(s, i);
      Some(DecimalValue(s[i..JsonText.DigitsEnd(s, i)]))
    else CountFrom(s, i + 1)
  }

  function ElidedCount(s: string): Option<nat> {
    CountFrom(s, 0)
  }

  /* ---- Taking the numbers off ---- */

  const MIN_LISTING_LINES := 8
  const MAX_GUTTER := 12

  datatype Gutter = NoGutter | Numbered(number: nat, rest: string)

  /** `<spaces><digits>` and then a tab, ` | `, `: ` or nothing. */
  function ReadGutter(line: string): Gutter {
    var i := RunEnd(line, ' ', 0);
    var d := JsonText.DigitsEnd(line, i);
    if d == i || d - i > MAX_GUTTER then NoGutter
    else
      JsonText.DigitsEndRun(line, i);
      var n := DecimalValue(line[i..d]);
      if d < |line| && line[d] == '\t' then Numbered(n, line[d + 1..])
      else if OccursAt(line, " | ", d) then Numbered(n, line[d + 3..])
      else if OccursAt(line, ": ", d) then Numbered(n, line[d + 2..])
      else if d == |line| then Numbered(n, "")
      else NoGutter
  }

  datatype Listing = NotAListing | Listing(source: seq<string>, numbers: seq<nat>, numbered: nat)

  /** The lines from `i` on without their gutters, when `previous` is the last number. */
  function Strip(lines: seq<string>, i: nat, previous: nat): Listing
    requires i <= |lines|
    decreases |lines| - i
  {
    if i == |lines| then Listing([], [], 0)
    else
      var g := ReadGutter(lines[i]);
      if g.NoGutter? && !IsBlank(lines[i]) then NotAListing
      else if g.Numbered? && g.number <= previous then NotAListing
      else
        var number := if g.Numbered? then g.number else previous;
        var more := Strip(lines, i + 1, number);
        if more.NotAListing? then NotAListing
        else Listing([if g.Numbered? then g.rest else ""] + more.source, [number] + more.numbers,
                     more.numbered + if g.Numbered? then 1 else 0)
  }

  /** A listing: enough lines, each with a number that grows, or blank. */
  function SplitListing(lines: seq<string>): Listing {
    var r := Strip(lines, 0, 0);
    if |lines| < MIN_LISTING_LINES || r.NotAListing? || r.numbered < MIN_LISTING_LINES then NotAListing else r
  }

  /** Line `k` of the listing: its number and its text without the gutter, or a blank line that has none. */
  predicate IsAligned(line: string, source: string, number: nat) {
    var g := ReadGutter(line);
    if g.Numbered? then source == g.rest && number == g.number else source == "" && IsBlank(line)
  }

  lemma {:induction false} StripAligns(lines: seq<string>, i: nat, previous: nat, k: nat)
    requires i <= k < |lines| && Strip(lines, i, previous).Listing?
    ensures var r := Strip(lines, i, previous);
            |r.source| == |r.numbers| == |lines| - i && IsAligned(lines[k], r.source[k - i], r.numbers[k - i]) &&
            (if ReadGutter(lines[k]).Numbered? then previous < r.numbers[k - i] else previous <= r.numbers[k - i])
    decreases |lines| - i
  {
    hide ReadGutter, IsBlank;
    StripSizes(lines, i, previous);
    if i < k {
      var g := ReadGutter(lines[i]);
      var number := if g.Numbered? then g.number else previous;
      StripAligns(lines, i + 1, number, k);
    }
  }

  lemma {:induction false} StripSizes(lines: seq<string>, i: nat, previous: nat)
    requires i <= |lines| && Strip(lines, i, previous).Listing?
    ensures |Strip(lines, i, previous).source| == |Strip(lines, i, previous).numbers| == |lines| - i
    decreases |lines| - i
  {
    hide ReadGutter, IsBlank;
    if i < |lines| {
      var g := ReadGutter(lines[i]);
      StripSizes(lines, i + 1, if g.Numbered? then g.number else previous);
    }
  }

  lemma {:induction false} StripGrows(lines: seq<string>, i: nat, previous: nat, j: nat, k: nat)
    requires i <= j < k < |lines| && Strip(lines, i, previous).Listing?
    ensures var r := Strip(lines, i, previous);
            |r.numbers| == |lines| - i &&
            if ReadGutter(lines[k]).Numbered? then r.numbers[j - i] < r.numbers[k - i]
              else r.numbers[j - i] <= r.numbers[k - i]
    decreases |lines| - i
  {
    hide ReadGutter, IsBlank;
    StripSizes(lines, i, previous);
    var g := ReadGutter(lines[i]);
    var number := if g.Numbered? then g.number else previous;
    if i < j { StripGrows(lines, i + 1, number, j, k); } else { StripAligns(lines, i + 1, number, k); }
  }

  /** The source and the numbers line up with the listing, line by line, and the numbers grow. */
  lemma ListingAligns(lines: seq<string>, j: nat, k: nat)
    requires SplitListing(lines).Listing? && j < k < |lines|
    ensures var r := SplitListing(lines);
            |r.source| == |r.numbers| == |lines| && IsAligned(lines[j], r.source[j], r.numbers[j]) &&
            IsAligned(lines[k], r.source[k], r.numbers[k]) && r.numbers[j] <= r.numbers[k] &&
            (ReadGutter(lines[k]).Numbered? ==> r.numbers[j] < r.numbers[k])
  {
    hide ReadGutter, IsBlank, Strip, IsAligned;
    StripAligns(lines, 0, 0, j);
    StripAligns(lines, 0, 0, k);
    StripGrows(lines, 0, 0, j, k);
  }

  /* ---- Putting the numbers back ---- */

  /** The first occurrence of a line at or after the cursor. */
  function NextMatch(source: seq<string>, line: string, cursor: nat): (at: Option<nat>)
    ensures at.Some? ==> cursor <= at.value < |source| && source[at.value] == line
    decreases |source| - cursor
  {
    if cursor >= |source| then None else if source[cursor] == line then Some(cursor)
      else NextMatch(source, line, cursor + 1)
  }

  /** What one line of the compressed body gets: a number, where the cursor goes, and whether it was traced. */
  datatype Placed = Placed(number: nat, cursor: nat, traced: bool)

  function Min(a: nat, b: nat): nat {
    if a < b then a else b
  }

  function Place(source: seq<string>, numbers: seq<nat>, line: string, cursor: nat): Placed
    requires |numbers| >= |source| > 0
  {
    var number := numbers[Min(cursor, |numbers| - 1)];
    if !IsBlank(line) then
      var at := NextMatch(source, line, cursor);
      if at.Some? then Placed(numbers[at.value], at.value + 1, true)
      else
        var elided := ElidedCount(line);
        Placed(number, if elided.Some? then Min(cursor + elided.value, |source|) else cursor, false)
    else if cursor < |source| && IsBlank(source[cursor]) then Placed(number, cursor + 1, false)
    else Placed(0, cursor, false)
  }

  /** A line with its gutter, or bare when it is blank and has no number of its own. */
  function Written(line: string, number: nat, last: nat): string {
    if number > last || !IsBlank(line) then Itoa(number) + "\t" + line else line
  }

  function LastAfter(line: string, number: nat, last: nat): nat {
    if number > last || !IsBlank(line) then number else last
  }

  datatype Restored = Restored(lines: seq<string>, tracked: nat, traceable: nat)

  function RestoreFrom(source: seq<string>, numbers: seq<nat>, body: seq<string>, cursor: nat, last: nat): (r: Restored)
    requires |numbers| >= |source| > 0
    ensures |r.lines| == |body|
    decreases |body|
  {
    if body == [] then Restored([], 0, 0)
    else
      var p := Place(source, numbers, body[0], cursor);
      var more := RestoreFrom(source, numbers, body[1..], p.cursor, LastAfter(body[0], p.number, last));
      Restored([Written(body[0], p.number, last)] + more.lines,
               more.tracked + (if IsBlank(body[0]) then 0 else 1), more.traceable + (if p.traced then 1 else 0))
  }

  /** The body with its gutters back, unless too few of its lines come from the source. */
  function Restore(source: seq<string>, numbers: seq<nat>, body: seq<string>): Option<seq<string>>
    requires source != []
  {
    if |numbers| < |source| then None
    else
      var r := RestoreFrom(source, numbers, body, 0, 0);
      if r.tracked > 0 && r.traceable * 2 < r.tracked then None else Some(r.lines)
  }

  /* ---- Restored numbers are true ---- */

  /** A line of the body is the source line it stands for, or a marker that states how many lines it replaced. */
  predicate IsBodyLine(source: seq<string>, p: Piece, line: string) {
    if p.Shown? then p.index < |source| && line == source[p.index]
    else !IsBlank(line) && line !in source && ElidedCount(line) == Some(p.count)
  }

  /** The body shows the pieces line by line; lines that a compressor appends at the end may follow. */
  predicate IsBody(source: seq<string>, pieces: seq<Piece>, body: seq<string>) {
    |body| >= |pieces| && forall q | 0 <= q < |pieces| :: IsBodyLine(source, pieces[q], body[q])
  }

  lemma {:induction false} NoMatch(source: seq<string>, line: string, cursor: nat)
    requires line !in source
    ensures NextMatch(source, line, cursor).None?
    decreases |source| - cursor
  {
    if cursor < |source| { NoMatch(source, line, cursor + 1); }
  }

  /** One piece moves the cursor past exactly the lines it stands for. */
  lemma PlaceFollows(source: seq<string>, numbers: seq<nat>, p: Piece, line: string)
    requires |numbers| >= |source| > 0 && IsBodyLine(source, p, line) && First(p) + Size(p) <= |source|
    ensures var placed := Place(source, numbers, line, First(p));
            placed.cursor == First(p) + Size(p) && (p.Shown? && !IsBlank(line) ==> placed.number == numbers[p.index])
  {
    hide ElidedCount, IsBlank;
    if p.Gap? { NoMatch(source, line, First(p)); }
  }

  lemma {:induction false} RestoreFollows(source: seq<string>, numbers: seq<nat>, pieces: seq<Piece>, body: seq<string>,
                                          cursor: nat, last: nat, q: nat)
    requires |numbers| >= |source| > 0 && IsBody(source, pieces, body) && Tiles(pieces, cursor, |source|)
    requires q < |pieces| && pieces[q].Shown? && !IsBlank(body[q])
    ensures RestoreFrom(source, numbers, body, cursor, last).lines[q] ==
            Itoa(numbers[pieces[q].index]) + "\t" + source[pieces[q].index]
    decreases |pieces|
  {
    hide IsBodyLine, Itoa, IsBlank, Place;
    assert IsBodyLine(source, pieces[0], body[0]);
    TileAt(pieces, cursor, |source|, 0);
    PlaceFollows(source, numbers, pieces[0], body[0]);
    var p := Place(source, numbers, body[0], cursor);
    if q == 0 {
      ShownLine(source, pieces[0], body[0]);
    } else {
      forall k | 0 <= k < |pieces| - 1 ensures IsBodyLine(source, pieces[1..][k], body[1..][k]) {
        assert IsBodyLine(source, pieces[k + 1], body[k + 1]);
      }
      RestoreFollows(source, numbers, pieces[1..], body[1..], p.cursor, LastAfter(body[0], p.number, last), q - 1);
    }
  }

  lemma ShownLine(source: seq<string>, p: Piece, line: string)
    requires IsBodyLine(source, p, line) && p.Shown?
    ensures p.index < |source| && line == source[p.index]
  {
  }

  lemma BodyLineIs(source: seq<string>, pieces: seq<Piece>, body: seq<string>, q: nat)
    requires IsBody(source, pieces, body) && q < |pieces| && pieces[q].Shown?
    ensures q < |body| && pieces[q].index < |source| && body[q] == source[pieces[q].index]
  {
    assert IsBodyLine(source, pieces[q], body[q]);
  }

  /** When the body is the source with each dropped run replaced by a marker of its exact length, every kept line that
      is not blank gets back the number it had, even when the same text stands elsewhere in the source. */
  lemma RestoredNumbersAreTrue(source: seq<string>, numbers: seq<nat>, pieces: seq<Piece>, body: seq<string>, q: nat)
    requires source != [] && IsBody(source, pieces, body) && Tiles(pieces, 0, |source|)
    requires Restore(source, numbers, body).Some?
    requires q < |pieces| && pieces[q].Shown? && !IsBlank(body[q])
    ensures |Restore(source, numbers, body).value| == |body| && pieces[q].index < |source| <= |numbers|
    ensures Restore(source, numbers, body).value[q] == Itoa(numbers[pieces[q].index]) + "\t" + source[pieces[q].index]
  {
    hide IsBodyLine, Itoa, IsBlank, RestoreFrom;
    RestoreFollows(source, numbers, pieces, body, 0, 0, q);
    assert IsBodyLine(source, pieces[q], body[q]);
    ShownLine(source, pieces[q], body[q]);
  }

  lemma ListingAlignsAt(lines: seq<string>, k: nat)
    requires SplitListing(lines).Listing? && k < |lines|
    ensures var r := SplitListing(lines);
            |r.source| == |r.numbers| == |lines| && IsAligned(lines[k], r.source[k], r.numbers[k])
  {
    hide ReadGutter, IsBlank, Strip, IsAligned;
    StripAligns(lines, 0, 0, k);
  }

  /** From the listing to the restored view: a kept line that is not blank is written with the number the listing gave
      it, in front of the text the listing gave it. */
  lemma ListingNumbersSurvive(listing: seq<string>, pieces: seq<Piece>, body: seq<string>, q: nat)
    requires SplitListing(listing).Listing?
    requires var l := SplitListing(listing);
             IsBody(l.source, pieces, body) && Tiles(pieces, 0, |l.source|) && |l.source| == |listing| > 0 &&
             Restore(l.source, l.numbers, body).Some?
    requires q < |pieces| && pieces[q].Shown? && !IsBlank(body[q])
    ensures var l := SplitListing(listing);
            pieces[q].index < |listing| &&
            var g := ReadGutter(listing[pieces[q].index]);
            |Restore(l.source, l.numbers, body).value| == |body| &&
            g.Numbered? && Restore(l.source, l.numbers, body).value[q] == Itoa(g.number) + "\t" + g.rest
  {
    hide ReadGutter, IsBlank, SplitListing, Restore, Itoa, Tiles, IsBodyLine, IsBody;
    var l := SplitListing(listing);
    RestoredNumbersAreTrue(l.source, l.numbers, pieces, body, q);
    ListingAlignsAt(listing, pieces[q].index);
    BodyLineIs(l.source, pieces, body, q);
    EmptyIsBlank();
  }

  lemma EmptyIsBlank()
    ensures IsBlank("")
  {
  }

  /* ---- Whole texts ---- */

  /** The lines of a text without the empty one that a final line break leaves. */
  function TextLines(s: string): (r: (seq<string>, bool))
    ensures r.0 != []
  {
    var lines := Split(s, NEWLINE);
    if |lines| > 1 && lines[|lines| - 1] == "" then (lines[..|lines| - 1], true) else (lines, false)
  }

  /** The source text of a listing, and the number of each of its lines. */
  function SplitText(input: string): Option<(string, seq<nat>)> {
    var (lines, trailing) := TextLines(input);
    var r := SplitListing(lines);
    if r.NotAListing? then None else Some((JoinLines(r.source, trailing), r.numbers))
  }

  function RestoreText(compressed: string, source: string, numbers: seq<nat>): Option<string> {
    var (body, trailing) := TextLines(compressed);
    var r := Restore(TextLines(source).0, numbers, body);
    if r.None? then None else Some(JoinLines(r.value, trailing))
  }

  lemma {:induction false} JoinBreak(lines: seq<string>)
    requires lines != []
    ensures Join(lines, NEWLINE) + "\n" == Join(lines + [""], NEWLINE)
    decreases |lines|
  {
    var all := lines + [""];
    assert all[1..] == lines[1..] + [""];
    if |lines| == 1 {
      assert all[1..] == [""];
      assert Join(all, NEWLINE) == lines[0] + [NEWLINE] + "";
    } else {
      JoinBreak(lines[1..]);
      assert Join(all, NEWLINE) == lines[0] + [NEWLINE] + (Join(lines[1..], NEWLINE) + "\n");
    }
  }

  /** A text made of lines splits into them, and into an empty one more when it ends in a line break. */
  lemma JoinedSplits(lines: seq<string>, trailing: bool)
    requires lines != [] && forall l | l in lines :: NEWLINE !in l
    ensures Split(JoinLines(lines, trailing), NEWLINE) == if trailing then lines + [""] else lines
  {
    hide Split, Join;
    if trailing {
      JoinBreak(lines);
      SplitJoin(lines + [""], NEWLINE);
    } else {
      assert Join(lines, NEWLINE) + "" == Join(lines, NEWLINE);
      SplitJoin(lines, NEWLINE);
    }
  }

  /** Splitting the source text again gives its lines back, except that an empty last line without a line break is
      taken for the end of the text. */
  lemma SourceSplits(lines: seq<string>, trailing: bool)
    requires lines != [] && forall l | l in lines :: NEWLINE !in l
    ensures var n := |lines|;
            TextLines(JoinLines(lines, trailing)).0 ==
            if trailing || n == 1 || lines[n - 1] != "" then lines else lines[..n - 1]
  {
    hide Split, JoinLines;
    JoinedSplits(lines, trailing);
    if trailing { assert (lines + [""])[..|lines|] == lines; }
  }

  lemma GutterKeepsLine(line: string)
    requires NEWLINE !in line
    ensures ReadGutter(line).Numbered? ==> NEWLINE !in ReadGutter(line).rest
  {
  }

  lemma {:induction false} StripKeepsLines(lines: seq<string>, i: nat, previous: nat)
    requires i <= |lines| && Strip(lines, i, previous).Listing? && forall l | l in lines :: NEWLINE !in l
    ensures forall l | l in Strip(lines, i, previous).source :: NEWLINE !in l
    decreases |lines| - i
  {
    hide ReadGutter, IsBlank;
    if i < |lines| {
      var g := ReadGutter(lines[i]);
      assert lines[i] in lines;
      GutterKeepsLine(lines[i]);
      StripKeepsLines(lines, i + 1, if g.Numbered? then g.number else previous);
    }
  }

  lemma {:induction false} RestoreKeepsLines(source: seq<string>, numbers: seq<nat>, body: seq<string>, cursor: nat,
                                             last: nat)
    requires |numbers| >= |source| > 0 && forall l | l in body :: NEWLINE !in l
    ensures forall l | l in RestoreFrom(source, numbers, body, cursor, last).lines :: NEWLINE !in l
    decreases |body|
  {
    hide Place, IsBlank, Itoa;
    if body != [] {
      var p := Place(source, numbers, body[0], cursor);
      assert body[0] in body;
      WrittenKeepsLine(body[0], p.number, last);
      RestoreKeepsLines(source, numbers, body[1..], p.cursor, LastAfter(body[0], p.number, last));
    }
  }

  lemma WrittenKeepsLine(line: string, number: nat, last: nat)
    requires NEWLINE !in line
    ensures NEWLINE !in Written(line, number, last)
  {
    var digits := Itoa(number);
    hide Itoa;
    assert NEWLINE !in digits;
  }

  lemma LinesOf(s: string)
    ensures forall l | l in TextLines(s).0 :: NEWLINE !in l
  {
    hide Split;
    SplitMakesLines(s);
  }

  /** From text to text: a kept line that is not blank is written with the number and the text that the listing gave it,
      also when the listing ends in an empty line, which the source text then no longer shows. */
  lemma TextNumbersSurvive(input: string, compressed: string, pieces: seq<Piece>, q: nat)
    requires SplitText(input).Some?
    requires var (source, numbers) := SplitText(input).value;
             var lines, body := TextLines(source).0, TextLines(compressed).0;
             IsBody(lines, pieces, body) && Tiles(pieces, 0, |lines|) &&
               RestoreText(compressed, source, numbers).Some? &&
             q < |pieces| && pieces[q].Shown? && !IsBlank(body[q])
    ensures var (source, numbers) := SplitText(input).value;
            var listing, restored := TextLines(input).0, Split(RestoreText(compressed, source, numbers).value, NEWLINE);
            pieces[q].index < |listing| && q < |restored| &&
            var g := ReadGutter(listing[pieces[q].index]);
            g.Numbered? && restored[q] == Itoa(g.number) + "\t" + g.rest
  {
    hide ReadGutter, IsBlank, Itoa, Tiles, IsBodyLine, IsBody, Split, JoinLines, TextLines, Strip, RestoreFrom;
    var listing, trailing := TextLines(input).0, TextLines(input).1;
    var l := SplitListing(listing);
    var source, body := JoinLines(l.source, trailing), TextLines(compressed).0;
    var lines := TextLines(source).0;
    LinesOf(input);
    LinesOf(compressed);
    StripKeepsLines(listing, 0, 0);
    StripSizes(listing, 0, 0);
    SourceSplits(l.source, trailing);
    RestoredNumbersAreTrue(lines, l.numbers, pieces, body, q);
    BodyLineIs(lines, pieces, body, q);
    var k := pieces[q].index;
    assert lines[k] == l.source[k];
    ListingAlignsAt(listing, k);
    EmptyIsBlank();
    RestoreKeepsLines(lines, l.numbers, body, 0, 0);
    JoinedSplits(Restore(lines, l.numbers, body).value, TextLines(compressed).1);
  }

  /* ---- The counts that markers state ---- */

  lemma {:induction false} CountSkips(s: string, i: nat, j: nat)
    requires i <= j < |s| && (forall k | i <= k < j :: !JsonText.IsDigit(s[k])) && StatesCount(s, j)
    ensures CountFrom(s, i) == Some(DecimalOf(s, j))
    decreases j - i
  {
    hide IsElided;
    if i < j {
      assert JsonText.DigitsEnd(s, i) == i;
      CountSkips(s, i + 1, j);
    }
  }

  function DecimalOf(s: string, i: nat): nat
    requires i <= |s|
  {
    JsonText.DigitsEndRun(s, i);
    DecimalValue(s[i..JsonText.DigitsEnd(s, i)])
  }

  lemma Characters(head: string, digits: string, text: string, tail: string, s: string, d: nat)
    requires s == head + digits + " " + text + tail && d == |head| + |digits|
    ensures |s| == d + 1 + |text| + |tail| && s[d] == ' '
    ensures forall k | 0 <= k < |head| :: s[k] == head[k]
    ensures forall k | |head| <= k < d :: s[k] == digits[k - |head|]
    ensures forall k | d < k <= d + |text| :: s[k] == text[k - d - 1]
  {
  }

  /** Where the parts of a marker stand. */
  lemma MarkerParts(digits: string, words: string, what: string, text: string, s: string, i: nat, d: nat, j: nat)
    requires text == words + what && d == i + |digits| && j == d + 1 + |words| && j + |what| <= |s|
    requires forall k | i <= k < d :: s[k] == digits[k - i]
    requires forall k | d < k <= d + |text| :: s[k] == text[k - d - 1]
    ensures s[i..d] == digits && OccursAt(s, what, j)
    ensures forall k | d < k < j :: s[k] == words[k - d - 1]
  {
    forall k | 0 <= k < |what| ensures s[j..j + |what|][k] == what[k] { assert s[j + k] == text[j + k - d - 1]; }
    assert s[j..j + |what|] == what;
    forall k | d < k < j ensures s[k] == words[k - d - 1] { assert s[k] == text[k - d - 1]; }
  }

  /** A text of the form that every run marker has states its count: no digit before it, and only small letters and
      spaces up to what was elided. `cr` is the ending of its line. */
  lemma MarkerStatesCount(head: string, n: nat, words: string, what: string, text: string, tail: string, cr: string)
    requires forall k | 0 <= k < |head| :: !JsonText.IsDigit(head[k])
    requires forall k | 0 <= k < |words| :: IsWordChar(words[k])
    requires what in ELISIONS && text == words + what
    ensures ElidedCount(head + Itoa(n) + " " + text + tail + cr) == Some(n)
  {
    var digits := Itoa(n);
    ItoaRoundTrip(n);
    hide Itoa, DecimalValue, OccursAt;
    var s := head + digits + " " + text + (tail + cr);
    var i, d, j := |head|, |head| + |digits|, |head| + |digits| + 1 + |words|;
    Characters(head, digits, text, tail + cr, s, d);
    MarkerParts(digits, words, what, text, s, i, d, j);
    MarkerCountAt(head, digits, words, what, s, i, d, j);
    Associate(head + digits + " " + text, tail, cr);
  }

  lemma Associate(a: string, b: string, c: string)
    ensures a + b + c == a + (b + c)
  {
  }

  lemma MarkerCountAt(head: string, digits: string, words: string, what: string, s: string, i: nat, d: nat, j: nat)
    requires (forall k | 0 <= k < |head| :: !JsonText.IsDigit(head[k])) &&
             forall k | 0 <= k < |words| :: IsWordChar(words[k])
    requires digits != "" && (forall k | 0 <= k < |digits| :: '0' <= digits[k] <= '9') && what in ELISIONS
    requires i == |head| && d == i + |digits| && j == d + 1 + |words| && j + |what| <= |s|
    requires s[i..d] == digits && s[d] == ' ' && OccursAt(s, what, j)
    requires forall k | 0 <= k < i :: s[k] == head[k]
    requires forall k | i <= k < d :: s[k] == digits[k - i]
    requires forall k | d < k < j :: s[k] == words[k - d - 1]
    ensures ElidedCount(s) == Some(DecimalValue(digits))
  {
    SpaceIsNoDigit();
    assert forall k | i <= k < d :: JsonText.IsDigit(s[k]);
    hide DecimalValue, JsonText.IsDigit, IsWordChar, OccursAt, CountFrom;
    JsonText.DigitsEndAt(s, i, d);
    assert IsElided(s, j);
    CountAt(s, i, d, j);
  }

  lemma CountAt(s: string, i: nat, d: nat, j: nat)
    requires i < d < j <= |s| && JsonText.DigitsEnd(s, i) == d && s[d] == ' ' && IsElided(s, j)
    requires forall k | d < k < j :: IsWordChar(s[k])
    requires forall k | 0 <= k < i :: !JsonText.IsDigit(s[k])
    ensures ElidedCount(s) == Some(DecimalOf(s, i))
  {
    hide IsElided, IsWordChar, JsonText.IsDigit;
    assert StatesCount(s, i);
    CountSkips(s, 0, i);
  }

  lemma SpaceIsNoDigit()
    ensures !JsonText.IsDigit(' ')
  {
  }

  /* ---- As it runs ---- */

  /** One pass over the lines of a listing. */
  method SplitLineNumberedListing(lines: seq<string>) returns (source: seq<string>, numbers: seq<nat>, ok: bool)
    ensures SplitListing(lines).Listing? == ok
    ensures ok ==> source == SplitListing(lines).source && numbers == SplitListing(lines).numbers
  {
    hide ReadGutter, IsBlank, Strip;
    source, numbers := [], [];
    if |lines| < MIN_LISTING_LINES { return [], [], false; }
    var previous: nat, numbered: nat := 0, 0;
    assert Before(source, numbers, numbered, Strip(lines, 0, 0)) ==
           Strip(lines, 0, 0) by { BeforeNothing(Strip(lines, 0, 0)); }
    for i := 0 to |lines|
      invariant Strip(lines, 0, 0) == Before(source, numbers, numbered, Strip(lines, i, previous))
    {
      StripStep(source, numbers, numbered, lines, i, previous);
      var g := ReadGutter(lines[i]);
      if g.NoGutter? {
        if !IsBlank(lines[i]) { return [], [], false; }
        source, numbers := source + [""], numbers + [previous];
        continue;
      }
      if g.number <= previous { return [], [], false; }
      previous, numbered := g.number, numbered + 1;
      source, numbers := source + [g.rest], numbers + [g.number];
    }
    StripEnds(source, numbers, numbered, lines, previous);
    if numbered < MIN_LISTING_LINES { return [], [], false; }
    ok := true;
  }

  function Before(source: seq<string>, numbers: seq<nat>, numbered: nat, rest: Listing): Listing {
    if rest.NotAListing? then NotAListing
    else Listing(source + rest.source, numbers + rest.numbers, numbered + rest.numbered)
  }

  lemma BeforeNothing(rest: Listing)
    ensures Before([], [], 0, rest) == rest
  {
    if rest.Listing? { assert [] + rest.source == rest.source && [] + rest.numbers == rest.numbers; }
  }

  lemma StripEnds(source: seq<string>, numbers: seq<nat>, numbered: nat, lines: seq<string>, previous: nat)
    ensures Before(source, numbers, numbered, Strip(lines, |lines|, previous)) == Listing(source, numbers, numbered)
  {
    assert source + [] == source && numbers + [] == numbers;
  }

  lemma StripStep(source: seq<string>, numbers: seq<nat>, numbered: nat, lines: seq<string>, i: nat, previous: nat)
    requires i < |lines|
    ensures var g := ReadGutter(lines[i]);
            Before(source, numbers, numbered, Strip(lines, i, previous)) ==
            if g.NoGutter? && !IsBlank(lines[i]) then NotAListing
            else if g.NoGutter? then
              Before(source + [""], numbers + [previous], numbered, Strip(lines, i + 1, previous))
            else if g.number <= previous then NotAListing
            else Before(source + [g.rest], numbers + [g.number], numbered + 1, Strip(lines, i + 1, g.number))
  {
    hide ReadGutter, IsBlank;
    var g := ReadGutter(lines[i]);
    var number := if g.Numbered? then g.number else previous;
    var text := if g.Numbered? then g.rest else "";
    var more := Strip(lines, i + 1, number);
    if more.Listing? {
      assert source + ([text] + more.source) == source + [text] + more.source;
      assert numbers + ([number] + more.numbers) == numbers + [number] + more.numbers;
    }
  }

  /** The positions of a line from `i` on, in ascending order. */
  function Positions(lines: seq<string>, line: string, i: nat): seq<nat>
    requires i <= |lines|
    decreases |lines| - i
  {
    if i == |lines| then [] else (if lines[i] == line then [i] else []) + Positions(lines, line, i + 1)
  }

  type Index = map<string, seq<nat>>

  function PositionsIn(index: Index, line: string): seq<nat> {
    if line in index then index[line] else []
  }

  method IndexSourceLines(lines: seq<string>) returns (index: Index)
    ensures forall line :: PositionsIn(index, line) == Positions(lines, line, 0)
  {
    index := map[];
    for i := 0 to |lines|
      invariant forall line :: Positions(lines, line, 0) == PositionsIn(index, line) + Positions(lines, line, i)
    {
      ghost var was := index;
      index := index[lines[i] := PositionsIn(index, lines[i]) + [i]];
      forall line ensures Positions(lines, line, 0) == PositionsIn(index, line) + Positions(lines, line, i + 1) {
        assert Positions(lines, line, 0) == PositionsIn(was, line) + Positions(lines, line, i);
        assert PositionsIn(index, line) == if line == lines[i] then PositionsIn(was, line) + [i]
               else PositionsIn(was, line);
      }
    }
    forall line ensures PositionsIn(index, line) == Positions(lines, line, 0) {
      assert PositionsIn(index, line) + [] == PositionsIn(index, line);
    }
  }

  /** The first position at or after the cursor. */
  function FirstAt(positions: seq<nat>, cursor: nat): Option<nat> {
    if positions == [] then None else if positions[0] >= cursor then Some(positions[0])
      else FirstAt(positions[1..], cursor)
  }

  lemma {:induction false} FirstAtFinds(lines: seq<string>, line: string, i: nat, cursor: nat)
    requires i <= |lines|
    ensures FirstAt(Positions(lines, line, i), cursor) == NextMatch(lines, line, if i < cursor then cursor else i)
    decreases |lines| - i
  {
    if i < |lines| {
      FirstAtFinds(lines, line, i + 1, cursor);
      var rest := Positions(lines, line, i + 1);
      if lines[i] == line { assert ([i] + rest)[1..] == rest; } else { assert [] + rest == rest; }
    }
  }

  method FindNextMatch(index: Index, source: seq<string>, line: string, cursor: nat) returns (at: Option<nat>)
    requires PositionsIn(index, line) == Positions(source, line, 0)
    ensures at == NextMatch(source, line, cursor)
  {
    FirstAtFinds(source, line, 0, cursor);
    if line !in index { return None; }
    var positions := index[line];
    assert positions[0..] == positions;
    for k := 0 to |positions|
      invariant FirstAt(positions, cursor) == FirstAt(positions[k..], cursor)
    {
      assert positions[k..][0] == positions[k] && positions[k..][1..] == positions[k + 1..];
      if positions[k] >= cursor { return Some(positions[k]); }
    }
    at := None;
  }

  /** One pass over the lines of the compressed body. */
  method RestoreLineNumberedListing(source: seq<string>, numbers: seq<nat>, body: seq<string>)
    returns (out: seq<string>, ok: bool)
    requires source != []
    ensures Restore(source, numbers, body) == if ok then Some(out) else None
  {
    hide IsBlank, Itoa, ElidedCount, RestoreFrom, NextMatch, Written;
    out := [];
    if |numbers| < |source| { return [], false; }
    var index := IndexSourceLines(source);
    var cursor: nat, last: nat, traceable: nat, tracked: nat := 0, 0, 0, 0;
    assert body[0..] == body;
    ghost var goal := RestoreFrom(source, numbers, body, 0, 0);
    assert [] + goal.lines == goal.lines;
    for i := 0 to |body|
      invariant goal == After(out, tracked, traceable, RestoreFrom(source, numbers, body[i..], cursor, last))
    {
      var line := body[i];
      RestoreStep(source, numbers, body, i, cursor, last, out, tracked, traceable);
      var position := if cursor >= |numbers| then |numbers| - 1 else cursor;
      var number := numbers[position];
      if !IsBlank(line) {
        tracked := tracked + 1;
        var at := FindNextMatch(index, source, line, cursor);
        if at.Some? {
          number, cursor, traceable := numbers[at.value], at.value + 1, traceable + 1;
        } else {
          var elided := ElidedCount(line);
          if elided.Some? { cursor := Min(cursor + elided.value, |source|); }
        }
      } else if cursor < |source| && IsBlank(source[cursor]) {
        cursor := cursor + 1;
      } else {
        number := 0;
      }
      out := out + [Written(line, number, last)];
      if number > last || !IsBlank(line) { last := number; }
    }
    assert out + [] == out && body[|body|..] == [];
    RestoreNothing(source, numbers, cursor, last);
    if tracked > 0 && traceable * 2 < tracked { return [], false; }
    ok := true;
  }

  function After(out: seq<string>, tracked: nat, traceable: nat, rest: Restored): Restored {
    Restored(out + rest.lines, tracked + rest.tracked, traceable + rest.traceable)
  }

  lemma RestoreNothing(source: seq<string>, numbers: seq<nat>, cursor: nat, last: nat)
    requires |numbers| >= |source| > 0
    ensures RestoreFrom(source, numbers, [], cursor, last) == Restored([], 0, 0)
  {
  }

  lemma RestoreStep(source: seq<string>, numbers: seq<nat>, body: seq<string>, i: nat, cursor: nat, last: nat,
                    out: seq<string>, tracked: nat, traceable: nat)
    requires |numbers| >= |source| > 0 && i < |body|
    ensures var p := Place(source, numbers, body[i], cursor);
            After(out, tracked, traceable, RestoreFrom(source, numbers, body[i..], cursor, last)) ==
            After(out + [Written(body[i], p.number, last)], tracked + (if IsBlank(body[i]) then 0 else 1),
                  traceable + (if p.traced then 1 else 0),
                  RestoreFrom(source, numbers, body[i + 1..], p.cursor, LastAfter(body[i], p.number, last)))
  {
    hide Place, Written, IsBlank, LastAfter;
    var rest := body[i..];
    assert rest[0] == body[i] && rest[1..] == body[i + 1..];
    var p := Place(source, numbers, body[i], cursor);
    var more := RestoreFrom(source, numbers, body[i + 1..], p.cursor, LastAfter(body[i], p.number, last));
    assert out + ([Written(body[i], p.number, last)] + more.lines) ==
           out + [Written(body[i], p.number, last)] + more.lines;
  }
}
