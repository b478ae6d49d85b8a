/**
 A reader of summaries, written from what a summary looks like and not from how it is made, and what it finds in every
 summary that is made.
 */
module SummaryReader {
  import opened GoText
  import opened DenseCoverage
  import opened ElisionFacts
  import opened ElisionSummary

  const CROSS := '\U{D7}'

  /* ---- Reading one entry ---- */

  /** The text does not show how readily an enumeration is shed. */
  function Claim(f: Fact): Fact {
    if f.Enumeration? then f.(weak := false) else f
  }

  function LastAt(s: string, c: char): (i: Option<nat>)
    ensures i.Some? ==> i.value < |s|
  {
    if s == "" then None
    else if s[|s| - 1] == c then Some(|s| - 1)
    else LastAt(s[..|s| - 1], c)
  }

  /** The place of the first two dots. */
  function DotsAt(s: string, i: nat): (j: Option<nat>)
    ensures j.Some? ==> j.value + 2 <= |s|
    decreases |s| - i
  {
    if i + 2 > |s| then None else if s[i] == '.' && s[i + 1] == '.' then Some(i) else DotsAt(s, i + 1)
  }

  function ReadEnds(s: string): Option<(string, string)> {
    var i := DotsAt(s, 0);
    if i.None? then None else Some((s[..i.value], s[i.value + 2..]))
  }

  /** A value and how often it occurs. */
  function ReadBucket(token: string): Option<Bucket> {
    var i := LastAt(token, CROSS);
    if i.None? || !IsDecimal(token[i.value + 1..]) then None
    else Some(Bucket(token[..i.value], DecimalValue(token[i.value + 1..])))
  }

  function ReadBuckets(tokens: seq<string>): Option<seq<Bucket>> {
    if tokens == [] then Some([])
    else
      var first, rest := ReadBucket(tokens[0]), ReadBuckets(tokens[1..]);
      if first.None? || rest.None? then None else Some([first.value] + rest.value)
  }

  function ReadEnumeration(name: string, tokens: seq<string>): Option<Fact> {
    var buckets := ReadBuckets(tokens);
    if buckets.None? || buckets.value == [] then None
    else
      var n := |buckets.value| - 1;
      if buckets.value[n].value == "absent"
      then Some(Enumeration(name, buckets.value[..n], buckets.value[n].count, false))
      else Some(Enumeration(name, buckets.value, 0, false))
  }

  /** Both ends have the same length. */
  function ReadDense(name: string, tokens: seq<string>): Option<Fact> {
    if |tokens| != 4 || |tokens[0]| < 2 || !IsDecimal(tokens[2]) || tokens[3] != "present" then None
    else
      var half := (|tokens[0]| - 2) / 2;
      Some(Dense(name, tokens[0][..half], tokens[0][half + 2..], DecimalValue(tokens[2])))
  }

  function ReadBounded(name: string, tokens: seq<string>): Option<Fact> {
    if |tokens| == 3 && IsDecimal(tokens[0]) && ReadEnds(tokens[2]).Some? then
      var ends := ReadEnds(tokens[2]).value;
      Some(Bounded(name, ends.0, ends.1, DecimalValue(tokens[0]), 0))
    else if |tokens| == 4 && IsDecimal(tokens[0]) && tokens[2] != "" && ReadEnds(tokens[2][..|tokens[2]| - 1]).Some? &&
            ReadBucket(tokens[3]).Some? then
      var ends := ReadEnds(tokens[2][..|tokens[2]| - 1]).value;
      Some(Bounded(name, ends.0, ends.1, DecimalValue(tokens[0]), ReadBucket(tokens[3]).value.count))
    else None
  }

  /** What stands behind the colon of a section of its own, word by word. */
  function ReadWords(name: string, tokens: seq<string>): Option<Fact> {
    if |tokens| >= 2 && tokens[1] == "distinct," then ReadBounded(name, tokens)
    else if |tokens| >= 2 && tokens[1] == "all" then ReadDense(name, tokens)
    else ReadEnumeration(name, tokens)
  }

  /** An entry of a field whose name is known: in the section of constants, in that of ranges, or on its own. */
  function ReadConstant(name: string, entry: string): Option<Fact> {
    if name + "=" <= entry then Some(Constant(name, entry[|name| + 1..])) else None
  }

  function ReadRange(name: string, entry: string): Option<Fact> {
    if name + "=" <= entry && ReadEnds(entry[|name| + 1..]).Some? then
      var ends := ReadEnds(entry[|name| + 1..]).value;
      Some(Range(name, ends.0, ends.1))
    else None
  }

  function ReadSection(name: string, entry: string): Option<Fact> {
    if name + ": " <= entry then ReadWords(name, Split(entry[|name| + 2..], ' ')) else None
  }

  /* ---- Reading a whole summary ---- */

  /** What a summary tells: a fact, or how many facts it leaves out. */
  datatype Item = Told(fact: Fact) | Omitted(count: nat)

  /** `name=...`, where a name holds no `=` */
  function ReadEntry(entry: string, ranges: bool): Option<Fact> {
    var name := entry[..IndexFrom(entry, '=', 0)];
    if ranges then ReadRange(name, entry) else ReadConstant(name, entry)
  }

  function ReadEntries(entries: seq<string>, ranges: bool): Option<seq<Item>> {
    if entries == [] then Some([])
    else
      var first, rest := ReadEntry(entries[0], ranges), ReadEntries(entries[1..], ranges);
      if first.None? || rest.None? then None else Some([Told(first.value)] + rest.value)
  }

  predicate IsOmission(words: seq<string>) {
    |words| == 2 && words[1] == "omitted" && "+" <= words[0] && IsDecimal(words[0][1..])
  }

  /** Constants after `all`, ranges after `range`, a count of what was left out, or one field behind its name. */
  function ReadPart(part: string): Option<seq<Item>> {
    ReadPartWords(Split(if " " <= part then part[1..] else part, ' '))
  }

  function ReadPartWords(words: seq<string>): Option<seq<Item>>
    requires words != []
  {
    var head, tail := words[0], words[1..];
    if head == "all" then ReadEntries(tail, false)
    else if head == "range" then ReadEntries(tail, true)
    else if IsOmission(words) then Some([Omitted(DecimalValue(head[1..]))])
    else if head != "" && head[|head| - 1] == ':' && ReadWords(head[..|head| - 1], tail).Some?
    then Some([Told(ReadWords(head[..|head| - 1], tail).value)])
    else None
  }

  function ReadParts(parts: seq<string>): Option<seq<Item>> {
    if parts == [] then Some([])
    else
      var first, rest := ReadPart(parts[0]), ReadParts(parts[1..]);
      if first.None? || rest.None? then None else Some(first.value + rest.value)
  }

  /** Everything a summary tells, in its order. */
  function ReadSummary(text: string): Option<seq<Item>> {
    ReadParts(Split(text, ';'))
  }

  /* ---- What may be written ---- */

  /** What the printing rules leave of a fact. */
  predicate IsWritable(f: Fact) {
    f.name != "" &&
    match f
    case Constant(_, value) => IsUsable(value)
    case Range(_, low, high) => IsUsable(low) && IsUsable(high)
    case Enumeration(_, buckets, _, _) =>
      buckets != [] && forall i | 0 <= i < |buckets| :: IsEnumUsable(buckets[i].value) && buckets[i].value != ABSENT
    case Dense(_, low, high, _) => IsEnumUsable(low) && IsEnumUsable(high) && |low| == |high|
    case Bounded(_, low, high, _, _) => IsEnumUsable(low) && IsEnumUsable(high)
  }

  /** No two dots stand before the end of the low end. */
  predicate IsClear(low: string) {
    forall i | 0 <= i < |low| :: !((low + "..")[i] == '.' && (low + "..")[i + 1] == '.')
  }

  /** The two ends of a fact can be told apart. */
  predicate EndsClear(f: Fact) {
    f.Range? || f.Bounded? ==> IsClear(f.low)
  }

  lemma {:induction false} DotsFirst(s: string, i: nat, j: nat)
    requires i <= j && j + 2 <= |s| && s[j] == s[j + 1] == '.'
    requires forall k | i <= k < j :: !(s[k] == '.' && s[k + 1] == '.')
    ensures DotsAt(s, i) == Some(j)
    decreases j - i
  {
    if i < j { DotsFirst(s, i + 1, j); }
  }

  lemma {:induction false} DotsMiss(s: string, i: nat, k: nat)
    requires i <= k && k + 2 <= |s| && s[k] == s[k + 1] == '.'
    ensures DotsAt(s, i).Some? && DotsAt(s, i).value <= k
    decreases k - i
  {
    if i < k && !(s[i] == '.' && s[i + 1] == '.') { DotsMiss(s, i + 1, k); }
  }

  /** The first two dots part the ends exactly when the low end does not bring two of its own. */
  lemma EndsReadExactly(low: string, high: string)
    ensures ReadEnds(low + ".." + high) == Some((low, high)) <==> IsClear(low)
  {
    var s, t := low + ".." + high, low + "..";
    assert forall k | 0 <= k < |t| :: s[k] == t[k];
    if IsClear(low) {
      DotsFirst(s, 0, |low|);
      assert s[..|low|] == low && s[|low| + 2..] == high;
    } else {
      var k :| 0 <= k < |low| && t[k] == '.' && t[k + 1] == '.';
      DotsMiss(s, 0, k);
      assert |s[..DotsAt(s, 0).value]| < |low|;
    }
  }

  lemma {:induction false} LastAtEnd(v: string, c: char, rest: string)
    requires c !in rest
    ensures LastAt(v + [c] + rest, c) == Some(|v|)
    decreases |rest|
  {
    var s := v + [c] + rest;
    if rest != "" {
      var n := |rest| - 1;
      assert s[..|s| - 1] == v + [c] + rest[..n] && s[|s| - 1] == rest[n];
      assert rest[n] in rest;
      LastAtEnd(v, c, rest[..n]);
    }
  }

  lemma DigitsNoCross(n: nat)
    ensures CROSS !in Itoa(n)
  {
    var digits := Itoa(n);
    hide Itoa;
  }

  lemma BucketReads(value: string, count: nat)
    ensures ReadBucket(value + TIMES + Itoa(count)) == Some(Bucket(value, count))
  {
    var digits := Itoa(count);
    ItoaRoundTrip(count);
    DigitsNoCross(count);
    hide Itoa, DecimalValue;
    var token := value + [CROSS] + digits;
    assert TIMES == [CROSS];
    LastAtEnd(value, CROSS, digits);
    assert token[..|value|] == value && token[|value| + 1..] == digits;
  }

  /* ---- The words of an entry ---- */

  function BucketWords(buckets: seq<Bucket>): seq<string> {
    if buckets == [] then [] else [buckets[0].value + TIMES + Itoa(buckets[0].count)] + BucketWords(buckets[1..])
  }

  function WithAbsent(buckets: seq<Bucket>, absent: nat): seq<Bucket> {
    if absent > 0 then buckets + [Bucket(ABSENT, absent)] else buckets
  }

  function Words(f: Fact): seq<string>
    requires !f.Constant? && !f.Range?
  {
    match f
    case Enumeration(_, buckets, absent, _) => BucketWords(WithAbsent(buckets, absent))
    case Dense(_, low, high, distinct) => [low + ".." + high, "all", Itoa(distinct), "present"]
    case Bounded(_, low, high, distinct, absent) =>
      if absent > 0 then [Itoa(distinct), "distinct,", low + ".." + high + ",", ABSENT + TIMES + Itoa(absent)]
      else [Itoa(distinct), "distinct,", low + ".." + high]
  }

  lemma {:induction false} BucketWordsRead(buckets: seq<Bucket>)
    ensures ReadBuckets(BucketWords(buckets)) == Some(buckets)
    decreases |buckets|
  {
    hide ReadBucket, Itoa;
    if buckets != [] {
      BucketReads(buckets[0].value, buckets[0].count);
      BucketWordsRead(buckets[1..]);
      var words := BucketWords(buckets);
      assert words[1..] == BucketWords(buckets[1..]);
      assert buckets == [buckets[0]] + buckets[1..];
    }
  }

  lemma {:induction false} BucketWordsCross(buckets: seq<Bucket>)
    ensures |BucketWords(buckets)| == |buckets|
    ensures forall i | 0 <= i < |buckets| ::
            BucketWords(buckets)[i] == buckets[i].value + TIMES + Itoa(buckets[i].count)
    decreases |buckets|
  {
    hide Itoa;
    if buckets != [] { BucketWordsCross(buckets[1..]); }
  }

  lemma CrossIn(value: string, count: nat)
    ensures CROSS in value + TIMES + Itoa(count)
    ensures value + TIMES + Itoa(count) != "distinct," && value + TIMES + Itoa(count) != "all"
  {
    hide Itoa;
    var word := value + TIMES + Itoa(count);
    assert word[|value|] == CROSS;
    assert CROSS !in "distinct," && CROSS !in "all";
  }

  lemma EnumerationReads(name: string, buckets: seq<Bucket>, absent: nat, weak: bool)
    requires IsWritable(Enumeration(name, buckets, absent, weak))
    ensures ReadWords(name, BucketWords(WithAbsent(buckets, absent))) == Some(Enumeration(name, buckets, absent, false))
  {
    hide ReadBuckets, BucketWords, ReadBounded, ReadDense, IsEnumUsable, Itoa;
    var all := WithAbsent(buckets, absent);
    BucketWordsRead(all);
    BucketWordsCross(all);
    if |all| >= 2 { CrossIn(all[1].value, all[1].count); }
    if absent > 0 { assert all[..|all| - 1] == buckets; }
  }

  lemma DenseReads(name: string, low: string, high: string, distinct: nat)
    requires |low| == |high|
    ensures ReadWords(name, [low + ".." + high, "all", Itoa(distinct), "present"]) ==
            Some(Dense(name, low, high, distinct))
  {
    ItoaRoundTrip(distinct);
    hide Itoa, DecimalValue;
    var token := low + ".." + high;
    assert (|token| - 2) / 2 == |low| && token[..|low|] == low && token[|low| + 2..] == high;
  }

  lemma BoundedReads(f: Fact)
    requires f.Bounded? && IsClear(f.low)
    ensures ReadWords(f.name, Words(f)) == Some(f)
  {
    ItoaRoundTrip(f.distinct);
    EndsReadExactly(f.low, f.high);
    BucketReads(ABSENT, f.absent);
    hide Itoa, DecimalValue, ReadEnds, ReadBucket, IsClear;
    var ends := f.low + ".." + f.high;
    assert (ends + ",")[..|ends + ","| - 1] == ends;
  }

  lemma WordsRead(f: Fact)
    requires !f.Constant? && !f.Range? && IsWritable(f) && EndsClear(f)
    ensures ReadWords(f.name, Words(f)) == Some(Claim(f))
  {
    hide ReadWords, IsEnumUsable, BucketWords, WithAbsent, IsClear;
    match f
    case Enumeration(name, buckets, absent, weak) => EnumerationReads(name, buckets, absent, weak);
    case Dense(name, low, high, distinct) => DenseReads(name, low, high, distinct);
    case Bounded(_, _, _, _, _) => BoundedReads(f);
  }

  /* ---- The text of an entry ---- */

  lemma BucketText(value: string, n: string, rest: string)
    ensures " " + value + TIMES + n + rest == " " + (value + TIMES + n + rest)
  {
  }

  lemma JoinFirst(word: string, rest: seq<string>, text: string)
    requires rest != [] && text == " " + Join(rest, ' ')
    ensures Join([word] + rest, ' ') == word + text
  {
    hide Join;
    assert ([word] + rest)[1..] == rest;
    JoinStep([word] + rest, ' ');
    assert word + [' '] + Join(rest, ' ') == word + text;
  }

  lemma JoinStep(parts: seq<string>, sep: char)
    requires |parts| > 1
    ensures Join(parts, sep) == parts[0] + [sep] + Join(parts[1..], sep)
  {
  }

  lemma {:induction false} BucketTextsAre(buckets: seq<Bucket>)
    ensures buckets != [] ==> BucketTexts(buckets) == " " + Join(BucketWords(buckets), ' ')
    decreases |buckets|
  {
    hide Itoa, Join;
    if buckets != [] {
      BucketTextsAre(buckets[1..]);
      var n, rest := Itoa(buckets[0].count), BucketTexts(buckets[1..]);
      var word := buckets[0].value + TIMES + n;
      BucketText(buckets[0].value, n, rest);
      BucketWordsCross(buckets);
      BucketWordsCross(buckets[1..]);
      if |buckets| > 1 {
        JoinFirst(word, BucketWords(buckets[1..]), rest);
      } else {
        assert BucketWords(buckets) == [word];
        JoinOne(word);
      }
    }
  }

  lemma JoinOne(word: string)
    ensures Join([word], ' ') == word && word + "" == word
  {
  }

  lemma JoinFour(a: string, b: string, c: string, d: string)
    ensures Join([a, b, c, d], ' ') == a + " " + b + " " + c + " " + d
    ensures Join([a, b, c], ' ') == a + " " + b + " " + c
  {
    assert [a, b, c, d][1..] == [b, c, d] && [b, c, d][1..] == [c, d] && [c, d][1..] == [d];
    assert [a, b, c][1..] == [b, c] && [b, c][1..] == [c];
    assert Join([c, d], ' ') == c + " " + d;
    assert Join([b, c, d], ' ') == b + " " + (c + " " + d);
    assert Join([b, c], ' ') == b + " " + c;
  }

  /** An entry on its own is its name, a colon, and its words. */
  lemma OwnText(f: Fact)
    requires !f.Constant? && !f.Range? && IsWritable(f)
    ensures Text(f) == f.name + ": " + Join(Words(f), ' ')
  {
    hide Itoa, Join, BucketTexts, BucketWords, IsEnumUsable;
    match f
    case Enumeration(name, buckets, absent, _) =>
      var all := WithAbsent(buckets, absent);
      BucketTextsAre(all);
      assert name + ":" + (" " + Join(BucketWords(all), ' ')) == name + ": " + Join(BucketWords(all), ' ');
    case Dense(name, low, high, distinct) =>
      JoinFour(low + ".." + high, "all", Itoa(distinct), "present");
      DenseText(name, low, high, Itoa(distinct));
    case Bounded(name, low, high, distinct, absent) =>
      JoinFour(Itoa(distinct), "distinct,", low + ".." + high, "");
      JoinFour(Itoa(distinct), "distinct,", low + ".." + high + ",", ABSENT + TIMES + Itoa(absent));
      BoundedText(name, low, high, Itoa(distinct), Itoa(absent));
  }

  lemma DenseText(name: string, low: string, high: string, n: string)
    ensures name + ": " + low + ".." + high + " all " + n + " present" ==
            name + ": " + (low + ".." + high + " " + "all" + " " + n + " " + "present")
  {
  }

  lemma BoundedText(name: string, low: string, high: string, n: string, a: string)
    ensures name + ": " + n + " distinct, " + low + ".." + high + "" ==
            name + ": " + (n + " " + "distinct," + " " + (low + ".." + high))
    ensures name + ": " + n + " distinct, " + low + ".." + high + (", " + ABSENT + TIMES + a) ==
            name + ": " + (n + " " + "distinct," + " " + (low + ".." + high + ",") + " " + (ABSENT + TIMES + a))
  {
  }

  /* ---- Every entry reads back ---- */

  predicate HasNoSpace(words: seq<string>) {
    forall w | w in words :: ' ' !in w
  }

  lemma DigitsNoSpace(n: nat)
    ensures ' ' !in Itoa(n) && ';' !in Itoa(n)
  {
    var digits := Itoa(n);
    hide Itoa;
  }

  lemma WordsHaveNoSpace(f: Fact)
    requires !f.Constant? && !f.Range? && IsWritable(f)
    ensures Words(f) != [] && HasNoSpace(Words(f))
  {
    hide IsUsable, Itoa, BucketWords;
    match f
    case Enumeration(_, buckets, absent, _) =>
      var all := WithAbsent(buckets, absent);
      BucketWordsCross(all);
      forall i | 0 <= i < |all| ensures ' ' !in BucketWords(all)[i] {
        DigitsNoSpace(all[i].count);
        assert ' ' !in all[i].value;
      }
    case Dense(_, low, high, distinct) => DigitsNoSpace(distinct);
    case Bounded(_, low, high, distinct, absent) =>
      DigitsNoSpace(distinct);
      DigitsNoSpace(absent);
  }

  lemma OwnReads(f: Fact)
    requires !f.Constant? && !f.Range? && IsWritable(f) && EndsClear(f)
    ensures ReadSection(f.name, Text(f)) == Some(Claim(f))
  {
    OwnText(f);
    WordsHaveNoSpace(f);
    WordsRead(f);
    SplitJoin(Words(f), ' ');
    hide Text, Join, Split, Words, ReadWords, IsWritable, EndsClear;
    var start, rest := f.name + ": ", Join(Words(f), ' ');
    assert start <= start + rest && (start + rest)[|start|..] == rest;
  }

  lemma ConstantReads(name: string, value: string)
    ensures ReadConstant(name, Text(Constant(name, value))) == Some(Constant(name, value))
  {
    var start := name + "=";
    assert start <= start + value && (start + value)[|start|..] == value;
  }

  lemma RangeReadsExactly(name: string, low: string, high: string)
    ensures ReadRange(name, Text(Range(name, low, high))) == Some(Range(name, low, high)) <==> IsClear(low)
  {
    EndsReadExactly(low, high);
    var start, rest := name + "=", low + ".." + high;
    assert name + "=" + low + ".." + high == start + rest;
    assert start <= start + rest && (start + rest)[|start|..] == rest;
    hide ReadEnds, IsClear;
  }

  /* ---- Every fact is writable ---- */

  lemma CountableIn(values: seq<string>, v: string)
    requires IsCountable(values) && v in values
    ensures IsEnumUsable(v)
    decreases |values|
  {
    hide IsEnumUsable;
    var init := values[..|values| - 1];
    assert values == init + [values[|values| - 1]];
    if v in init { CountableIn(init, v); }
  }

  lemma PadsHaveWidth(values: set<string>, p: string, w: nat, a: nat, b: nat)
    requires IsDense(values, p, w, a, b)
    ensures |Pad(a, w)| == |Pad(b, w)| && p + Pad(a, w) in values && p + Pad(b, w) in values
  {
    DenseIsShaped(values, p, w, a, b);
  }

  lemma EnumerationIsWritable(name: string, values: seq<string>, absent: nat)
    requires name != "" && Enumerate(name, values, absent).Some?
    ensures IsWritable(Enumerate(name, values, absent).value)
  {
    hide IsEnumUsable, SortBuckets, Occurrences, DistinctValues;
    var buckets := SortBuckets(BucketsOf(values));
    SortKeeps(BucketsOf(values));
    DistinctAreValues(values);
    assert values[0] in DistinctValues(values);
    forall i | 0 <= i < |buckets| ensures buckets[i].value in values {
      BucketIsExact(values, buckets, i);
      OccursIfIn(values, buckets[i].value);
    }
  }

  lemma CoverIsWritable(name: string, values: seq<string>, absent: nat)
    requires name != "" && IsCountable(values) && Cover(name, values, absent).Some?
    ensures IsWritable(Cover(name, values, absent).value)
  {
    hide IsEnumUsable, IsCountable, Pad, IsDense;
    var f := Cover(name, values, absent).value;
    if f.Dense? {
      var p, w: nat, a: nat, b: nat :|
        IsDense(ToSet(values), p, w, a, b) && f.low == p + Pad(a, w) && f.high == p + Pad(b, w);
      PadsHaveWidth(ToSet(values), p, w, a, b);
    }
    CountableIn(values, f.low);
    CountableIn(values, f.high);
  }

  lemma FactIsWritable(units: seq<Unit>, name: string, rules: Rules, mayCover: bool)
    requires FactOf(units, name, rules, mayCover).Some?
    ensures IsWritable(FactOf(units, name, rules, mayCover).value)
  {
    hide Values, UnitsWith, Enumerate, Cover, IsWritable, IsUsable, Smallest, Largest, AllEqual, AllNumbers,
         IsCountable;
    var values, absent := Values(units, name), UnitsWith(units, name, None);
    if absent == 0 && AllEqual(values) {
      PlainIsWritable(name, values[0], values[0]);
    } else if absent == 0 && AllNumbers(values, rules) && Smallest(values, rules) != Largest(values, rules) {
      PlainIsWritable(name, Smallest(values, rules), Largest(values, rules));
    } else if Enumerate(name, values, absent).Some? {
      EnumerationIsWritable(name, values, absent);
    } else {
      CoverIsWritable(name, values, absent);
    }
  }

  lemma PlainIsWritable(name: string, low: string, high: string)
    requires name != "" && IsUsable(low) && IsUsable(high)
    ensures IsWritable(Constant(name, low)) && IsWritable(Range(name, low, high))
  {
    hide IsUsable;
  }

  lemma {:induction false} FactsFromAreWritable(units: seq<Unit>, names: seq<string>, rules: Rules, coverages: nat)
    ensures forall f | f in FactsFrom(units, names, rules, coverages) :: IsWritable(f)
    decreases |names|
  {
    hide FactOf, IsWritable;
    if names != [] {
      var f := FactOf(units, names[0], rules, coverages < MAX_COVERAGE_ENTRIES);
      if f.Some? { FactIsWritable(units, names[0], rules, coverages < MAX_COVERAGE_ENTRIES); }
      FactsFromAreWritable(units, names[1..], rules, if f.None? then coverages else coverages + Covers(f.value));
    }
  }

  /** Whatever is stated keeps the printing rules. */
  lemma FactsAreWritable(units: seq<Unit>, rules: Rules)
    ensures forall f | f in Facts(units, rules) :: IsWritable(f)
  {
    hide FactsFrom, IsWritable, Tracked;
    if |units| >= MIN_UNITS && [] !in units { FactsFromAreWritable(units, Tracked(units), rules, 0); }
  }

  /* ---- Which summaries can be read as a whole ---- */

  /** The characters that part entries do not stand in names or values. */
  predicate IsPlain(f: Fact) {
    ' ' !in f.name && ';' !in f.name &&
    match f
    case Constant(name, value) => '=' !in name && ' ' !in value && ';' !in value
    case Range(name, low, high) => '=' !in name && ' ' !in low && ';' !in low && ' ' !in high && ';' !in high
    case Enumeration(_, buckets, _, _) => forall i | 0 <= i < |buckets| :: ';' !in buckets[i].value
    case Dense(_, low, high, _) => ';' !in low && ';' !in high
    case Bounded(_, low, high, _, _) => ';' !in low && ';' !in high
  }

  predicate IsReadable(f: Fact) {
    IsWritable(f) && IsPlain(f) && EndsClear(f)
  }

  /** Constants come first, then what stands on its own, then ranges. */
  function Place(f: Fact): nat {
    if f.Constant? then 0 else if f.Range? then 2 else 1
  }

  /** The selected facts of one place, in order. */
  function Picked(facts: seq<Fact>, selected: seq<bool>, place: nat): seq<Fact>
    requires |selected| == |facts|
  {
    if facts == [] then []
    else (if selected[0] && Place(facts[0]) == place then [facts[0]] else []) + Picked(facts[1..], selected[1..], place)
  }

  function Items(facts: seq<Fact>): seq<Item> {
    if facts == [] then [] else [Told(Claim(facts[0]))] + Items(facts[1..])
  }

  /** What a reader should find. */
  function AllItems(facts: seq<Fact>, selected: seq<bool>, omitted: nat): seq<Item>
    requires |selected| == |facts|
  {
    Items(Picked(facts, selected, 0)) + Items(Picked(facts, selected, 1)) + Items(Picked(facts, selected, 2)) +
    if omitted > 0 then [Omitted(omitted)] else []
  }

  /* ---- One part ---- */

  function TextsOf(facts: seq<Fact>): seq<string> {
    if facts == [] then [] else [Text(facts[0])] + TextsOf(facts[1..])
  }

  /** A part that reads as these items, wherever it stands. */
  predicate ReadsAs(part: string, items: seq<Item>) {
    ReadPart(part) == ReadPart(" " + part) == Some(items) && ';' !in part
  }

  lemma PlainReads(f: Fact)
    requires IsReadable(f) && (f.Constant? || f.Range?)
    ensures ReadEntry(Text(f), f.Range?) == Some(f) && ' ' !in Text(f) && ';' !in Text(f)
  {
    var text := Text(f);
    assert text[|f.name|] == '=' && text[..|f.name|] == f.name;
    forall k | 0 <= k < |f.name| ensures text[k] != '=' { assert text[k] == f.name[k] && f.name[k] in f.name; }
    IndexFromSkips(text, '=', 0, |f.name|);
    hide IsWritable, IsClear, ReadRange, ReadConstant;
    if f.Constant? { ConstantReads(f.name, f.value); } else { RangeReadsExactly(f.name, f.low, f.high); }
  }

  lemma {:induction false} EntriesRead(facts: seq<Fact>, ranges: bool)
    requires forall f | f in facts :: IsReadable(f) && (if ranges then f.Range? else f.Constant?)
    ensures ReadEntries(TextsOf(facts), ranges) == Some(Items(facts)) && HasNoSpace(TextsOf(facts))
    ensures forall t | t in TextsOf(facts) :: ';' !in t
    decreases |facts|
  {
    hide IsReadable, ReadEntry, Text;
    if facts != [] {
      PlainReads(facts[0]);
      EntriesRead(facts[1..], ranges);
    }
  }

  lemma {:induction false} JoinAvoids(words: seq<string>, sep: char, c: char)
    requires c != sep && forall w | w in words :: c !in w
    ensures c !in Join(words, sep)
    decreases |words|
  {
    if |words| == 1 { assert c !in words[0]; }
    if |words| > 1 {
      assert c !in words[0];
      JoinAvoids(words[1..], sep, c);
    }
  }

  /** What a part tells is what its words tell, after white space or not. */
  lemma PartOf(words: seq<string>, items: seq<Item>)
    requires words != [] && words[0] != "" && HasNoSpace(words) && (forall w | w in words :: ';' !in w)
    requires ReadPartWords(words) == Some(items)
    ensures ReadsAs(Join(words, ' '), items)
  {
    SplitJoin(words, ' ');
    JoinAvoids(words, ' ', ';');
    HeadStarts(words);
    hide Join, Split, ReadPartWords;
    var part := Join(words, ' ');
    assert ' ' !in words[0] && words[0][0] in words[0];
    assert (" " + part)[1..] == part;
  }

  lemma HeadStarts(words: seq<string>)
    requires words != [] && words[0] != ""
    ensures words[0] <= Join(words, ' ')
  {
  }

  function Head(ranges: bool): string {
    if ranges then "range" else "all"
  }

  lemma ListPart(facts: seq<Fact>, ranges: bool)
    requires facts != [] && forall f | f in facts :: IsReadable(f) && (if ranges then f.Range? else f.Constant?)
    ensures ReadsAs(Head(ranges) + " " + Join(TextsOf(facts), ' '), Items(facts))
  {
    EntriesRead(facts, ranges);
    hide IsReadable, Items, IsOmission, ReadEntries, ReadWords, ReadsAs, Join;
    var texts, head := TextsOf(facts), Head(ranges);
    var words := [head] + texts;
    assert words[1..] == texts && HasNoSpace(words);
    JoinStep(words, ' ');
    PartOf(words, Items(facts));
    assert head + [' '] + Join(texts, ' ') == head + " " + Join(texts, ' ');
  }

  lemma OwnWordsAvoid(f: Fact)
    requires !f.Constant? && !f.Range? && IsReadable(f)
    ensures forall w | w in Words(f) :: ';' !in w
  {
    hide IsUsable, Itoa, BucketWords, IsClear;
    match f
    case Enumeration(_, buckets, absent, _) =>
      var all := WithAbsent(buckets, absent);
      BucketWordsCross(all);
      forall i | 0 <= i < |all| ensures ';' !in BucketWords(all)[i] {
        DigitsNoSpace(all[i].count);
        assert ';' !in all[i].value;
      }
    case Dense(_, low, high, distinct) => DigitsNoSpace(distinct);
    case Bounded(_, low, high, distinct, absent) =>
      DigitsNoSpace(distinct);
      DigitsNoSpace(absent);
  }

  lemma NotAnOmission(name: string, words: seq<string>)
    requires words != [] && words[0] == name + ":"
    ensures words[0] != "all" && words[0] != "range" && !IsOmission(words) && words[0][..|name|] == name
  {
    var head := words[0];
    assert head[|head| - 1] == ':';
    if |head| > 1 { assert head[1..][|head| - 2] == ':'; }
  }

  lemma OwnPart(f: Fact)
    requires !f.Constant? && !f.Range? && IsReadable(f)
    ensures ReadsAs(Text(f), [Told(Claim(f))])
  {
    OwnText(f);
    WordsHaveNoSpace(f);
    WordsRead(f);
    OwnWordsAvoid(f);
    NameAvoids(f);
    OwnJoined(f.name, Words(f));
    var head := f.name + ":";
    var words := [head] + Words(f);
    assert words[1..] == Words(f) && HasNoSpace(words);
    hide Text, Words, IsReadable, IsWritable, IsPlain, EndsClear, ReadWords, Claim, IsOmission, ReadsAs, Join;
    NotAnOmission(f.name, words);
    PartOf(words, [Told(Claim(f))]);
  }

  lemma OwnJoined(name: string, words: seq<string>)
    requires words != []
    ensures Join([name + ":"] + words, ' ') == name + ": " + Join(words, ' ')
  {
    var all := [name + ":"] + words;
    assert all[1..] == words;
    JoinStep(all, ' ');
    hide Join;
    assert name + ":" + [' '] + Join(words, ' ') == name + ": " + Join(words, ' ');
  }

  lemma NameAvoids(f: Fact)
    requires IsReadable(f)
    ensures ' ' !in f.name + ":" && ';' !in f.name + ":"
  {
  }

  lemma OmissionPart(n: nat)
    ensures ReadsAs("+" + Itoa(n) + " omitted", [Omitted(n)])
  {
    var digits := Itoa(n);
    ItoaRoundTrip(n);
    DigitsNoSpace(n);
    OmissionJoined(digits);
    hide Itoa, DecimalValue, ReadWords, ReadEntries, ReadsAs, Join, IsDecimal;
    var head := "+" + digits;
    assert head[0] == '+' && head[1..] == digits;
    var words := [head, "omitted"];
    PartOf(words, [Omitted(n)]);
  }

  lemma OmissionJoined(digits: string)
    ensures Join(["+" + digits, "omitted"], ' ') == "+" + digits + " omitted"
  {
    JoinOne("omitted");
    assert ["+" + digits, "omitted"][1..] == ["omitted"];
    JoinStep(["+" + digits, "omitted"], ' ');
    hide Join;
    assert "+" + digits + [' '] + "omitted" == "+" + digits + " omitted";
  }

  /* ---- All parts ---- */

  function Flat(items: seq<seq<Item>>): seq<Item> {
    if items == [] then [] else items[0] + Flat(items[1..])
  }

  lemma {:induction false} PartsRead(lead: string, parts: seq<string>, items: seq<seq<Item>>)
    requires lead == "" || lead == " "
    requires parts != [] && |parts| == |items| && forall i | 0 <= i < |parts| :: ReadsAs(parts[i], items[i])
    ensures ReadParts(Split(lead + Together(parts, "; "), ';')) == Some(Flat(items))
    decreases |parts|
  {
    hide ReadPart;
    var text, first := lead + Together(parts, "; "), lead + parts[0];
    assert ReadsAs(parts[0], items[0]);
    assert ReadPart(first) == Some(items[0]) && ';' !in first by { assert "" + parts[0] == parts[0]; }
    if |parts| == 1 {
      IndexFromSkips(text, ';', 0, |text|);
      assert items[1..] == [];
      assert items[0] + [] == items[0];
    } else {
      var rest := " " + Together(parts[1..], "; ");
      assert text == first + ";" + rest;
      assert text[|first|] == ';' && text[..|first|] == first && text[|first| + 1..] == rest;
      IndexFromSkips(text, ';', 0, |first|);
      PartsRead(" ", parts[1..], items[1..]);
      assert Split(text, ';') == [first] + Split(rest, ';');
    }
  }

  lemma {:induction false} TextsArePicked(facts: seq<Fact>, selected: seq<bool>, group: Fact -> bool, place: nat)
    requires |selected| == |facts| && forall f :: group(f) <==> Place(f) == place
    ensures Texts(facts, selected, group) == TextsOf(Picked(facts, selected, place))
    decreases |facts|
  {
    hide Text, Place;
    if facts != [] {
      TextsArePicked(facts[1..], selected[1..], group, place);
      var rest := Picked(facts[1..], selected[1..], place);
      if selected[0] && Place(facts[0]) == place {
        assert ([facts[0]] + rest)[1..] == rest;
      } else {
        assert [] + rest == rest && [] + TextsOf(rest) == TextsOf(rest);
      }
    }
  }

  lemma {:induction false} TogetherIsJoin(parts: seq<string>)
    ensures Together(parts, " ") == Join(parts, ' ')
    decreases |parts|
  {
    if |parts| > 1 { TogetherIsJoin(parts[1..]); }
  }

  lemma {:induction false} TextsOfAll(facts: seq<Fact>)
    ensures |TextsOf(facts)| == |facts|
    ensures forall i | 0 <= i < |facts| :: TextsOf(facts)[i] == Text(facts[i])
    decreases |facts|
  {
    hide Text;
    if facts != [] { TextsOfAll(facts[1..]); }
  }

  function ListParts(facts: seq<Fact>, ranges: bool): seq<string> {
    if facts == [] then [] else [Head(ranges) + " " + Join(TextsOf(facts), ' ')]
  }

  function OmissionParts(omitted: nat): seq<string> {
    if omitted > 0 then ["+" + Itoa(omitted) + " omitted"] else []
  }

  function Sections(facts: seq<Fact>, selected: seq<bool>): seq<string>
    requires |selected| == |facts|
  {
    ListParts(Picked(facts, selected, 0), false) + TextsOf(Picked(facts, selected, 1)) +
    ListParts(Picked(facts, selected, 2), true)
  }

  /** The parts of a text. */
  function Parts(facts: seq<Fact>, selected: seq<bool>, omitted: nat): seq<string>
    requires |selected| == |facts|
  {
    Sections(facts, selected) + OmissionParts(omitted)
  }

  lemma RenderParts(facts: seq<Fact>, selected: seq<bool>, omitted: nat)
    requires |selected| == |facts|
    ensures Render(facts, selected, omitted) ==
            if Sections(facts, selected) == [] then "" else Together(Parts(facts, selected, omitted), "; ")
  {
    hide Itoa, Text, Together, Join, Texts, Picked, TextsOf;
    forall group: Fact -> bool, place: nat | forall f :: group(f) <==> Place(f) == place
      ensures Texts(facts, selected, group) == TextsOf(Picked(facts, selected, place))
    {
      TextsArePicked(facts, selected, group, place);
    }
    var constants, own, ranges := Picked(facts, selected, 0), Picked(facts, selected, 1), Picked(facts, selected, 2);
    TextsOfAll(constants);
    TextsOfAll(own);
    TextsOfAll(ranges);
    TogetherIsJoin(TextsOf(constants));
    TogetherIsJoin(TextsOf(ranges));
    assert Texts(facts, selected, (f: Fact) => f.Constant?) == TextsOf(constants);
    assert Texts(facts, selected, (f: Fact) => !f.Constant? && !f.Range?) == TextsOf(own);
    assert Texts(facts, selected, (f: Fact) => f.Range?) == TextsOf(ranges);
    assert "all " + Join(TextsOf(constants), ' ') == "all" + " " + Join(TextsOf(constants), ' ');
    assert "range " + Join(TextsOf(ranges), ' ') == "range" + " " + Join(TextsOf(ranges), ' ');
  }

  lemma {:induction false} PickedAre(facts: seq<Fact>, selected: seq<bool>, place: nat, f: Fact)
    requires |selected| == |facts|
    ensures f in Picked(facts, selected, place) <==>
            exists i | 0 <= i < |facts| :: selected[i] && facts[i] == f && Place(f) == place
    decreases |facts|
  {
    hide Place;
    if facts != [] {
      PickedAre(facts[1..], selected[1..], place, f);
      if i :| 0 <= i < |facts| && selected[i] && facts[i] == f && Place(f) == place {
        if i > 0 { assert selected[1..][i - 1] && facts[1..][i - 1] == f; }
      }
      if i :| 0 <= i < |facts| - 1 && selected[1..][i] && facts[1..][i] == f && Place(f) == place {
        assert selected[i + 1] && facts[i + 1] == f;
      }
    }
  }

  lemma {:induction false} FlatAppend(a: seq<seq<Item>>, b: seq<seq<Item>>)
    ensures Flat(a + b) == Flat(a) + Flat(b)
    decreases |a|
  {
    if a == [] {
      assert a + b == b;
    } else {
      FlatAppend(a[1..], b);
      assert (a + b)[1..] == a[1..] + b;
    }
  }

  function Singles(items: seq<Item>): seq<seq<Item>> {
    seq(|items|, i requires 0 <= i < |items| => [items[i]])
  }

  lemma {:induction false} FlatSingles(items: seq<Item>)
    ensures Flat(Singles(items)) == items
    decreases |items|
  {
    if items != [] {
      FlatSingles(items[1..]);
      assert Singles(items)[1..] == Singles(items[1..]);
    }
  }

  lemma {:induction false} ItemsAll(facts: seq<Fact>)
    ensures |Items(facts)| == |facts| && forall i | 0 <= i < |facts| :: Items(facts)[i] == Told(Claim(facts[i]))
    decreases |facts|
  {
    if facts != [] { ItemsAll(facts[1..]); }
  }

  lemma OwnPartsRead(facts: seq<Fact>)
    requires forall f | f in facts :: IsReadable(f) && Place(f) == 1
    ensures |TextsOf(facts)| == |Singles(Items(facts))|
    ensures forall i | 0 <= i < |TextsOf(facts)| :: ReadsAs(TextsOf(facts)[i], Singles(Items(facts))[i])
  {
    TextsOfAll(facts);
    ItemsAll(facts);
    hide IsReadable, ReadsAs, Text, Claim;
    forall i | 0 <= i < |facts| ensures ReadsAs(TextsOf(facts)[i], Singles(Items(facts))[i]) {
      assert facts[i] in facts;
      OwnPart(facts[i]);
    }
  }

  function ListItems(facts: seq<Fact>): seq<seq<Item>> {
    if facts == [] then [] else [Items(facts)]
  }

  function OmissionItems(omitted: nat): seq<seq<Item>> {
    if omitted > 0 then [[Omitted(omitted)]] else []
  }

  lemma FlatList(facts: seq<Fact>)
    ensures Flat(ListItems(facts)) == Items(facts)
  {
    if facts != [] { assert ListItems(facts)[1..] == []; }
  }

  function PartItems(constants: seq<Fact>, own: seq<Fact>, ranges: seq<Fact>, omitted: nat): seq<seq<Item>> {
    ListItems(constants) + Singles(Items(own)) + ListItems(ranges) + OmissionItems(omitted)
  }

  lemma ListRead(facts: seq<Fact>, ranges: bool)
    requires forall f | f in facts :: IsReadable(f) && Place(f) == if ranges then 2 else 0
    ensures |ListParts(facts, ranges)| == |ListItems(facts)|
    ensures forall i | 0 <= i < |ListItems(facts)| :: ReadsAs(ListParts(facts, ranges)[i], ListItems(facts)[i])
  {
    hide IsReadable, ReadsAs, Items, TextsOf, Join;
    if facts != [] { ListPart(facts, ranges); }
  }

  lemma AllPartsRead(facts: seq<Fact>, selected: seq<bool>, omitted: nat)
    requires |selected| == |facts|
    requires forall i | 0 <= i < |facts| && selected[i] :: IsReadable(facts[i])
    ensures var parts, items := Parts(facts, selected, omitted),
              PartItems(Picked(facts, selected, 0), Picked(facts, selected, 1), Picked(facts, selected, 2), omitted);
            |parts| == |items| && forall i | 0 <= i < |parts| :: ReadsAs(parts[i], items[i])
  {
    hide IsReadable, Picked, Items, TextsOf, ReadsAs, Itoa, ListParts, ListItems, Singles, Place;
    forall place: nat, f | f in Picked(facts, selected, place) ensures IsReadable(f) && Place(f) == place {
      PickedAre(facts, selected, place, f);
    }
    ListRead(Picked(facts, selected, 0), false);
    ListRead(Picked(facts, selected, 2), true);
    OwnPartsRead(Picked(facts, selected, 1));
    OmissionPart(omitted);
  }

  /** A reader finds exactly the selected facts, in their places, and how many were left out. */
  lemma TextReads(facts: seq<Fact>, selected: seq<bool>, omitted: nat)
    requires |selected| == |facts| && Render(facts, selected, omitted) != ""
    requires forall i | 0 <= i < |facts| && selected[i] :: IsReadable(facts[i])
    ensures ReadSummary(Render(facts, selected, omitted)) == Some(AllItems(facts, selected, omitted))
  {
    RenderParts(facts, selected, omitted);
    AllPartsRead(facts, selected, omitted);
    hide IsReadable, Render, Picked, Items, ReadsAs, Together, ReadParts, Parts, PartItems, Flat, Split;
    var constants, own, ranges := Picked(facts, selected, 0), Picked(facts, selected, 1), Picked(facts, selected, 2);
    var parts := Parts(facts, selected, omitted);
    PartsRead("", parts, PartItems(constants, own, ranges, omitted));
    assert "" + Together(parts, "; ") == Together(parts, "; ");
    FlatParts(constants, own, ranges, omitted);
  }

  lemma FlatParts(constants: seq<Fact>, own: seq<Fact>, ranges: seq<Fact>, omitted: nat)
    ensures Flat(PartItems(constants, own, ranges, omitted)) ==
            Items(constants) + Items(own) + Items(ranges) + if omitted > 0 then [Omitted(omitted)] else []
  {
    var a, b, c, d := ListItems(constants), Singles(Items(own)), ListItems(ranges), OmissionItems(omitted);
    FlatAppend(a + b + c, d);
    FlatAppend(a + b, c);
    FlatAppend(a, b);
    FlatList(constants);
    FlatList(ranges);
    FlatSingles(Items(own));
    assert Flat(d) == if omitted > 0 then [Omitted(omitted)] else [] by { if omitted > 0 { assert d[1..] == []; } }
  }

  /* ---- What a reader finds in every summary ---- */

  function LeftOut(selected: seq<bool>): set<nat> {
    set i: nat | i < |selected| && !selected[i]
  }

  lemma {:induction false} LeftOutCount(selected: seq<bool>)
    ensures CountSelected(selected) + |LeftOut(selected)| == |selected|
    decreases |selected|
  {
    if selected != [] {
      var n := |selected| - 1;
      LeftOutCount(selected[..n]);
      if selected[n] {
        assert LeftOut(selected) == LeftOut(selected[..n]);
      } else {
        assert LeftOut(selected) == LeftOut(selected[..n]) + {n};
      }
    }
  }

  ghost predicate IsTrue(item: Item, units: seq<Unit>, rules: Rules, left: nat) {
    match item
    case Told(f) => Holds(f, units, rules)
    case Omitted(n) => n == left
  }

  predicate IsTold(item: Item, facts: seq<Fact>, selected: seq<bool>)
    requires |selected| == |facts|
  {
    exists i | 0 <= i < |facts| :: selected[i] && item == Told(Claim(facts[i]))
  }

  lemma ItemsAreTold(facts: seq<Fact>, selected: seq<bool>, place: nat, item: Item)
    requires |selected| == |facts| && item in Items(Picked(facts, selected, place))
    ensures IsTold(item, facts, selected)
  {
    hide Claim, Picked, Items;
    var picked := Picked(facts, selected, place);
    ItemsAll(picked);
    var k :| 0 <= k < |picked| && item == Told(Claim(picked[k]));
    PickedAre(facts, selected, place, picked[k]);
  }

  lemma AllAreTold(facts: seq<Fact>, selected: seq<bool>, omitted: nat, item: Item)
    requires |selected| == |facts| && item in AllItems(facts, selected, omitted)
    ensures item == Omitted(omitted) || IsTold(item, facts, selected)
  {
    hide Picked, Items;
    if place: nat :| place <= 2 && item in Items(Picked(facts, selected, place)) {
      ItemsAreTold(facts, selected, place, item);
    }
  }

  lemma ClaimHolds(f: Fact, units: seq<Unit>, rules: Rules)
    requires Holds(f, units, rules)
    ensures Holds(Claim(f), units, rules)
  {
  }

  /* ---- Entry by entry, whatever names and values hold ---- */

  /** An entry of this field and of this section that reads as the fact. */
  predicate EntryIs(entry: string, f: Fact) {
    match f
    case Constant(name, _) => ReadConstant(name, entry) == Some(f)
    case Range(name, _, _) => ReadRange(name, entry) == Some(f)
    case _ => ReadSection(f.name, entry) == Some(Claim(f))
  }

  lemma ContainsChain(s: string, t: string, u: string)
    requires Contains(s, t) && Contains(t, u)
    ensures Contains(s, u)
  {
    var i: nat :| i <= |s| && OccursAt(s, t, i);
    var j: nat :| j <= |t| && OccursAt(t, u, j);
    forall k | 0 <= k < |u| ensures s[i + j + k] == u[k] {
      assert t[j..j + |u|][k] == t[j + k] && s[i..i + |t|][j + k] == s[i + j + k];
    }
    assert s[i + j..i + j + |u|] == u;
    assert OccursAt(s, u, i + j);
  }

  lemma {:induction false} TogetherContains(parts: seq<string>, sep: string, part: string)
    requires part in parts
    ensures Contains(Together(parts, sep), part)
    decreases |parts|
  {
    hide Contains;
    var text := Together(parts, sep);
    if |parts| == 1 {
      ContainsMiddle("", part, "");
      assert "" + part + "" == text;
    } else if part == parts[0] {
      ContainsMiddle("", part, sep + Together(parts[1..], sep));
      assert "" + part + (sep + Together(parts[1..], sep)) == text;
    } else {
      TogetherContains(parts[1..], sep, part);
      var rest := Together(parts[1..], sep);
      ContainsMiddle(parts[0] + sep, rest, "");
      assert parts[0] + sep + rest + "" == text;
      ContainsChain(text, rest, part);
    }
  }

  lemma PickedText(facts: seq<Fact>, selected: seq<bool>, place: nat, i: nat)
    requires |selected| == |facts| && i < |facts| && selected[i] && Place(facts[i]) == place
    ensures Text(facts[i]) in TextsOf(Picked(facts, selected, place))
  {
    hide Text, Place, TextsOf, Picked;
    PickedAre(facts, selected, place, facts[i]);
    var picked := Picked(facts, selected, place);
    TextsOfAll(picked);
    var k :| 0 <= k < |picked| && picked[k] == facts[i];
    assert TextsOf(picked)[k] == Text(facts[i]);
  }

  lemma ListContains(facts: seq<Fact>, ranges: bool, text: string)
    requires text in TextsOf(facts)
    ensures facts != [] && Contains(Head(ranges) + " " + Join(TextsOf(facts), ' '), text)
  {
    hide Contains, Text;
    TogetherIsJoin(TextsOf(facts));
    TogetherContains(TextsOf(facts), " ", text);
    var list := Join(TextsOf(facts), ' ');
    ContainsMiddle(Head(ranges) + " ", list, "");
    assert Head(ranges) + " " + list + "" == Head(ranges) + " " + list;
    ContainsChain(Head(ranges) + " " + list, list, text);
  }

  lemma RenderContains(facts: seq<Fact>, selected: seq<bool>, omitted: nat, i: nat)
    requires |selected| == |facts| && i < |facts| && selected[i] && Render(facts, selected, omitted) != ""
    ensures Contains(Render(facts, selected, omitted), Text(facts[i]))
  {
    RenderParts(facts, selected, omitted);
    PickedText(facts, selected, Place(facts[i]), i);
    hide Render, Text, Contains, TextsOf, Picked, Join, Together;
    var picked, parts := Picked(facts, selected, Place(facts[i])), Parts(facts, selected, omitted);
    if facts[i].Constant? || facts[i].Range? {
      ListContains(picked, facts[i].Range?, Text(facts[i]));
      var part := Head(facts[i].Range?) + " " + Join(TextsOf(picked), ' ');
      assert ListParts(picked, facts[i].Range?) == [part];
      assert part in parts;
      TogetherContains(parts, "; ", part);
      ContainsChain(Together(parts, "; "), part, Text(facts[i]));
    } else {
      assert Text(facts[i]) in parts;
      TogetherContains(parts, "; ", Text(facts[i]));
    }
  }

  ghost predicate IsStated(text: string, f: Fact) {
    exists entry :: Contains(text, entry) && EntryIs(entry, f)
  }

  /** Every selected fact stands in the text in an entry that reads as this fact. */
  lemma FactIsStated(facts: seq<Fact>, r: Selection, i: nat)
    requires |r.selected| == |facts| && i < |facts| && r.selected[i] && IsWritable(facts[i]) && EndsClear(facts[i])
    requires r.text != "" && r.text == Render(facts, r.selected, r.omitted)
    ensures IsStated(r.text, facts[i])
  {
    hide Render, IsWritable, ReadConstant, ReadRange, ReadSection, Text, Contains, Claim;
    var f := facts[i];
    RenderContains(facts, r.selected, r.omitted, i);
    match f
    case Constant(name, value) => ConstantReads(name, value);
    case Range(name, low, high) => RangeReadsExactly(name, low, high);
    case _ => OwnReads(f);
    assert EntryIs(Text(f), f);
  }

  lemma {:induction false} LastEnds(parts: seq<string>, sep: string, last: string)
    requires parts != []
    ensures Together(parts + [last], sep) == Together(parts, sep) + sep + last
    decreases |parts|
  {
    var all := parts + [last];
    if |parts| == 1 {
      assert all[1..] == [last];
    } else {
      LastEnds(parts[1..], sep, last);
      assert all[1..] == parts[1..] + [last];
      Regroup(parts[0], sep, Together(parts[1..], sep), last);
    }
  }

  lemma Regroup(first: string, sep: string, rest: string, last: string)
    ensures first + sep + (rest + sep + last) == first + sep + rest + sep + last
  {
  }

  /** A text that leaves facts out ends by saying how many. */
  ghost predicate EndsWithOmission(text: string, n: nat) {
    exists start :: text == start + "; " + ("+" + Itoa(n) + " omitted")
  }

  lemma OmissionIsStated(facts: seq<Fact>, r: Selection)
    requires |r.selected| == |facts| && r.text != "" && r.text == Render(facts, r.selected, r.omitted)
    ensures r.omitted > 0 ==> EndsWithOmission(r.text, r.omitted)
  {
    hide Render, Itoa, Together, Sections;
    if r.omitted > 0 {
      RenderParts(facts, r.selected, r.omitted);
      LastEnds(Sections(facts, r.selected), "; ", "+" + Itoa(r.omitted) + " omitted");
    }
  }

  /** What a text tells of the units. Every fact is true of them, whatever was shed matters less than what stayed, every
      selected fact stands in an entry that reads as this fact, and the text ends
        by saying how many were left out. Where
      names and values are plain, reading the whole text gives the selected facts and this count and nothing else. */
  ghost predicate Tells(text: string, facts: seq<Fact>, selected: seq<bool>, units: seq<Unit>, rules: Rules) {
    |selected| == |facts| && (forall f | f in facts :: Holds(f, units, rules)) && IsShedInOrder(facts, selected) &&
    (forall i | 0 <= i < |facts| && selected[i] && EndsClear(facts[i]) :: IsStated(text, facts[i])) &&
    (LeftOut(selected) != {} ==> EndsWithOmission(text, |LeftOut(selected)|)) &&
    (ArePlain(facts, selected) ==> ReadSummary(text) == Some(AllItems(facts, selected, |LeftOut(selected)|)))
  }

  predicate ArePlain(facts: seq<Fact>, selected: seq<bool>)
    requires |selected| == |facts|
  {
    forall i | 0 <= i < |facts| && selected[i] :: IsPlain(facts[i]) && EndsClear(facts[i])
  }

  lemma SummaryTells(units: seq<Unit>, elidedBytes: int, rules: Rules)
    ensures var r := Summary(units, elidedBytes, rules);
            r.text != "" ==> Tells(r.text, Facts(units, rules), r.selected, units, rules)
  {
    SummaryIsSound(units, elidedBytes, rules);
    FactsAreWritable(units, rules);
    hide Facts, Summary, ReadSummary, AllItems, Render, IsWritable, IsPlain, EndsClear, Holds, CountSelected,
      IsShedInOrder, IsStated, EndsWithOmission;
    var facts, r := Facts(units, rules), Summary(units, elidedBytes, rules);
    LeftOutCount(r.selected);
    if r.text != "" {
      if ArePlain(facts, r.selected) { TextReads(facts, r.selected, r.omitted); }
      forall i | 0 <= i < |facts| && r.selected[i] && EndsClear(facts[i]) ensures IsStated(r.text, facts[i]) {
        assert facts[i] in facts;
        FactIsStated(facts, r, i);
      }
      OmissionIsStated(facts, r);
    }
  }

  /** Where names and values are plain, all that is read from a text is true of the units. */
  lemma AllReadIsTrue(text: string, facts: seq<Fact>, selected: seq<bool>, units: seq<Unit>, rules: Rules)
    requires Tells(text, facts, selected, units, rules) && ArePlain(facts, selected)
    ensures ReadSummary(text).Some?
    ensures forall item | item in ReadSummary(text).value :: IsTrue(item, units, rules, |LeftOut(selected)|)
  {
    hide ReadSummary, AllItems, Holds, Claim, ArePlain, IsStated, EndsWithOmission, IsShedInOrder;
    forall item | item in AllItems(facts, selected, |LeftOut(selected)|)
      ensures IsTrue(item, units, rules, |LeftOut(selected)|)
    {
      AllAreTold(facts, selected, |LeftOut(selected)|, item);
      if item.Told? {
        var i :| 0 <= i < |facts| && selected[i] && item == Told(Claim(facts[i]));
        ClaimHolds(facts[i], units, rules);
      }
    }
  }

  /* ---- Why plain ---- */

  lemma OneText(f: Fact, omitted: nat)
    requires f.Constant?
    ensures Render([f], [true], omitted) ==
            if omitted > 0 then "all " + Text(f) + "; " + ("+" + Itoa(omitted) + " omitted") else "all " + Text(f)
  {
    hide Text, Itoa, Render, Place;
    RenderParts([f], [true], omitted);
    assert Place(f) == 0 by { OnlyConstants(f); }
    forall place: nat ensures Picked([f], [true], place) == if Place(f) == place then [f] else [] {
      assert [f][1..] == [] && [true][1..] == [];
      NonePicked(place);
    }
    JoinOne(Text(f));
    assert TextsOf([f]) == [Text(f)];
  }

  lemma OnlyConstants(f: Fact)
    ensures Place(f) == 0 <==> f.Constant?
  {
  }

  lemma NonePicked(place: nat)
    ensures Picked([], [], place) == []
  {
  }

  /** Plain values are needed: a value may spell out that facts were left out. */
  lemma ValueMayTellMore(name: string, value: string, n: nat)
    requires n > 0
    ensures Render([Constant(name, value + "; " + ("+" + Itoa(n) + " omitted"))], [true], 0) ==
            Render([Constant(name, value)], [true], n)
  {
    var more := "+" + Itoa(n) + " omitted";
    OneText(Constant(name, value + "; " + more), 0);
    OneText(Constant(name, value), n);
    ConstantText(name, value, more);
    hide Render, Itoa, Text;
  }

  lemma ConstantText(name: string, value: string, more: string)
    ensures "all " + Text(Constant(name, value + "; " + more)) == "all " + Text(Constant(name, value)) + "; " + more
  {
  }

  /** Such a value may be printed. */
  lemma SuchValueIsUsable()
    ensures IsUsable("1; +2 omitted")
  {
    hide ByteLength, Contains;
    var v := "1; +2 omitted";
    assert 'c' !in v && ELLIPSIS[0] !in v;
    FirstIsIn(v, "caveman");
    FirstIsIn(v, ELLIPSIS);
    AsciiBytes(v);
  }

  lemma {:induction false} AsciiBytes(s: string)
    requires forall k | 0 <= k < |s| :: (s[k] as int) < 0x80
    ensures ByteLength(s) == |s|
  {
    if s != "" { AsciiBytes(s[1..]); }
  }

  lemma FirstIsIn(s: string, t: string)
    ensures t != "" && Contains(s, t) ==> t[0] in s
  {
    if i: nat :| t != "" && i <= |s| && OccursAt(s, t, i) { assert s[i] == s[i..i + |t|][0]; }
  }
}
