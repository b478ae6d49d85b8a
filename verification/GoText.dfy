/** The parts of Go's text handling that the models share: white space, trimming, splitting, joining, ordering,
    decimal. */
module GoText {

  datatype Option<+T> = None | Some(value: T)

  const ELLIPSIS := "\U{2026}"

  /** The Unicode White_Space property. */
  predicate IsSpace(c: char) {
    var n := c as int;
    9 <= n <= 13 || n == 0x20 || n == 0x85 || n == 0xA0 || n == 0x1680 || 0x2000 <= n <= 0x200A ||
    n == 0x2028 || n == 0x2029 || n == 0x202F || n == 0x205F || n == 0x3000
  }

  /** `strings.TrimSpace(s) == ""` */
  predicate IsBlank(s: string) {
    forall k | 0 <= k < |s| :: IsSpace(s[k])
  }

  /** `strings.TrimSpace(s) == s` */
  predicate IsTrimmed(s: string) {
    s == "" || (!IsSpace(s[0]) && !IsSpace(s[|s| - 1]))
  }

  /** `strings.TrimRight(s, string(c))` */
  function TrimRight(s: string, c: char): string {
    if s != "" && s[|s| - 1] == c then TrimRight(s[..|s| - 1], c) else s
  }

  /** The index after the run of `c` that starts at `i`. */
  function RunEnd(s: string, c: char, i: nat): (j: nat)
    requires i <= |s|
    ensures i <= j <= |s|
    decreases |s| - i
  {
    if i < |s| && s[i] == c then RunEnd(s, c, i + 1) else i
  }

  lemma {:induction false} RunOf(s: string, c: char, i: nat, n: nat)
    requires i <= n <= |s| && (forall k | i <= k < n :: s[k] == c) && (n < |s| ==> s[n] != c)
    ensures RunEnd(s, c, i) == n
    decreases n - i
  {
    if i < n { RunOf(s, c, i + 1, n); }
  }

  lemma {:induction false} RunIs(s: string, c: char, i: nat)
    requires i <= |s|
    ensures var j := RunEnd(s, c, i); (forall k | i <= k < j :: s[k] == c) && (j < |s| ==> s[j] != c)
    decreases |s| - i
  {
    if i < |s| && s[i] == c { RunIs(s, c, i + 1); }
  }

  /** The first index at or after `i` that holds `c`, or the length. */
  function IndexFrom(s: string, c: char, i: nat): (j: nat)
    requires i <= |s|
    ensures i <= j <= |s| && (j < |s| ==> s[j] == c)
    decreases |s| - i
  {
    if i < |s| && s[i] != c then IndexFrom(s, c, i + 1) else i
  }

  predicate OccursAt(s: string, t: string, i: nat) {
    i + |t| <= |s| && s[i..i + |t|] == t
  }

  /** `strings.Contains(s, t)` */
  predicate Contains(s: string, t: string) {
    exists i: nat | i <= |s| :: OccursAt(s, t, i)
  }

  lemma ContainsMiddle(a: string, t: string, b: string)
    ensures Contains(a + t + b, t)
  {
    assert OccursAt(a + t + b, t, |a|);
  }

  function Join(parts: seq<string>, sep: char): string {
    if parts == [] then "" else if |parts| == 1 then parts[0] else parts[0] + [sep] + Join(parts[1..], sep)
  }

  /** `strings.Split(s, string(sep))` */
  function Split(s: string, sep: char): (parts: seq<string>)
    ensures parts != []
    decreases |s|
  {
    var i := IndexFrom(s, sep, 0);
    if i == |s| then [s] else [s[..i]] + Split(s[i + 1..], sep)
  }

  lemma {:induction false} IndexFromMisses(s: string, c: char, i: nat)
    requires i <= |s|
    ensures forall k | i <= k < IndexFrom(s, c, i) :: s[k] != c
    decreases |s| - i
  {
    if i < |s| && s[i] != c { IndexFromMisses(s, c, i + 1); }
  }

  lemma {:induction false} IndexFromSkips(s: string, c: char, i: nat, j: nat)
    requires i <= j <= |s| && (forall k | i <= k < j :: s[k] != c) && (j < |s| ==> s[j] == c)
    ensures IndexFrom(s, c, i) == j
    decreases j - i
  {
    if i < j { IndexFromSkips(s, c, i + 1, j); }
  }

  /** Splitting undoes joining when no part holds the separator. */
  lemma {:induction false} SplitJoin(parts: seq<string>, sep: char)
    requires parts != [] && forall p | p in parts :: sep !in p
    ensures Split(Join(parts, sep), sep) == parts
    decreases |parts|
  {
    var s, p := Join(parts, sep), parts[0];
    assert sep !in p;
    if |parts| == 1 {
      IndexFromSkips(s, sep, 0, |s|);
    } else {
      assert s == p + [sep] + Join(parts[1..], sep);
      assert s[|p|] == sep && s[..|p|] == p && s[|p| + 1..] == Join(parts[1..], sep);
      IndexFromSkips(s, sep, 0, |p|);
      SplitJoin(parts[1..], sep);
    }
  }

  /** Go's string order. On code points it is the same as on UTF-8 bytes. */
  predicate Less(s: string, t: string) {
    t != "" && (s == "" || s[0] < t[0] || (s[0] == t[0] && Less(s[1..], t[1..])))
  }

  /** The texts differ first at `k`, where `s` has the smaller character. */
  predicate DiffersAt(s: string, t: string, k: nat) {
    k < |s| && k < |t| && s[..k] == t[..k] && s[k] < t[k]
  }

  lemma DiffersNext(s: string, t: string, k: nat)
    requires s != "" && t != ""
    ensures DiffersAt(s, t, k + 1) <==> s[0] == t[0] && DiffersAt(s[1..], t[1..], k)
  {
    if k + 1 < |s| && k + 1 < |t| {
      var a, b := s[..k + 1], t[..k + 1];
      assert a == [s[0]] + s[1..][..k] && b == [t[0]] + t[1..][..k];
      assert a[0] == s[0] && b[0] == t[0] && a[1..] == s[1..][..k] && b[1..] == t[1..][..k];
    }
  }

  lemma StartsNext(s: string, t: string)
    requires s != "" && t != ""
    ensures s <= t && |s| < |t| <==> s[0] == t[0] && s[1..] <= t[1..] && |s[1..]| < |t[1..]|
  {
    assert s == [s[0]] + s[1..] && t == [t[0]] + t[1..];
  }

  /** The first difference decides, and a text stands behind its beginnings. */
  lemma {:induction false} LessExactly(s: string, t: string)
    ensures Less(s, t) <==> (s <= t && |s| < |t|) || exists k: nat :: DiffersAt(s, t, k)
    decreases |s|
  {
    hide DiffersAt;
    if s != "" && t != "" {
      LessExactly(s[1..], t[1..]);
      StartsNext(s, t);
      FirstDiffers(s, t);
      if k: nat :| DiffersAt(s, t, k) { if k > 0 { DiffersNext(s, t, k - 1); } }
      if k: nat :| DiffersAt(s[1..], t[1..], k) { DiffersNext(s, t, k); }
    } else {
      NothingDiffers(s, t);
    }
  }

  lemma FirstDiffers(s: string, t: string)
    requires s != "" && t != ""
    ensures DiffersAt(s, t, 0) <==> s[0] < t[0]
  {
    assert s[..0] == t[..0];
  }

  lemma NothingDiffers(s: string, t: string)
    requires s == "" || t == ""
    ensures forall k: nat :: !DiffersAt(s, t, k)
  {
  }

  lemma {:induction false} LessTotal(s: string, t: string)
    ensures s == t || Less(s, t) || Less(t, s)
    decreases |s|
  {
    if s != "" && t != "" && s[0] == t[0] {
      LessTotal(s[1..], t[1..]);
      if s[1..] == t[1..] { assert s == [s[0]] + s[1..] && t == [t[0]] + t[1..]; }
    }
  }

  lemma {:induction false} LessAsymmetric(s: string, t: string)
    requires Less(s, t)
    ensures s != t && !Less(t, s)
    decreases |s|
  {
    if s != "" && s[0] == t[0] { LessAsymmetric(s[1..], t[1..]); }
  }

  lemma {:induction false} LessTransitive(s: string, t: string, u: string)
    requires Less(s, t) && Less(t, u)
    ensures Less(s, u)
    decreases |s|
  {
    if s != "" && s[0] == t[0] && t[0] == u[0] { LessTransitive(s[1..], t[1..], u[1..]); }
  }

  lemma {:induction false} LessIrreflexive(s: string)
    ensures !Less(s, s)
  {
    if s != "" { LessIrreflexive(s[1..]); }
  }

  /* ---- Decimal numbers ---- */

  predicate IsDecimal(s: string) {
    s != "" && forall k | 0 <= k < |s| :: '0' <= s[k] <= '9'
  }

  function Itoa(n: nat): (s: string)
    ensures IsDecimal(s)
  {
    var d := ('0' as int + n % 10) as char;
    if n < 10 then [d] else Itoa(n / 10) + [d]
  }

  function DecimalValue(s: string): nat
    requires forall k | 0 <= k < |s| :: '0' <= s[k] <= '9'
  {
    if s == "" then 0 else DecimalValue(s[..|s| - 1]) * 10 + (s[|s| - 1] as int - '0' as int)
  }

  lemma {:induction false} ItoaRoundTrip(n: nat)
    ensures DecimalValue(Itoa(n)) == n
  {
    var s := Itoa(n);
    if n < 10 {
      assert s[..0] == "";
    } else {
      ItoaRoundTrip(n / 10);
      assert s[..|s| - 1] == Itoa(n / 10);
    }
  }

  /* ---- Bytes ---- */

  function Utf8Size(c: char): (n: nat)
    ensures 1 <= n <= 4
  {
    if (c as int) < 0x80 then 1 else if (c as int) < 0x800 then 2 else if (c as int) < 0x1_0000 then 3 else 4
  }

  /** The length of a text in bytes, which is what `len` counts. */
  function ByteLength(s: string): nat {
    if s == "" then 0 else Utf8Size(s[0]) + ByteLength(s[1..])
  }

  lemma {:induction false} BytesAdd(s: string, t: string)
    ensures ByteLength(s + t) == ByteLength(s) + ByteLength(t)
    decreases |s|
  {
    if s == "" {
      assert s + t == t;
    } else {
      BytesAdd(s[1..], t);
      assert (s + t)[1..] == s[1..] + t;
    }
  }

  /** A character takes one to four bytes. */
  lemma {:induction false} BytesBound(s: string)
    ensures |s| <= ByteLength(s) <= 4 * |s|
  {
    if s != "" { BytesBound(s[1..]); }
  }
}
