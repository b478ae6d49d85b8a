/** The shape of each written line is the one the reader recognises. */
module ToonShapes {
  import opened GoText
  import opened ToonText
  import opened ToonReader
  import JsonText

  /** An object key, or the empty name of the root. */
  predicate IsName(name: string) {
    name == "" || IsSafeKey(name)
  }

  lemma {:induction false} KeyRunEnds(s: string, i: nat, k: nat)
    requires i <= k <= |s| && (forall j | 0 <= j < k :: IsKeyChar(s[j])) && (k < |s| ==> !IsKeyChar(s[k]))
    ensures KeyRun(s, i) == k
    decreases k - i
  {
    if i < k { KeyRunEnds(s, i + 1, k); }
  }

  lemma KeyEnds(name: string, rest: string)
    requires IsName(name) && rest != "" && !IsKeyChar(rest[0])
    ensures KeyEnd(name + rest) == |name|
  {
    var s := name + rest;
    assert s[|name|] == rest[0];
    if name != "" {
      assert s[0] == name[0];
      assert forall j | 0 <= j < |name| :: s[j] == name[j];
      KeyRunEnds(s, 1, |name|);
    }
  }

  lemma CountAt(name: string, digits: string, tail: string)
    requires IsName(name) && IsDecimal(digits)
    ensures var s := name + "[" + digits + "]" + tail;
            KeyEnd(s) == |name| && CountEnd(s) == Some(|name| + 1 + |digits|) &&
              s[|name| + 1..|name| + 1 + |digits|] == digits
  {
    hide KeyEnd, IsName;
    var s := name + "[" + digits + "]" + tail;
    var k, d := |name|, |name| + 1 + |digits|;
    assert s == name + ("[" + digits + "]" + tail);
    KeyEnds(name, "[" + digits + "]" + tail);
    assert s[k] == '[' && s[d] == ']' && s[k + 1..d] == digits;
    assert forall j | k + 1 <= j < d :: s[j] == digits[j - k - 1];
    JsonText.DigitsEndAt(s, k + 1, d);
  }

  lemma CountReads(name: string, n: nat, tail: string)
    requires IsName(name)
    ensures var s := name + "[" + Itoa(n) + "]" + tail;
            KeyEnd(s) == |name| && CountEnd(s) == Some(|name| + 1 + |Itoa(n)|) && Count(s) == n
  {
    hide KeyEnd, CountEnd, IsName, Itoa, DecimalValue;
    CountAt(name, Itoa(n), tail);
    ItoaRoundTrip(n);
  }

  lemma {:induction false} JoinedNames(names: seq<string>)
    requires forall k | k in names :: IsSafeKey(k)
    ensures forall c | c in Join(names, ',') :: IsKeyChar(c) || c == ','
    decreases |names|
  {
    if |names| > 0 {
      assert IsSafeKey(names[0]);
      if |names| > 1 { JoinedNames(names[1..]); }
    }
  }

  /** A table header gives back its row count and its columns. */
  lemma TableHeaderReads(name: string, n: nat, names: seq<string>)
    requires IsName(name) && names != [] && Distinct(names) && forall k | k in names :: IsSafeKey(k)
    ensures var s := TableHeader(name, n, names);
            KeyEnd(s) == |name| && TableFields(s).Some? && Count(s) == n && SplitFields(TableFields(s).value) == names
  {
    hide KeyEnd, IsSafeKey, Distinct;
    var s, columns := TableHeader(name, n, names), Join(names, ',');
    var tail := "{" + columns + "}:";
    assert s == name + "[" + Itoa(n) + "]" + tail;
    CountReads(name, n, tail);
    var d := |name| + 1 + |Itoa(n)|;
    assert s[d + 1] == '{' && s[|s| - 2..] == "}:" && s[d + 2..|s| - 2] == columns;
    assert '}' !in columns by { JoinedNames(names); }
    FieldsSplit(names);
  }

  lemma FieldsSplit(names: seq<string>)
    requires names != [] && Distinct(names) && forall k | k in names :: IsSafeKey(k)
    ensures SplitFields(Join(names, ',')) == names
  {
    forall p | p in names ensures ',' !in p { assert IsSafeKey(p); }
    SplitJoin(names, ',');
    assert IsSafeKey(names[0]);
  }

  /** A line of scalars gives back its count and the text of its cells, and is no table header. */
  lemma ListTextReads(name: string, n: nat, joined: string)
    requires IsName(name)
    ensures var s := name + "[" + Itoa(n) + "]: " + joined;
            KeyEnd(s) == |name| && TableFields(s).None? && ListCells(s) == Some(joined) && Count(s) == n
  {
    hide KeyEnd, Count, IsSafeKey;
    var s, tail := name + "[" + Itoa(n) + "]: " + joined, ": " + joined;
    assert s == name + "[" + Itoa(n) + "]" + tail;
    CountReads(name, n, tail);
    var d := |name| + 1 + |Itoa(n)|;
    assert s[d + 1] == ':' && s[d + 2] == ' ' && s[d + 3..] == joined;
  }

  /** A line with a key gives back the rest, and is neither form of array. */
  lemma KeyedReads(name: string, text: string)
    requires IsSafeKey(name)
    ensures var s := name + ": " + text;
            KeyEnd(s) == |name| && s[..|name|] == name && TableFields(s).None? && ListCells(s).None? &&
            KeyedRest(s) == Some(text)
  {
    var s := name + ": " + text;
    assert s == name + (": " + text);
    KeyEnds(name, ": " + text);
    assert s[|name|] == ':' && s[|name| + 1] == ' ' && s[|name| + 2..] == text;
  }

  lemma KeyAloneReads(name: string)
    requires IsSafeKey(name)
    ensures var s := name + ":";
            KeyEnd(s) == |name| && s[..|name|] == name && TableFields(s).None? && ListCells(s).None? &&
            KeyedRest(s) == Some("")
  {
    KeyEnds(name, ":");
  }
}
