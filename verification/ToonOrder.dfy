/** What the reader does not tell of the writer: the order of fields, and which strings are quoted. */
module ToonOrder {
  import opened GoText
  import opened ToonText
  import opened ToonReader
  import opened ToonGrammar
  import JsonText

  /* ---- The order of fields does not matter ---- */

  function ValueOf(fs: Fields, name: string): (v: Value)
    requires name in Names(fs)
    ensures v < fs
  {
    if fs.name == name then fs.value else ValueOf(fs.more, name)
  }

  function Remove(fs: Fields, name: string): Fields {
    if fs.NoFields? then NoFields else if fs.name == name then fs.more
      else Field(fs.name, fs.value, Remove(fs.more, name))
  }

  /** Objects, inside objects, whose fields differ in nothing but their order. */
  predicate SameUpToOrder(v: Value, w: Value)
    decreases v
  {
    if v.Object? && w.Object? then SameFields(v.fields, w.fields) else v == w
  }

  predicate SameFields(fs: Fields, gs: Fields)
    decreases fs
  {
    match fs
    case NoFields => gs.NoFields?
    case Field(name, value, more) =>
      name in Names(gs) && SameUpToOrder(value, ValueOf(gs, name)) && SameFields(more, Remove(gs, name))
  }

  /** The same names in the same order, with values that are the same up to order. */
  predicate Alike(fs: Fields, gs: Fields) {
    match fs
    case NoFields => gs.NoFields?
    case Field(name, value, more) =>
      gs.Field? && gs.name == name && SameUpToOrder(value, gs.value) && Alike(more, gs.more)
  }

  lemma {:induction false} SmallerFirst(a: string, x: Value, b: string, y: Value, fs: Fields)
    requires Less(a, b)
    ensures Insert(a, x, Insert(b, y, fs)) == Insert(b, y, Insert(a, x, fs))
  {
    hide Less;
    LessAsymmetric(a, b);
    if fs.Field? {
      if Less(fs.name, a) {
        LessTransitive(fs.name, a, b);
        SmallerFirst(a, x, b, y, fs.more);
      }
    }
  }

  lemma InsertCommutes(a: string, x: Value, b: string, y: Value, fs: Fields)
    requires a != b
    ensures Insert(a, x, Insert(b, y, fs)) == Insert(b, y, Insert(a, x, fs))
  {
    hide Less, Insert;
    LessTotal(a, b);
    if Less(a, b) { SmallerFirst(a, x, b, y, fs); } else { SmallerFirst(b, y, a, x, fs); }
  }

  lemma {:induction false} SortRemoved(fs: Fields, name: string)
    requires name in Names(fs)
    ensures Sorted(fs) == Insert(name, ValueOf(fs, name), Sorted(Remove(fs, name)))
  {
    hide Insert;
    if fs.name != name {
      SortRemoved(fs.more, name);
      InsertCommutes(fs.name, fs.value, name, ValueOf(fs, name), Sorted(Remove(fs.more, name)));
    }
  }

  lemma {:induction false} InsertAlike(name: string, v: Value, w: Value, fs: Fields, gs: Fields)
    requires Alike(fs, gs) && SameUpToOrder(v, w)
    ensures Alike(Insert(name, v, fs), Insert(name, w, gs))
  {
    hide Less, SameUpToOrder;
    if fs.Field? && Less(fs.name, name) { InsertAlike(name, v, w, fs.more, gs.more); }
  }

  lemma {:induction false} SortAlike(fs: Fields, gs: Fields)
    requires SameFields(fs, gs)
    ensures Alike(Sorted(fs), Sorted(gs))
  {
    hide Insert, SameUpToOrder;
    if fs.Field? {
      SortAlike(fs.more, Remove(gs, fs.name));
      SortRemoved(gs, fs.name);
      InsertAlike(fs.name, fs.value, ValueOf(gs, fs.name), Sorted(fs.more), Sorted(Remove(gs, fs.name)));
    }
  }

  lemma {:induction false} EncodeAlike(fs: Fields, gs: Fields, indent: nat)
    requires Alike(fs, gs)
    ensures EncodeFields(fs, indent) == EncodeFields(gs, indent)
    decreases FieldsWeight(fs), 0
  {
    hide EncodeValue, SameUpToOrder, IsSafeKey;
    if fs.Field? {
      SameLines(fs.value, gs.value, fs.name, indent);
      EncodeAlike(fs.more, gs.more, indent);
    }
  }

  lemma {:induction false} SameLines(v: Value, w: Value, name: string, indent: nat)
    requires SameUpToOrder(v, w)
    ensures EncodeValue(v, name, indent) == EncodeValue(w, name, indent)
    decreases Weight(v), 1
  {
    hide EncodeFields, Sorted, IsSafeKey, SameFields, Alike;
    if v.Object? && w.Object? {
      SortAlike(v.fields, w.fields);
      SameEmpty(v.fields, w.fields);
      EncodeAlike(Sorted(v.fields), Sorted(w.fields), indent);
      EncodeAlike(Sorted(v.fields), Sorted(w.fields), indent + 1);
    }
  }

  lemma SameEmpty(fs: Fields, gs: Fields)
    requires SameFields(fs, gs)
    ensures fs.NoFields? <==> gs.NoFields?
  {
  }

  /** The text of a value does not depend on the order in which fields were given. */
  lemma OrderDoesNotMatter(v: Value, w: Value)
    requires SameUpToOrder(v, w)
    ensures Encode(v) == Encode(w)
  {
    hide EncodeValue;
    SameLines(v, w, "", 0);
  }

  predicate IsAscending(fs: Fields) {
    fs.Field? ==> (forall n | n in Names(fs.more) :: !Less(n, fs.name)) && IsAscending(fs.more)
  }

  lemma {:induction false} InsertAscends(name: string, value: Value, fs: Fields)
    requires IsAscending(fs)
    ensures IsAscending(Insert(name, value, fs))
    ensures forall n :: n in Names(Insert(name, value, fs)) <==> n == name || n in Names(fs)
  {
    hide Less;
    if fs.Field? && Less(fs.name, name) {
      InsertAscends(name, value, fs.more);
      LessAsymmetric(fs.name, name);
    } else {
      LessIrreflexive(name);
      forall n | n in Names(fs) ensures !Less(n, name) {
        if Less(n, name) { NotBefore(fs, n, name); }
      }
    }
  }

  lemma NotBefore(fs: Fields, n: string, name: string)
    requires IsAscending(fs) && n in Names(fs) && !Less(fs.name, name)
    ensures !Less(n, name)
  {
    hide Less;
    LessTotal(n, fs.name);
    if Less(n, name) && n != fs.name { LessTransitive(fs.name, n, name); }
  }

  /** Fields are written in the ascending order of their names. */
  lemma {:induction false} FieldsAscend(fs: Fields)
    ensures IsAscending(Sorted(fs)) && forall n :: n in Names(Sorted(fs)) <==> n in Names(fs)
  {
    hide Insert, Less;
    if fs.Field? {
      FieldsAscend(fs.more);
      InsertAscends(fs.name, fs.value, Sorted(fs.more));
    }
  }

  /* ---- Names ---- */

  const CAPITALS := "ABCDEFGHIJKLMNOPQRSTUVWXYZ"
  const SMALL := "abcdefghijklmnopqrstuvwxyz"

  lemma KeyCharExactly(c: char)
    ensures IsKeyStart(c) <==> c in CAPITALS || c in SMALL || c == '_'
    ensures IsKeyChar(c) <==> IsKeyStart(c) || c in "0123456789" || c == '.' || c == '-'
  {
    CapitalExactly(c);
    SmallExactly(c);
  }

  lemma CapitalExactly(c: char)
    ensures 'A' <= c <= 'Z' <==> c in CAPITALS
  {
  }

  lemma SmallExactly(c: char)
    ensures 'a' <= c <= 'z' <==> c in SMALL
  {
  }

  /** A name is safe when it starts as an identifier and goes on with letters, digits, dots and dashes. */
  lemma SafeKeyExactly(k: string)
    ensures IsSafeKey(k) <==>
            k != "" && IsLetter(k[0]) && forall c | c in k :: IsLetter(c) || c in "0123456789" || c == '.' || c == '-'
  {
    hide IsKeyStart, IsKeyChar, IsLetter;
    forall i | 0 <= i < |k|
      ensures IsKeyStart(k[i]) <==> IsLetter(k[i])
      ensures IsKeyChar(k[i]) <==> IsLetter(k[i]) || k[i] in "0123456789" || k[i] == '.' || k[i] == '-'
    {
      KeyCharExactly(k[i]);
      LetterIs(k[i]);
    }
    if forall i | 0 <= i < |k| :: IsKeyChar(k[i]) {
      forall c | c in k ensures IsLetter(c) || c in "0123456789" || c == '.' || c == '-' {
        var i :| 0 <= i < |k| && k[i] == c;
        assert IsKeyChar(k[i]);
      }
    }
  }

  predicate IsLetter(c: char) {
    c in CAPITALS || c in SMALL || c == '_'
  }

  lemma LetterIs(c: char)
    ensures IsLetter(c) <==> c in CAPITALS || c in SMALL || c == '_'
  {
  }

  /* ---- Quotes ---- */

  /** A string stands without quotes exactly when it would read as itself, holds no quote, colon or comma, and does not
      start as an array, an object, a list item or a number does. */
  lemma BareExactly(s: string)
    ensures EncodeScalar(Str(s)) == Some(s) <==>
            (IsBare(s) && '"' !in s && ':' !in s && ',' !in s && s[0] !in "[{-" && !('0' <= s[0] <= '9'))
  {
    NumberExactly(s);
    hide JsonText.Escape, ReadsAsNumber, IsNumberText, IsTrimmed;
    if NeedsQuote(s) { assert |JsonText.Quote(s)| > 0 && JsonText.Quote(s)[0] == '"'; }
    QuoteIsLonger(s);
  }

  lemma {:induction false} EscapeIsLonger(s: string)
    ensures |JsonText.Escape(s)| >= |s|
    decreases |s|
  {
    if s != "" { EscapeIsLonger(s[1..]); }
  }

  lemma QuoteIsLonger(s: string)
    ensures JsonText.Quote(s) != s
  {
    EscapeIsLonger(s);
  }
}
