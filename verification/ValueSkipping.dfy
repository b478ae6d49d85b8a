/**
 The depth counter that skips a JSON value without reading it, and the proof that it
 always lands where the grammar ends the value.
 */
module ValueSkipping {
  import opened JsonText
  import opened ConcreteJson

  /** Scan on from `j` inside `depth` open brackets until they are all closed. */
  function SkipOpen(b: string, j: nat, depth: int): Scan
    requires j <= |b|
    decreases |b| - j
  {
    if j >= |b| then Lost
    else if b[j] == '"' then
      var e := BodyEnd(b, j + 1);
      if e.Lost? then Lost else SkipOpen(b, e.end, depth)
    else if b[j] == '{' || b[j] == '[' then SkipOpen(b, j + 1, depth + 1)
    else if b[j] == '}' || b[j] == ']' then
      (if depth - 1 == 0 then EndsAt(j + 1) else SkipOpen(b, j + 1, depth - 1))
    else SkipOpen(b, j + 1, depth)
  }

  function Skip(b: string, i: nat): Scan {
    if i >= |b| then Lost
    else if b[i] == '"' then BodyEnd(b, i + 1)
    else if b[i] == '{' || b[i] == '[' then SkipOpen(b, i, 0)
    else
      var j := DelimiterAt(b, i);
      if j > i then EndsAt(j) else Lost
  }

  /** The scan behind a closing bracket that was met at `depth`. */
  function Closed(b: string, end: nat, depth: int): Scan
    requires end <= |b|
  {
    if depth - 1 == 0 then EndsAt(end) else SkipOpen(b, end, depth - 1)
  }

  /** Characters that neither open nor close anything. */
  predicate IsFlat(t: string) {
    forall k | 0 <= k < |t| :: t[k] !in "\"{}[]"
  }

  lemma {:induction false} SkipFlat(b: string, p: nat, t: string, depth: int)
    requires At(b, p, t) && IsFlat(t)
    ensures SkipOpen(b, p, depth) == SkipOpen(b, p + |t|, depth)
    decreases |t|
  {
    if t != "" {
      assert t == [t[0]] + t[1..];
      AtAppend(b, p, [t[0]], t[1..]);
      AtFirst(b, p, t);
      SkipFlat(b, p + 1, t[1..], depth);
    }
  }

  lemma BlankIsFlat(t: string)
    requires IsBlank(t)
    ensures IsFlat(t)
  {
  }

  /** Inside open brackets, a whole value is skipped without changing the depth. */
  lemma {:induction false} SkipInner(b: string, p: nat, v: Value, depth: int)
    requires WellFormed(v) && At(b, p, Print(v)) && depth >= 1
    ensures SkipOpen(b, p, depth) == SkipOpen(b, p + |Print(v)|, depth)
    decreases v, 1
  {
    hide IsLiteral, IsStringToken;
    match v
    case Scalar(text) =>
      LiteralChars(text);
      SkipFlat(b, p, text, depth);
    case Str(raw) =>
      TokenEnd(b, p, raw);
    case Arr(_, _) => SkipArray(b, p, v, depth);
    case Obj(_, _) => SkipObject(b, p, v, depth);
  }

  lemma {:induction false} SkipArray(b: string, p: nat, v: Value, depth: int)
    requires v.Arr? && WellFormed(v) && At(b, p, Print(v)) && depth >= 0
    ensures SkipOpen(b, p, depth) == Closed(b, p + |Print(v)|, depth + 1)
    decreases v, 0
  {
    hide IsLiteral, IsStringToken;
    var i := p + 1 + |v.lead|;
    Assoc("[" + v.lead, PrintElems(v.elems), "]");
    AtAppend(b, p, "[" + v.lead, ElemsText(v.elems));
    AtAppend(b, p, "[", v.lead);
    AtFirst(b, p, "[");
    BlankIsFlat(v.lead);
    SkipFlat(b, p + 1, v.lead, depth + 1);
    SkipElems(b, i, v.elems, depth + 1);
  }

  lemma {:induction false} SkipObject(b: string, p: nat, v: Value, depth: int)
    requires v.Obj? && WellFormed(v) && At(b, p, Print(v)) && depth >= 0
    ensures SkipOpen(b, p, depth) == Closed(b, p + |Print(v)|, depth + 1)
    decreases v, 0
  {
    hide IsLiteral, IsStringToken;
    var i := p + 1 + |v.lead|;
    Assoc("{" + v.lead, PrintMembers(v.members), "}");
    AtAppend(b, p, "{" + v.lead, MembersText(v.members));
    AtAppend(b, p, "{", v.lead);
    AtFirst(b, p, "{");
    BlankIsFlat(v.lead);
    SkipFlat(b, p + 1, v.lead, depth + 1);
    SkipMembers(b, i, v.members, depth + 1);
  }

  lemma {:induction false} SkipElems(b: string, p: nat, es: Elems, depth: int)
    requires WellFormedElems(es) && At(b, p, ElemsText(es)) && depth >= 1
    ensures SkipOpen(b, p, depth) == Closed(b, p + |ElemsText(es)|, depth)
    decreases es, 1
  {
    hide IsLiteral, IsStringToken, SpaceEnd, BodyEnd, At, IsBlank, IsFlat, WellFormed, Print;
    ElemsKind(b, p, es);
    if es.Elem? {
      ElemLayout(b, p, es);
      SkipInner(b, p, es.value, depth);
      SkipElemTail(b, p + |Print(es.value)|, es, depth);
    }
  }

  lemma {:induction false} SkipElemTail(b: string, ve: nat, es: Elems, depth: int)
    requires es.Elem? && WellFormedElems(es) && At(b, ve, es.after + ElemsTail(es)) && depth >= 1
    ensures ve + |es.after| + |ElemsTail(es)| <= |b|
    ensures SkipOpen(b, ve, depth) == Closed(b, ve + |es.after| + |ElemsTail(es)|, depth)
    decreases es, 0
  {
    hide IsLiteral, IsStringToken, SpaceEnd, BodyEnd, IsBlank, IsFlat, WellFormed, Print;
    var j := ve + |es.after|;
    ElemTailLayout(b, ve, es);
    BlankIsFlat(es.after);
    SkipFlat(b, ve, es.after, depth);
    if es.more.Elem? {
      BlankIsFlat(es.gap);
      SkipFlat(b, j + 1, es.gap, depth);
      SkipElems(b, j + 1 + |es.gap|, es.more, depth);
    }
  }

  lemma {:induction false} SkipMembers(b: string, p: nat, ms: Members, depth: int)
    requires WellFormedMembers(ms) && At(b, p, MembersText(ms)) && depth >= 1
    ensures SkipOpen(b, p, depth) == Closed(b, p + |MembersText(ms)|, depth)
    decreases ms, 1
  {
    hide IsLiteral, IsStringToken, SpaceEnd, BodyEnd, At, IsBlank, IsFlat, WellFormed, Print;
    MembersKind(b, p, ms);
    if ms.Member? {
      var a := p + |PrintHead(ms)|;
      MemberLayout(b, p, ms);
      SkipHead(b, p, ms, depth);
      SkipInner(b, a, ms.value, depth);
      SkipMemberTail(b, a + |Print(ms.value)|, ms, depth);
    }
  }

  lemma {:induction false} SkipMemberTail(b: string, ve: nat, ms: Members, depth: int)
    requires ms.Member? && WellFormedMembers(ms) && At(b, ve, ms.after + MembersTail(ms)) && depth >= 1
    ensures ve + |ms.after| + |MembersTail(ms)| <= |b|
    ensures SkipOpen(b, ve, depth) == Closed(b, ve + |ms.after| + |MembersTail(ms)|, depth)
    decreases ms, 0
  {
    hide IsLiteral, IsStringToken, SpaceEnd, BodyEnd, IsBlank, IsFlat;
    var j := ve + |ms.after|;
    MemberTailLayout(b, ve, ms);
    BlankIsFlat(ms.after);
    SkipFlat(b, ve, ms.after, depth);
    if ms.more.Member? {
      BlankIsFlat(ms.gap);
      SkipFlat(b, j + 1, ms.gap, depth);
      SkipMembers(b, j + 1 + |ms.gap|, ms.more, depth);
    }
  }

  lemma SkipHead(b: string, p: nat, ms: Members, depth: int)
    requires ms.Member? && WellFormedMembers(ms)
    requires At(b, p, PrintHead(ms)) && At(b, p + |PrintHead(ms)|, Print(ms.value))
    ensures SkipOpen(b, p, depth) == SkipOpen(b, p + |PrintHead(ms)|, depth)
  {
    hide IsLiteral, IsStringToken, SpaceEnd, BodyEnd, At, IsBlank, IsFlat, WellFormed, Print;
    var k := p + |ms.key|;
    var c := k + |ms.beforeColon|;
    HeadLayout(b, p, ms);
    TokenEnd(b, p, ms.key);
    BlankIsFlat(ms.beforeColon);
    SkipFlat(b, k, ms.beforeColon, depth);
    BlankIsFlat(ms.afterColon);
    SkipFlat(b, c + 1, ms.afterColon, depth);
  }

  /** The skip lands exactly where the grammar ends the value. */
  lemma SkipEndsValue(b: string, i: nat, v: Value)
    requires WellFormed(v) && At(b, i, Print(v)) && Delimited(b, i + |Print(v)|)
    ensures Skip(b, i) == EndsAt(i + |Print(v)|)
  {
    hide IsLiteral, IsStringToken;
    ValueAt(b, i, v);
    match v
    case Scalar(text) =>
      LiteralChars(text);
      DelimiterAtIs(b, i, text);
    case Str(raw) => TokenEnd(b, i, raw);
    case Arr(_, _) => SkipArray(b, i, v, 0);
    case Obj(_, _) => SkipObject(b, i, v, 0);
  }
}
