/**
 JSON documents as concrete syntax trees that keep every character of white space
 (RFC 8259, sections 2-7), their printer, and where the parts of a printed tree lie.
 */
module ConcreteJson {
  import opened JsonText

  datatype Value =
    | Scalar(text: string)
    | Str(raw: string)
    | Arr(lead: string, elems: Elems)
    | Obj(lead: string, members: Members)

  /** `after` is the white space behind the value, `gap` the white space behind the comma. */
  datatype Elems = NoElems | Elem(value: Value, after: string, gap: string, more: Elems)

  datatype Members =
    | NoMembers
    | Member(key: string, beforeColon: string, afterColon: string, value: Value,
             after: string, gap: string, more: Members)

  datatype Doc = Doc(before: string, value: Value, after: string)

  function Print(v: Value): string {
    match v
    case Scalar(text) => text
    case Str(raw) => raw
    case Arr(lead, elems) => "[" + lead + PrintElems(elems) + "]"
    case Obj(lead, members) => "{" + lead + PrintMembers(members) + "}"
  }

  function PrintElems(es: Elems): string
    decreases es, 0
  {
    match es
    case NoElems => ""
    case Elem(value, after, gap, more) => Print(value) + PrintMoreElems(after, gap, more)
  }

  /** What follows one element: its white space, then the comma and the others, if any. */
  function PrintMoreElems(after: string, gap: string, more: Elems): string
    decreases more, 1
  {
    after + (if more.NoElems? then "" else "," + gap + PrintElems(more))
  }

  function PrintHead(m: Members): string
    requires m.Member?
  {
    m.key + m.beforeColon + ":" + m.afterColon
  }

  function PrintMembers(ms: Members): string
    decreases ms, 0
  {
    match ms
    case NoMembers => ""
    case Member(_, _, _, value, after, gap, more) =>
      PrintHead(ms) + Print(value) + PrintMoreMembers(after, gap, more)
  }

  function PrintMoreMembers(after: string, gap: string, more: Members): string
    decreases more, 1
  {
    after + (if more.NoMembers? then "" else "," + gap + PrintMembers(more))
  }

  function PrintDoc(d: Doc): string {
    d.before + Print(d.value) + d.after
  }

  predicate WellFormed(v: Value) {
    match v
    case Scalar(text) => IsLiteral(text)
    case Str(raw) => IsStringToken(raw)
    case Arr(lead, elems) => IsBlank(lead) && WellFormedElems(elems)
    case Obj(lead, members) => IsBlank(lead) && WellFormedMembers(members)
  }

  predicate WellFormedElems(es: Elems) {
    match es
    case NoElems => true
    case Elem(value, after, gap, more) =>
      WellFormed(value) && IsBlank(after) && IsBlank(gap) && (more.NoElems? ==> gap == "") && WellFormedElems(more)
  }

  predicate WellFormedMembers(ms: Members) {
    match ms
    case NoMembers => true
    case Member(key, beforeColon, afterColon, value, after, gap, more) =>
      IsStringToken(key) && IsBlank(beforeColon) && IsBlank(afterColon) && WellFormed(value) &&
      IsBlank(after) && IsBlank(gap) && (more.NoMembers? ==> gap == "") && WellFormedMembers(more)
  }

  predicate WellFormedDoc(d: Doc) {
    IsBlank(d.before) && WellFormed(d.value) && IsBlank(d.after)
  }

  /** The texts that are JSON: exactly the printed documents. */
  ghost predicate IsJson(s: string) {
    exists d :: WellFormedDoc(d) && PrintDoc(d) == s
  }

  /* ---- Scanning ---- */

  /** The first index at or after `i` that holds no white space. */
  function SpaceEnd(s: string, i: nat): (j: nat)
    requires i <= |s|
    ensures i <= j <= |s|
    decreases |s| - i
  {
    if i < |s| && IsSpace(s[i]) then SpaceEnd(s, i + 1) else i
  }

  /** The first index at or after `i` that holds a delimiter. */
  function DelimiterAt(s: string, i: nat): (j: nat)
    requires i <= |s|
    ensures i <= j <= |s|
    decreases |s| - i
  {
    if i < |s| && !IsDelimiter(s[i]) then DelimiterAt(s, i + 1) else i
  }

  /** The result of a scan that may run off the end of the text. */
  datatype Scan = Lost | EndsAt(end: nat)

  /** The index behind the closing quotation mark of the string body that starts at `i`. */
  function BodyEnd(s: string, i: nat): (r: Scan)
    requires i <= |s| + 1
    ensures r.EndsAt? ==> i < r.end <= |s|
    decreases |s| + 1 - i
  {
    if i >= |s| then Lost
    else if s[i] == '\\' then BodyEnd(s, i + 2)
    else if s[i] == '"' then EndsAt(i + 1)
    else BodyEnd(s, i + 1)
  }

  /** A value may only be followed by white space, a comma, a closing bracket or the end. */
  predicate Delimited(s: string, i: nat) {
    i <= |s| && (i < |s| ==> IsDelimiter(s[i]))
  }

  lemma {:induction false} SpaceEndIs(s: string, i: nat, blank: string)
    requires At(s, i, blank) && IsBlank(blank)
    requires i + |blank| < |s| ==> !IsSpace(s[i + |blank|])
    ensures SpaceEnd(s, i) == i + |blank|
    decreases |blank|
  {
    if blank != "" {
      AtAppend(s, i, [blank[0]], blank[1..]);
      assert blank == [blank[0]] + blank[1..];
      SpaceEndIs(s, i + 1, blank[1..]);
    }
  }

  lemma {:induction false} DelimiterAtIs(s: string, i: nat, text: string)
    requires At(s, i, text) && Delimited(s, i + |text|)
    requires forall k | 0 <= k < |text| :: !IsDelimiter(text[k])
    ensures DelimiterAt(s, i) == i + |text|
    decreases |text|
  {
    if text != "" {
      AtAppend(s, i, [text[0]], text[1..]);
      assert text == [text[0]] + text[1..];
      DelimiterAtIs(s, i + 1, text[1..]);
    }
  }

  lemma {:induction false} BodyEndIs(s: string, i: nat, e: nat)
    requires i <= e < |s| && IsStringBody(s[i..e]) && s[e] == '"'
    ensures BodyEnd(s, i) == EndsAt(e + 1)
    decreases e - i
  {
    var body := s[i..e];
    if i < e {
      assert body[0] == s[i];
      if s[i] == '\\' {
        EscapeSkip(body);
        assert body[2..] == s[i + 2..e];
        BodyEndIs(s, i + 2, e);
      } else {
        assert body[1..] == s[i + 1..e];
        BodyEndIs(s, i + 1, e);
      }
    }
  }

  lemma TokenEnd(s: string, i: nat, raw: string)
    requires At(s, i, raw) && IsStringToken(raw)
    ensures i < |s| && s[i] == '"' && BodyEnd(s, i + 1) == EndsAt(i + |raw|)
  {
    var e := i + |raw| - 1;
    AtSlice(s, i, raw);
    assert s[i..i + |raw|][0] == s[i] && s[i..i + |raw|][|raw| - 1] == s[e];
    assert s[i + 1..e] == s[i..i + |raw|][1..|raw| - 1];
    BodyEndIs(s, i + 1, e);
  }

  /* ---- Where the parts of a printed tree lie ---- */

  lemma ValueFirst(v: Value)
    requires WellFormed(v)
    ensures Print(v) != "" && !IsDelimiter(Print(v)[0])
  {
    if v.Scalar? { LiteralChars(v.text); }
  }

  lemma ValueAt(s: string, i: nat, v: Value)
    requires WellFormed(v) && At(s, i, Print(v))
    ensures i < |s| && !IsDelimiter(s[i]) && s[i] == Print(v)[0]
  {
    ValueFirst(v);
    AtFirst(s, i, Print(v));
  }

  /** The white space behind an opening bracket ends where the contents begin. */
  lemma LeadLayout(s: string, i: nat, open: char, lead: string, rest: string)
    requires At(s, i, [open] + lead + rest) && IsBlank(lead) && rest != "" && !IsSpace(rest[0])
    ensures i < |s| && s[i] == open
    ensures SpaceEnd(s, i + 1) == i + 1 + |lead|
    ensures At(s, i + 1 + |lead|, rest)
  {
    AtAppend(s, i, [open] + lead, rest);
    AtAppend(s, i, [open], lead);
    AtFirst(s, i, [open]);
    AtFirst(s, i + 1 + |lead|, rest);
    SpaceEndIs(s, i + 1, lead);
  }

  /** Behind a value: its white space, then `mark` and, unless `mark` closes, a blank and `rest`. */
  lemma TailLayout(s: string, ve: nat, after: string, mark: char, gap: string, rest: string)
    requires At(s, ve, after + ([mark] + gap + rest)) && IsBlank(after) && IsBlank(gap)
    requires !IsSpace(mark) && (rest != "" ==> !IsSpace(rest[0]))
    ensures var j := ve + |after|;
            At(s, ve, after) && SpaceEnd(s, ve) == j && j < |s| && s[j] == mark
    ensures At(s, ve + |after| + 1, gap) && At(s, ve + |after| + 1 + |gap|, rest)
    ensures rest != "" ==> SpaceEnd(s, ve + |after| + 1) == ve + |after| + 1 + |gap|
    ensures IsDelimiter(mark) ==> Delimited(s, ve)
  {
    var j := ve + |after|;
    AtAppend(s, ve, after, [mark] + gap + rest);
    LeadOf(s, j, mark, gap, rest);
    SpaceEndIs(s, ve, after);
    if rest != "" {
      AtFirst(s, j + 1 + |gap|, rest);
      SpaceEndIs(s, j + 1, gap);
    }
    if after != "" { AtFirst(s, ve, after); }
  }

  lemma LeadOf(s: string, j: nat, mark: char, gap: string, rest: string)
    requires At(s, j, [mark] + gap + rest)
    ensures j < |s| && s[j] == mark && At(s, j + 1, gap) && At(s, j + 1 + |gap|, rest)
  {
    AtAppend(s, j, [mark] + gap, rest);
    AtAppend(s, j, [mark], gap);
    AtFirst(s, j, [mark]);
  }

  /** The printed elements with the closing bracket, which is how the text goes on. */
  function ElemsText(es: Elems): string {
    PrintElems(es) + "]"
  }

  function MembersText(ms: Members): string {
    PrintMembers(ms) + "}"
  }

  lemma ElemsFirst(es: Elems)
    requires WellFormedElems(es)
    ensures ElemsText(es)[0] == ']' <==> es.NoElems?
    ensures !IsSpace(ElemsText(es)[0])
  {
    if es.Elem? { ValueFirst(es.value); }
  }

  lemma MembersFirst(ms: Members)
    requires WellFormedMembers(ms)
    ensures ms.NoMembers? ==> MembersText(ms)[0] == '}'
    ensures ms.Member? ==> MembersText(ms)[0] == '"'
  {
  }

  lemma Assoc(a: string, b: string, c: string)
    ensures a + b + c == a + (b + c)
  {
  }

  lemma ElemsTextSplit(es: Elems, tail: string)
    requires es.Elem?
    requires tail == if es.more.NoElems? then "]" + "" + "" else "," + es.gap + ElemsText(es.more)
    ensures ElemsText(es) == Print(es.value) + (es.after + tail)
  {
    var x := if es.more.NoElems? then "" else "," + es.gap + PrintElems(es.more);
    Assoc("," + es.gap, PrintElems(es.more), "]");
    assert x + "]" == tail;
    assert PrintElems(es) == Print(es.value) + (es.after + x);
    Assoc(Print(es.value), es.after + x, "]");
    Assoc(es.after, x, "]");
  }

  lemma MembersTextSplit(ms: Members, tail: string)
    requires ms.Member?
    requires tail == if ms.more.NoMembers? then "}" + "" + "" else "," + ms.gap + MembersText(ms.more)
    ensures MembersText(ms) == PrintHead(ms) + (Print(ms.value) + (ms.after + tail))
  {
    var x := if ms.more.NoMembers? then "" else "," + ms.gap + PrintMembers(ms.more);
    var h, v := PrintHead(ms), Print(ms.value);
    Assoc("," + ms.gap, PrintMembers(ms.more), "}");
    assert x + "}" == tail;
    assert PrintMembers(ms) == h + v + (ms.after + x);
    Assoc(h, v, ms.after + x);
    Assoc(h, v + (ms.after + x), "}");
    Assoc(v, ms.after + x, "}");
    Assoc(ms.after, x, "}");
  }

  /** The rest of the elements behind the first value, as TailLayout reads it. */
  function ElemsTail(es: Elems): string
    requires es.Elem?
  {
    if es.more.NoElems? then "]" + "" + "" else "," + es.gap + ElemsText(es.more)
  }

  function MembersTail(ms: Members): string
    requires ms.Member?
  {
    if ms.more.NoMembers? then "}" + "" + "" else "," + ms.gap + MembersText(ms.more)
  }

  lemma ElemLayout(s: string, i: nat, es: Elems)
    requires es.Elem? && WellFormedElems(es) && At(s, i, ElemsText(es))
    ensures i < |s| && s[i] != ']' && At(s, i, Print(es.value)) && Print(es.value) != ""
    ensures At(s, i + |Print(es.value)|, es.after + ElemsTail(es))
    ensures |ElemsText(es)| == |Print(es.value)| + |es.after| + |ElemsTail(es)|
  {
    ElemsTextSplit(es, ElemsTail(es));
    ElemsFirst(es);
    AtFirst(s, i, ElemsText(es));
    ValueFirst(es.value);
    AtAppend(s, i, Print(es.value), es.after + ElemsTail(es));
  }

  lemma ElemTailLayout(s: string, ve: nat, es: Elems)
    requires es.Elem? && WellFormedElems(es) && At(s, ve, es.after + ElemsTail(es))
    ensures var j := ve + |es.after|;
            Delimited(s, ve) && At(s, ve, es.after) && SpaceEnd(s, ve) == j && j < |s| &&
            (if es.more.NoElems? then s[j] == ']'
             else s[j] == ',' && At(s, j + 1, es.gap) && SpaceEnd(s, j + 1) == j + 1 + |es.gap| &&
                  At(s, j + 1 + |es.gap|, ElemsText(es.more)))
  {
    hide IsLiteral, IsStringToken, IsBlank, At, SpaceEnd, Print;
    if es.more.NoElems? {
      TailLayout(s, ve, es.after, ']', "", "");
    } else {
      ElemsFirst(es.more);
      TailLayout(s, ve, es.after, ',', es.gap, ElemsText(es.more));
    }
  }

  lemma MemberLayout(s: string, i: nat, ms: Members)
    requires ms.Member? && WellFormedMembers(ms) && At(s, i, MembersText(ms))
    ensures At(s, i, PrintHead(ms)) && At(s, i + |PrintHead(ms)|, Print(ms.value))
    ensures At(s, i + |PrintHead(ms)| + |Print(ms.value)|, ms.after + MembersTail(ms))
    ensures |MembersText(ms)| == |PrintHead(ms)| + |Print(ms.value)| + |ms.after| + |MembersTail(ms)|
  {
    var h, v, t := PrintHead(ms), Print(ms.value), ms.after + MembersTail(ms);
    MembersTextSplit(ms, MembersTail(ms));
    AtAppend(s, i, h, v + t);
    AtAppend(s, i + |h|, v, t);
  }

  lemma MemberTailLayout(s: string, ve: nat, ms: Members)
    requires ms.Member? && WellFormedMembers(ms) && At(s, ve, ms.after + MembersTail(ms))
    ensures var j := ve + |ms.after|;
            Delimited(s, ve) && At(s, ve, ms.after) && SpaceEnd(s, ve) == j && j < |s| &&
            (if ms.more.NoMembers? then s[j] == '}'
             else s[j] == ',' && At(s, j + 1, ms.gap) && SpaceEnd(s, j + 1) == j + 1 + |ms.gap| &&
                  At(s, j + 1 + |ms.gap|, MembersText(ms.more)))
  {
    hide IsLiteral, IsStringToken, IsBlank, At, SpaceEnd, Print;
    if ms.more.NoMembers? {
      TailLayout(s, ve, ms.after, '}', "", "");
    } else {
      MembersFirst(ms.more);
      TailLayout(s, ve, ms.after, ',', ms.gap, MembersText(ms.more));
    }
  }

  lemma HeadLayout(s: string, i: nat, ms: Members)
    requires ms.Member? && WellFormedMembers(ms)
    requires At(s, i, PrintHead(ms)) && At(s, i + |PrintHead(ms)|, Print(ms.value))
    ensures i < |s| && s[i] == '"' && At(s, i, ms.key)
    ensures var c := i + |ms.key| + |ms.beforeColon|;
            SpaceEnd(s, i + |ms.key|) == c && c < |s| && s[c] == ':' && SpaceEnd(s, c + 1) == i + |PrintHead(ms)| &&
            c < i + |PrintHead(ms)| &&
            At(s, i + |ms.key|, ms.beforeColon) && At(s, c + 1, ms.afterColon)
    ensures Print(ms.value) != ""
  {
    var k, b, c, v := ms.key, ms.beforeColon, ms.afterColon, Print(ms.value);
    ValueFirst(ms.value);
    AtAppend(s, i, PrintHead(ms), v);
    Assoc(k + b, ":", c);
    Assoc(k + b, ":" + c, v);
    Assoc(k, b, ":" + c + v);
    AtAppend(s, i, k, b + (":" + c + v));
    AtFirst(s, i, ms.key);
    TailLayout(s, i + |k|, b, ':', c, v);
  }

  /* ---- The grammar is unambiguous ---- */

  lemma SameText(s: string, i: nat, t: string, u: string)
    requires At(s, i, t) && At(s, i, u) && |t| == |u|
    ensures t == u
  {
    AtSlice(s, i, t);
    AtSlice(s, i, u);
  }

  lemma {:induction false} ValueUnique(s: string, i: nat, v: Value, w: Value)
    requires WellFormed(v) && At(s, i, Print(v)) && Delimited(s, i + |Print(v)|)
    requires WellFormed(w) && At(s, i, Print(w)) && Delimited(s, i + |Print(w)|)
    ensures v == w
    decreases v, 1
  {
    hide IsLiteral, IsStringToken, At, SpaceEnd, BodyEnd, IsBlank;
    ValueKind(s, i, v);
    ValueKind(s, i, w);
    match v
    case Scalar(text) =>
      LiteralChars(text);
      LiteralChars(w.text);
      DelimiterAtIs(s, i, text);
      DelimiterAtIs(s, i, w.text);
      SameText(s, i, text, w.text);
    case Str(raw) =>
      TokenEnd(s, i, raw);
      TokenEnd(s, i, w.raw);
      SameText(s, i, raw, w.raw);
    case Arr(lead, elems) =>
      ArrLayout(s, i, v);
      ArrLayout(s, i, w);
      SameText(s, i + 1, lead, w.lead);
      ElemsUnique(s, i + 1 + |lead|, elems, w.elems);
    case Obj(lead, members) =>
      ObjLayout(s, i, v);
      ObjLayout(s, i, w);
      SameText(s, i + 1, lead, w.lead);
      MembersUnique(s, i + 1 + |lead|, members, w.members);
  }

  lemma ValueKind(s: string, i: nat, v: Value)
    requires WellFormed(v) && At(s, i, Print(v))
    ensures i < |s|
    ensures v.Str? <==> s[i] == '"'
    ensures v.Arr? <==> s[i] == '['
    ensures v.Obj? <==> s[i] == '{'
  {
    ValueAt(s, i, v);
    if v.Scalar? { LiteralChars(v.text); }
  }

  lemma ArrLayout(s: string, i: nat, v: Value)
    requires v.Arr? && WellFormed(v) && At(s, i, Print(v))
    ensures i < |s| && SpaceEnd(s, i + 1) == i + 1 + |v.lead| && At(s, i + 1, v.lead)
    ensures At(s, i + 1 + |v.lead|, ElemsText(v.elems)) && |Print(v)| == 1 + |v.lead| + |ElemsText(v.elems)|
  {
    hide IsLiteral, IsStringToken, At;
    Assoc("[" + v.lead, PrintElems(v.elems), "]");
    ElemsFirst(v.elems);
    LeadLayout(s, i, '[', v.lead, ElemsText(v.elems));
    AtAppend(s, i, "[" + v.lead, ElemsText(v.elems));
    AtAppend(s, i, "[", v.lead);
  }

  lemma ObjLayout(s: string, i: nat, v: Value)
    requires v.Obj? && WellFormed(v) && At(s, i, Print(v))
    ensures i < |s| && SpaceEnd(s, i + 1) == i + 1 + |v.lead| && At(s, i + 1, v.lead)
    ensures At(s, i + 1 + |v.lead|, MembersText(v.members)) && |Print(v)| == 1 + |v.lead| + |MembersText(v.members)|
  {
    hide IsLiteral, IsStringToken, At;
    Assoc("{" + v.lead, PrintMembers(v.members), "}");
    MembersFirst(v.members);
    LeadLayout(s, i, '{', v.lead, MembersText(v.members));
    AtAppend(s, i, "{" + v.lead, MembersText(v.members));
    AtAppend(s, i, "{", v.lead);
  }

  lemma {:induction false} ElemsUnique(s: string, i: nat, es: Elems, fs: Elems)
    requires WellFormedElems(es) && At(s, i, ElemsText(es))
    requires WellFormedElems(fs) && At(s, i, ElemsText(fs))
    ensures es == fs
    decreases es, 0
  {
    hide IsLiteral, IsStringToken, At, SpaceEnd, IsBlank, Print, ElemsText, ElemsTail, WellFormed, IsDelimiter;
    ElemsKind(s, i, es);
    ElemsKind(s, i, fs);
    if es.Elem? {
      var ve := i + |Print(es.value)|;
      ElemLayout(s, i, es);
      ElemLayout(s, i, fs);
      ElemTailLayout(s, ve, es);
      ElemTailLayout(s, i + |Print(fs.value)|, fs);
      ValueUnique(s, i, es.value, fs.value);
      SameText(s, ve, es.after, fs.after);
      if es.more.Elem? {
        SameText(s, ve + |es.after| + 1, es.gap, fs.gap);
        ElemsUnique(s, ve + |es.after| + 1 + |es.gap|, es.more, fs.more);
      }
    }
  }

  lemma ElemsKind(s: string, i: nat, es: Elems)
    requires WellFormedElems(es) && At(s, i, ElemsText(es))
    ensures i < |s| && (s[i] == ']' <==> es.NoElems?)
  {
    ElemsFirst(es);
    AtFirst(s, i, ElemsText(es));
  }

  lemma {:induction false} MembersUnique(s: string, i: nat, ms: Members, ns: Members)
    requires WellFormedMembers(ms) && At(s, i, MembersText(ms))
    requires WellFormedMembers(ns) && At(s, i, MembersText(ns))
    ensures ms == ns
    decreases ms, 0
  {
    hide IsLiteral, IsStringToken, At, SpaceEnd, IsBlank, Print, PrintHead, MembersText, MembersTail, BodyEnd,
         WellFormed, IsDelimiter;
    MembersKind(s, i, ms);
    MembersKind(s, i, ns);
    if ms.Member? {
      var a := i + |PrintHead(ms)|;
      var ve := a + |Print(ms.value)|;
      HeadUnique(s, i, ms, ns);
      MemberLayout(s, i, ms);
      MemberLayout(s, i, ns);
      MemberTailLayout(s, ve, ms);
      MemberTailLayout(s, a + |Print(ns.value)|, ns);
      ValueUnique(s, a, ms.value, ns.value);
      SameText(s, ve, ms.after, ns.after);
      if ms.more.Member? {
        SameText(s, ve + |ms.after| + 1, ms.gap, ns.gap);
        MembersUnique(s, ve + |ms.after| + 1 + |ms.gap|, ms.more, ns.more);
      }
    }
  }

  lemma MembersKind(s: string, i: nat, ms: Members)
    requires WellFormedMembers(ms) && At(s, i, MembersText(ms))
    ensures i < |s| && (s[i] == '}' <==> ms.NoMembers?)
  {
    MembersFirst(ms);
    AtFirst(s, i, MembersText(ms));
  }

  lemma HeadUnique(s: string, i: nat, ms: Members, ns: Members)
    requires ms.Member? && WellFormedMembers(ms) && At(s, i, MembersText(ms))
    requires ns.Member? && WellFormedMembers(ns) && At(s, i, MembersText(ns))
    ensures ms.key == ns.key && ms.beforeColon == ns.beforeColon && ms.afterColon == ns.afterColon
    ensures PrintHead(ms) == PrintHead(ns)
  {
    hide IsLiteral, IsStringToken, At, SpaceEnd, IsBlank, Print, MembersText, BodyEnd;
    MemberLayout(s, i, ms);
    MemberLayout(s, i, ns);
    HeadLayout(s, i, ms);
    HeadLayout(s, i, ns);
    TokenEnd(s, i, ms.key);
    TokenEnd(s, i, ns.key);
    SameText(s, i, ms.key, ns.key);
    SameText(s, i + |ms.key|, ms.beforeColon, ns.beforeColon);
    SameText(s, i + |ms.key| + |ms.beforeColon| + 1, ms.afterColon, ns.afterColon);
  }
}
