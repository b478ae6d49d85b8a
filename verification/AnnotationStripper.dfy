/**
 The annotation stripper as the code has it: one walk over the raw text that records
 byte ranges to delete, then one copy pass. The walk is proved against the concrete
 tree of the text, which the code never builds.
 */
module AnnotationStripper {
  import opened JsonText
  import opened ConcreteJson
  import opened SchemaStrip
  import opened StripPaths
  import opened AnnotationCuts
  import opened ValueSkipping

  method SkipSpace(body: string, start: nat) returns (i: nat)
    requires start <= |body|
    ensures i == SpaceEnd(body, start)
  {
    i := start;
    while i < |body| && IsSpace(body[i])
      invariant start <= i <= |body| && SpaceEnd(body, i) == SpaceEnd(body, start)
    {
      i := i + 1;
    }
  }

  method StringEnd(body: string, start: nat) returns (end: int, ok: bool)
    ensures ok == (start < |body| && body[start] == '"' && BodyEnd(body, start + 1).EndsAt?)
    ensures ok ==> start < end <= |body| && BodyEnd(body, start + 1) == EndsAt(end)
  {
    if start >= |body| || body[start] != '"' {
      return 0, false;
    }
    var i := start + 1;
    while i < |body|
      invariant start < i <= |body| + 1 && BodyEnd(body, i) == BodyEnd(body, start + 1)
    {
      if body[i] == '\\' {
        i := i + 1;
      } else if body[i] == '"' {
        return i + 1, true;
      }
      i := i + 1;
    }
    return 0, false;
  }

  method SkipValue(body: string, i: nat) returns (end: int, ok: bool)
    ensures ok == Skip(body, i).EndsAt?
    ensures ok ==> i < end <= |body| && Skip(body, i) == EndsAt(end)
  {
    if i >= |body| {
      return 0, false;
    }
    if body[i] == '"' {
      end, ok := StringEnd(body, i);
      return;
    }
    if body[i] == '{' || body[i] == '[' {
      var depth := 0;
      var j := i;
      while j < |body|
        invariant i <= j <= |body| && SkipOpen(body, j, depth) == SkipOpen(body, i, 0)
      {
        if body[j] == '"' {
          var e, closed := StringEnd(body, j);
          if !closed {
            return 0, false;
          }
          j := e - 1;
        } else if body[j] == '{' || body[j] == '[' {
          depth := depth + 1;
        } else if body[j] == '}' || body[j] == ']' {
          depth := depth - 1;
          if depth == 0 {
            return j + 1, true;
          }
        }
        j := j + 1;
      }
      return 0, false;
    }
    var j := i;
    while j < |body| && !IsDelimiter(body[j])
      invariant i <= j <= |body| && DelimiterAt(body, j) == DelimiterAt(body, i)
    {
      j := j + 1;
    }
    return j, j > i;
  }

  /** `v` is printed in `body` from `i` on, and properly ended. */
  ghost predicate Stands(body: string, i: nat, v: Value) {
    WellFormed(v) && At(body, i, Print(v)) && Delimited(body, i + |Print(v)|)
  }

  lemma StandsFirst(body: string, i: nat, v: Value)
    requires Stands(body, i, v)
    ensures i < |body|
    ensures body[i] == '{' <==> v.Obj?
    ensures body[i] == '[' <==> v.Arr?
  {
    ValueAt(body, i, v);
    ValueFirst(v);
    if v.Scalar? { LiteralChars(v.text); }
  }

  class Stripper {
    const body: string
    var cuts: seq<Cut>

    constructor (body: string)
      ensures this.body == body && cuts == []
    {
      this.body := body;
      cuts := [];
    }

    method Skipped(i: nat, ghost v: Value) returns (end: int, ok: bool)
      requires Stands(body, i, v)
      ensures ok && end == i + |Print(v)|
    {
      SkipEndsValue(body, i, v);
      end, ok := SkipValue(body, i);
    }

    /** Walks one value according to what the position makes of it. */
    method Walk(i: nat, zone: Zone, ghost v: Value) returns (end: int, ok: bool)
      requires Stands(body, i, v)
      modifies this`cuts
      ensures ok && end == i + |Print(v)| && cuts == old(cuts) + Cuts(v, zone, i)
      decreases |body| - i, 2
    {
      StandsFirst(body, i, v);
      OpaqueHasNoCuts(v, i);
      match zone
      case Envelope =>
        match body[i] {
          case '[' => end, ok := WalkArray(i, zone, v);
          case '{' => end, ok := WalkObject(i, zone, v);
          case _ => end, ok := Skipped(i, v);
        }
      case Schema =>
        match body[i] {
          case '{' => end, ok := WalkObject(i, zone, v);
          case '[' => end, ok := WalkArray(i, zone, v);
          case _ => end, ok := Skipped(i, v);
        }
      case NameMap =>
        if body[i] != '{' {
          end, ok := Skipped(i, v);
        } else {
          end, ok := WalkObject(i, zone, v);
        }
      case Opaque =>
        end, ok := Skipped(i, v);
    }

    method WalkArray(start: nat, zone: Zone, ghost v: Value) returns (end: int, ok: bool)
      requires v.Arr? && Stands(body, start, v) && ElemZone(zone) == zone
      modifies this`cuts
      ensures ok && end == start + |Print(v)| && cuts == old(cuts) + Cuts(v, zone, start)
      decreases |body| - start, 1
    {
      hide Stands, WellFormed, WellFormedElems, Print, ElemsText, Cuts, ElemCuts, SpaceEnd, At;
      ghost var es := v.elems;
      ArrayLayout(body, start, v, zone);
      var i := SkipSpace(body, start + 1);
      ElemsKind(body, i, es);
      while i < |body| && body[i] != ']'
        invariant start < i < |body| && WellFormedElems(es) && At(body, i, ElemsText(es))
        invariant i + |ElemsText(es)| == start + |Print(v)|
        invariant cuts + ElemCuts(es, zone, i) == old(cuts) + Cuts(v, zone, start)
        invariant body[i] == ']' <==> es.NoElems?
        decreases |body| - i
      {
        ElemStep(body, i, es, zone);
        var e, walked := Walk(i, zone, es.value);
        if !walked {
          return 0, false;
        }
        i := SkipSpace(body, e);
        if i < |body| && body[i] == ',' {
          i := SkipSpace(body, i + 1);
        }
        es := es.more;
        ElemsKind(body, i, es);
      }
      if i >= |body| || body[i] != ']' {
        return 0, false;
      }
      LastElem(es, zone, i);
      return i + 1, true;
    }

    method WalkObject(start: nat, zone: Zone, ghost v: Value) returns (end: int, ok: bool)
      requires v.Obj? && Stands(body, start, v)
      modifies this`cuts
      ensures ok && end == start + |Print(v)| && cuts == old(cuts) + Cuts(v, zone, start)
      decreases |body| - start, 1
    {
      hide Stands, WellFormed, WellFormedMembers, Print, PrintHead, MembersText, Cuts, MemberCuts, SpaceEnd, BodyEnd;
      hide At, KeyName, IsStringToken, NextStart, Drops, ChildZone, TailOf;
      ghost var ms := v.members;
      ObjectLayout(body, start, v, zone);
      var i := SkipSpace(body, start + 1);
      var keptBefore := false;
      var prevValueEnd := -1;
      MembersKind(body, i, ms);
      while i < |body| && body[i] != '}'
        invariant start < i < |body| && WellFormedMembers(ms) && At(body, i, MembersText(ms))
        invariant i + |MembersText(ms)| == start + |Print(v)|
        invariant cuts + MemberCuts(ms, zone, i, keptBefore, prevValueEnd) == old(cuts) + Cuts(v, zone, start)
        invariant body[i] == '}' <==> ms.NoMembers?
        decreases |body| - i
      {
        ghost var cutsBefore, keptBefore' := cuts, keptBefore;
        ghost var keyEnd', colon', start' := MemberHeadStep(body, i, ms);
        ghost var ve' := start' + |Print(ms.value)|;
        ghost var sep', next' := MemberTailStep(body, i, ms, ve');
        MemberCutsStep(ms, zone, i, keptBefore, prevValueEnd, start', ve', next');
        var keyStart := i;
        var keyEnd, closed := StringEnd(body, i);
        if !closed || !IsStringToken(body[keyStart..keyEnd]) {
          return 0, false;
        }
        var key := KeyName(body[keyStart..keyEnd]);
        i := SkipSpace(body, keyEnd);
        if i >= |body| || body[i] != ':' {
          return 0, false;
        }
        var valueStart := SkipSpace(body, i + 1);
        assert valueStart == start' && key == KeyName(ms.key);
        var dropped := Drops(zone, key);
        var valueEnd, walked;
        if dropped {
          valueEnd, walked := Skipped(valueStart, ms.value);
        } else {
          valueEnd, walked := Walk(valueStart, ChildZone(zone, key), ms.value);
        }
        if !walked {
          return 0, false;
        }
        var j := SkipSpace(body, valueEnd);
        if j >= |body| {
          return 0, false;
        }
        var nextStart;
        match body[j] {
          case ',' => nextStart := SkipSpace(body, j + 1);
          case '}' => nextStart := j;
          case _ => return 0, false;
        }
        assert valueEnd == ve' && nextStart == next';
        ghost var rest := MemberCuts(ms.more, zone, next', keptBefore || !dropped, ve');
        if dropped {
          if keptBefore {
            cuts := cuts + [Cut(prevValueEnd, valueEnd)];
            AppendAssoc(cutsBefore, [Cut(prevValueEnd, valueEnd)], rest);
          } else {
            cuts := cuts + [Cut(keyStart, nextStart)];
            AppendAssoc(cutsBefore, [Cut(keyStart, nextStart)], rest);
          }
        } else {
          keptBefore := true;
          AppendAssoc(cutsBefore, Cuts(ms.value, ChildZone(zone, key), valueStart), rest);
        }
        assert cuts + rest == cutsBefore + MemberCuts(ms, zone, keyStart, keptBefore', prevValueEnd);
        prevValueEnd := valueEnd;
        i := nextStart;
        ms := ms.more;
        MembersKind(body, i, ms);
      }
      if i >= |body| || body[i] != '}' {
        return 0, false;
      }
      LastMember(ms, zone, i, keptBefore, prevValueEnd);
      return i + 1, true;
    }

    /** Copies everything outside the recorded ranges; refused when a range is out of order or bounds. */
    method ApplyCuts() returns (out: Copy)
      ensures out == Apply(body, cuts, 0, |body|)
    {
      var text, last := "", 0;
      for k := 0 to |cuts|
        invariant 0 <= last <= |body|
        invariant Apply(body, cuts, 0, |body|) == After(text, Apply(body, cuts[k..], last, |body|))
      {
        var cut := cuts[k];
        assert cuts[k..][0] == cut && cuts[k..][1..] == cuts[k + 1..];
        if cut.start < last || cut.end > |body| || cut.start > cut.end {
          return Refused;
        }
        ghost var rest := Apply(body, cuts[k + 1..], cut.end, |body|);
        AfterAfter(text, body[last..cut.start], rest);
        text := text + body[last..cut.start];
        last := cut.end;
      }
      return Copied(text + body[last..]);
    }
  }

  /** A copy that goes on behind `text`. */
  function After(text: string, rest: Copy): Copy {
    if rest.Copied? then Copied(text + rest.text) else Refused
  }

  lemma AfterAfter(t: string, u: string, rest: Copy)
    ensures After(t, After(u, rest)) == After(t + u, rest)
  {
    if rest.Copied? { Assoc(t, u, rest.text); }
  }

  /** The text and the output are documents, and the output has exactly the values whose paths are not removed. */
  ghost predicate IsStripped(text: string, out: string) {
    exists d, e :: IsStripPair(text, out, d, e)
  }

  ghost predicate IsStripPair(text: string, out: string, d: Doc, e: Doc) {
    WellFormedDoc(d) && PrintDoc(d) == text && WellFormedDoc(e) && PrintDoc(e) == out &&
    Nodes(e.value, []) == Kept(Nodes(d.value, []))
  }

  lemma KeptInOutput(d: Doc)
    requires WellFormedDoc(d)
    ensures IsStripped(PrintDoc(d), PrintDoc(StripDoc(d)))
  {
    hide WellFormedDoc, StripDoc, Nodes, Kept, PrintDoc;
    StripIdempotent(d);
    StripRemovesExactly(d);
    assert IsStripPair(PrintDoc(d), PrintDoc(StripDoc(d)), d, StripDoc(d));
  }

  /**
   The whole strip. `jsonValid` is the standard library's validity check, which accepts
   exactly the JSON texts; `ok` says that the text could be walked.
   */
  method StripToolSchemaAnnotations(tools: string, jsonValid: string -> bool) returns (out: string, ok: bool)
    requires forall s :: jsonValid(s) <==> IsJson(s)
    ensures ok <==> IsJson(tools)
    ensures !ok ==> out == tools
    ensures forall d | WellFormedDoc(d) && PrintDoc(d) == tools :: out == PrintDoc(StripDoc(d))
    ensures ok ==> IsStripped(tools, out)
  {
    if !jsonValid(tools) {
      return tools, false;
    }
    hide Print, WellFormed, PrintDoc, At, SpaceEnd, Cuts, Strip, StripDoc, Apply, Stands, IsStripped;
    ghost var d :| WellFormedDoc(d) && PrintDoc(d) == tools;
    var s := new Stripper(tools);
    DocStands(tools, d);
    var start := SkipSpace(tools, 0);
    var end, walked := s.Walk(start, Envelope, d.value);
    var rest;
    if walked {
      rest := SkipSpace(tools, end);
    }
    if !walked || rest != |tools| {
      return tools, false;
    }
    assert s.cuts == Cuts(d.value, Envelope, |d.before|);
    DocCutsPrintStripped(d, tools);
    StripUnique(d);
    KeptInOutput(d);
    if |s.cuts| == 0 {
      return tools, true;
    }
    var copy := s.ApplyCuts();
    if copy.Refused? || !jsonValid(copy.text) {
      return tools, false;
    }
    return copy.text, true;
  }

  /** What stripping prints depends on the text alone, and is JSON again. */
  lemma StripUnique(d: Doc)
    requires WellFormedDoc(d)
    ensures forall e | WellFormedDoc(e) && PrintDoc(e) == PrintDoc(d) :: PrintDoc(StripDoc(e)) == PrintDoc(StripDoc(d))
    ensures IsJson(PrintDoc(StripDoc(d)))
    ensures Cuts(d.value, Envelope, |d.before|) == [] ==> PrintDoc(StripDoc(d)) == PrintDoc(d)
  {
    forall e | WellFormedDoc(e) && PrintDoc(e) == PrintDoc(d)
      ensures PrintDoc(StripDoc(e)) == PrintDoc(StripDoc(d))
    {
      SameTextSameDoc(d, e);
    }
    StripIdempotent(d);
    DocCutsPrintStripped(d, PrintDoc(d));
  }

  /** A text has one document tree. */
  lemma SameTextSameDoc(d: Doc, e: Doc)
    requires WellFormedDoc(d) && WellFormedDoc(e) && PrintDoc(d) == PrintDoc(e)
    ensures d == e
  {
    hide IsBlank, At, SpaceEnd, Print, WellFormed;
    var s, i := PrintDoc(d), |d.before|;
    DocStands(s, d);
    DocStands(s, e);
    DocLayout(s, d);
    DocLayout(s, e);
    SameText(s, 0, d.before, e.before);
    ValueUnique(s, i, d.value, e.value);
    SameText(s, i + |Print(d.value)|, d.after, e.after);
  }

  lemma DocStands(s: string, d: Doc)
    requires WellFormedDoc(d) && s == PrintDoc(d)
    ensures SpaceEnd(s, 0) == |d.before| && Stands(s, |d.before|, d.value)
    ensures var ve := |d.before| + |Print(d.value)|; ve <= |s| && SpaceEnd(s, ve) == |s|
  {
    var i := |d.before|;
    var ve := i + |Print(d.value)|;
    DocLayout(s, d);
    ValueAt(s, i, d.value);
    SpaceEndIs(s, 0, d.before);
    SpaceEndIs(s, ve, d.after);
    if ve < |s| { AtFirst(s, ve, d.after); }
  }

  lemma AppendAssoc(a: seq<Cut>, b: seq<Cut>, c: seq<Cut>)
    ensures a + b + c == a + (b + c)
  {
  }

  lemma ArrayLayout(body: string, start: nat, v: Value, zone: Zone)
    requires v.Arr? && Stands(body, start, v) && ElemZone(zone) == zone
    ensures start < |body| && WellFormed(v) && WellFormedElems(v.elems)
    ensures var i := SpaceEnd(body, start + 1);
            At(body, i, ElemsText(v.elems)) && i + |ElemsText(v.elems)| == start + |Print(v)| &&
            Cuts(v, zone, start) == ElemCuts(v.elems, zone, i)
  {
    ArrLayout(body, start, v);
  }

  lemma LastElem(es: Elems, zone: Zone, i: nat)
    requires es.NoElems?
    ensures |ElemsText(es)| == 1 && ElemCuts(es, zone, i) == []
  {
  }

  /** One round of the array loop: where its scans stop and what is left for the next round. */
  lemma ElemStep(body: string, i: nat, es: Elems, zone: Zone)
    requires es.Elem? && WellFormedElems(es) && At(body, i, ElemsText(es))
    ensures Stands(body, i, es.value) && WellFormedElems(es.more)
    ensures var ve := i + |Print(es.value)|;
            ve <= |body| &&
            var j := SpaceEnd(body, ve);
            j < |body| && (body[j] != ',' ==> body[j] == ']') &&
            var next := if body[j] == ',' then SpaceEnd(body, j + 1) else j;
            i < next && At(body, next, ElemsText(es.more)) &&
            next + |ElemsText(es.more)| == i + |ElemsText(es)| &&
            ElemCuts(es, zone, i) == Cuts(es.value, zone, i) + ElemCuts(es.more, zone, next)
  {
    hide IsLiteral, IsStringToken, SpaceEnd, IsBlank;
    var ve := i + |Print(es.value)|;
    ElemLayout(body, i, es);
    ElemTailLayout(body, ve, es);
    if es.more.NoElems? {
      AtAppend(body, ve, es.after, "]");
      assert "]" + "" + "" == "]" && "" + "]" == "]";
    }
  }

  lemma ObjectLayout(body: string, start: nat, v: Value, zone: Zone)
    requires v.Obj? && Stands(body, start, v)
    ensures start < |body| && WellFormed(v) && WellFormedMembers(v.members)
    ensures var i := SpaceEnd(body, start + 1);
            At(body, i, MembersText(v.members)) && i + |MembersText(v.members)| == start + |Print(v)| &&
            Cuts(v, zone, start) == MemberCuts(v.members, zone, i, false, -1)
  {
    hide IsLiteral, IsStringToken, At;
    ObjLayout(body, start, v);
  }

  lemma LastMember(ms: Members, zone: Zone, i: nat, kept: bool, prev: int)
    requires ms.NoMembers?
    ensures |MembersText(ms)| == 1 && MemberCuts(ms, zone, i, kept, prev) == []
  {
  }

  /** The head of a member: its key token, the colon, and where the value starts. */
  lemma MemberHeadStep(body: string, i: nat, ms: Members) returns (keyEnd: nat, colon: nat, start: nat)
    requires ms.Member? && WellFormedMembers(ms) && At(body, i, MembersText(ms))
    ensures i < keyEnd <= colon < start <= |body| && start == i + |PrintHead(ms)|
    ensures body[i] == '"' && BodyEnd(body, i + 1) == EndsAt(keyEnd)
    ensures IsStringToken(ms.key) && body[i..keyEnd] == ms.key
    ensures SpaceEnd(body, keyEnd) == colon && body[colon] == ':' && SpaceEnd(body, colon + 1) == start
    ensures Stands(body, start, ms.value)
  {
    hide IsLiteral, SpaceEnd, IsBlank, At, IsStringToken, BodyEnd, MembersTail, WellFormed;
    keyEnd, start := i + |ms.key|, i + |PrintHead(ms)|;
    colon := keyEnd + |ms.beforeColon|;
    MemberLayout(body, i, ms);
    HeadLayout(body, i, ms);
    MemberTailLayout(body, start + |Print(ms.value)|, ms);
    TokenEnd(body, i, ms.key);
    AtSlice(body, i, ms.key);
  }

  /** The rest of the round: the separator behind the value and where the next member starts. */
  lemma MemberTailStep(body: string, i: nat, ms: Members, ve: nat) returns (sep: nat, next: nat)
    requires ms.Member? && WellFormedMembers(ms) && At(body, i, MembersText(ms))
    requires ve == i + |PrintHead(ms)| + |Print(ms.value)|
    ensures ve <= sep < |body| && SpaceEnd(body, ve) == sep && sep <= next <= |body| && i < next
    ensures WellFormedMembers(ms.more) && next == NextStart(TailOf(ms), ve)
    ensures if ms.more.NoMembers? then body[sep] == '}' && next == sep
            else body[sep] == ',' && next == SpaceEnd(body, sep + 1)
    ensures At(body, next, MembersText(ms.more)) && next + |MembersText(ms.more)| == i + |MembersText(ms)|
  {
    hide IsLiteral, SpaceEnd, IsBlank, IsStringToken;
    MemberLayout(body, i, ms);
    MemberTailLayout(body, ve, ms);
    sep, next := ve + |ms.after|, NextStart(TailOf(ms), ve);
    assert TailText(TailOf(ms)) == ms.after + MembersTail(ms);
    TailAt(body, ve, TailOf(ms));
  }

  /** One member's share of the ranges. */
  lemma MemberCutsStep(ms: Members, zone: Zone, p: nat, kept: bool, prev: int, start: nat, ve: nat, next: nat)
    requires ms.Member? && WellFormedMembers(ms) && start == p + |PrintHead(ms)| && ve == start + |Print(ms.value)|
    requires next == NextStart(TailOf(ms), ve)
    ensures IsStringToken(ms.key) && WellFormed(ms.value) && WellFormedMembers(ms.more)
    ensures MemberCuts(ms, zone, p, kept, prev) ==
            (if Drops(zone, KeyName(ms.key)) then
               [if kept then Cut(prev, ve) else Cut(p, next)] + MemberCuts(ms.more, zone, next, kept, ve)
             else
               Cuts(ms.value, ChildZone(zone, KeyName(ms.key)), start) + MemberCuts(ms.more, zone, next, true, ve))
  {
    hide IsLiteral, IsBlank, IsStringToken, KeyName;
  }

  lemma {:induction false} OpaqueHasNoCuts(v: Value, p: nat)
    requires WellFormed(v)
    ensures Cuts(v, Opaque, p) == [] && (!v.Obj? ==> Cuts(v, NameMap, p) == [])
    decreases v, 1
  {
    match v
    case Arr(lead, elems) => OpaqueElemsHaveNoCuts(elems, p + 1 + |lead|);
    case Obj(lead, members) => OpaqueMembersHaveNoCuts(members, p + 1 + |lead|, false, p);
    case _ =>
  }

  lemma {:induction false} OpaqueElemsHaveNoCuts(es: Elems, p: nat)
    requires WellFormedElems(es)
    ensures ElemCuts(es, Opaque, p) == []
    decreases es, 0
  {
    if es.Elem? {
      OpaqueHasNoCuts(es.value, p);
      OpaqueElemsHaveNoCuts(es.more, p + |Print(es.value)| + |es.after| + 1 + |es.gap|);
    }
  }

  lemma {:induction false} OpaqueMembersHaveNoCuts(ms: Members, p: nat, kept: bool, prev: int)
    requires WellFormedMembers(ms)
    ensures MemberCuts(ms, Opaque, p, kept, prev) == []
    decreases ms, 0
  {
    if ms.Member? {
      var ve := p + |PrintHead(ms)| + |Print(ms.value)|;
      OpaqueHasNoCuts(ms.value, p + |PrintHead(ms)|);
      OpaqueMembersHaveNoCuts(ms.more, NextStart(TailOf(ms), ve), true, ve);
    }
  }
}
