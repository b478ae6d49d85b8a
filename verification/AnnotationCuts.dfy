/**
 The byte ranges that stripping a printed tree deletes, and the proof that copying
 everything outside them prints the stripped tree.
 */
module AnnotationCuts {
  import opened JsonText
  import opened ConcreteJson
  import opened SchemaStrip

  /** A half-open range to delete. */
  datatype Cut = Cut(start: int, end: int)

  datatype Copy = Refused | Copied(text: string)

  /** The text of `from..to` without the ranges; refused unless they ascend inside `from..to`. */
  function Apply(b: string, cuts: seq<Cut>, from: nat, to: nat): Copy
    decreases |cuts|
  {
    if cuts == [] then (if from <= to <= |b| then Copied(b[from..to]) else Refused)
    else if from <= cuts[0].start <= cuts[0].end <= |b| then
      var rest := Apply(b, cuts[1..], cuts[0].end, to);
      if rest.Copied? then Copied(b[from..cuts[0].start] + rest.text) else Refused
    else Refused
  }

  lemma {:induction false} ApplyBounds(b: string, c: seq<Cut>, from: nat, to: nat)
    requires Apply(b, c, from, to).Copied?
    ensures from <= to <= |b|
    decreases |c|
  {
    if c != [] { ApplyBounds(b, c[1..], c[0].end, to); }
  }

  lemma ApplyExtend(b: string, d: seq<Cut>, from: nat, mid: nat, to: nat, u: string)
    requires from <= mid && Apply(b, d, mid, to) == Copied(u)
    ensures mid <= |b| && Apply(b, d, from, to) == Copied(b[from..mid] + u)
  {
    ApplyBounds(b, d, mid, to);
    if d == [] {
      assert b[from..to] == b[from..mid] + b[mid..to];
    } else {
      assert b[from..d[0].start] == b[from..mid] + b[mid..d[0].start];
    }
  }

  lemma ApplyFirst(b: string, c: seq<Cut>, from: nat, to: nat, t: string)
    requires c != [] && Apply(b, c, from, to) == Copied(t)
    ensures from <= c[0].start <= c[0].end <= |b| && Apply(b, c[1..], c[0].end, to).Copied?
    ensures t == b[from..c[0].start] + Apply(b, c[1..], c[0].end, to).text
  {
  }

  lemma ApplyCons(b: string, cut: Cut, c: seq<Cut>, from: nat, to: nat, t: string)
    requires from <= cut.start <= cut.end <= |b| && Apply(b, c, cut.end, to) == Copied(t)
    ensures Apply(b, [cut] + c, from, to) == Copied(b[from..cut.start] + t)
  {
    assert ([cut] + c)[1..] == c;
  }

  lemma FirstOfBoth(c: seq<Cut>, d: seq<Cut>)
    requires c != []
    ensures c + d == [c[0]] + (c[1..] + d)
  {
  }

  lemma Regroup(s: string, t: string, u: string)
    ensures s + t + u == s + (t + u)
  {
  }

  /** Ranges of adjacent stretches of text apply one after the other. */
  lemma {:induction false} ApplyAppend(b: string, c: seq<Cut>, d: seq<Cut>, from: nat, mid: nat, to: nat, t: string,
                                       u: string)
    requires Apply(b, c, from, mid) == Copied(t) && Apply(b, d, mid, to) == Copied(u)
    ensures Apply(b, c + d, from, to) == Copied(t + u)
    decreases |c|
  {
    if c == [] {
      assert c + d == d;
      ApplyExtend(b, d, from, mid, to, u);
    } else {
      hide Apply;
      ApplyFirst(b, c, from, mid, t);
      var cut, t' := c[0], Apply(b, c[1..], c[0].end, mid).text;
      ApplyAppend(b, c[1..], d, cut.end, mid, to, t', u);
      ApplyCons(b, cut, c[1..] + d, from, to, t' + u);
      FirstOfBoth(c, d);
      Regroup(b[from..cut.start], t', u);
    }
  }

  /** Text that no range touches is copied. */
  lemma ApplyPrefix(b: string, t: string, from: nat, mid: nat, c: seq<Cut>, to: nat, u: string)
    requires At(b, from, t) && mid == from + |t| && Apply(b, c, mid, to) == Copied(u)
    ensures Apply(b, c, from, to) == Copied(t + u)
  {
    AtSlice(b, from, t);
    ApplyAppend(b, [], c, from, mid, to, t, u);
    assert [] + c == c;
  }

  lemma ApplyNone(b: string, t: string, from: nat, to: nat)
    requires At(b, from, t) && to == from + |t|
    ensures Apply(b, [], from, to) == Copied(t)
  {
    AtSlice(b, from, t);
  }

  lemma ApplyCut(b: string, from: nat, mid: nat, c: seq<Cut>, to: nat, u: string)
    requires from <= mid && Apply(b, c, mid, to) == Copied(u)
    ensures Apply(b, [Cut(from, mid)] + c, from, to) == Copied(u)
  {
    ApplyBounds(b, c, mid, to);
    assert ([Cut(from, mid)] + c)[1..] == c;
  }

  /* ---- The ranges of a tree printed at position p ---- */

  function Cuts(v: Value, zone: Zone, p: nat): seq<Cut>
    requires WellFormed(v)
    decreases v, 1
  {
    match v
    case Arr(lead, elems) => ElemCuts(elems, ElemZone(zone), p + 1 + |lead|)
    case Obj(lead, members) => MemberCuts(members, zone, p + 1 + |lead|, false, p)
    case _ => []
  }

  function ElemCuts(es: Elems, zone: Zone, p: nat): seq<Cut>
    requires WellFormedElems(es)
    decreases es, 0
  {
    match es
    case NoElems => []
    case Elem(value, after, gap, more) =>
      Cuts(value, zone, p) + ElemCuts(more, zone, p + |Print(value)| + |after| + 1 + |gap|)
  }

  /** `kept` says that a member before this one survives; `prev` is where its value, or that of the
      member dropped last, ends. */
  function MemberCuts(ms: Members, zone: Zone, p: nat, kept: bool, prev: int): seq<Cut>
    requires WellFormedMembers(ms)
    decreases ms, 0
  {
    if ms.NoMembers? then []
    else
      var name := KeyName(ms.key);
      var start := p + |PrintHead(ms)|;
      var end := start + |Print(ms.value)|;
      var next := end + |ms.after| + (if ms.more.NoMembers? then 0 else 1 + |ms.gap|);
      if Drops(zone, name) then
        [if kept then Cut(prev, end) else Cut(p, next)] + MemberCuts(ms.more, zone, next, kept, end)
      else
        Cuts(ms.value, ChildZone(zone, name), start) + MemberCuts(ms.more, zone, next, true, end)
  }

  /** How the text goes on behind a member's value. */
  function TailText(t: Tail): string {
    t.after + (if t.more.NoMembers? then "}" + "" + "" else "," + t.gap + MembersText(t.more))
  }

  /** Where the next member starts, or the closing bracket stands, behind a value that ends at `ve`. */
  function NextStart(t: Tail, ve: nat): nat {
    ve + |t.after| + (if t.more.NoMembers? then 0 else 1 + |t.gap|)
  }

  lemma TailAt(b: string, ve: nat, t: Tail)
    requires WellFormedTail(t) && At(b, ve, TailText(t))
    ensures At(b, NextStart(t, ve), MembersText(t.more))
    ensures NextStart(t, ve) + |MembersText(t.more)| == ve + |TailText(t)|
  {
    hide IsStringToken, KeyName, IsLiteral, IsBlank, At, Apply;
    if t.more.NoMembers? {
      AtAppend(b, ve, t.after, "}" + "" + "");
      assert "}" + "" + "" == MembersText(t.more);
    } else {
      AtAppend(b, ve, t.after, "," + t.gap + MembersText(t.more));
      AtAppend(b, ve + |t.after|, "," + t.gap, MembersText(t.more));
    }
  }

  lemma {:induction false} CutsPrintStripped(b: string, v: Value, zone: Zone, p: nat, end: nat)
    requires WellFormed(v) && At(b, p, Print(v)) && end == p + |Print(v)|
    ensures Apply(b, Cuts(v, zone, p), p, end) == Copied(Print(Strip(v, zone)))
    decreases v, 1
  {
    hide IsStringToken, KeyName, IsLiteral, IsBlank, At, Apply;
    match v
    case Arr(lead, elems) =>
      var z, i := ElemZone(zone), p + 1 + |lead|;
      Assoc("[" + lead, PrintElems(elems), "]");
      AtAppend(b, p, "[" + lead, ElemsText(elems));
      ElemCutsPrintStripped(b, elems, z, i, end);
      ApplyPrefix(b, "[" + lead, p, i, ElemCuts(elems, z, i), end, ElemsText(StripElems(elems, z)));
      Assoc("[" + lead, PrintElems(StripElems(elems, z)), "]");
    case Obj(lead, members) =>
      var i := p + 1 + |lead|;
      Assoc("{" + lead, PrintMembers(members), "}");
      AtAppend(b, p, "{" + lead, MembersText(members));
      FrontCutsPrintStripped(b, members, zone, i, end, p);
      ApplyPrefix(b, "{" + lead, p, i, MemberCuts(members, zone, i, false, p), end,
                  MembersText(StripFront(members, zone)));
      Assoc("{" + lead, PrintMembers(StripFront(members, zone)), "}");
    case _ =>
      ApplyNone(b, Print(v), p, end);
  }

  lemma {:induction false} ElemCutsPrintStripped(b: string, es: Elems, zone: Zone, p: nat, end: nat)
    requires WellFormedElems(es) && At(b, p, ElemsText(es)) && end == p + |ElemsText(es)|
    ensures Apply(b, ElemCuts(es, zone, p), p, end) == Copied(ElemsText(StripElems(es, zone)))
    decreases es, 1
  {
    hide IsStringToken, KeyName, IsLiteral, IsBlank, At, Apply;
    if es.NoElems? {
      ApplyNone(b, ElemsText(es), p, end);
    } else {
      var ve := p + |Print(es.value)|;
      var next := ve + |es.after| + 1 + |es.gap|;
      var es' := StripElems(es, zone);
      ElemLayout(b, p, es);
      CutsPrintStripped(b, es.value, zone, p, ve);
      ElemTailCuts(b, es, zone, ve, next, end);
      ApplyAppend(b, Cuts(es.value, zone, p), ElemCuts(es.more, zone, next), p, ve, end,
                  Print(es'.value), es'.after + ElemsTail(es'));
      ElemsTextSplit(es', ElemsTail(es'));
    }
  }

  lemma {:induction false} ElemTailCuts(b: string, es: Elems, zone: Zone, ve: nat, next: nat, end: nat)
    requires es.Elem? && WellFormedElems(es) && At(b, ve, es.after + ElemsTail(es))
    requires next == ve + |es.after| + 1 + |es.gap| && end == ve + |es.after| + |ElemsTail(es)|
    ensures Apply(b, ElemCuts(es.more, zone, next), ve, end) == Copied(es.after + ElemsTail(StripElems(es, zone)))
    decreases es, 0
  {
    hide IsStringToken, KeyName, IsLiteral, IsBlank, At, Apply;
    if es.more.NoElems? {
      ApplyNone(b, es.after + ElemsTail(es), ve, end);
    } else {
      var c, u := ElemCuts(es.more, zone, next), ElemsText(StripElems(es.more, zone));
      AtAppend(b, ve, es.after, "," + es.gap + ElemsText(es.more));
      AtAppend(b, ve + |es.after|, "," + es.gap, ElemsText(es.more));
      ElemCutsPrintStripped(b, es.more, zone, next, end);
      ApplyPrefix(b, "," + es.gap, ve + |es.after|, next, c, end, u);
      ApplyPrefix(b, es.after, ve, ve + |es.after|, c, end, "," + es.gap + u);
    }
  }

  lemma {:induction false} FrontCutsPrintStripped(b: string, ms: Members, zone: Zone, p: nat, end: nat, prev: int)
    requires WellFormedMembers(ms) && At(b, p, MembersText(ms)) && end == p + |MembersText(ms)|
    ensures Apply(b, MemberCuts(ms, zone, p, false, prev), p, end) == Copied(MembersText(StripFront(ms, zone)))
    decreases ms, 2
  {
    hide IsStringToken, KeyName, IsLiteral, IsBlank, At, Apply, Print, Strip, Cuts;
    if ms.NoMembers? {
      ApplyNone(b, MembersText(ms), p, end);
    } else if Drops(zone, KeyName(ms.key)) {
      var ve := p + |PrintHead(ms)| + |Print(ms.value)|;
      var next := NextStart(TailOf(ms), ve);
      MemberLayout(b, p, ms);
      TailAt(b, ve, TailOf(ms));
      FrontCutsPrintStripped(b, ms.more, zone, next, end, ve);
      ApplyCut(b, p, next, MemberCuts(ms.more, zone, next, false, ve), end, MembersText(StripFront(ms.more, zone)));
    } else {
      KeptMemberPrintsStripped(b, ms, zone, p, end, false, prev);
    }
  }

  lemma {:induction false} KeptMemberPrintsStripped(b: string, m: Members, zone: Zone, p: nat, end: nat, kept: bool,
                                                    prev: int)
    requires m.Member? && WellFormedMembers(m) && !Drops(zone, KeyName(m.key)) && At(b, p, MembersText(m))
    requires end == p + |MembersText(m)|
    ensures Apply(b, MemberCuts(m, zone, p, kept, prev), p, end) == Copied(MembersText(StripKept(m, zone)))
    decreases m, 1
  {
    hide IsStringToken, KeyName, IsLiteral, IsBlank, At, Apply, Print, Strip, Cuts;
    var a := p + |PrintHead(m)|;
    var ve := a + |Print(m.value)|;
    var child, t := ChildZone(zone, KeyName(m.key)), StripTail(TailOf(m), zone);
    var c, d := Cuts(m.value, child, a), MemberCuts(m.more, zone, NextStart(TailOf(m), ve), true, ve);
    var v' := Print(Strip(m.value, child));
    MemberLayout(b, p, m);
    CutsPrintStripped(b, m.value, child, a, ve);
    TailCutsPrintStripped(b, TailOf(m), zone, ve, end);
    ApplyAppend(b, c, d, a, ve, end, v', TailText(t));
    ApplyPrefix(b, PrintHead(m), p, a, c + d, end, v' + TailText(t));
    var m' := StripKept(m, zone);
    MembersTextSplit(m', MembersTail(m'));
  }

  lemma {:induction false} TailCutsPrintStripped(b: string, t: Tail, zone: Zone, prev: nat, end: nat)
    requires WellFormedTail(t) && At(b, prev, TailText(t)) && end == prev + |TailText(t)|
    ensures Apply(b, MemberCuts(t.more, zone, NextStart(t, prev), true, prev), prev, end) ==
            Copied(TailText(StripTail(t, zone)))
    decreases t.more, 2
  {
    hide IsStringToken, KeyName, IsLiteral, IsBlank, At, Apply, Print, Strip, Cuts;
    var p := NextStart(t, prev);
    TailAt(b, prev, t);
    if t.more.NoMembers? {
      ApplyNone(b, TailText(t), prev, end);
    } else if Drops(zone, KeyName(t.more.key)) {
      var d := TailOf(t.more);
      var ve := p + |PrintHead(t.more)| + |Print(t.more.value)|;
      MemberLayout(b, p, t.more);
      TailCutsPrintStripped(b, d, zone, ve, end);
      ApplyCut(b, prev, ve, MemberCuts(d.more, zone, NextStart(d, ve), true, ve), end, TailText(StripTail(d, zone)));
    } else {
      var c, u := MemberCuts(t.more, zone, p, true, prev), MembersText(StripKept(t.more, zone));
      KeptMemberPrintsStripped(b, t.more, zone, p, end, true, prev);
      AtAppend(b, prev, t.after, "," + t.gap + MembersText(t.more));
      AtAppend(b, prev + |t.after|, "," + t.gap, MembersText(t.more));
      ApplyPrefix(b, "," + t.gap, prev + |t.after|, p, c, end, u);
      ApplyPrefix(b, t.after, prev, prev + |t.after|, c, end, "," + t.gap + u);
    }
  }

  lemma DocLayout(s: string, d: Doc)
    requires WellFormedDoc(d) && s == PrintDoc(d)
    ensures At(s, 0, d.before) && At(s, |d.before|, Print(d.value))
    ensures At(s, |d.before| + |Print(d.value)|, d.after)
    ensures |s| == |d.before| + |Print(d.value)| + |d.after|
  {
    AtSlice(s, 0, s);
    AtAppend(s, 0, d.before + Print(d.value), d.after);
    AtAppend(s, 0, d.before, Print(d.value));
  }

  /** Deleting the ranges of a document's tree prints the stripped document. */
  lemma DocCutsPrintStripped(d: Doc, s: string)
    requires WellFormedDoc(d) && s == PrintDoc(d)
    ensures Apply(s, Cuts(d.value, Envelope, |d.before|), 0, |s|) == Copied(PrintDoc(StripDoc(d)))
  {
    hide Print, WellFormed, Cuts, Strip, IsBlank, At;
    var i := |d.before|;
    var c, ve, u := Cuts(d.value, Envelope, i), i + |Print(d.value)|, Print(Strip(d.value, Envelope));
    DocLayout(s, d);
    CutsPrintStripped(s, d.value, Envelope, i, ve);
    ApplyNone(s, d.after, ve, |s|);
    ApplyAppend(s, c, [], i, ve, |s|, u, d.after);
    assert c + [] == c;
    ApplyPrefix(s, d.before, 0, i, c, |s|, u + d.after);
    Assoc(d.before, u, d.after);
  }
}
