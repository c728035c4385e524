/** A codec with the facts the attempt protocol relies on exists: documents as comma-separated numbers closed by a brace
    that occurs nowhere else, and the identity as digest. */
module CodecWitness {
  import opened AttemptFiles
  import opened Decimal
  import opened Delimited
  import opened Options

  // ----- Documents as numbers, each part announcing its length -----

  function Chars(s: string): seq<nat> { seq(|s|, i requires 0 <= i < |s| => s[i] as nat) }

  function OfText(s: string): seq<nat> { [|s|] + Chars(s) }

  function OfOption(o: Option<string>): seq<nat> { if o.None? then [0] else [1] + OfText(o.value) }

  function OfPayload(p: Payload): seq<nat> { OfText(p.path) + [p.bytes] + OfText(p.sha256) }

  function OfPayloads(ps: seq<Payload>): seq<nat> {
    if ps == [] then [0] else [1] + OfPayload(ps[0]) + OfPayloads(ps[1..])
  }

  function OfPlan(p: Plan): seq<nat> {
    OfText(p.cellId) + OfText(p.mode) + OfText(p.implementation) + OfText(p.candidate) + OfText(p.binary)
    + OfOption(p.expectedHead)
  }

  function OfDoc(d: Doc): seq<nat> {
    match d
    case PlanDoc(plan) => [0] + OfPlan(plan)
    case ManifestDoc(cell, freeze, payloads) => [1] + OfText(cell) + OfText(freeze) + OfPayloads(payloads)
    case CompleteDoc(status, cell, manifest) => [2] + OfText(status) + OfText(cell) + OfText(manifest)
    case OtherDoc(kind) => [3] + OfText(kind)
  }

  lemma {:induction false} TextPrefix(s: string, u: seq<nat>, t: string, v: seq<nat>)
    requires OfText(s) + u == OfText(t) + v
    ensures s == t && u == v
  {
    var a, b := OfText(s) + u, OfText(t) + v;
    assert a[0] == |s| && b[0] == |t|;
    forall i | 0 <= i < |s|
      ensures s[i] == t[i]
    {
      assert a[i + 1] == s[i] as nat && b[i + 1] == t[i] as nat;
    }
    assert a[|s| + 1..] == u && b[|t| + 1..] == v;
  }

  lemma {:induction false} PayloadPrefix(p: Payload, u: seq<nat>, q: Payload, v: seq<nat>)
    requires OfPayload(p) + u == OfPayload(q) + v
    ensures p == q && u == v
  {
    hide OfText;
    var x, y := [p.bytes] + (OfText(p.sha256) + u), [q.bytes] + (OfText(q.sha256) + v);
    assert OfPayload(p) + u == OfText(p.path) + x && OfPayload(q) + v == OfText(q.path) + y;
    TextPrefix(p.path, x, q.path, y);
    assert x[0] == p.bytes && y[0] == q.bytes && x[1..] == OfText(p.sha256) + u && y[1..] == OfText(q.sha256) + v;
    TextPrefix(p.sha256, u, q.sha256, v);
  }

  lemma {:induction false} PayloadsInjective(ps: seq<Payload>, qs: seq<Payload>)
    requires OfPayloads(ps) == OfPayloads(qs)
    ensures ps == qs
    decreases |ps|
  {
    hide OfPayload;
    assert OfPayloads(ps)[0] == OfPayloads(qs)[0];
    if ps != [] && qs != [] {
      var u, v := OfPayloads(ps[1..]), OfPayloads(qs[1..]);
      assert OfPayloads(ps)[1..] == OfPayload(ps[0]) + u && OfPayloads(qs)[1..] == OfPayload(qs[0]) + v;
      PayloadPrefix(ps[0], u, qs[0], v);
      PayloadsInjective(ps[1..], qs[1..]);
      assert ps == [ps[0]] + ps[1..] && qs == [qs[0]] + qs[1..];
    }
  }

  lemma {:induction false} TextsInjective(s: string, u: seq<nat>, t: string, v: seq<nat>, n: nat)
    requires [n] + OfText(s) + u == [n] + OfText(t) + v
    ensures s == t && u == v
  {
    hide OfText;
    var a, b := [n] + OfText(s) + u, [n] + OfText(t) + v;
    assert a[1..] == OfText(s) + u && b[1..] == OfText(t) + v;
    TextPrefix(s, u, t, v);
  }

  lemma {:induction false} OptionInjective(o: Option<string>, q: Option<string>)
    requires OfOption(o) == OfOption(q)
    ensures o == q
  {
    hide OfText;
    assert OfOption(o)[0] == OfOption(q)[0];
    if o.Some? && q.Some? {
      assert [1] + OfText(o.value) + [] == [1] + OfText(q.value) + [];
      TextsInjective(o.value, [], q.value, [], 1);
    }
  }

  lemma {:induction false} PlanInjective(p: Plan, q: Plan)
    requires OfPlan(p) == OfPlan(q)
    ensures p == q
  {
    hide OfText, OfOption;
    var p5, q5 := OfText(p.binary) + OfOption(p.expectedHead), OfText(q.binary) + OfOption(q.expectedHead);
    var p4, q4 := OfText(p.candidate) + p5, OfText(q.candidate) + q5;
    var p3, q3 := OfText(p.implementation) + p4, OfText(q.implementation) + q4;
    var p2, q2 := OfText(p.mode) + p3, OfText(q.mode) + q3;
    assert OfPlan(p) == OfText(p.cellId) + p2 && OfPlan(q) == OfText(q.cellId) + q2;
    TextPrefix(p.cellId, p2, q.cellId, q2);
    TextPrefix(p.mode, p3, q.mode, q3);
    TextPrefix(p.implementation, p4, q.implementation, q4);
    TextPrefix(p.candidate, p5, q.candidate, q5);
    TextPrefix(p.binary, OfOption(p.expectedHead), q.binary, OfOption(q.expectedHead));
    OptionInjective(p.expectedHead, q.expectedHead);
  }

  lemma {:induction false} DocInjective(d: Doc, e: Doc)
    requires OfDoc(d) == OfDoc(e)
    ensures d == e
  {
    hide OfText, OfPlan, OfPayloads;
    var a, b := OfDoc(d), OfDoc(e);
    assert a[0] == b[0] && a[1..] == b[1..];
    if d.PlanDoc? && e.PlanDoc? {
      PlanInjective(d.plan, e.plan);
    } else if d.ManifestDoc? && e.ManifestDoc? {
      var u, v := OfText(d.freeze) + OfPayloads(d.payloads), OfText(e.freeze) + OfPayloads(e.payloads);
      assert a[1..] == OfText(d.cellId) + u && b[1..] == OfText(e.cellId) + v;
      TextPrefix(d.cellId, u, e.cellId, v);
      TextPrefix(d.freeze, OfPayloads(d.payloads), e.freeze, OfPayloads(e.payloads));
      PayloadsInjective(d.payloads, e.payloads);
    } else if d.CompleteDoc? && e.CompleteDoc? {
      var y, z := OfText(d.manifestSha256) + [], OfText(e.manifestSha256) + [];
      var u, v := OfText(d.cellId) + y, OfText(e.cellId) + z;
      assert a[1..] == OfText(d.status) + u && b[1..] == OfText(e.status) + v;
      TextPrefix(d.status, u, e.status, v);
      TextPrefix(d.cellId, y, e.cellId, z);
      TextPrefix(d.manifestSha256, [], e.manifestSha256, []);
    } else if d.OtherDoc? && e.OtherDoc? {
      assert a[1..] == OfText(d.kind) + [] && b[1..] == OfText(e.kind) + [];
      TextPrefix(d.kind, [], e.kind, []);
    }
  }

  // ----- Numbers as text -----

  function Numerals(ns: seq<nat>): seq<string> { seq(|ns|, i requires 0 <= i < |ns| => Digits(ns[i])) }

  /** The document up to its last character, which is the only closing brace. */
  function Body(d: Doc): string { Join(",", Numerals(OfDoc(d))) + "}" }

  function Render(d: Doc): string { Body(d) + "\n" }

  lemma {:induction false} JoinChars(sep: string, pieces: seq<string>, c: char)
    requires c !in sep && forall i :: 0 <= i < |pieces| ==> c !in pieces[i]
    ensures c !in Join(sep, pieces)
  {
    if |pieces| > 1 {
      JoinChars(sep, pieces[..|pieces| - 1], c);
    }
  }

  lemma {:induction false} BodyShape(d: Doc)
    ensures Body(d) != "" && Body(d)[|Body(d)| - 1] == '}'
    ensures forall i :: 0 <= i < |Body(d)| - 1 ==> Body(d)[i] != '}'
    ensures '\n' !in Body(d)
    ensures Split(',', Body(d)[..|Body(d)| - 1]) == Numerals(OfDoc(d))
  {
    hide Digits, Join, OfText, OfPlan, OfPayloads, Split;
    var pieces := Numerals(OfDoc(d));
    assert OfDoc(d) != [];
    forall i | 0 <= i < |pieces|
      ensures ',' !in pieces[i] && '}' !in pieces[i] && '\n' !in pieces[i]
    {
      DigitsRoundTrip(OfDoc(d)[i]);
    }
    JoinChars(",", pieces, '}');
    JoinChars(",", pieces, '\n');
    SplitJoin(',', pieces);
    assert [','] == ",";
    assert Body(d)[..|Body(d)| - 1] == Join(",", pieces);
  }

  lemma {:induction false} BodyInjective(d: Doc, e: Doc)
    requires Body(d) == Body(e)
    ensures d == e
  {
    hide Digits, Body, OfDoc, ParseNat;
    BodyShape(d);
    BodyShape(e);
    var a, b := OfDoc(d), OfDoc(e);
    assert |a| == |Numerals(a)| == |b|;
    forall i | 0 <= i < |a|
      ensures a[i] == b[i]
    {
      assert Numerals(a)[i] == Digits(a[i]) && Numerals(b)[i] == Digits(b[i]);
      DigitsRoundTrip(a[i]);
      DigitsRoundTrip(b[i]);
    }
    DocInjective(d, e);
  }

  /** A text of one document is never the beginning of another's. */
  lemma {:induction false} BodyIsNoPrefix(d: Doc, e: Doc, i: nat)
    requires i <= |Body(d)| && (Body(d)[..i] == Body(e) || Body(d)[..i] == Render(e))
    ensures i == |Body(d)| && d == e
  {
    hide Body;
    BodyShape(d);
    BodyShape(e);
    var k := |Body(e)| - 1;
    assert Body(d)[k] == '}' by {
      assert Body(d)[..i][k] == Body(e)[k];
    }
    assert k == |Body(d)| - 1;
    assert Body(d)[..|Body(d)|] == Body(d);
    BodyInjective(d, e);
  }

  // ----- The codec -----

  ghost predicate IsTextOf(t: string, d: Doc) { t == Body(d) || t == Render(d) }

  ghost function Parse(t: string): Option<Doc> {
    if exists d :: IsTextOf(t, d) then var d :| IsTextOf(t, d); Some(d) else None
  }

  lemma {:induction false} ParseOf(d: Doc)
    ensures Parse(Body(d)) == Some(d) && Parse(Render(d)) == Some(d)
    ensures forall i :: 0 <= i < |Body(d)| ==> Parse(Body(d)[..i]).None?
  {
    hide Body, Render;
    RenderShape(d);
    forall e | IsTextOf(Body(d), e) || IsTextOf(Render(d), e)
      ensures e == d
    {
      SameText(d, e);
    }
    assert IsTextOf(Body(d), d) && IsTextOf(Render(d), d);
    forall i | 0 <= i < |Body(d)|
      ensures Parse(Body(d)[..i]).None?
    {
      forall e
        ensures !IsTextOf(Body(d)[..i], e)
      {
        if IsTextOf(Body(d)[..i], e) {
          BodyIsNoPrefix(d, e, i);
        }
      }
    }
  }

  lemma {:induction false} RenderShape(d: Doc)
    ensures Render(d) == Body(d) + ['\n']
  {
  }

  lemma {:induction false} SameText(d: Doc, e: Doc)
    requires IsTextOf(Body(d), e) || IsTextOf(Render(d), e)
    ensures d == e
  {
    hide Body;
    BodyShape(d);
    BodyShape(e);
    assert Render(d)[|Render(d)| - 1] == '\n' && Render(e)[|Render(e)| - 1] == '\n';
    assert Body(d) != Render(e) && Render(d) != Body(e);
    assert Render(d)[..|Body(d)|] == Body(d) && Render(e)[..|Body(e)|] == Body(e);
    BodyInjective(d, e);
  }

  lemma FaithfulCodecExists()
    ensures exists k: Codec :: Faithful(k)
  {
    hide Body;
    var k := Codec(t => Parse(t), d => Render(d), s => s);
    forall d: Doc
      ensures ObjectText(k, d)
    {
      ParseOf(d);
      BodyShape(d);
      RenderShape(d);
      var text := Render(d);
      assert text[..|text| - 1] == Body(d);
      assert forall i :: 0 <= i < |Body(d)| ==> text[..i] == Body(d)[..i];
    }
    assert Faithful(k);
  }
}
