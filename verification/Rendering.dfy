/** Rendering a template with response data: the meaning of a template as a text, and the
    evaluator that appends it to a buffer. */
module Rendering {
  import opened Basics
  import opened Responses
  import opened Templates
  import opened Queries
  import Conditions

  /** Everything a template is rendered with. */
  datatype Request = Request(code: int, query: Elements)

  /** None when rendering stops at an assertion or a wrong variant access. */
  function Then(a: Option<string>, b: Option<string>): Option<string> {
    if a.Some? && b.Some? then Some(a.value + b.value) else None
  }

  /** translation::matches. */
  predicate Matches(m: Match, data: Response, code: int) {
    match m
    case OnCode(c) => code == c
    case When(c) => Conditions.WellShaped(c) ==> Conditions.Check(c, data)
    case _ => true
  }

  /** What a value tag shows: nothing when absent, else its one string. */
  function Shown(name: string, data: Response): Option<string> {
    match Search(data, name)
    case None => Some("")
    case Some(Objects(_)) => None
    case Some(Strings(ss)) => if |ss| == 1 then Some(ss[0]) else None
  }

  function ShownQuery(name: string, q: Elements): string {
    if HasElement(q, name, false) then q[name] else ""
  }

  function Render(v: Value, data: Response, r: Request): Option<string>
    decreases v, 0, 0
  {
    match v
    case Html(t) => Some(t)
    case Access(n) => Shown(n, data)
    case Query(n) => Some(ShownQuery(n, r.query))
    case Section(m, body) =>
      if !Matches(m, data, r.code) then Some("")
      else if m.Each? then
        match Search(data, m.name)
        case None => Some("")
        case Some(Strings(_)) => None
        case Some(Objects(os)) => RenderEach(body, os, r)
      else
        RenderAll(body, data, r)
  }

  function RenderAll(vs: seq<Value>, data: Response, r: Request): Option<string>
    decreases vs, 0, 0
  {
    if vs == [] then Some("") else Then(Render(vs[0], data, r), RenderAll(vs[1..], data, r))
  }

  /** The body once for every sub-object, in order, with only that sub-object in scope. */
  function RenderEach(body: seq<Value>, os: seq<Response>, r: Request): Option<string>
    decreases body, 1, |os|
  {
    if os == [] then Some("") else Then(RenderAll(body, os[0], r), RenderEach(body, os[1..], r))
  }

  // --- The evaluator

  lemma ThenAssociates(a: Option<string>, b: Option<string>, c: Option<string>)
    ensures Then(Then(a, b), c) == Then(a, Then(b, c))
  {
    if a.Some? && b.Some? && c.Some? {
      assert (a.value + b.value) + c.value == a.value + (b.value + c.value);
    }
  }

  lemma ThenNothing(a: Option<string>)
    ensures Then(a, Some("")) == a && Then(Some(""), a) == a
  {
    if a.Some? {
      assert a.value + "" == a.value && "" + a.value == a.value;
    }
  }

  /** What evaluating one piece or many promises: the old text stays in front, evaluation
      succeeds exactly when there is a meaning, and then it adds exactly the meaning. */
  predicate Appended(before: string, after: string, ok: bool, meaning: Option<string>) {
    && before <= after
    && (ok <==> meaning.Some?)
    && (ok ==> after == before + meaning.value)
  }

  /** translationValue::apply. */
  method ApplyValue(v: Value, source: Buffer, data: Response, r: Request) returns (ok: bool)
    modifies source
    ensures Appended(old(source.text), source.text, ok, Render(v, data, r))
    decreases v, 0, 0
  {
    match v
    case Access(n) =>
      var maybeValues := Search(data, n);
      if maybeValues.None? {
        ok := true;
      } else if maybeValues.value.Objects? || |maybeValues.value.strings| != 1 {
        ok := false;
      } else {
        source.Append(maybeValues.value.strings[0]);
        ok := true;
      }
      assert source.text + "" == source.text;
    case Html(t) =>
      source.Append(t);
      ok := true;
    case Query(n) =>
      if HasElement(r.query, n, false) {
        source.Append(r.query[n]);
      }
      assert source.text + "" == source.text;
      ok := true;
    case Section(m, body) =>
      assert source.text + "" == source.text;
      if !Matches(m, data, r.code) {
        ok := true;
      } else if m.Each? {
        var maybeSubField := Search(data, m.name);
        if maybeSubField.None? {
          return true;
        }
        if maybeSubField.value.Strings? {
          return false;
        }
        ok := ApplyEach(body, maybeSubField.value.objects, source, r);
      } else {
        ok := ApplyAll(body, source, data, r);
      }
  }

  /** The loop of translation::apply over the pieces. */
  method ApplyAll(values: seq<Value>, source: Buffer, data: Response, r: Request) returns (ok: bool)
    modifies source
    ensures Appended(old(source.text), source.text, ok, RenderAll(values, data, r))
    decreases values, 0, 0
  {
    ghost var before := source.text;
    ghost var done := "";
    assert before + done == before;
    ThenNothing(RenderAll(values, data, r));
    assert values[0..] == values;
    for i := 0 to |values|
      invariant source.text == before + done
      invariant RenderAll(values, data, r) == Then(Some(done), RenderAll(values[i..], data, r))
    {
      ghost var rest := values[i..];
      assert rest[1..] == values[i + 1..] && rest[0] == values[i];
      ThenAssociates(Some(done), Render(values[i], data, r), RenderAll(values[i + 1..], data, r));
      ok := ApplyValue(values[i], source, data, r);
      if !ok {
        return false;
      }
      ghost var piece := Render(values[i], data, r).value;
      assert before + done + piece == before + (done + piece);
      done := done + piece;
    }
    ThenNothing(Some(done));
    ok := true;
  }

  /** The loop of translation::apply over the sub-objects of an iteration section. */
  method ApplyEach(body: seq<Value>, objects: seq<Response>, source: Buffer, r: Request) returns (ok: bool)
    modifies source
    ensures Appended(old(source.text), source.text, ok, RenderEach(body, objects, r))
    decreases body, 1, 0
  {
    ghost var before := source.text;
    ghost var done := "";
    assert before + done == before;
    ThenNothing(RenderEach(body, objects, r));
    assert objects[0..] == objects;
    for i := 0 to |objects|
      invariant source.text == before + done
      invariant RenderEach(body, objects, r) == Then(Some(done), RenderEach(body, objects[i..], r))
    {
      ghost var rest := objects[i..];
      assert rest[1..] == objects[i + 1..] && rest[0] == objects[i];
      ThenAssociates(Some(done), RenderAll(body, objects[i], r), RenderEach(body, objects[i + 1..], r));
      ok := ApplyAll(body, source, objects[i], r);
      if !ok {
        return false;
      }
      ghost var piece := RenderAll(body, objects[i], r).value;
      assert before + done + piece == before + (done + piece);
      done := done + piece;
    }
    ThenNothing(Some(done));
    ok := true;
  }

  // --- What rendering means

  function Concat(texts: seq<string>): string {
    if texts == [] then "" else texts[0] + Concat(texts[1..])
  }

  /** An iteration section is its sub-objects' texts in order, each rendered with that
      sub-object alone. */
  lemma {:induction false} RenderEachIsConcat(body: seq<Value>, os: seq<Response>, r: Request, texts: seq<string>)
    requires |texts| == |os|
    requires forall i | 0 <= i < |os| :: RenderAll(body, os[i], r) == Some(texts[i])
    ensures RenderEach(body, os, r) == Some(Concat(texts))
  {
    hide RenderAll;
    if os != [] {
      RenderEachIsConcat(body, os[1..], r, texts[1..]);
    }
  }

  /** An iteration section fails exactly when its body fails for some sub-object. */
  lemma {:induction false} RenderEachFails(body: seq<Value>, os: seq<Response>, r: Request)
    ensures RenderEach(body, os, r).None? <==> exists o | o in os :: RenderAll(body, o, r).None?
  {
    hide RenderAll;
    if os != [] {
      RenderEachFails(body, os[1..], r);
      if RenderAll(body, os[0], r).None? {
        assert os[0] in os;
      } else if o :| o in os[1..] && RenderAll(body, o, r).None? {
        assert o in os;
      } else {
        forall o | o in os
          ensures RenderAll(body, o, r).Some?
        {
          assert o == os[0] || o in os[1..];
        }
      }
    }
  }

  /** Rendering a list of pieces is rendering its beginning and then the rest. */
  lemma {:induction false} RenderConcat(a: seq<Value>, b: seq<Value>, data: Response, r: Request)
    ensures RenderAll(a + b, data, r) == Then(RenderAll(a, data, r), RenderAll(b, data, r))
  {
    hide Render, Then;
    if a == [] {
      assert a + b == b;
      ThenNothing(RenderAll(b, data, r));
    } else {
      assert (a + b)[1..] == a[1..] + b;
      RenderConcat(a[1..], b, data, r);
      ThenAssociates(Render(a[0], data, r), RenderAll(a[1..], data, r), RenderAll(b, data, r));
    }
  }

  // --- Alternatives

  /** The section on K=v followed by the section on K!v, with the same body. */
  function Alternatives(v: string, k: string, body: seq<Value>): seq<Value> {
    [Section(When(Conditions.Parse(v + ['='] + k)), body), Section(When(Conditions.Parse(v + ['!'] + k)), body)]
  }

  /** The two render as the body once, here. */
  predicate OnceRendered(v: string, k: string, body: seq<Value>, data: Response, r: Request) {
    RenderAll(Alternatives(v, k, body), data, r) == RenderAll(body, data, r)
  }

  lemma RenderWhen(c: Conditions.Chain, body: seq<Value>, data: Response, r: Request)
    requires Conditions.WellShaped(c)
    ensures RenderAll([Section(When(c), body)], data, r) ==
            if Conditions.Check(c, data) then RenderAll(body, data, r) else Some("")
  {
    hide Conditions.Check;
    var s := Section(When(c), body);
    ThenNothing(Render(s, data, r));
    assert Matches(s.match_, data, r.code) == Conditions.Check(c, data);
  }

  lemma AlternativesRender(v: string, k: string, body: seq<Value>, data: Response, r: Request)
    ensures var yes, no := Conditions.Parse(v + ['='] + k), Conditions.Parse(v + ['!'] + k);
      var b := RenderAll(body, data, r);
      RenderAll(Alternatives(v, k, body), data, r) ==
      Then(if Conditions.Check(yes, data) then b else Some(""), if Conditions.Check(no, data) then b else Some(""))
  {
    hide Conditions.Parse, Conditions.Check;
    var vs := Alternatives(v, k, body);
    assert vs == [vs[0]] + [vs[1]];
    RenderConcat([vs[0]], [vs[1]], data, r);
    RenderWhen(Conditions.Parse(v + ['='] + k), body, data, r);
    RenderWhen(Conditions.Parse(v + ['!'] + k), body, data, r);
  }

  /** For operands without joining characters: of a section on K=v and one on K!v exactly one
      is rendered, whatever the body, data, code and query, if and only if neither text has an
      operator in front of its own or a further '='. */
  lemma AlternativesExactly(v: string, k: string)
    requires Conditions.Undivided(v) && Conditions.Undivided(k)
    ensures (forall body: seq<Value>, data: Response, r: Request :: OnceRendered(v, k, body, data, r)) <==>
            '=' !in v && '!' !in v && '=' !in k
  {
    hide Conditions.Parse, Conditions.Check, RenderAll, Alternatives, OnceRendered;
    Conditions.Complementary(v, k);
    if forall data: Response :: Conditions.Opposite(v, k, data) {
      forall body: seq<Value>, data: Response, r: Request
        ensures OnceRendered(v, k, body, data, r)
      {
        assert Conditions.Opposite(v, k, data);
        OppositeOnce(v, k, body, data, r);
      }
    } else {
      var data: Response :| !Conditions.Opposite(v, k, data);
      NotOnce(v, k, data, Request(200, map[]));
    }
  }

  lemma OppositeOnce(v: string, k: string, body: seq<Value>, data: Response, r: Request)
    requires Conditions.Opposite(v, k, data)
    ensures OnceRendered(v, k, body, data, r)
  {
    hide Conditions.Parse, Conditions.Check, RenderAll, Alternatives;
    AlternativesRender(v, k, body, data, r);
    ThenNothing(RenderAll(body, data, r));
  }

  lemma NotOnce(v: string, k: string, data: Response, r: Request)
    requires !Conditions.Opposite(v, k, data)
    ensures !OnceRendered(v, k, [Html("x")], data, r)
  {
    hide Conditions.Parse, Conditions.Check, Alternatives;
    AlternativesRender(v, k, [Html("x")], data, r);
    ThenNothing(Some("x"));
    assert RenderAll([Html("x")], data, r) == Some("x");
    assert "x" + "x" != "x" && "" != "x";
  }
}
