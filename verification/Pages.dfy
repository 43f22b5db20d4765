/** From a template text and a response text to a page: the two parsers and the evaluator
    together. */
module Pages {
  import opened Basics
  import opened Responses
  import opened ResponsePrinter
  import opened ResponseParser
  import opened ResponseRoundTrip
  import opened MarkerSearch
  import opened Markers
  import opened Templates
  import opened TemplateRoundTrip
  import opened Rendering
  import opened TemplateMeaning
  import opened Queries
  import Conditions
  import TemplateParser
  import TemplateEdges

  // --- Transport

  lemma FindNorm(es: seq<Element>, key: string)
    ensures Find(NormElements(es), key) == Find(es, key)
  {
    hide NormContent;
    assert forall j | 0 <= j < |es| :: NormElements(es)[j].key == es[j].key;
    FindIs(NormElements(es), key, Find(es, key));
  }

  lemma SearchNorm(w: Response, key: string)
    ensures Search(Norm(w), key) ==
            match Search(w, key)
            case None => None
            case Some(c) => Some(NormContent(c))
  {
    hide NormContent;
    FindNorm(w.elements, key);
  }

  lemma {:induction false} CheckNorm(c: Conditions.Chain, n: nat, w: Response)
    requires Conditions.WellShaped(c) && n < |c.tests|
    ensures Conditions.CheckFirst(c, n, Norm(w)) == Conditions.CheckFirst(c, n, w)
  {
    hide Norm;
    if !c.tests[n].Always? {
      SearchNorm(w, c.tests[n].variable);
    }
    if n > 0 {
      CheckNorm(c, n - 1, w);
    }
  }

  /** The bracket flags never reach the page. */
  lemma {:induction false} RenderNorm(v: Value, w: Response, r: Request)
    ensures Render(v, Norm(w), r) == Render(v, w, r)
    decreases v, 0, 0
  {
    hide Norm;
    match v
    case Html(_) =>
    case Access(n) => SearchNorm(w, n);
    case Query(_) =>
    case Section(m, body) =>
      match m
      case When(c) =>
        if Conditions.WellShaped(c) {
          CheckNorm(c, |c.tests| - 1, w);
        }
        RenderAllNorm(body, w, r);
      case Each(n) =>
        SearchNorm(w, n);
        var o := Search(w, n);
        if o.Some? && o.value.Objects? {
          RenderEachNorm(body, o.value.objects, r);
        }
      case _ => RenderAllNorm(body, w, r);
  }

  lemma {:induction false} RenderAllNorm(vs: seq<Value>, w: Response, r: Request)
    ensures RenderAll(vs, Norm(w), r) == RenderAll(vs, w, r)
    decreases vs, 0, 0
  {
    hide Norm, Render;
    if vs != [] {
      RenderNorm(vs[0], w, r);
      RenderAllNorm(vs[1..], w, r);
    }
  }

  lemma {:induction false} RenderEachNorm(body: seq<Value>, os: seq<Response>, r: Request)
    ensures RenderEach(body, NormAll(os), r) == RenderEach(body, os, r)
    decreases body, 1, |os|
  {
    hide Norm, RenderAll;
    if os != [] {
      assert NormAll(os)[1..] == NormAll(os[1..]);
      RenderAllNorm(body, os[0], r);
      RenderEachNorm(body, os[1..], r);
    }
  }

  /** Sending a response over the wire is invisible to rendering, for every template, code
      and query. */
  lemma TransportInvisible(w: Response, vs: seq<Value>, r: Request)
    requires Sendable(w)
    ensures FromData(Text(w, false)).Parsed?
    ensures RenderAll(vs, FromData(Text(w, false)).value, r) == RenderAll(vs, w, r)
  {
    hide FromData, Norm, ObjectText, RenderAll;
    ObjectBack(w, 0, false);
    RenderAllNorm(vs, w, r);
  }

  /** The response that comes back prints as the same text, compact or padded. */
  lemma {:induction false} NormPrints(w: Response, depth: nat, prespace: bool, pad: bool)
    ensures ObjectText(Norm(w), depth, prespace, pad) == ObjectText(w, depth, prespace, pad)
    decreases w, 0
  {
    hide FieldText, NormElement, Joined, Tabs;
    forall i | 0 <= i < |w.elements|
      ensures FieldText(NormElement(w.elements[i]), depth + 1, pad) == FieldText(w.elements[i], depth + 1, pad)
    {
      NormFieldPrints(w.elements[i], depth + 1, pad);
    }
    assert FieldTexts(Norm(w).elements, depth + 1, pad) == FieldTexts(w.elements, depth + 1, pad);
  }

  lemma {:induction false} NormFieldPrints(e: Element, depth: nat, pad: bool)
    ensures FieldText(NormElement(e), depth, pad) == FieldText(e, depth, pad)
    decreases e, 0
  {
    hide ItemTexts, NormContent, Joined, Tabs, Pad;
    var c := e.content;
    NormItemsPrint(c, depth + 1, true, pad);
    NormItemsPrint(c, depth, false, pad);
    assert ArrayText(NormContent(c), depth, pad) == ArrayText(c, depth, pad);
    assert ContainerText(NormContent(c), depth, e.forced || c.Size() > 1, pad)
        == ContainerText(c, depth, e.forced, pad);
  }

  lemma {:induction false} NormItemsPrint(c: Content, depth: nat, prespace: bool, pad: bool)
    ensures ItemTexts(NormContent(c), depth, prespace, pad) == ItemTexts(c, depth, prespace, pad)
    decreases c, 0
  {
    hide ObjectText, Norm;
    if c.Objects? {
      forall i | 0 <= i < |c.objects|
        ensures ObjectText(Norm(c.objects[i]), depth, prespace, pad) == ObjectText(c.objects[i], depth, prespace, pad)
      {
        NormPrints(c.objects[i], depth, prespace, pad);
      }
      assert ItemTexts(NormContent(c), depth, prespace, pad) == ItemTexts(c, depth, prespace, pad);
    }
  }

  /** Reading a printed response and printing it again gives the same text. */
  lemma PrintReadPrint(w: Response)
    requires Sendable(w)
    ensures FromData(Text(w, false)).Parsed?
    ensures Text(FromData(Text(w, false)).value, false) == Text(w, false)
  {
    hide FromData, Norm, ObjectText;
    ObjectBack(w, 0, false);
    NormPrints(w, 0, false, false);
  }

  // --- Composition

  lemma {:induction false} RenderAttach(vs: seq<Value>, ys: seq<Value>, data: Response, r: Request)
    ensures Attach(vs, Done(ys)).Done?
    ensures RenderAll(Attach(vs, Done(ys)).value, data, r) == Then(RenderAll(vs, data, r), RenderAll(ys, data, r))
  {
    hide Render, MergeFront, Then;
    if vs == [] {
      ThenNothing(RenderAll(ys, data, r));
    } else {
      RenderAttach(vs[1..], ys, data, r);
      RenderMerge(vs[0], Attach(vs[1..], Done(ys)).value, data, r);
      ThenAssociates(Render(vs[0], data, r), RenderAll(vs[1..], data, r), RenderAll(ys, data, r));
    }
  }

  /** Rendering is compositional: the text of a normal template followed by any text that
      parses, no marker straddling the join, renders as the one and then the other. */
  lemma RenderComposes(vs: seq<Value>, b: string, data: Response, r: Request)
    requires Normal(vs) && NoStraddle(vs, b) && TemplateParser.Parse(b).Done?
    ensures var joint := TemplateParser.Parse(Print(vs) + b);
      && joint.Done?
      && TemplateParser.Parse(Print(vs)) == Done(vs)
      && RenderAll(joint.value, data, r) ==
           Then(RenderAll(vs, data, r), RenderAll(TemplateParser.Parse(b).value, data, r))
  {
    hide TemplateParser.Parse, RenderAll, Attach, Print, Normal, NoStraddle;
    ParsePrefixed(vs, b);
    ParseBack(vs);
    RenderAttach(vs, TemplateParser.Parse(b).value, data, r);
  }

  lemma {:induction false} ShortMarkerFree(u: string)
    requires |u| < 6
    ensures MarkerFree(u)
  {
    if u != "" {
      ShortMarkerFree(u[1..]);
      assert u + "" == u;
      forall t | t in ALL
        ensures !(t <= u)
      {
        var m := MarkerOfText(t);
        MarkerShape(m);
      }
    }
  }

  /** Without the condition on the join composition fails: a marker put together from two
      harmless texts is a tag. */
  lemma StraddlingMatters(data: Response, r: Request)
    requires Search(data, "a") == None
    ensures var a, b := [Html("<HTMT")], "VAL:a>";
      && Normal(a) && !NoStraddle(a, b)
      && TemplateParser.Parse(b) == Done([Html(b)])
      && TemplateParser.Parse(Print(a) + b) == Done([Access("a")])
      && RenderAll([Access("a")], data, r) == Some("")
      && Then(RenderAll(a, data, r), RenderAll([Html(b)], data, r)) == Some("<HTMTVAL:a>")
  {
    hide TemplateParser.Parse;
    var a, b := [Html("<HTMT")], "VAL:a>";
    ShortMarkerFree("<HTMT");
    TemplateEdges.ParsePlain(b);
    assert Print(a) == "<HTMT" + "";
    assert Print([Access("a")]) == "<HTMTVAL" + ":" + "a" + ">" + "";
    assert Print(a) + b == Print([Access("a")]);
    assert Normal([Access("a")]);
    ParseBack([Access("a")]);
    assert VALUES[0] in VALUES && VALUES[0] <= "<HTMT" + b;
    assert !Quiet("<HTMT", b, VALUES);
    assert "<HTMT" + "" + (b + "") == "<HTMTVAL:a>";
    ThenNothing(Render(Access("a"), data, r));
  }

  // --- Pages

  /** forwardingWrapper::applyTranslation: a response that is no response is passed on, the empty
      one is rendered. */
  method ApplyTranslation(tran: seq<Value>, response: string, r: Request) returns (page: Option<string>)
    ensures response == "" ==> page == RenderAll(tran, Response([]), r)
    ensures response != "" && (response[0] != '{' || response[|response| - 1] != '}') ==> page == Some(response)
    ensures match FromData(response)
      case Parsed(w) => page == RenderAll(tran, w, r)
      case Rejected => page == Some(response)
      case Undefined => page == None
  {
    var resw := ReadData(response);
    match resw
    case Rejected => page := Some(response);
    case Undefined => page := None;
    case Parsed(w) =>
      var buffer := new Buffer();
      var ok := ApplyAll(tran, buffer, w, r);
      page := if ok then Some(buffer.text) else None;
      ThenNothing(RenderAll(tran, w, r));
  }

  /** A page served from the text of a normal template and the wire text of a sendable
      response is the template's meaning on the response. */
  method ServePage(source: string, ghost vs: seq<Value>, response: string, ghost w: Response, r: Request)
    returns (page: Option<string>)
    requires Normal(vs) && source == Print(vs)
    requires Sendable(w) && response == Text(w, false)
    ensures page == RenderAll(vs, w, r)
  {
    hide *;
    ParseBack(vs);
    TransportInvisible(w, vs, r);
    var tran := TemplateParser.ParseTemplate(source);
    page := ApplyTranslation(tran.value, response, r);
  }
}
