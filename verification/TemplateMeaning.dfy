/** What a page text means, tag by tag: every law is about the text in front of any other
    text, and together they determine what is rendered. */
module TemplateMeaning {
  import opened Basics
  import opened MarkerSearch
  import opened Markers
  import opened Responses
  import opened Templates
  import opened TemplateParser
  import opened TemplateRoundTrip
  import opened Rendering
  import opened Queries
  import Conditions
  import Decimal

  /** A page text parsed and rendered; None when either fails. */
  function Page(s: string, data: Response, r: Request): Option<string> {
    var vs := Parse(s);
    if vs.Done? then RenderAll(vs.value, data, r) else None
  }

  lemma PageOfNothing(data: Response, r: Request)
    ensures Page("", data, r) == Some("")
  {
    ParseOfNothing();
  }

  lemma RenderMerge(v: Value, ys: seq<Value>, data: Response, r: Request)
    ensures RenderAll(MergeFront(v, ys), data, r) == Then(Render(v, data, r), RenderAll(ys, data, r))
  {
    if v.Html? && ys != [] && ys[0].Html? {
      var merged := [Html(v.text + ys[0].text)] + ys[1..];
      assert merged[1..] == ys[1..];
      ThenAssociates(Some(v.text), Some(ys[0].text), RenderAll(ys[1..], data, r));
    } else {
      assert ([v] + ys)[1..] == ys;
    }
  }

  /** A piece that is added in front adds its meaning in front. */
  lemma PageJoined(u: string, v: Value, x: string, data: Response, r: Request)
    ensures Parse(u + x) == JoinFront(v, Parse(x)) ==>
              Page(u + x, data, r) == Then(Render(v, data, r), Page(x, data, r))
  {
    hide Parse, RenderAll, Render, MergeFront;
    if Parse(x).Done? {
      RenderMerge(v, Parse(x).value, data, r);
    }
  }

  /** Text that begins no marker is shown as it is. */
  lemma HtmlMeans(t: string, x: string, data: Response, r: Request)
    requires Quiet(t, x, OPENS) && Quiet(t, x, VALUES)
    ensures Page(t + x, data, r) == Then(Some(t), Page(x, data, r))
  {
    hide Parse, Quiet, RenderAll;
    if t == "" {
      assert t + x == x;
      ThenNothing(Page(x, data, r));
    } else {
      ParseOverHtml(t, x);
      PageJoined(t, Html(t), x, data, r);
    }
  }

  /** A value tag shows the one string under its name, nothing when there is no entry, and
      fails on objects and on several strings. */
  lemma ValueMeans(n: string, x: string, data: Response, r: Request)
    requires PlainName(n)
    ensures var o := Search(data, n);
      Page("<HTMTVAL:" + n + ">" + x, data, r) ==
      Then(if o.None? then Some("")
           else if o.value.Strings? && |o.value.strings| == 1 then Some(o.value.strings[0])
           else None,
           Page(x, data, r))
  {
    hide Parse, RenderAll, Search, Page;
    ParseOverTag(0, n, x);
    assert TagText(TagMarker(0), n) == "<HTMTVAL:" + n + ">";
    PageJoined("<HTMTVAL:" + n + ">", Access(n), x, data, r);
  }

  /** A query tag shows the element of the page's own query, or nothing. */
  lemma QueryMeans(n: string, x: string, data: Response, r: Request)
    requires PlainName(n)
    ensures Page("<HTMTQUERY:" + n + ">" + x, data, r) ==
            Then(Some(if n in r.query then r.query[n] else ""), Page(x, data, r))
  {
    hide Parse, RenderAll, Page;
    ParseOverTag(1, n, x);
    assert TagText(TagMarker(1), n) == "<HTMTQUERY:" + n + ">";
    PageJoined("<HTMTQUERY:" + n + ">", Query(n), x, data, r);
  }

  // --- Sections

  lemma WrappedMeans(k: Kind, contents: string, b: string, x: string, data: Response, r: Request)
    requires PlainName(contents) && Encloses(k, b, x) && Parse(b).Done? && MatchOf(k, contents).Done?
    ensures Page(Wrapped(k, contents, b) + x, data, r) ==
            Then(Render(Section(MatchOf(k, contents).value, Parse(b).value), data, r), Page(x, data, r))
  {
    hide Parse, RenderAll, Render, Page, Wrapped, Encloses, MatchOf, JoinFront;
    ParseOverWrapped(k, contents, b, x);
    PageJoined(Wrapped(k, contents, b), Section(MatchOf(k, contents).value, Parse(b).value), x, data, r);
  }

  /** A section without a name shows its body. */
  lemma PlainSectionMeans(b: string, x: string, data: Response, r: Request)
    requires Encloses(Iteration, b, x) && Parse(b).Done?
    ensures Page("<HTMT:>" + b + "</HTMT>" + x, data, r) == Then(Page(b, data, r), Page(x, data, r))
  {
    hide Parse, RenderAll, Encloses, OpenText, CloseText;
    assert Wrapped(Iteration, "", b) == "<HTMT:>" + b + "</HTMT>" by {
      WrappedIteration("", b);
      assert "<HTMT:" + "" + ">" == "<HTMT:>";
    }
    WrappedMeans(Iteration, "", b, x, data, r);
  }

  lemma WrappedIteration(n: string, b: string)
    ensures Wrapped(Iteration, n, b) == "<HTMT:" + n + ">" + b + "</HTMT>"
  {
  }

  lemma WrappedCode(n: string, b: string)
    ensures Wrapped(Code, n, b) == "<HTMTCODE:" + n + ">" + b + "</HTMTCODE>"
  {
  }

  lemma WrappedCondition(n: string, b: string)
    ensures Wrapped(Condition, n, b) == "<HTMTCOND:" + n + ">" + b + "</HTMTCOND>"
  {
  }

  /** A code section shows its body exactly at its code. */
  lemma CodeMeans(c: int, b: string, x: string, data: Response, r: Request)
    requires -0x8000_0000 <= c <= 0x7FFF_FFFF
    requires Encloses(Code, b, x) && Parse(b).Done?
    ensures Page("<HTMTCODE:" + Decimal.ToTextSigned(c) + ">" + b + "</HTMTCODE>" + x, data, r) ==
            Then(if r.code == c then Page(b, data, r) else Some(""), Page(x, data, r))
  {
    hide Parse, RenderAll, Encloses, Wrapped, Decimal.ToTextSigned, Decimal.Stol;
    var n := Decimal.ToTextSigned(c);
    WrappedCode(n, b);
    CodePlain(c);
    Decimal.StolToText(c, "");
    assert n + "" == n;
    WrappedMeans(Code, n, b, x, data, r);
  }

  lemma CodePlain(c: int)
    ensures PlainName(Decimal.ToTextSigned(c))
  {
    var n: nat := if c < 0 then 0 - c else c;
    assert forall d | d in Decimal.ToText(n) :: Decimal.IsDigit(d);
  }

  /** A conditional section shows its body exactly when its condition holds. */
  lemma ConditionMeans(c: string, b: string, x: string, data: Response, r: Request)
    requires PlainName(c) && Encloses(Condition, b, x) && Parse(b).Done?
    ensures Page("<HTMTCOND:" + c + ">" + b + "</HTMTCOND>" + x, data, r) ==
            Then(if Conditions.Check(Conditions.Parse(c), data) then Page(b, data, r) else Some(""), Page(x, data, r))
  {
    hide Parse, RenderAll, Encloses, Wrapped, Conditions.Parse, Conditions.Check;
    WrappedCondition(c, b);
    WrappedMeans(Condition, c, b, x, data, r);
  }

  /** The section on K=v shows its body exactly when the response has the one string v under K. */
  lemma EqualMeans(v: string, k: string, b: string, x: string, data: Response, r: Request)
    requires Conditions.Undivided(v) && Conditions.Undivided(k) && '=' !in v
    requires PlainName(v) && PlainName(k) && Encloses(Condition, b, x) && Parse(b).Done?
    ensures Page("<HTMTCOND:" + (v + ['='] + k) + ">" + b + "</HTMTCOND>" + x, data, r) ==
            Then(if Search(data, v) == Some(Strings([k])) then Page(b, data, r) else Some(""), Page(x, data, r))
  {
    hide Page, Parse, Encloses, Conditions.Parse, Conditions.Check, Search;
    Conditions.EqualHolds(v, k, data);
    ConditionMeans(v + ['='] + k, b, x, data, r);
  }

  /** The section on K!v shows it exactly when the response has not. */
  lemma NotEqualMeans(v: string, k: string, b: string, x: string, data: Response, r: Request)
    requires Conditions.Undivided(v) && Conditions.Undivided(k) && '=' !in v && '!' !in v && '=' !in k
    requires PlainName(v) && PlainName(k) && Encloses(Condition, b, x) && Parse(b).Done?
    ensures Page("<HTMTCOND:" + (v + ['!'] + k) + ">" + b + "</HTMTCOND>" + x, data, r) ==
            Then(if Search(data, v) == Some(Strings([k])) then Some("") else Page(b, data, r), Page(x, data, r))
  {
    hide Page, Parse, Encloses, Conditions.Parse, Conditions.Check, Search;
    Conditions.NotEqualHolds(v, k, data);
    ConditionMeans(v + ['!'] + k, b, x, data, r);
  }

  /** The body once for every object, with that object's entries alone. */
  function EachPage(b: string, os: seq<Response>, r: Request): Option<string> {
    if os == [] then Some("") else Then(Page(b, os[0], r), EachPage(b, os[1..], r))
  }

  lemma {:induction false} EachPageOf(b: string, os: seq<Response>, r: Request)
    requires Parse(b).Done?
    ensures EachPage(b, os, r) == RenderEach(Parse(b).value, os, r)
  {
    hide Parse, RenderAll;
    if os != [] {
      EachPageOf(b, os[1..], r);
    }
  }

  /** A named section shows its body for every object under the name in order, nothing without
      an entry, and fails on strings. */
  lemma EachMeans(n: string, b: string, x: string, data: Response, r: Request)
    requires n != "" && PlainName(n) && Encloses(Iteration, b, x) && Parse(b).Done?
    ensures var o := Search(data, n);
      Page("<HTMT:" + n + ">" + b + "</HTMT>" + x, data, r) ==
      Then(if o.None? then Some("") else if o.value.Objects? then EachPage(b, o.value.objects, r) else None,
           Page(x, data, r))
  {
    hide Parse, RenderAll, RenderEach, Encloses, Wrapped, Search, Page, EachPage;
    WrappedIteration(n, b);
    WrappedMeans(Iteration, n, b, x, data, r);
    var o := Search(data, n);
    if o.Some? && o.value.Objects? {
      EachPageOf(b, o.value.objects, r);
    }
  }
}
