/** Printing and parsing templates: the parser gives every normal template back from its
    text, and more: a normal template's text in front of any other text only adds the
    template's pieces in front of whatever the rest parses to. */
module TemplateRoundTrip {
  import opened Basics
  import opened MarkerSearch
  import opened Markers
  import opened Templates
  import opened TagMatching
  import opened TemplateScan
  import opened TemplateParser
  import Conditions
  import Decimal

  // --- Putting pieces in front

  /** One piece in front of others; HTML in front of HTML becomes one piece. */
  function MergeFront(v: Value, ys: seq<Value>): seq<Value> {
    if v.Html? && ys != [] && ys[0].Html? then [Html(v.text + ys[0].text)] + ys[1..] else [v] + ys
  }

  function JoinFront(v: Value, r: Outcome<seq<Value>>): Outcome<seq<Value>> {
    match r
    case Failed(e) => Failed(e)
    case Done(ys) => Done(MergeFront(v, ys))
  }

  function Attach(vs: seq<Value>, r: Outcome<seq<Value>>): Outcome<seq<Value>> {
    if vs == [] then r else JoinFront(vs[0], Attach(vs[1..], r))
  }

  lemma JoinFrontPushed(v: Value, a: seq<Value>, o: Outcome<seq<Value>>)
    requires a != []
    ensures JoinFront(v, Pushed(a, o)) == Pushed(MergeFront(v, a), o)
  {
    if o.Done? {
      var ys := o.value;
      assert (a + ys)[0] == a[0] && (a + ys)[1..] == a[1..] + ys;
      assert [v] + (a + ys) == ([v] + a) + ys;
      if v.Html? && a[0].Html? {
        assert [Html(v.text + a[0].text)] + (a[1..] + ys) == ([Html(v.text + a[0].text)] + a[1..]) + ys;
      }
    }
  }

  lemma MergeFrontThen(v: Value, before: seq<Value>, last: Value)
    requires !last.Html?
    ensures MergeFront(v, before + [last]) == MergeFront(v, before) + [last]
  {
    if before == [] {
      assert before + [last] == [last];
    } else {
      assert (before + [last])[0] == before[0] && (before + [last])[1..] == before[1..] + [last];
    }
  }

  // --- One piece in front of any text

  /** `u` in front of any beginning of `x` adds the piece `v` to what parseSubHTML makes. */
  ghost predicate Leads(u: string, v: Value, x: string) {
    forall p | 0 <= p <= |x| :: SubHtml(u + x[..p]) == JoinFront(v, SubHtml(x[..p]))
  }

  /** If a text holds no section tag and adds a piece in front of HTML, it adds the piece in
      front of whole templates. */
  lemma ParseOver(u: string, v: Value, x: string)
    requires Quiet(u, x, OPENS) && Leads(u, v, x)
    ensures Parse(u + x) == JoinFront(v, Parse(x))
  {
    hide NextMarker, SubHtml, Quiet, Parse, SectionHead, JoinFront, MergeFront;
    NextMarkerOver(u, x, OPENS);
    ParseStep(x);
    ParseStep(u + x);
    var o := NextMarker(x, OPENS);
    if o.None? {
      assert x[..|x|] == x;
    } else {
      var hit := o.value;
      SectionOver(u, v, x, hit);
      var head := SectionHead(x, hit);
      if head.Done? {
        assert (u + x)[|u| + head.value.1..] == x[head.value.1..];
        JoinFrontPushed(v, head.value.0, Parse(x[head.value.1..]));
      } else {
        JoinFrontFailed(v, head.fault);
      }
    }
  }

  lemma JoinFrontFailed(v: Value, e: Fault)
    ensures JoinFront(v, Failed(e)) == Failed(e)
  {
  }

  lemma SectionOver(u: string, v: Value, x: string, hit: Hit)
    requires Leads(u, v, x)
    requires hit.pos <= |x| && hit.which < |OPENS| && OPENS[hit.which] <= x[hit.pos..]
    ensures (u + x)[|u| + hit.pos..] == x[hit.pos..]
    ensures var o := SectionHead(u + x, Hit(|u| + hit.pos, hit.which));
      match SectionHead(x, hit)
      case Failed(e) => o == Failed(e)
      case Done(h) => h.0 != [] && o == Done((MergeFront(v, h.0), |u| + h.1))
  {
    hide SubHtml, Parse, Locate, MatchOf, MergeFront;
    assert (u + x)[|u| + hit.pos..] == x[hit.pos..];
    assert (u + x)[..|u| + hit.pos] == u + x[..hit.pos];
    var before := SubHtml(x[..hit.pos]);
    assert SubHtml(u + x[..hit.pos]) == JoinFront(v, before);
    var head := SectionHead(x, hit);
    if head.Done? {
      var all := head.value.0;
      MergeFrontThen(v, before.value, all[|all| - 1]);
    }
  }

  // HTML

  lemma SubHtmlOfAll(x: string)
    requires x != "" && NextMarker(x, VALUES).None?
    ensures SubHtml(x) == Done([Html(x)])
  {
    hide NextMarker;
    SubHtmlStepOf(x);
    SubHtmlOfNothing();
    assert x[|x|..] == "" && [Html(x)] + [] == [Html(x)];
  }

  lemma SubHtmlOverHtml(t: string, x: string)
    requires t != "" && Quiet(t, x, VALUES)
    ensures SubHtml(t + x) == JoinFront(Html(t), SubHtml(x))
  {
    hide NextMarker, TagAt, SubHtml, Quiet, MergeFront;
    NextMarkerOver(t, x, VALUES);
    var o := NextMarker(x, VALUES);
    if o.None? {
      SubHtmlOfAll(t + x);
      if x == "" {
        SubHtmlOfNothing();
        assert t + x == t;
        MergeNothing(t);
      } else {
        SubHtmlOfAll(x);
        MergeHtml(t, x, []);
      }
    } else {
      var p := o.value.pos;
      assert (t + x)[|t| + p..] == x[p..];
      assert (t + x)[..|t| + p] == t + x[..p];
      SubHtmlStepOf(x);
      SubHtmlStepOf(t + x);
      var head := SubHead(x);
      if head.Failed? {
        JoinFrontFailed(Html(t), head.fault);
      } else {
        var next, tag := head.value.1, head.value.0[|head.value.0| - 1];
        assert (t + x)[|t| + next..] == x[next..];
        JoinFrontPushed(Html(t), head.value.0, SubHtml(x[next..]));
        MergePiece(t, x[..p], tag);
      }
    }
  }

  lemma MergeNothing(t: string)
    ensures MergeFront(Html(t), []) == [Html(t)]
  {
  }

  lemma MergeHtml(t: string, x: string, rest: seq<Value>)
    ensures MergeFront(Html(t), [Html(x)] + rest) == [Html(t + x)] + rest
    ensures [Html(x)] + [] == [Html(x)] && [Html(t + x)] + [] == [Html(t + x)]
  {
  }

  lemma MergePiece(t: string, x: string, tag: Value)
    requires t != "" && !tag.Html?
    ensures MergeFront(Html(t), HtmlPiece(x) + [tag]) == HtmlPiece(t + x) + [tag]
  {
    if x == "" {
      assert t + x == t && HtmlPiece(x) + [tag] == [tag];
    } else {
      MergeHtml(t, x, [tag]);
    }
  }

  /** HTML in front of any text no marker of which it begins. */
  lemma ParseOverHtml(t: string, x: string)
    requires t != "" && Quiet(t, x, OPENS) && Quiet(t, x, VALUES)
    ensures Parse(t + x) == JoinFront(Html(t), Parse(x))
  {
    hide Quiet, SubHtml, Parse;
    forall p | 0 <= p <= |x|
      ensures SubHtml(t + x[..p]) == JoinFront(Html(t), SubHtml(x[..p]))
    {
      assert x == x[..p] + x[p..];
      QuietPrefix(t, x[..p], x[p..], VALUES);
      SubHtmlOverHtml(t, x[..p]);
    }
    ParseOver(t, Html(t), x);
  }

  // Value and query tags

  function TagValue(which: nat, name: string): Value {
    if which == 0 then Access(name) else Query(name)
  }

  function TagMarker(which: nat): Marker {
    if which == 0 then ValueTag else QueryTag
  }

  lemma TagMarkerText(which: nat)
    requires which < |VALUES|
    ensures VALUES[which] == TagMarker(which).Text()
  {
  }

  lemma TagFirst(which: nat, u: string)
    requires which < |VALUES|
    ensures NextMarker(TagMarker(which).Text() + u, VALUES) == Some(Hit(0, which))
  {
    hide Marker.Text;
    var s := TagMarker(which).Text() + u;
    TagMarkerText(which);
    assert s[..|TagMarker(which).Text()|] == TagMarker(which).Text();
    MarkerAtFirst(s, VALUES, which);
    if which == 1 {
      TagMarkerText(0);
      PrefixFree(ValueTag, QueryTag, u);
    }
  }

  /** A tag with any character between its marker and its name. */
  function Tagged(which: nat, c: char, name: string): string {
    TagMarker(which).Text() + ([c] + (name + ['>']))
  }

  lemma TagRead(which: nat, c: char, name: string, x: string)
    requires which < |VALUES| && '>' !in name
    ensures var s := Tagged(which, c, name) + x;
      && VALUES[which] <= s
      && TagAt(s, which) == Done((TagValue(which, name), |Tagged(which, c, name)|))
  {
    hide Marker.Text, IndexOf;
    TagMarkerText(which);
    var m := TagMarker(which).Text();
    var s := Tagged(which, c, name) + x;
    assert s[..|m|] == m;
    assert s[|m| + 1..] == name + ['>'] + x;
    IndexOfConcat(name, '>', x);
    assert s[|m| + 1..|m| + 1 + |name|] == name;
  }

  lemma SubHtmlOverTag(which: nat, c: char, name: string, x: string)
    requires which < |VALUES| && '>' !in name
    ensures SubHtml(Tagged(which, c, name) + x) == JoinFront(TagValue(which, name), SubHtml(x))
  {
    hide NextMarker, TagAt, SubHtml, Marker.Text;
    var text := Tagged(which, c, name);
    var s := text + x;
    assert s == TagMarker(which).Text() + ([c] + (name + ['>']) + x);
    TagFirst(which, [c] + (name + ['>']) + x);
    TagRead(which, c, name, x);
    assert s[0..] == s && s[..0] == "" && s[|text|..] == x;
    SubHtmlStepOf(s);
    assert SubHead(s) == Done((HtmlPiece("") + [TagValue(which, name)], |text|));
    assert HtmlPiece("") + [TagValue(which, name)] == [TagValue(which, name)];
  }

  /** A value or query tag in front of any text; the character before the name is not looked at. */
  lemma ParseOverTagged(which: nat, c: char, name: string, x: string)
    requires which < |VALUES| && PlainName(name) && c != '<'
    ensures Parse(Tagged(which, c, name) + x) == JoinFront(TagValue(which, name), Parse(x))
  {
    hide Quiet, SubHtml, Parse, Marker.Text;
    var text := Tagged(which, c, name);
    forall p | 0 <= p <= |x|
      ensures SubHtml(text + x[..p]) == JoinFront(TagValue(which, name), SubHtml(x[..p]))
    {
      SubHtmlOverTag(which, c, name, x[..p]);
    }
    OpensAreMarkers();
    TagNotOpen(which);
    HeadQuiet(TagMarker(which), [c] + (name + ['>']), x, OPENS);
    ParseOver(text, TagValue(which, name), x);
  }

  /** A value or query tag as it is printed. */
  lemma ParseOverTag(which: nat, name: string, x: string)
    requires which < |VALUES| && PlainName(name)
    ensures Parse(TagText(TagMarker(which), name) + x) == JoinFront(TagValue(which, name), Parse(x))
  {
    hide Parse, Marker.Text;
    assert TagText(TagMarker(which), name) == Tagged(which, ':', name);
    ParseOverTagged(which, ':', name, x);
  }

  lemma OpensAreMarkers()
    ensures AreMarkers(OPENS) && AreMarkers(VALUES)
  {
  }

  lemma TagNotOpen(which: nat)
    ensures TagMarker(which).Text() !in OPENS
  {
    hide Marker.Text;
    forall k: Kind
      ensures TagMarker(which).Text() != Open(k).Text()
    {
      MarkerTextsDiffer(TagMarker(which), Open(k));
    }
  }

  // Sections

  function KindIndex(k: Kind): (i: nat)
    ensures i < |OPENS| && KINDS[i] == k && OPENS[i] == OpenText(k)
  {
    match k case Iteration => 0 case Code => 1 case Condition => 2
  }

  lemma SectionFirst(k: Kind, u: string)
    ensures NextMarker(OpenText(k) + u, OPENS) == Some(Hit(0, KindIndex(k)))
  {
    hide Marker.Text;
    var s := OpenText(k) + u;
    assert s[..|OpenText(k)|] == OpenText(k);
    MarkerAtFirst(s, OPENS, KindIndex(k));
    forall i | 0 <= i < KindIndex(k)
      ensures !(OPENS[i] <= s)
    {
      PrefixFree(Open(KINDS[i]), Open(k), u);
      assert OPENS[i] == Open(KINDS[i]).Text();
    }
  }

  lemma MatchOfContents(m: Match)
    requires NormalMatch(m)
    ensures MatchOf(KindOf(m), Contents(m)) == Done(m)
  {
    match m
    case Always =>
    case Each(n) =>
    case OnCode(c) =>
      Decimal.StolToText(c, "");
      assert Decimal.ToTextSigned(c) + "" == Decimal.ToTextSigned(c);
    case When(c) =>
      Conditions.ChainRoundTrip(c);
  }

  /** The text of a section with any contents in its opening tag and any body. */
  function Wrapped(k: Kind, contents: string, b: string): string {
    OpenText(k) + contents + ">" + b + CloseText(k)
  }

  lemma WrappedText(k: Kind, contents: string, b: string, x: string)
    ensures Wrapped(k, contents, b) + x == OpenText(k) + ((contents + ">") + (b + (CloseText(k) + x)))
    ensures |Wrapped(k, contents, b)| == |OpenText(k)| + |contents| + 1 + |b| + |CloseText(k)|
  {
    hide OpenText, CloseText;
  }

  lemma SectionWrapped(m: Match, body: seq<Value>)
    ensures PrintValue(Section(m, body)) == Wrapped(KindOf(m), Contents(m), Print(body))
  {
    hide OpenText, CloseText, Contents, Print, KindOf;
  }

  /** A search inside the body, at any depth, passes over it to the closing tag behind it. */
  ghost predicate Encloses(k: Kind, b: string, x: string) {
    forall depth: nat ::
      TagScan(b + (CloseText(k) + x), OpenText(k), CloseText(k), depth) ==
      Shift(|b|, TagScan(CloseText(k) + x, OpenText(k), CloseText(k), depth))
  }

  lemma NormalEnclosed(k: Kind, body: seq<Value>, x: string)
    requires Normal(body)
    ensures Encloses(k, Print(body), x)
  {
    hide TagScan, OpenText, CloseText, Print, Normal;
    KindTexts(k);
    forall depth: nat
      ensures TagScan(Print(body) + (CloseText(k) + x), OpenText(k), CloseText(k), depth) ==
              Shift(|Print(body)|, TagScan(CloseText(k) + x, OpenText(k), CloseText(k), depth))
    {
      ScanBody(body, CloseText(k) + x, k, depth);
    }
  }

  /** A body in which no tag of its section's kind begins. */
  lemma QuietEnclosed(k: Kind, b: string, x: string)
    requires Quiet(b, CloseText(k) + x, [OpenText(k), CloseText(k)])
    ensures Encloses(k, b, x)
  {
    hide TagScan, OpenText, CloseText, Quiet;
    KindTexts(k);
    forall depth: nat
      ensures TagScan(b + (CloseText(k) + x), OpenText(k), CloseText(k), depth) ==
              Shift(|b|, TagScan(CloseText(k) + x, OpenText(k), CloseText(k), depth))
    {
      TagScanOver(b, CloseText(k) + x, OpenText(k), CloseText(k), depth);
    }
  }

  lemma WrappedMatched(k: Kind, contents: string, b: string, x: string)
    requires '<' !in contents && Encloses(k, b, x)
    ensures TagScan(Wrapped(k, contents, b) + x, OpenText(k), CloseText(k), -1) == Some(|Wrapped(k, contents, b)|)
  {
    hide TagScan, OpenText, CloseText, Wrapped;
    KindTexts(k);
    WrappedText(k, contents, b, x);
    ScanEnter(k, contents, b + (CloseText(k) + x), -1);
    OpenNotClose(k, x);
    TagScanEnd(x, OpenText(k), CloseText(k));
  }

  /** The cursors of the parser at a section. */
  lemma WrappedLocated(k: Kind, contents: string, b: string, x: string)
    requires PlainName(contents) && Encloses(k, b, x)
    ensures var s := Wrapped(k, contents, b) + x;
      && OpenText(k) <= s
      && Locate(s, k) == Some(Frame(|OpenText(k)| + |contents|, |Wrapped(k, contents, b)|))
      && s[|OpenText(k)|..|OpenText(k)| + |contents|] == contents
      && BodyOf(s, k, Locate(s, k).value) == b
      && s[|Wrapped(k, contents, b)|..] == x
  {
    hide TagScan, OpenText, CloseText, Wrapped, IndexOf;
    var s := Wrapped(k, contents, b) + x;
    var inner := b + (CloseText(k) + x);
    WrappedText(k, contents, b, x);
    WrappedMatched(k, contents, b, x);
    KindTexts(k);
    var open := |OpenText(k)|;
    assert s[..open] == OpenText(k);
    assert s[open..] == contents + ['>'] + inner;
    IndexOfConcat(contents, '>', inner);
    assert s[open..open + |contents|] == contents;
    assert s[open + |contents| + 1..] == inner;
    assert s[open + |contents| + 1..open + |contents| + 1 + |b|] == b;
  }

  /** A section in front of any text, whatever its contents and its body: the body's fault
      comes first, then that of the contents, and then the section is added in front. */
  lemma ParseOverWrapped(k: Kind, contents: string, b: string, x: string)
    requires PlainName(contents) && Encloses(k, b, x)
    ensures var body, m := Parse(b), MatchOf(k, contents);
      Parse(Wrapped(k, contents, b) + x) ==
      if body.Failed? then Failed(body.fault)
      else if m.Failed? then Failed(m.fault)
      else JoinFront(Section(m.value, body.value), Parse(x))
  {
    hide NextMarker, Locate, BodyOf, MatchOf, SubHtml, Parse, OpenText, CloseText, Wrapped, Encloses, JoinFront;
    var text := Wrapped(k, contents, b);
    var s := text + x;
    WrappedText(k, contents, b, x);
    SectionFirst(k, (contents + ">") + (b + (CloseText(k) + x)));
    WrappedLocated(k, contents, b, x);
    ParseStep(s);
    assert s[0..] == s && s[..0] == "";
    SubHtmlOfNothing();
    var body, m := Parse(b), MatchOf(k, contents);
    if body.Done? && m.Done? {
      var section := Section(m.value, body.value);
      assert SectionHead(s, Hit(0, KindIndex(k))) == Done(([] + [section], 0 + |text|));
      assert [] + [section] == [section];
      JoinSection(m.value, body.value, Parse(x));
    }
  }

  /** The search from a section's opening tag stops just past its own closing tag. */
  lemma SectionMatched(m: Match, body: seq<Value>, x: string)
    requires NormalMatch(m) && Normal(body)
    ensures TagScan(PrintValue(Section(m, body)) + x, OpenText(KindOf(m)), CloseText(KindOf(m)), -1)
         == Some(|PrintValue(Section(m, body))|)
  {
    hide TagScan, OpenText, CloseText, Print, Contents, NormalMatch, Normal, PrintValue, Wrapped, Encloses;
    ContentsPlain(m);
    SectionWrapped(m, body);
    NormalEnclosed(KindOf(m), body, x);
    WrappedMatched(KindOf(m), Contents(m), Print(body), x);
  }

  /** A section in front of any text, once its body parses back. */
  lemma ParseOverSection(m: Match, body: seq<Value>, x: string)
    requires NormalMatch(m) && Normal(body)
    requires Parse(Print(body)) == Done(body)
    ensures Parse(PrintValue(Section(m, body)) + x) == JoinFront(Section(m, body), Parse(x))
  {
    hide MatchOf, Parse, Print, Contents, NormalMatch, Normal, PrintValue, Wrapped, Encloses, JoinFront, KindOf;
    ContentsPlain(m);
    SectionWrapped(m, body);
    NormalEnclosed(KindOf(m), body, x);
    MatchOfContents(m);
    ParseOverWrapped(KindOf(m), Contents(m), Print(body), x);
  }

  lemma JoinSection(m: Match, body: seq<Value>, r: Outcome<seq<Value>>)
    ensures JoinFront(Section(m, body), r) == Pushed([Section(m, body)], r)
  {
  }

  // --- The main results

  /** The last HTML piece of `vs` starts no marker that reaches into `x`. */
  predicate NoStraddle(vs: seq<Value>, x: string) {
    vs != [] && vs[|vs| - 1].Html? ==>
      Quiet(vs[|vs| - 1].text, x, OPENS) && Quiet(vs[|vs| - 1].text, x, VALUES)
  }

  /** The text of a normal template in front of any text at all, well-formed or not: the
      parser delivers the template's pieces and then whatever the rest parses to. */
  lemma {:induction false} ParsePrefixed(vs: seq<Value>, x: string)
    requires Normal(vs) && NoStraddle(vs, x)
    ensures Parse(Print(vs) + x) == Attach(vs, Parse(x))
    decreases vs, 0
  {
    hide Parse, Print, PrintValue, JoinFront, Quiet, NormalMatch, MarkerFree;
    if vs == [] {
      PrintNothing(x);
    } else {
      var v, w := vs[0], Print(vs[1..]) + x;
      ParsePrefixed(vs[1..], x);
      PrintCons(vs, x);
      match v
      case Html(t) =>
        HtmlQuiet(vs, x);
        ParseOverHtml(t, w);
        HtmlText(t);
      case Access(n) =>
        TagTexts(n);
        ParseOverTag(0, n, w);
      case Query(n) =>
        TagTexts(n);
        ParseOverTag(1, n, w);
      case Section(m, body) =>
        ParseBack(body);
        ParseOverSection(m, body, w);
    }
  }

  lemma HtmlText(t: string)
    ensures PrintValue(Html(t)) == t
  {
  }

  lemma TagTexts(n: string)
    ensures PrintValue(Access(n)) == TagText(TagMarker(0), n)
    ensures PrintValue(Query(n)) == TagText(TagMarker(1), n)
  {
  }

  lemma HtmlQuiet(vs: seq<Value>, x: string)
    requires Normal(vs) && NoStraddle(vs, x) && vs != [] && vs[0].Html?
    ensures var w := Print(vs[1..]) + x;
      Quiet(vs[0].text, w, OPENS) && Quiet(vs[0].text, w, VALUES)
  {
    hide Print, PrintValue, Quiet;
    AfterHtml(vs, x);
    if |vs| > 1 {
      OpensAreMarkers();
      MarkerFreeQuiet(vs[0].text, Print(vs[1..]) + x, OPENS);
      MarkerFreeQuiet(vs[0].text, Print(vs[1..]) + x, VALUES);
    }
  }

  lemma {:induction false} LastNormal(vs: seq<Value>)
    requires Normal(vs) && vs != []
    ensures NormalValue(vs[|vs| - 1])
  {
    hide NormalValue;
    if |vs| > 1 {
      LastNormal(vs[1..]);
    }
  }

  lemma {:induction false} AttachNothing(vs: seq<Value>)
    requires Normal(vs)
    ensures Attach(vs, Done([])) == Done(vs)
  {
    hide NormalValue;
    if vs != [] {
      AttachNothing(vs[1..]);
      assert [vs[0]] + vs[1..] == vs;
    }
  }

  lemma ParseOfNothing()
    ensures Parse("") == Done([])
  {
  }

  /** Parsing the text of a normal template gives back exactly the template, for any nesting
      of the three section kinds. */
  lemma {:induction false} ParseBack(vs: seq<Value>)
    requires Normal(vs)
    ensures Parse(Print(vs)) == Done(vs)
    decreases vs, 1
  {
    hide Parse, Print, PrintValue, Quiet;
    if vs != [] {
      LastNormal(vs);
      if vs[|vs| - 1].Html? {
        OpensAreMarkers();
        MarkerFreeQuiet(vs[|vs| - 1].text, "", OPENS);
        MarkerFreeQuiet(vs[|vs| - 1].text, "", VALUES);
      }
    }
    ParsePrefixed(vs, "");
    ParseOfNothing();
    AttachNothing(vs);
    assert Print(vs) + "" == Print(vs);
  }

  /** Different normal templates have different texts. */
  lemma PrintInjective(vs: seq<Value>, ws: seq<Value>)
    requires Normal(vs) && Normal(ws) && Print(vs) == Print(ws)
    ensures vs == ws
  {
    hide Parse, Print, Normal;
    ParseBack(vs);
    ParseBack(ws);
  }
}
