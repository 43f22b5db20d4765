/** The matching of a section's tags, seen by counting: in the text of a normal section the
    closing tag that the search finds is at the first position at which the tags of its
    kind balance. */
module SectionBalance {
  import opened Basics
  import opened MarkerSearch
  import opened Markers
  import opened Templates
  import opened TagMatching
  import opened TemplateScan
  import opened TemplateRoundTrip

  /** Text in which no tag of the kind begins keeps tags apart. */
  lemma {:induction false} SpacedOver(u: string, v: string, open: string, close: string)
    requires Quiet(u, v, [open, close])
    requires |v| >= |open| && |v| >= |close|
    requires Spaced(v, open, close)
    ensures Spaced(u + v, open, close)
  {
    hide Sign, NoneAt, Plain;
    if u == "" {
      assert u + v == v;
    } else {
      SignNone(u + v, open, close);
      assert (u + v)[1..] == u[1..] + v;
      SpacedOver(u[1..], v, open, close);
    }
  }

  lemma SpacedPlain(u: string, v: string, k: Kind)
    requires '<' !in u && |v| >= |CloseText(k)| && Spaced(v, OpenText(k), CloseText(k))
    ensures Spaced(u + v, OpenText(k), CloseText(k))
  {
    hide Spaced, OpenText, CloseText, Quiet;
    KindTexts(k);
    PlainQuiet(u, v, [OpenText(k), CloseText(k)]);
    SpacedOver(u, v, OpenText(k), CloseText(k));
  }

  lemma SpacedHead(m: Marker, u: string, v: string, k: Kind)
    requires '<' !in u && m != Open(k) && m != Close(k)
    requires |v| >= |CloseText(k)| && Spaced(v, OpenText(k), CloseText(k))
    ensures Spaced(m.Text() + (u + v), OpenText(k), CloseText(k))
  {
    hide Spaced, Quiet, Marker.Text, OpenText, CloseText;
    KindTexts(k);
    MarkerTextsDiffer(m, Open(k));
    MarkerTextsDiffer(m, Close(k));
    OpenCloseTexts(k);
    HeadQuiet(m, u, v, [OpenText(k), CloseText(k)]);
    SpacedOver(m.Text() + u, v, OpenText(k), CloseText(k));
    assert m.Text() + (u + v) == (m.Text() + u) + v;
  }

  /** Characters without '<' look like no tag. */
  lemma {:induction false} PlainRun(u: string, v: string, k: Kind)
    requires '<' !in u
    ensures Plain(u + v, |u|, OpenText(k), CloseText(k))
  {
    hide OpenText, CloseText;
    if u != "" {
      var s := u + v;
      KindTexts(k);
      KindStarts(k);
      assert s[0] == u[0];
      assert Sign(s, OpenText(k), CloseText(k)) == 0;
      assert s[1..] == u[1..] + v;
      hide Sign;
      PlainRun(u[1..], v, k);
    }
  }

  lemma KindStarts(k: Kind)
    ensures OpenText(k)[0] == '<' && CloseText(k)[0] == '<'
  {
  }

  /** An opening tag followed by plain text keeps tags apart. */
  lemma SpacedEnter(k: Kind, contents: string, v: string)
    requires '<' !in contents && |v| >= |CloseText(k)| && Spaced(v, OpenText(k), CloseText(k))
    ensures Spaced(OpenText(k) + ((contents + ">") + v), OpenText(k), CloseText(k))
  {
    hide OpenText, CloseText, Sign, Plain, Spaced;
    KindTexts(k);
    var open, u := OpenText(k), contents + ">";
    var s := open + (u + v);
    SignOpen(u + v, open, CloseText(k));
    assert s[1..] == open[1..] + (u + v);
    assert s[1..] == (open[1..] + [u[0]]) + (u[1..] + v);
    PlainRun(open[1..] + [u[0]], u[1..] + v, k);
    SpacedPlain(u, v, k);
    SpacedPlain(open[1..], u + v, k);
    SpacedConsOpen(s, open, CloseText(k));
  }

  lemma SpacedConsOpen(s: string, open: string, close: string)
    requires s != "" && Sign(s, open, close) == 1 && |s| > |open|
    requires Plain(s[1..], |open|, open, close) && Spaced(s[1..], open, close)
    ensures Spaced(s, open, close)
  {
  }

  /** A closing tag keeps tags apart. */
  lemma SpacedLeave(k: Kind, v: string)
    requires |v| >= |CloseText(k)| && Spaced(v, OpenText(k), CloseText(k))
    ensures Spaced(CloseText(k) + v, OpenText(k), CloseText(k))
  {
    hide OpenText, CloseText, Sign, Plain, Spaced;
    KindTexts(k);
    var close := CloseText(k);
    OpenNotClose(k, v);
    SignClose(v, OpenText(k), close);
    assert (close + v)[1..] == close[1..] + v;
    SpacedPlain(close[1..], v, k);
    SpacedCons(close + v, OpenText(k), close);
  }

  lemma SpacedCons(s: string, open: string, close: string)
    requires s != "" && Sign(s, open, close) == -1 && |s| >= |close| > 0
    requires Spaced(s[1..], open, close)
    ensures Spaced(s, open, close)
  {
  }

  lemma {:induction false} SpacedValue(p: Value, v: string, k: Kind)
    requires NormalValue(p)
    requires |v| >= |CloseText(k)| && (p.Html? ==> v != "" && v[0] == '<')
    requires Spaced(v, OpenText(k), CloseText(k))
    ensures Spaced(PrintValue(p) + v, OpenText(k), CloseText(k))
    decreases p, 1
  {
    hide Spaced, Quiet, Marker.Text, OpenText, CloseText, Print, Contents, NormalMatch;
    match p
    case Html(t) =>
      KindTexts(k);
      MarkerFreeQuiet(t, v, [OpenText(k), CloseText(k)]);
      SpacedOver(t, v, OpenText(k), CloseText(k));
    case Access(n) =>
      assert TagText(ValueTag, n) + v == ValueTag.Text() + ((":" + n + ">") + v);
      SpacedHead(ValueTag, ":" + n + ">", v, k);
    case Query(n) =>
      assert TagText(QueryTag, n) + v == QueryTag.Text() + ((":" + n + ">") + v);
      SpacedHead(QueryTag, ":" + n + ">", v, k);
    case Section(m, body) =>
      SpacedSection(m, body, v, k);
  }

  lemma {:induction false} SpacedSection(m: Match, body: seq<Value>, v: string, k: Kind)
    requires NormalMatch(m) && Normal(body)
    requires |v| >= |CloseText(k)|
    requires Spaced(v, OpenText(k), CloseText(k))
    ensures Spaced(PrintValue(Section(m, body)) + v, OpenText(k), CloseText(k))
    decreases body, 2
  {
    hide Spaced, OpenText, CloseText, Print, Contents, NormalMatch, Normal, PrintValue, Marker.Text;
    var j := KindOf(m);
    ContentsPlain(m);
    SectionText(m, body, v);
    KindTexts(j);
    OpenCloseTexts(j);
    if j == k {
      SpacedLeave(k, v);
      SpacedBody(body, CloseText(j) + v, k);
      SpacedEnter(k, Contents(m), Print(body) + (CloseText(j) + v));
    } else {
      SpacedHead(Close(j), "", v, k);
      assert "" + v == v;
      SpacedBody(body, CloseText(j) + v, k);
      SpacedHead(Open(j), Contents(m) + ">", Print(body) + (CloseText(j) + v), k);
    }
  }

  lemma {:induction false} SpacedBody(vs: seq<Value>, v: string, k: Kind)
    requires Normal(vs)
    requires |v| >= |CloseText(k)| && v != "" && v[0] == '<'
    requires Spaced(v, OpenText(k), CloseText(k))
    ensures Spaced(Print(vs) + v, OpenText(k), CloseText(k))
    decreases vs, 0
  {
    hide Spaced, PrintValue, NormalValue, OpenText, CloseText;
    if vs == [] {
      PrintNothing(v);
    } else {
      SpacedBody(vs[1..], v, k);
      PrintCons(vs, v);
      if vs[0].Html? {
        AfterHtml(vs, v);
      }
      SpacedValue(vs[0], Print(vs[1..]) + v, k);
    }
  }

  // --- What follows the closing tag does not matter

  /** A tag at the front is seen in the first characters alone. */
  lemma SignFront(u: string, x: string, y: string, open: string, close: string)
    requires u != "" && |u| >= |open| && |u| >= |close|
    ensures Sign(u + x, open, close) == Sign(u + y, open, close)
  {
    LooksFront(u, x, open);
    LooksFront(u, y, open);
    LooksFront(u, x, close);
    LooksFront(u, y, close);
  }

  lemma LooksFront(u: string, x: string, tag: string)
    requires u != "" && |u| >= |tag|
    ensures Looks(u + x, tag) <==> tag <= u
  {
    assert (u + x)[..|tag|] == u[..|tag|];
    if u + x <= tag {
      assert x == "" && u + x == u;
    }
  }

  /** The count of tags up to a position that leaves room for a tag ignores what comes later. */
  lemma {:induction false} NetFront(u: string, x: string, y: string, n: nat, open: string, close: string)
    requires open != "" && close != ""
    requires n > 0 ==> n - 1 + |open| <= |u| && n - 1 + |close| <= |u|
    ensures n <= |u| && Net(u + x, n, open, close) == Net(u + y, n, open, close)
  {
    hide Sign;
    if n > 0 {
      SignFront(u, x, y, open, close);
      assert (u + x)[1..] == u[1..] + x && (u + y)[1..] == u[1..] + y;
      NetFront(u[1..], x, y, n - 1, open, close);
    }
  }

  lemma BalanceFront(u: string, x: string, y: string, n: nat, open: string, close: string)
    requires open != "" && n + |open| <= |u| && n + |close| <= |u| && close != ""
    requires FirstBalance(u + x, n, open, close)
    ensures FirstBalance(u + y, n, open, close)
  {
    hide Net;
    NetFront(u, x, y, n + 1, open, close);
    forall j: nat | 1 <= j <= n
      ensures Net(u + y, j, open, close) > 0
    {
      NetFront(u, x, y, j, open, close);
      assert Net(u + x, j, open, close) > 0;
    }
  }

  lemma {:induction false} SpacedBlank(u: string, k: Kind)
    requires '<' !in u
    ensures Spaced(u, OpenText(k), CloseText(k))
  {
    hide OpenText, CloseText, Plain;
    if u != "" {
      KindTexts(k);
      KindStarts(k);
      assert Sign(u, OpenText(k), CloseText(k)) == 0;
      hide Sign;
      SpacedBlank(u[1..], k);
    }
  }

  lemma SectionOpens(m: Match, body: seq<Value>, x: string)
    ensures OpenText(KindOf(m)) <= PrintValue(Section(m, body)) + x
    ensures |PrintValue(Section(m, body))| >= |OpenText(KindOf(m))| + |CloseText(KindOf(m))|
  {
    hide OpenText, CloseText, Print, Contents, PrintValue;
    SectionText(m, body, x);
    SectionLength(m, body);
  }

  /** The section in front of text that keeps tags apart. */
  lemma BalancesBefore(m: Match, body: seq<Value>, x: string)
    requires NormalMatch(m) && Normal(body)
    requires |x| >= |CloseText(KindOf(m))| && Spaced(x, OpenText(KindOf(m)), CloseText(KindOf(m)))
    ensures var s, k := PrintValue(Section(m, body)), KindOf(m);
      FirstBalance(s + x, |s| - |CloseText(k)|, OpenText(k), CloseText(k))
  {
    hide *;
    var s, k := PrintValue(Section(m, body)), KindOf(m);
    KindTexts(k);
    SpacedSection(m, body, x, k);
    SectionOpens(m, body, x);
    SectionMatched(m, body, x);
    TagSearchBalances(s + x, OpenText(k), CloseText(k));
  }

  /** In the text of any normal section, whatever follows it or nothing, the first position at
      which the opening and closing tags of its kind balance is its own closing tag. */
  lemma SectionBalances(m: Match, body: seq<Value>, x: string)
    requires NormalMatch(m) && Normal(body)
    ensures var s, k := PrintValue(Section(m, body)), KindOf(m);
      FirstBalance(s + x, |s| - |CloseText(k)|, OpenText(k), CloseText(k))
  {
    hide *;
    var s, k := PrintValue(Section(m, body)), KindOf(m);
    KindTexts(k);
    KindLengths(k);
    var blank := seq(|CloseText(k)|, _ => ' ');
    SpacedBlank(blank, k);
    BalancesBefore(m, body, blank);
    SectionOpens(m, body, x);
    BalanceFront(s, blank, x, |s| - |CloseText(k)|, OpenText(k), CloseText(k));
  }
}
