/** On the text of a normal template the tag search sees exactly the sections: each one is
    matched with its own closing tag, over anything nested inside it. */
module TemplateScan {
  import opened Basics
  import opened MarkerSearch
  import opened Markers
  import opened Templates
  import opened TagMatching
  import Conditions
  import Decimal

  lemma ContentsPlain(m: Match)
    requires NormalMatch(m)
    ensures PlainName(Contents(m))
  {
    if m.OnCode? {
      var n: nat := if m.code < 0 then 0 - m.code else m.code;
      assert forall c | c in Decimal.ToText(n) :: Decimal.IsDigit(c);
    }
  }

  /** A section's text: opening tag, body, closing tag. */
  lemma SectionText(m: Match, body: seq<Value>, x: string)
    ensures PrintValue(Section(m, body)) + x ==
            OpenText(KindOf(m)) + ((Contents(m) + ">") + (Print(body) + (CloseText(KindOf(m)) + x)))
  {
    hide Print, Contents;
    var o, c, b, e := OpenText(KindOf(m)), Contents(m), Print(body), CloseText(KindOf(m));
    assert o + c + ">" + b + e + x == o + ((c + ">") + (b + (e + x)));
  }

  lemma KindTexts(k: Kind)
    ensures AreMarkers([OpenText(k), CloseText(k)])
    ensures OpenText(k) != "" && |CloseText(k)| == |OpenText(k)| + 1
    ensures CloseText(k)[0] == '<' && '<' !in CloseText(k)[1..] && '<' !in OpenText(k)[1..]
  {
    AllMarkers(Open(k));
    AllMarkers(Close(k));
    KindLengths(k);
    MarkerShape(Open(k));
    MarkerShape(Close(k));
  }

  /** Every piece but HTML starts with '<'. */
  lemma PieceStart(v: Value, x: string)
    requires !v.Html?
    ensures PrintValue(v) + x != "" && (PrintValue(v) + x)[0] == '<'
  {
    hide Print, Contents;
    match v
    case Access(n) => MarkerShape(ValueTag);
    case Query(n) => MarkerShape(QueryTag);
    case Section(m, body) => MarkerShape(Open(KindOf(m)));
  }

  lemma PrintCons(vs: seq<Value>, x: string)
    requires vs != []
    ensures Print(vs) + x == PrintValue(vs[0]) + (Print(vs[1..]) + x)
  {
    hide PrintValue;
  }

  lemma PrintNothing(x: string)
    ensures Print([]) + x == x
  {
  }

  /** What follows an HTML piece of a normal template is nothing or starts with '<'. */
  lemma AfterHtml(vs: seq<Value>, x: string)
    requires Normal(vs) && vs != [] && vs[0].Html?
    ensures |vs| > 1 ==> Print(vs[1..]) + x != "" && (Print(vs[1..]) + x)[0] == '<'
    ensures |vs| == 1 ==> Print(vs[1..]) + x == x
  {
    hide PrintValue, NormalValue, Print;
    var rest := vs[1..];
    if |vs| > 1 {
      PrintCons(rest, x);
      PieceStart(vs[1], Print(rest[1..]) + x);
    } else {
      PrintNothing(x);
    }
  }

  /** A tag text without an inner '<' that is not one of this kind leaves the depth alone. */
  lemma ScanOverHead(m: Marker, u: string, v: string, k: Kind, depth: nat)
    requires '<' !in u && m != Open(k) && m != Close(k)
    requires |v| >= |CloseText(k)|
    ensures TagScan(m.Text() + (u + v), OpenText(k), CloseText(k), depth) ==
            Shift(|m.Text() + u|, TagScan(v, OpenText(k), CloseText(k), depth))
  {
    hide TagScan, Quiet, Marker.Text, OpenText, CloseText;
    KindTexts(k);
    MarkerTextsDiffer(m, Open(k));
    MarkerTextsDiffer(m, Close(k));
    OpenCloseTexts(k);
    HeadQuiet(m, u, v, [OpenText(k), CloseText(k)]);
    TagScanOver(m.Text() + u, v, OpenText(k), CloseText(k), depth);
    assert m.Text() + (u + v) == (m.Text() + u) + v;
  }

  lemma OpenCloseTexts(k: Kind)
    ensures OpenText(k) == Open(k).Text() && CloseText(k) == Close(k).Text()
  {
  }

  lemma MarkerTextsDiffer(a: Marker, b: Marker)
    requires a != b
    ensures a.Text() != b.Text()
  {
    PrefixFree(a, b, "");
    assert b.Text() + "" == b.Text();
  }

  lemma ScanOverPlain(u: string, v: string, k: Kind, depth: nat)
    requires '<' !in u && |v| >= |CloseText(k)|
    ensures TagScan(u + v, OpenText(k), CloseText(k), depth) ==
            Shift(|u|, TagScan(v, OpenText(k), CloseText(k), depth))
  {
    hide TagScan, Quiet, OpenText, CloseText;
    KindTexts(k);
    PlainQuiet(u, v, [OpenText(k), CloseText(k)]);
    TagScanOver(u, v, OpenText(k), CloseText(k), depth);
  }

  /** The search enters a section: the whole opening tag is skipped, one level deeper. */
  lemma ScanEnter(k: Kind, contents: string, v: string, depth: int)
    requires depth >= -1 && '<' !in contents && |v| >= |CloseText(k)|
    ensures TagScan(OpenText(k) + ((contents + ">") + v), OpenText(k), CloseText(k), depth) ==
            Shift(|OpenText(k)| + |contents| + 1, TagScan(v, OpenText(k), CloseText(k), depth + 1))
  {
    hide TagScan, OpenText, CloseText;
    KindTexts(k);
    var u := contents + ">";
    assert u == [u[0]] + u[1..];
    assert OpenText(k) + (u + v) == OpenText(k) + [u[0]] + (u[1..] + v);
    TagScanOpen(u[0], u[1..] + v, OpenText(k), CloseText(k), depth);
    ScanOverPlain(u[1..], v, k, depth + 1);
  }

  /** The search leaves a nested section of its own kind: one level up. */
  lemma ScanLeave(k: Kind, v: string, depth: nat)
    requires depth > 0 && |v| >= |CloseText(k)|
    ensures TagScan(CloseText(k) + v, OpenText(k), CloseText(k), depth) ==
            Shift(|CloseText(k)|, TagScan(v, OpenText(k), CloseText(k), depth - 1))
  {
    hide TagScan, Quiet, Marker.Text;
    KindTexts(k);
    OpenNotClose(k, v);
    PlainQuiet(CloseText(k)[1..], v, [OpenText(k), CloseText(k)]);
    TagScanClose(v, OpenText(k), CloseText(k), depth);
  }

  lemma OpenNotClose(k: Kind, v: string)
    ensures !(OpenText(k) <= CloseText(k) + v)
  {
    PrefixFree(Open(k), Close(k), v);
  }

  /** Over a nested section of the same kind, given that its body `b` is scanned over. */
  lemma ScanSame(k: Kind, contents: string, b: string, v: string, depth: nat)
    requires '<' !in contents && |v| >= |CloseText(k)|
    requires TagScan(b + (CloseText(k) + v), OpenText(k), CloseText(k), depth + 1) ==
             Shift(|b|, TagScan(CloseText(k) + v, OpenText(k), CloseText(k), depth + 1))
    ensures TagScan(OpenText(k) + ((contents + ">") + (b + (CloseText(k) + v))), OpenText(k), CloseText(k), depth) ==
            Shift(|OpenText(k)| + |contents| + 1 + (|b| + |CloseText(k)|), TagScan(v, OpenText(k), CloseText(k), depth))
  {
    hide TagScan, OpenText, CloseText, Shift;
    ScanEnter(k, contents, b + (CloseText(k) + v), depth);
    ScanLeave(k, v, depth + 1);
    var o := TagScan(v, OpenText(k), CloseText(k), depth);
    ShiftTwice(|b|, |CloseText(k)|, o);
    ShiftTwice(|OpenText(k)| + |contents| + 1, |b| + |CloseText(k)|, o);
  }

  lemma ScanOverOpen(j: Kind, k: Kind, contents: string, v: string, depth: nat)
    requires j != k && '<' !in contents && |v| >= |CloseText(k)|
    ensures TagScan(OpenText(j) + ((contents + ">") + v), OpenText(k), CloseText(k), depth) ==
            Shift(|OpenText(j)| + |contents| + 1, TagScan(v, OpenText(k), CloseText(k), depth))
  {
    hide TagScan, OpenText, CloseText, Marker.Text;
    OpenCloseTexts(j);
    ScanOverHead(Open(j), contents + ">", v, k, depth);
  }

  lemma ScanOverClose(j: Kind, k: Kind, v: string, depth: nat)
    requires j != k && |v| >= |CloseText(k)|
    ensures TagScan(CloseText(j) + v, OpenText(k), CloseText(k), depth) ==
            Shift(|CloseText(j)|, TagScan(v, OpenText(k), CloseText(k), depth))
  {
    hide TagScan, OpenText, CloseText, Marker.Text;
    OpenCloseTexts(j);
    ScanOverHead(Close(j), "", v, k, depth);
    assert "" + v == v && CloseText(j) + "" == CloseText(j);
  }

  /** Three texts in a row that are scanned over one after the other. */
  lemma ScanThrough(open: string, close: string, depth: nat,
                    s: string, a: nat, t: string, b: nat, u: string, c: nat, v: string)
    requires TagScan(s, open, close, depth) == Shift(a, TagScan(t, open, close, depth))
    requires TagScan(t, open, close, depth) == Shift(b, TagScan(u, open, close, depth))
    requires TagScan(u, open, close, depth) == Shift(c, TagScan(v, open, close, depth))
    ensures TagScan(s, open, close, depth) == Shift(a + b + c, TagScan(v, open, close, depth))
  {
    hide TagScan;
  }

  /** Over a nested section of another kind, given that its body `b` is scanned over. */
  lemma ScanOther(j: Kind, k: Kind, contents: string, b: string, v: string, depth: nat, n: nat)
    requires j != k && '<' !in contents && |v| >= |CloseText(k)|
    requires n == |OpenText(j)| + |contents| + 1 + |b| + |CloseText(j)|
    requires TagScan(b + (CloseText(j) + v), OpenText(k), CloseText(k), depth) ==
             Shift(|b|, TagScan(CloseText(j) + v, OpenText(k), CloseText(k), depth))
    ensures TagScan(OpenText(j) + ((contents + ">") + (b + (CloseText(j) + v))), OpenText(k), CloseText(k), depth) ==
            Shift(n, TagScan(v, OpenText(k), CloseText(k), depth))
  {
    hide *;
    var u := CloseText(j) + v;
    var t := b + u;
    var s := OpenText(j) + ((contents + ">") + t);
    var a, c: nat := |OpenText(j)| + |contents| + 1, |CloseText(j)|;
    ScanOverOpen(j, k, contents, t, depth);
    ScanOverClose(j, k, v, depth);
    ScanThrough(OpenText(k), CloseText(k), depth, s, a, t, |b|, u, c, v);
  }

  /** Searching from inside a section of kind `k`: a normal piece never changes the depth,
      whatever sections of whatever kind are nested in it. */
  lemma {:induction false} ScanValue(p: Value, v: string, k: Kind, depth: nat)
    requires NormalValue(p)
    requires |v| >= |CloseText(k)| && (p.Html? ==> v != "" && v[0] == '<')
    ensures TagScan(PrintValue(p) + v, OpenText(k), CloseText(k), depth) ==
            Shift(|PrintValue(p)|, TagScan(v, OpenText(k), CloseText(k), depth))
    decreases p, 1
  {
    hide TagScan, Quiet, Marker.Text, OpenText, CloseText, Print, Contents, NormalMatch;
    match p
    case Html(t) =>
      KindTexts(k);
      MarkerFreeQuiet(t, v, [OpenText(k), CloseText(k)]);
      TagScanOver(t, v, OpenText(k), CloseText(k), depth);
    case Access(n) =>
      assert TagText(ValueTag, n) + v == ValueTag.Text() + ((":" + n + ">") + v);
      ScanOverHead(ValueTag, ":" + n + ">", v, k, depth);
    case Query(n) =>
      assert TagText(QueryTag, n) + v == QueryTag.Text() + ((":" + n + ">") + v);
      ScanOverHead(QueryTag, ":" + n + ">", v, k, depth);
    case Section(m, body) =>
      ScanSection(m, body, v, k, depth);
  }

  lemma {:induction false} ScanSection(m: Match, body: seq<Value>, v: string, k: Kind, depth: nat)
    requires NormalMatch(m) && Normal(body)
    requires |v| >= |CloseText(k)|
    ensures TagScan(PrintValue(Section(m, body)) + v, OpenText(k), CloseText(k), depth) ==
            Shift(|PrintValue(Section(m, body))|, TagScan(v, OpenText(k), CloseText(k), depth))
    decreases body, 2
  {
    hide TagScan, Quiet, Marker.Text, OpenText, CloseText, Print, Contents, NormalMatch, Normal, PrintValue, AreMarkers;
    var j := KindOf(m);
    ContentsPlain(m);
    SectionText(m, body, v);
    SectionLength(m, body);
    KindTexts(j);
    ScanBody(body, CloseText(j) + v, k, if j == k then depth + 1 else depth);
    if j == k {
      ScanSame(k, Contents(m), Print(body), v, depth);
    } else {
      ScanOther(j, k, Contents(m), Print(body), v, depth, |PrintValue(Section(m, body))|);
    }
  }

  lemma SectionLength(m: Match, body: seq<Value>)
    ensures |PrintValue(Section(m, body))| ==
            |OpenText(KindOf(m))| + |Contents(m)| + 1 + |Print(body)| + |CloseText(KindOf(m))|
  {
    hide Print, Contents, OpenText, CloseText;
  }

  lemma {:induction false} ScanBody(vs: seq<Value>, v: string, k: Kind, depth: nat)
    requires Normal(vs)
    requires |v| >= |CloseText(k)| && v != "" && v[0] == '<'
    ensures TagScan(Print(vs) + v, OpenText(k), CloseText(k), depth) ==
            Shift(|Print(vs)|, TagScan(v, OpenText(k), CloseText(k), depth))
    decreases vs, 0
  {
    hide TagScan, PrintValue, NormalValue, OpenText, CloseText;
    if vs == [] {
      PrintNothing(v);
    } else {
      var w := Print(vs[1..]) + v;
      ScanBody(vs[1..], v, k, depth);
      PrintCons(vs, v);
      if vs[0].Html? {
        AfterHtml(vs, v);
      }
      ScanValue(vs[0], w, k, depth);
    }
  }
}
