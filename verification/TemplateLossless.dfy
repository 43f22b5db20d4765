/** Texts that lose nothing: printing what the parser makes of them gives them back. */
module TemplateLossless {
  import opened Basics
  import opened MarkerSearch
  import opened Markers
  import opened Templates
  import opened TemplateParser
  import opened TagMatching
  import opened TemplateRoundTrip
  import Conditions
  import Decimal

  // --- Which texts

  /** A value or query tag at the front with its ':' and its '>'. */
  predicate WholeTag(s: string, which: nat)
    requires which < |VALUES| && VALUES[which] <= s
  {
    var n := |VALUES[which]|;
    n < |s| && s[n] == ':' && '>' in s[n + 1..]
  }

  /** Text between sections all of whose tags are whole. */
  predicate WholeTags(s: string)
    decreases |s|
  {
    match NextMarker(s, VALUES)
    case None => true
    case Some(hit) =>
      && WholeTag(s[hit.pos..], hit.which)
      && var o := TagAt(s[hit.pos..], hit.which);
      o.Done? && WholeTags(s[hit.pos + o.value.1..])
  }

  /** What stands in an opening tag: a code in the form in which it is printed, a condition
      without a piece that lacks an operator. */
  ghost predicate WholeContents(kind: Kind, contents: string) {
    match kind
    case Iteration => true
    case Code => exists c: int :: Decimal.MIN_LONG <= c <= Decimal.MAX_LONG && contents == Decimal.ToTextSigned(c)
    case Condition => Conditions.WholeTests(contents)
  }

  /** Every tag is whole, every section ends with its closing tag, and so in every body. */
  ghost predicate Whole(s: string)
    decreases |s|
  {
    match NextMarker(s, OPENS)
    case None => WholeTags(s)
    case Some(hit) =>
      var t, kind := s[hit.pos..], KINDS[hit.which];
      var o := Locate(t, kind);
      && WholeTags(s[..hit.pos])
      && o.Some?
      && t[o.value.end - |CloseText(kind)|..o.value.end] == CloseText(kind)
      && WholeContents(kind, t[|OpenText(kind)|..o.value.nameEnd])
      && Whole(BodyOf(t, kind, o.value))
      && Whole(t[o.value.end..])
  }

  // --- They are printed back

  lemma {:induction false} PrintConcat(a: seq<Value>, b: seq<Value>)
    ensures Print(a + b) == Print(a) + Print(b)
  {
    hide PrintValue;
    if a == [] {
      assert a + b == b;
    } else {
      assert (a + b)[1..] == a[1..] + b;
      PrintConcat(a[1..], b);
    }
  }

  lemma PrintOne(v: Value)
    ensures Print([v]) == PrintValue(v)
  {
    hide PrintValue;
    assert [v][1..] == [];
  }

  /** A text with a ':' and a '>' behind its beginning, in its parts. */
  lemma TagParts(s: string, m: string)
    requires m <= s && |m| < |s| && s[|m|] == ':' && '>' in s[|m| + 1..]
    ensures var rest := s[|m| + 1..]; var i := IndexOf(rest, '>');
      i < |rest| && s[|m| + 1..|m| + 1 + i] == rest[..i] && s[..|m| + 1 + i + 1] == m + ":" + rest[..i] + ">"
  {
    var rest := s[|m| + 1..];
    var i := IndexOf(rest, '>');
    assert rest[..|rest|] == rest;
    hide IndexOf;
    assert rest[..i] == s[|m| + 1..|m| + 1 + i];
    assert s[..|m|] == m;
  }

  /** A whole tag at the front prints as the text it was read from. */
  lemma TagBack(s: string, which: nat)
    requires which < |VALUES| && VALUES[which] <= s && WholeTag(s, which)
    ensures var o := TagAt(s, which);
      o.Done? && PrintValue(o.value.0) == s[..o.value.1]
  {
    hide Marker.Text, IndexOf, Print;
    TagMarkerText(which);
    TagParts(s, TagMarker(which).Text());
    var rest := s[|VALUES[which]| + 1..];
    TagTexts(rest[..IndexOf(rest, '>')]);
  }

  lemma HtmlBack(t: string)
    ensures Print(HtmlPiece(t)) == t
  {
    if t != "" {
      PrintOne(Html(t));
    }
  }

  lemma {:induction false} TagsBack(s: string)
    requires WholeTags(s)
    ensures SubHtml(s).Done? && Print(SubHtml(s).value) == s
    decreases |s|
  {
    hide NextMarker, TagAt, SubHtml, Print, PrintValue, WholeTag;
    if s == "" {
      SubHtmlOfNothing();
      HtmlBack("");
    } else {
      SubHtmlStepOf(s);
      var o := NextMarker(s, VALUES);
      if o.None? {
        SubHtmlOfAll(s);
        HtmlBack(s);
      } else {
        var p := o.value.pos;
        var t := s[p..];
        TagBack(t, o.value.which);
        var tag := TagAt(t, o.value.which).value;
        var rest := s[p + tag.1..];
        TagsBack(rest);
        var head := HtmlPiece(s[..p]) + [tag.0];
        PrintConcat(head, SubHtml(rest).value);
        PrintConcat(HtmlPiece(s[..p]), [tag.0]);
        PrintOne(tag.0);
        HtmlBack(s[..p]);
        assert s == (s[..p] + t[..tag.1]) + rest;
      }
    }
  }

  lemma ContentsBack(kind: Kind, contents: string)
    requires WholeContents(kind, contents)
    ensures var o := MatchOf(kind, contents);
      o.Done? && KindOf(o.value) == kind && Contents(o.value) == contents
  {
    match kind
    case Iteration =>
    case Code =>
      var c: int :| Decimal.MIN_LONG <= c <= Decimal.MAX_LONG && contents == Decimal.ToTextSigned(c);
      Decimal.StolToText(c, "");
      assert contents + "" == contents;
    case Condition =>
      Conditions.ConditionText(contents);
  }

  lemma FiveParts(t: string, a: nat, b: nat, c: nat, d: nat)
    requires a <= b < c <= d <= |t|
    ensures t[..d] == t[..a] + t[a..b] + [t[b]] + t[b + 1..c] + t[c..d]
  {
  }

  /** The text of a located section, in its parts. */
  lemma SectionParts(t: string, kind: Kind)
    requires OpenText(kind) <= t && Locate(t, kind).Some?
    ensures var f := Locate(t, kind).value;
      && t[f.nameEnd] == '>'
      && t[..f.end] == OpenText(kind) + t[|OpenText(kind)|..f.nameEnd] + ">" + BodyOf(t, kind, f)
                       + t[f.end - |CloseText(kind)|..f.end]
  {
    hide OpenText, CloseText, TagScan;
    var f := Locate(t, kind).value;
    var n := |OpenText(kind)|;
    assert t[..n] == OpenText(kind);
    assert t[f.nameEnd] == t[n..][f.nameEnd - n];
    hide Locate, IndexOf;
    FiveParts(t, n, f.nameEnd, f.end - |CloseText(kind)|, f.end);
  }

  lemma SectionPrints(m: Match, body: seq<Value>)
    ensures PrintValue(Section(m, body)) ==
            OpenText(KindOf(m)) + Contents(m) + ">" + Print(body) + CloseText(KindOf(m))
  {
    hide OpenText, CloseText, Print, Contents, KindOf;
  }

  lemma SectionBack(t: string, kind: Kind, m: Match, body: seq<Value>)
    requires OpenText(kind) <= t && Locate(t, kind).Some?
    requires var f := Locate(t, kind).value;
      && t[f.end - |CloseText(kind)|..f.end] == CloseText(kind)
      && KindOf(m) == kind && Contents(m) == t[|OpenText(kind)|..f.nameEnd]
      && Print(body) == BodyOf(t, kind, f)
    ensures PrintValue(Section(m, body)) == t[..Locate(t, kind).value.end]
  {
    hide OpenText, CloseText, Print, PrintValue, Contents, Locate, KindOf, BodyOf;
    SectionPrints(m, body);
    SectionParts(t, kind);
  }

  /** Parsing a whole text succeeds and loses nothing. */
  lemma {:induction false} Lossless(s: string)
    requires Whole(s)
    ensures Parse(s).Done? && Print(Parse(s).value) == s
    decreases |s|
  {
    ParseStep(s);
    hide NextMarker, SubHtml, Parse, Print, PrintValue, Locate, MatchOf, WholeContents, WholeTags, Contents, KindOf;
    hide OpenText, CloseText;
    var o := NextMarker(s, OPENS);
    if o.None? {
      TagsBack(s);
    } else {
      var p, kind := o.value.pos, KINDS[o.value.which];
      var t := s[p..];
      assert OPENS[o.value.which] == OpenText(kind);
      var f := Locate(t, kind).value;
      var contents, rest := t[|OpenText(kind)|..f.nameEnd], t[f.end..];
      TagsBack(s[..p]);
      Lossless(BodyOf(t, kind, f));
      Lossless(rest);
      ContentsBack(kind, contents);
      var m, body := MatchOf(kind, contents).value, Parse(BodyOf(t, kind, f)).value;
      SectionBack(t, kind, m, body);
      var before := SubHtml(s[..p]).value;
      assert s[p + f.end..] == rest;
      PrintConcat(before + [Section(m, body)], Parse(rest).value);
      PrintConcat(before, [Section(m, body)]);
      PrintOne(Section(m, body));
      assert s == (s[..p] + t[..f.end]) + rest;
    }
  }
}
