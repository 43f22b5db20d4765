/** Texts at the edge of the template language: tags without their end, sections without their
    tags, codes that are none. */
module TemplateEdges {
  import opened Basics
  import opened MarkerSearch
  import opened Markers
  import opened Templates
  import opened TagMatching
  import opened TemplateScan
  import opened TemplateParser
  import opened TemplateRoundTrip
  import SectionBalance
  import Decimal

  // --- Value and query tags

  lemma NoOpenIn(which: nat, u: string)
    requires which < |VALUES| && '<' !in u
    ensures NextMarker(TagMarker(which).Text() + u, OPENS).None?
  {
    hide Marker.Text, Quiet, NextMarker;
    OpensAreMarkers();
    TagNotOpen(which);
    var s := TagMarker(which).Text() + u;
    HeadQuiet(TagMarker(which), u, "", OPENS);
    NextMarkerOver(s, "", OPENS);
    NoOpenInNothing();
    assert s + "" == s;
  }

  lemma NoOpenInNothing()
    ensures NextMarker("", OPENS).None?
  {
    assert NoneAt("", OPENS);
    MarkerAtNone("", OPENS);
  }

  /** A text that consists of one tag's marker and more text without a '<'. */
  lemma ParseLoneTag(which: nat, u: string)
    requires which < |VALUES| && '<' !in u
    ensures var s := TagMarker(which).Text() + u;
      && VALUES[which] <= s
      && (TagAt(s, which).Failed? ==> Parse(s) == Failed(TagAt(s, which).fault))
      && (TagAt(s, which).Done? && TagAt(s, which).value.1 == |s| ==> Parse(s) == Done([TagAt(s, which).value.0]))
  {
    hide Marker.Text, NextMarker, TagAt, SubHtml, SectionHead;
    var s := TagMarker(which).Text() + u;
    NoOpenIn(which, u);
    ParseStep(s);
    TagFirst(which, u);
    TagMarkerText(which);
    assert s[..|VALUES[which]|] == VALUES[which];
    MarkerShape(TagMarker(which));
    SubHtmlStepOf(s);
    assert s[0..] == s && s[..0] == "" && s[|s|..] == "";
    SubHtmlOfNothing();
    var o := TagAt(s, which);
    if o.Done? && o.value.1 == |s| {
      assert HtmlPiece("") + [o.value.0] == [o.value.0] && [o.value.0] + [] == [o.value.0];
    }
  }

  /** A marker with at most one character behind it at the end of the text moves the cursor to
      the end of the text or past it, where it is dereferenced. */
  lemma BareMarkerFails(which: nat, u: string)
    requires which < |VALUES| && |u| <= 1 && '<' !in u
    ensures Parse(TagMarker(which).Text() + u) == Failed(OutOfRange)
  {
    hide Marker.Text, Parse;
    TagMarkerText(which);
    ParseLoneTag(which, u);
  }

  /** A longer tag without its '>' takes the rest of the text for its name. */
  lemma OpenTagTakesAll(which: nat, c: char, name: string)
    requires which < |VALUES| && PlainName(name) && name != "" && c != '<'
    ensures Parse(TagMarker(which).Text() + ([c] + name)) == Done([TagValue(which, name)])
  {
    hide Marker.Text, Parse;
    TagMarkerText(which);
    var m := TagMarker(which).Text();
    var s := m + ([c] + name);
    assert s[..|m|] == m && s[|m| + 1..] == name && s[|m| + 1..|s|] == name;
    IndexOfAbsent(name, '>');
    assert NameEnd(s, |m| + 1) == |s|;
    assert TagAt(s, which) == Done((TagValue(which, name), |s|));
    hide TagAt;
    ParseLoneTag(which, [c] + name);
  }

  // --- Sections without their tags

  /** A text in which no tag of the kind begins, not even at its end, is searched to its end. */
  lemma ScanPlain(u: string, k: Kind, depth: nat)
    requires '<' !in u
    ensures TagScan(u, OpenText(k), CloseText(k), depth) == Some(|u|)
  {
    hide OpenText, CloseText, TagScan, Plain;
    SectionBalance.PlainRun(u, "", k);
    assert u + "" == u && u[|u|..] == "";
    PlainSkip(u, |u|, OpenText(k), CloseText(k), depth);
    TagScanNothing(OpenText(k), CloseText(k), depth);
  }

  lemma ScanPlainThen(u: string, v: string, k: Kind, depth: nat)
    requires '<' !in u
    ensures TagScan(u + v, OpenText(k), CloseText(k), depth) == Shift(|u|, TagScan(v, OpenText(k), CloseText(k), depth))
  {
    hide OpenText, CloseText, TagScan, Plain;
    SectionBalance.PlainRun(u, v, k);
    assert (u + v)[|u|..] == v;
    PlainSkip(u + v, |u|, OpenText(k), CloseText(k), depth);
  }

  /** From an opening tag over plain text. */
  lemma ScanOpened(k: Kind, u: string, v: string)
    requires u != "" && '<' !in u
    ensures TagScan(OpenText(k) + (u + v), OpenText(k), CloseText(k), -1) ==
            Shift(|OpenText(k)| + |u|, TagScan(v, OpenText(k), CloseText(k), 0))
  {
    hide OpenText, CloseText, TagScan;
    KindTexts(k);
    assert OpenText(k) + (u + v) == OpenText(k) + [u[0]] + (u[1..] + v);
    TagScanOpen(u[0], u[1..] + v, OpenText(k), CloseText(k), -1);
    ScanPlainThen(u[1..], v, k, 0);
  }

  /** At the end of the text the beginning of a tag counts as the tag: an opening one moves the
      cursor past the end, and so does a closing one where it would end the section; deeper
      inside the search goes on to the end. */
  lemma {:induction false} TruncatedTag(s: string, k: Kind, depth: nat)
    requires s != ""
    ensures s <= OpenText(k) ==> TagScan(s, OpenText(k), CloseText(k), depth) == None
    ensures !(s <= OpenText(k)) && s <= CloseText(k) && s != CloseText(k) ==>
              TagScan(s, OpenText(k), CloseText(k), depth) == if depth == 0 then None else Some(|s|)
  {
    hide OpenText, CloseText, TagScan;
    KindTexts(k);
    Unfold(s, OpenText(k), CloseText(k), depth);
    if !(s <= OpenText(k)) && s <= CloseText(k) && s != CloseText(k) {
      OpenNotClose(k, "");
      assert CloseText(k) + "" == CloseText(k);
      assert !(OpenText(k) <= s);
      if depth > 0 {
        assert s[1..] == CloseText(k)[1..][..|s| - 1];
        ScanPlain(s[1..], k, depth - 1);
      }
    }
  }

  lemma OpenFirst(k: Kind, u: string)
    ensures NextMarker(OpenText(k) + u, OPENS) == Some(Hit(0, KindIndex(k)))
    ensures OpenText(k) <= OpenText(k) + u
  {
    SectionFirst(k, u);
  }

  lemma UnlocatedFails(k: Kind, u: string)
    requires OpenText(k) <= OpenText(k) + u && Locate(OpenText(k) + u, k).None?
    ensures Parse(OpenText(k) + u) == Failed(OutOfRange)
  {
    hide OpenText, NextMarker, Locate, SubHtml;
    var s := OpenText(k) + u;
    OpenFirst(k, u);
    ParseStep(s);
    assert s[0..] == s && s[..0] == "";
    SubHtmlOfNothing();
  }

  /** An opening tag without its '>' moves the cursor past the end. */
  lemma UnnamedSectionFails(k: Kind, u: string)
    requires '>' !in u
    ensures Parse(OpenText(k) + u) == Failed(OutOfRange)
  {
    hide OpenText, CloseText, Parse, TagScan;
    var s := OpenText(k) + u;
    assert s[|OpenText(k)|..] == u && s[..|OpenText(k)|] == OpenText(k);
    IndexOfAbsent(u, '>');
    UnlocatedFails(k, u);
  }

  /** A section whose closing tag is cut off by the end of the text fails. */
  lemma CutSectionFails(k: Kind, contents: string, u: string, end: string)
    requires PlainName(contents) && '<' !in u
    requires end != "" && end <= CloseText(k) && end != CloseText(k)
    ensures Parse(OpenText(k) + ((contents + ">" + u) + end)) == Failed(OutOfRange)
  {
    hide OpenText, CloseText, Parse, TagScan;
    var v := contents + ">" + u;
    var s := OpenText(k) + (v + end);
    assert s[..|OpenText(k)|] == OpenText(k);
    ScanOpened(k, v, end);
    TruncatedTag(end, k, 0);
    UnlocatedFails(k, v + end);
  }

  /** Without a closing tag at all the section runs to the end of the text, and as many last
      characters as a closing tag has are dropped for it; when there are too few, it fails. */
  lemma UnclosedSection(contents: string, u: string)
    requires PlainName(contents) && '<' !in u
    ensures var s := "<HTMT:" + ((contents + ">") + u);
      Parse(s) ==
      if |u| < 7 then Failed(OutOfRange)
      else Done([Section(if contents == "" then Always else Each(contents), HtmlPiece(u[..|u| - 7]))])
  {
    hide Parse, TagScan;
    var k, n := Iteration, |OpenText(Iteration)|;
    var s := OpenText(k) + ((contents + ">") + u);
    UnclosedLocated(contents, u);
    if |u| < 7 {
      UnlocatedFails(k, (contents + ">") + u);
    } else {
      hide Locate, BodyOf;
      OpenFirst(k, (contents + ">") + u);
      ParseStep(s);
      assert s[0..] == s && s[..0] == "" && s[|s|..] == "";
      SubHtmlOfNothing();
      ParsePlain(u[..|u| - 7]);
      ParseOfNothing();
      var section := Section(if contents == "" then Always else Each(contents), HtmlPiece(u[..|u| - 7]));
      assert SectionHead(s, Hit(0, KindIndex(k))) == Done(([] + [section], 0 + |s|));
      assert [] + [section] == [section] && [section] + [] == [section];
    }
  }

  lemma UnclosedLocated(contents: string, u: string)
    requires PlainName(contents) && '<' !in u
    ensures var k := Iteration; var s := OpenText(k) + ((contents + ">") + u);
      && OpenText(k) <= s
      && (|u| < 7 ==> Locate(s, k).None?)
      && (|u| >= 7 ==>
            && Locate(s, k) == Some(Frame(6 + |contents|, |s|))
            && s[6..6 + |contents|] == contents && BodyOf(s, k, Locate(s, k).value) == u[..|u| - 7])
  {
    hide TagScan, IndexOf;
    var k := Iteration;
    var v := (contents + ">") + u;
    var s := OpenText(k) + v;
    assert s[..6] == OpenText(k) && s[6..] == contents + ['>'] + u;
    IndexOfConcat(contents, '>', u);
    ScanOpened(k, v, "");
    assert v + "" == v;
    TagScanNothing(OpenText(k), CloseText(k), 0);
    assert s[6..6 + |contents|] == contents;
    assert |u| >= 7 ==> s[6 + |contents| + 1..|s| - 7] == u[..|u| - 7];
  }

  lemma ParsePlain(x: string)
    requires '<' !in x
    ensures Parse(x) == Done(HtmlPiece(x))
  {
    hide Quiet, Parse;
    if x == "" {
      ParseOfNothing();
    } else {
      OpensAreMarkers();
      PlainQuiet(x, "", OPENS);
      PlainQuiet(x, "", VALUES);
      ParseOverHtml(x, "");
      ParseOfNothing();
      MergeNothing(x);
      assert x + "" == x;
    }
  }

  /** A code section whose code is no long throws, once its body parses. */
  lemma BadCodeFails(code: string, b: string, x: string)
    requires PlainName(code) && Decimal.Stol(code).None?
    requires Encloses(Code, b, x) && Parse(b).Done?
    ensures Parse(Wrapped(Code, code, b) + x) == Failed(BadCode)
  {
    hide Parse, Encloses, Wrapped, Decimal.Stol;
    ParseOverWrapped(Code, code, b, x);
  }

  /** A section fails as its body does, whatever follows. */
  lemma FaultyBodyFails(k: Kind, contents: string, b: string, x: string)
    requires PlainName(contents) && Encloses(k, b, x) && Parse(b).Failed?
    ensures Parse(Wrapped(k, contents, b) + x) == Parse(b)
  {
    hide Parse, Encloses, Wrapped, MatchOf;
    ParseOverWrapped(k, contents, b, x);
  }
}
