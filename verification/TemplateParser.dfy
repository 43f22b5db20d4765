/** The HTMT parser: what translation::parse and parseSubHTML compute, as functions of the
    text, and the source's cursor loops, which compute exactly that. */
module TemplateParser {
  import opened Basics
  import opened MarkerSearch
  import opened Markers
  import opened Templates
  import opened TagMatching
  import Conditions
  import Decimal

  // --- Text between sections

  /** Where a value or query tag's name ends: at the first '>', or at the end of the text. */
  function NameEnd(s: string, nameStart: nat): (e: nat)
    requires nameStart <= |s|
    ensures nameStart <= e <= |s|
  {
    nameStart + IndexOf(s[nameStart..], '>')
  }

  /** The value or query tag that starts at the front of `s`, and where the text goes on.
      One character after the marker is skipped, whatever it is. */
  function TagAt(s: string, which: nat): (o: Outcome<(Value, nat)>)
    requires which < |VALUES| && VALUES[which] <= s
    ensures o.Done? ==> !o.value.0.Html? && 0 < o.value.1 <= |s|
  {
    var nameStart := |VALUES[which]| + 1;
    if nameStart >= |s| then Failed(OutOfRange)
    else
      var nameEnd := NameEnd(s, nameStart);
      var contents := s[nameStart..nameEnd];
      Done((if which == 0 then Access(contents) else Query(contents),
            if nameEnd < |s| then nameEnd + 1 else nameEnd))
  }

  function HtmlPiece(t: string): seq<Value> {
    if t == "" then [] else [Html(t)]
  }

  /** Pieces already pushed, in front of what is still to come. */
  function Pushed(done: seq<Value>, rest: Outcome<seq<Value>>): Outcome<seq<Value>> {
    match rest
    case Failed(e) => Failed(e)
    case Done(vs) => Done(done + vs)
  }

  /** The pieces up to and with the first tag, and where the text goes on. */
  function SubHead(s: string): (o: Outcome<(seq<Value>, nat)>)
    ensures o.Done? ==> o.value.1 <= |s|
    ensures o.Done? && s != "" ==> 0 < o.value.1
  {
    match NextMarker(s, VALUES)
    case None => Done((HtmlPiece(s), |s|))
    case Some(hit) =>
      var tag :- TagAt(s[hit.pos..], hit.which);
      Done((HtmlPiece(s[..hit.pos]) + [tag.0], hit.pos + tag.1))
  }

  /** parseSubHTML: raw HTML, value tags and query tags. */
  function SubHtml(s: string): Outcome<seq<Value>>
    decreases |s|
  {
    if s == "" then Done([])
    else
      match SubHead(s)
      case Failed(e) => Failed(e)
      case Done(head) => Pushed(head.0, SubHtml(s[head.1..]))
  }

  // --- Sections

  /** The extent of the section at the front of `s`: the '>' of its opening tag, and the
      position after its closing tag. */
  datatype Frame = Frame(nameEnd: nat, end: nat)

  const KINDS: seq<Kind> := [Iteration, Code, Condition]

  /** None when a cursor leaves the text, or the length of the body wraps below zero. */
  function Locate(s: string, kind: Kind): (f: Option<Frame>)
    requires OpenText(kind) <= s
    ensures f.Some? ==> |OpenText(kind)| <= f.value.nameEnd < f.value.end - |CloseText(kind)| <= f.value.end <= |s|
  {
    var nameEnd := NameEnd(s, |OpenText(kind)|);
    TagScanBounds(s, OpenText(kind), CloseText(kind), -1);
    match TagScan(s, OpenText(kind), CloseText(kind), -1)
    case None => None
    case Some(end) =>
      if nameEnd + 1 < |s| && nameEnd + 1 + |CloseText(kind)| <= end then Some(Frame(nameEnd, end)) else None
  }

  function MatchOf(kind: Kind, contents: string): Outcome<Match> {
    match kind
    case Iteration => Done(if contents == "" then Always else Each(contents))
    case Code =>
      (match Decimal.Stol(contents)
       case None => Failed(BadCode)
       case Some(n) => Done(OnCode(n)))
    case Condition => Done(When(Conditions.Parse(contents)))
  }

  function BodyOf(s: string, kind: Kind, f: Frame): string
    requires f.nameEnd < f.end - |CloseText(kind)| <= f.end <= |s|
  {
    s[f.nameEnd + 1..f.end - |CloseText(kind)|]
  }

  /** What stands before the section at `hit`, the section itself, and where the text goes on. */
  function SectionHead(s: string, hit: Hit): (o: Outcome<(seq<Value>, nat)>)
    requires hit.pos <= |s| && hit.which < |OPENS| && OPENS[hit.which] <= s[hit.pos..]
    ensures o.Done? ==> 0 < o.value.1 <= |s|
    decreases |s|, 0
  {
    var before :- SubHtml(s[..hit.pos]);
    var t := s[hit.pos..];
    var kind := KINDS[hit.which];
    match Locate(t, kind)
    case None => Failed(OutOfRange)
    case Some(f) =>
      var body :- Parse(BodyOf(t, kind, f));
      var m :- MatchOf(kind, t[|OpenText(kind)|..f.nameEnd]);
      Done((before + [Section(m, body)], hit.pos + f.end))
  }

  /** translation::parse: the nearest opening marker splits the text into what stands before
      the section, the section and what stands after it. */
  function Parse(s: string): Outcome<seq<Value>>
    decreases |s|, 1
  {
    match NextMarker(s, OPENS)
    case None => SubHtml(s)
    case Some(hit) =>
      match SectionHead(s, hit)
      case Failed(e) => Failed(e)
      case Done(head) => Pushed(head.0, Parse(s[head.1..]))
  }

  // --- The loops

  lemma PushedTwice(a: seq<Value>, b: seq<Value>, o: Outcome<seq<Value>>)
    ensures Pushed(a, Pushed(b, o)) == Pushed(a + b, o)
  {
    if o.Done? {
      assert a + (b + o.value) == (a + b) + o.value;
    }
  }

  lemma SubHtmlStepOf(s: string)
    requires s != ""
    ensures var o := SubHead(s);
      SubHtml(s) == if o.Failed? then Failed(o.fault) else Pushed(o.value.0, SubHtml(s[o.value.1..]))
  {
    hide SubHead;
  }

  lemma SubHtmlOfNothing()
    ensures SubHtml("") == Done([])
  {
  }

  lemma PushedNothing(o: Outcome<seq<Value>>)
    ensures Pushed([], o) == o
  {
    if o.Done? {
      assert [] + o.value == o.value;
    }
  }

  /** Reading the tag at the cursor `it`. */
  method TakeTag(html: string, it: nat, which: nat) returns (o: Outcome<(Value, nat)>)
    requires it <= |html| && which < |VALUES| && VALUES[which] <= html[it..]
    ensures o == TagAt(html[it..], which)
  {
    hide IndexOf;
    ghost var t := html[it..];
    var tag := |VALUES[which]|;
    var nameStart := it + tag + 1;
    if nameStart >= |html| {
      return Failed(OutOfRange);
    }
    assert t[tag + 1..] == html[nameStart..];
    var nameEnd := NameEnd(html, nameStart);
    assert NameEnd(t, tag + 1) == nameEnd - it;
    var contents := html[nameStart..nameEnd];
    assert contents == t[tag + 1..nameEnd - it];
    var left := nameEnd;
    if left != |html| {
      left := left + 1;
    }
    o := Done((if which == 0 then Access(contents) else Query(contents), left - it));
  }

  /** The body of parseSubHTML's loop, at the cursor `left`. */
  method SubHtmlStep(html: string, left: nat) returns (o: Outcome<(seq<Value>, nat)>)
    requires left < |html|
    ensures o == SubHead(html[left..])
  {
    hide NextMarker, TagAt;
    ghost var s := html[left..];
    var hit := FindNearest(html[left..], VALUES);
    var it := if hit.Some? then left + hit.value.pos else |html|;
    var pieces := [];
    if left != it {
      pieces := [Html(html[left..it])];
    }
    assert html[left..it] == s[..it - left];
    if hit.None? {
      assert s[..it - left] == s;
      return Done((pieces, |html| - left));
    }
    assert s[hit.value.pos..] == html[it..];
    var tag := TakeTag(html, it, hit.value.which);
    if tag.Failed? {
      return Failed(tag.fault);
    }
    o := Done((pieces + [tag.value.0], it - left + tag.value.1));
  }

  /** parseSubHTML, pushing onto the pieces `values`. */
  method ParseSubHtml(values: seq<Value>, html: string) returns (r: Outcome<seq<Value>>)
    ensures r == Pushed(values, SubHtml(html))
  {
    hide SubHtml, SubHead;
    ghost var goal := Pushed(values, SubHtml(html));
    var done := values;
    var left := 0;
    assert html[0..] == html;
    while left != |html|
      invariant left <= |html|
      invariant goal == Pushed(done, SubHtml(html[left..]))
      decreases |html| - left
    {
      SubHtmlStepOf(html[left..]);
      var head := SubHtmlStep(html, left);
      if head.Failed? {
        return Failed(head.fault);
      }
      PushedTwice(done, head.value.0, SubHtml(html[left..][head.value.1..]));
      assert html[left..][head.value.1..] == html[left + head.value.1..];
      done := done + head.value.0;
      left := left + head.value.1;
    }
    SubHtmlOfNothing();
    assert html[left..] == "" && done + [] == done;
    r := Done(done);
  }

  /** The extent of the section at the cursor `tagStart`. */
  method LocateSection(source: string, tagStart: nat, kind: Kind) returns (o: Option<Frame>)
    requires tagStart <= |source| && OpenText(kind) <= source[tagStart..]
    ensures o == Locate(source[tagStart..], kind)
  {
    hide TagScan, IndexOf;
    ghost var t := source[tagStart..];
    var open := |OpenText(kind)|;
    assert t[open..] == source[tagStart + open..];
    var tagClose := NameEnd(source, tagStart + open);
    assert NameEnd(t, open) == tagClose - tagStart;
    KindLengths(kind);
    var end := TagSearch(source, tagStart, OpenText(kind), CloseText(kind));
    if end.None? || tagClose + 1 >= |source| || tagClose + 1 + |CloseText(kind)| > end.value {
      return None;
    }
    o := Some(Frame(tagClose - tagStart, end.value - tagStart));
  }

  /** The body of translation::parse's loop once a section is found at the cursor `left`. */
  method SectionStep(source: string, left: nat, found: Hit) returns (o: Outcome<(seq<Value>, nat)>)
    requires left <= |source|
    requires NextMarker(source[left..], OPENS) == Some(found)
    ensures o == SectionHead(source[left..], found)
    decreases |source|, 0
  {
    hide NextMarker, Locate, MatchOf, Parse, SubHtml;
    ghost var s := source[left..];
    var min, kind := found.pos, KINDS[found.which];
    var values := [];
    assert source[left..left + min] == s[..min];
    if min != 0 {
      var before := ParseSubHtml([], source[left..left + min]);
      PushedNothing(SubHtml(s[..min]));
      if before.Failed? {
        return Failed(before.fault);
      }
      values := before.value;
    } else {
      SubHtmlOfNothing();
      assert s[..min] == "";
    }
    assert SubHtml(s[..min]) == Done(values);
    var tagStart := left + min;
    ghost var t := s[min..];
    assert source[tagStart..] == t;
    var frame := LocateSection(source, tagStart, kind);
    if frame.None? {
      return Failed(OutOfRange);
    }
    var f := frame.value;
    var body := ParseTemplate(BodyOf(source[tagStart..], kind, f));
    if body.Failed? {
      return Failed(body.fault);
    }
    var m := MatchOf(kind, source[tagStart..][|OpenText(kind)|..f.nameEnd]);
    if m.Failed? {
      return Failed(m.fault);
    }
    o := Done((values + [Section(m.value, body.value)], min + f.end));
  }

  /** One step of Parse. */
  lemma ParseStep(s: string)
    ensures NextMarker(s, OPENS).None? ==> Parse(s) == SubHtml(s)
    ensures NextMarker(s, OPENS).Some? ==>
              var o := SectionHead(s, NextMarker(s, OPENS).value);
              Parse(s) == if o.Failed? then Failed(o.fault) else Pushed(o.value.0, Parse(s[o.value.1..]))
  {
    hide SectionHead, NextMarker, SubHtml;
  }

  /** translation::parse: the cursor `left`, pushing onto `values`, calling itself on every
      section body. */
  method ParseTemplate(source: string) returns (r: Outcome<seq<Value>>)
    ensures r == Parse(source)
    decreases |source|, 1
  {
    hide Parse, SectionHead, NextMarker, SubHtml;
    ghost var goal := Parse(source);
    var values: seq<Value> := [];
    var left := 0;
    assert source[0..] == source;
    PushedNothing(goal);
    while true
      invariant left <= |source|
      invariant goal == Pushed(values, Parse(source[left..]))
      decreases |source| - left
    {
      var found := FindNearest(source[left..], OPENS);
      ParseStep(source[left..]);
      if found.None? {
        r := ParseSubHtml(values, source[left..]);
        return;
      }
      var head := SectionStep(source, left, found.value);
      if head.Failed? {
        return Failed(head.fault);
      }
      PushedTwice(values, head.value.0, Parse(source[left..][head.value.1..]));
      assert source[left..][head.value.1..] == source[left + head.value.1..];
      values := values + head.value.0;
      left := left + head.value.1;
    }
  }
}
