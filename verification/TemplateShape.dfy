/** What every successful parse delivers, from any text whatever. */
module TemplateShape {
  import opened Basics
  import opened MarkerSearch
  import opened Markers
  import opened Templates
  import opened TemplateParser
  import Conditions
  import Decimal

  predicate ShapedMatch(m: Match) {
    match m
    case Always => true
    case Each(n) => n != "" && '>' !in n
    case OnCode(c) => Decimal.MIN_LONG <= c <= Decimal.MAX_LONG
    case When(c) => Conditions.WellShaped(c)
  }

  /** HTML is not empty and holds no marker the parser looks for; names end before a '>'. */
  predicate ShapedValue(v: Value) {
    match v
    case Html(t) => t != "" && Quiet(t, "", OPENS) && Quiet(t, "", VALUES)
    case Access(n) => '>' !in n
    case Query(n) => '>' !in n
    case Section(m, body) => ShapedMatch(m) && Shaped(body)
  }

  predicate Shaped(vs: seq<Value>) {
    vs == [] ||
    (&& ShapedValue(vs[0])
     && (vs[0].Html? && |vs| > 1 ==> !vs[1].Html?)
     && Shaped(vs[1..]))
  }

  // --- Markers that are not there

  lemma {:induction false} QuietNone(s: string, ms: seq<string>)
    requires NextMarker(s, ms).None?
    ensures Quiet(s, "", ms)
  {
    NextMarkerStep(s, ms);
    hide NextMarker;
    if s != "" {
      QuietNone(s[1..], ms);
      assert s + "" == s;
      NoneFromIndex(s, ms);
    }
  }

  lemma NoneFromIndex(s: string, ms: seq<string>)
    requires MarkerAt(s, ms) == |ms|
    ensures NoneAt(s, ms)
  {
    forall m | m in ms
      ensures !(m <= s)
    {
      var j :| 0 <= j < |ms| && ms[j] == m;
      if m <= s {
        MarkerAtFirst(s, ms, j);
      }
    }
  }

  lemma {:induction false} QuietBefore(s: string, ms: seq<string>)
    requires NextMarker(s, ms).Some?
    ensures Quiet(s[..NextMarker(s, ms).value.pos], "", ms)
  {
    NextMarkerStep(s, ms);
    hide NextMarker;
    var p := NextMarker(s, ms).value.pos;
    if MarkerAt(s, ms) == |ms| && s != "" {
      QuietBefore(s[1..], ms);
      assert s[..p][1..] == s[1..][..p - 1];
      NoneFromIndex(s, ms);
      NoneShorter(s[..p], s, ms);
      assert s[..p] + "" == s[..p];
    }
  }

  lemma NoneShorter(u: string, s: string, ms: seq<string>)
    requires u <= s && NoneAt(s, ms)
    ensures NoneAt(u, ms)
  {
  }

  /** A piece of a quiet text is quiet. */
  lemma {:induction false} QuietSlice(s: string, from: nat, to: nat, ms: seq<string>)
    requires from <= to <= |s| && Quiet(s, "", ms)
    ensures Quiet(s[from..to], "", ms)
    decreases |s|
  {
    if from > 0 {
      QuietSlice(s[1..], from - 1, to - 1, ms);
      assert s[1..][from - 1..to - 1] == s[from..to];
    } else if to > 0 {
      QuietSlice(s[1..], 0, to - 1, ms);
      var u := s[0..to];
      assert u[1..] == s[1..][0..to - 1];
      assert s + "" == s && u + "" == u;
      NoneShorter(u, s, ms);
    }
  }

  // --- The parse

  lemma ShapedOne(v: Value)
    requires ShapedValue(v)
    ensures Shaped([v])
  {
  }

  lemma {:induction false} ShapedConcat(a: seq<Value>, b: seq<Value>)
    requires Shaped(a) && Shaped(b)
    requires a != [] ==> !a[|a| - 1].Html?
    ensures Shaped(a + b)
  {
    hide ShapedValue;
    if a == [] {
      assert a + b == b;
    } else {
      assert (a + b)[1..] == a[1..] + b;
      ShapedConcat(a[1..], b);
    }
  }

  lemma ShapedPiece(t: string, last: Value)
    requires Quiet(t, "", OPENS) && Quiet(t, "", VALUES)
    requires ShapedValue(last) && !last.Html?
    ensures Shaped(HtmlPiece(t) + [last])
  {
    hide Quiet;
    ShapedOne(last);
    var vs := HtmlPiece(t) + [last];
    if t == "" {
      assert vs == [last];
    } else {
      assert vs[0] == Html(t) && vs[1] == last && vs[1..] == [last];
      assert ShapedValue(vs[0]);
    }
  }

  lemma TagShaped(s: string, which: nat)
    requires which < |VALUES| && VALUES[which] <= s
    ensures var o := TagAt(s, which); o.Done? ==> ShapedValue(o.value.0)
  {
    var nameStart := |VALUES[which]| + 1;
    if nameStart < |s| {
      var n := IndexOf(s[nameStart..], '>');
      assert s[nameStart..NameEnd(s, nameStart)] == s[nameStart..][..n];
    }
  }

  lemma {:induction false} SubHtmlShaped(s: string)
    requires Quiet(s, "", OPENS)
    ensures SubHtml(s).Done? ==> Shaped(SubHtml(s).value)
    decreases |s|
  {
    hide Quiet, NextMarker, TagAt, SubHtml, Shaped, ShapedValue;
    if s == "" {
      SubHtmlOfNothing();
      ShapedNothing();
    } else {
      SubHtmlStepOf(s);
      var o := NextMarker(s, VALUES);
      if o.None? {
        QuietNone(s, VALUES);
        PlainShaped(s);
      } else {
        var hit := o.value;
        QuietBefore(s, VALUES);
        QuietSlice(s, 0, hit.pos, OPENS);
        assert s[0..hit.pos] == s[..hit.pos];
        TagShaped(s[hit.pos..], hit.which);
        var head := SubHead(s);
        if head.Done? {
          ShapedPiece(s[..hit.pos], head.value.0[|head.value.0| - 1]);
          var rest := s[head.value.1..];
          QuietSlice(s, head.value.1, |s|, OPENS);
          assert s[head.value.1..|s|] == rest;
          SubHtmlShaped(rest);
          if SubHtml(rest).Done? {
            ShapedConcat(head.value.0, SubHtml(rest).value);
          }
        }
      }
    }
  }

  lemma ShapedNothing()
    ensures Shaped([])
  {
  }

  lemma PlainShaped(s: string)
    requires s != "" && NextMarker(s, VALUES).None?
    requires Quiet(s, "", OPENS) && Quiet(s, "", VALUES)
    ensures SubHtml(s).Done? ==> Shaped(SubHtml(s).value)
  {
    hide Quiet, NextMarker;
    assert SubHead(s) == Done(([Html(s)], |s|));
    assert s[|s|..] == "";
    SubHtmlStepOf(s);
    SubHtmlOfNothing();
    assert [Html(s)] + [] == [Html(s)];
    ShapedOne(Html(s));
  }

  lemma MatchShaped(kind: Kind, s: string, from: nat, to: nat)
    requires from <= to <= |s| && to == NameEnd(s, from)
    ensures var o := MatchOf(kind, s[from..to]); o.Done? ==> ShapedMatch(o.value)
  {
    var n := IndexOf(s[from..], '>');
    assert s[from..to] == s[from..][..n];
  }

  lemma {:induction false} SectionShaped(s: string, hit: Hit)
    requires hit.pos <= |s| && hit.which < |OPENS| && OPENS[hit.which] <= s[hit.pos..]
    requires Quiet(s[..hit.pos], "", OPENS)
    ensures var o := SectionHead(s, hit);
      o.Done? ==> o.value.0 != [] && Shaped(o.value.0) && !o.value.0[|o.value.0| - 1].Html?
    decreases |s|, 0
  {
    hide Quiet, SubHtml, Parse, MatchOf, ShapedMatch, Shaped;
    var o := SectionHead(s, hit);
    if o.Done? {
      var t, kind := s[hit.pos..], KINDS[hit.which];
      var f := Locate(t, kind).value;
      SubHtmlShaped(s[..hit.pos]);
      ParseShaped(BodyOf(t, kind, f));
      MatchShaped(kind, t, |OpenText(kind)|, f.nameEnd);
      var all := o.value.0;
      var last := all[|all| - 1];
      ShapedOne(last);
      SubHtmlEnds(SubHtml(s[..hit.pos]).value, last);
      assert all == SubHtml(s[..hit.pos]).value + [last];
    }
  }

  lemma {:induction false} SubHtmlEnds(vs: seq<Value>, last: Value)
    requires Shaped(vs) && ShapedValue(last) && !last.Html?
    ensures Shaped(vs + [last])
  {
    hide ShapedValue;
    if vs == [] {
      assert vs + [last] == [last];
    } else {
      assert (vs + [last])[1..] == vs[1..] + [last];
      SubHtmlEnds(vs[1..], last);
    }
  }

  /** From any text, a parse that succeeds delivers non-empty HTML pieces, never two in a row,
      free of every marker the parser looks for, names without '>', codes that are longs and
      conditions with one conjunction fewer than tests, at every depth. */
  lemma {:induction false} ParseShaped(s: string)
    ensures Parse(s).Done? ==> Shaped(Parse(s).value)
    decreases |s|, 1
  {
    ParseStep(s);
    hide Quiet, NextMarker, SubHtml, Parse, SectionHead, Shaped;
    var o := NextMarker(s, OPENS);
    if o.None? {
      QuietNone(s, OPENS);
      SubHtmlShaped(s);
    } else {
      QuietBefore(s, OPENS);
      SectionShaped(s, o.value);
      var head := SectionHead(s, o.value);
      if head.Done? {
        var rest := s[head.value.1..];
        ParseShaped(rest);
        if Parse(rest).Done? {
          ShapedConcat(head.value.0, Parse(rest).value);
        }
      }
    }
  }
}
