/** When a template's text may be put in front of another text: exactly when no marker
    straddles the join. */
module TemplateJoin {
  import opened Basics
  import opened MarkerSearch
  import opened Markers
  import opened Templates
  import opened TemplateParser
  import opened TemplateRoundTrip
  import opened TemplateShape

  // --- Where the first piece of a parse ends

  /** The text `x` begins with the first piece: nothing, HTML up to the end or to a '<', or a
      tag. */
  predicate Begins(x: string, ys: seq<Value>) {
    if ys == [] then x == ""
    else if ys[0].Html? then
      ys[0].text <= x && (|ys[0].text| < |x| ==> x[|ys[0].text|] == '<')
    else x != "" && x[0] == '<'
  }

  lemma BeginsMore(x: string, a: seq<Value>, b: seq<Value>)
    requires a != [] && Begins(x, a)
    ensures Begins(x, a + b)
  {
    assert (a + b)[0] == a[0];
  }

  lemma ValueStarts(s: string, which: nat)
    requires which < |VALUES| && VALUES[which] <= s
    ensures s != "" && s[0] == '<'
  {
    TagMarkerText(which);
    MarkerShape(TagMarker(which));
  }

  lemma OpenStarts(s: string, which: nat)
    requires which < |OPENS| && OPENS[which] <= s
    ensures s != "" && s[0] == '<'
  {
    assert OPENS[which] == Open(KINDS[which]).Text();
    MarkerShape(Open(KINDS[which]));
  }

  lemma PieceBegins(s: string, pos: nat, tag: Value)
    requires pos < |s| && s[pos] == '<' && !tag.Html?
    ensures Begins(s, HtmlPiece(s[..pos]) + [tag])
  {
    if pos == 0 {
      assert HtmlPiece(s[..pos]) + [tag] == [tag];
    } else {
      assert (HtmlPiece(s[..pos]) + [tag])[0] == Html(s[..pos]);
    }
  }

  lemma HtmlBegins(s: string)
    requires s != ""
    ensures Begins(s, [Html(s)])
  {
  }

  lemma NothingBegins()
    ensures Begins("", [])
  {
  }

  lemma SubHtmlBegins(s: string)
    ensures SubHtml(s).Done? ==> Begins(s, SubHtml(s).value)
  {
    hide NextMarker, TagAt, SubHtml, Begins;
    if s == "" {
      SubHtmlOfNothing();
      NothingBegins();
    } else {
      SubHtmlStepOf(s);
      var o := NextMarker(s, VALUES);
      if o.None? {
        SubHtmlOfAll(s);
        HtmlBegins(s);
      } else {
        var hit, head := o.value, SubHead(s);
        ValueStarts(s[hit.pos..], hit.which);
        if head.Done? {
          PieceBegins(s, hit.pos, head.value.0[|head.value.0| - 1]);
          if SubHtml(s[head.value.1..]).Done? {
            BeginsMore(s, head.value.0, SubHtml(s[head.value.1..]).value);
          }
        }
      }
    }
  }

  lemma BeginsUpTo(x: string, pos: nat, ys: seq<Value>, section: Value)
    requires pos < |x| && x[pos] == '<' && Begins(x[..pos], ys) && !section.Html?
    ensures Begins(x, ys + [section])
  {
    if ys == [] {
      assert ys + [section] == [section];
    } else {
      assert (ys + [section])[0] == ys[0];
    }
  }

  lemma HeadBegins(x: string, hit: Hit)
    requires hit.pos <= |x| && hit.which < |OPENS| && OPENS[hit.which] <= x[hit.pos..]
    ensures SectionHead(x, hit).Done? ==> SectionHead(x, hit).value.0 != [] && Begins(x, SectionHead(x, hit).value.0)
  {
    hide SubHtml, Parse, Locate, MatchOf, Begins;
    OpenStarts(x[hit.pos..], hit.which);
    SubHtmlBegins(x[..hit.pos]);
    var head := SectionHead(x, hit);
    if head.Done? {
      var all := head.value.0;
      BeginsUpTo(x, hit.pos, SubHtml(x[..hit.pos]).value, all[|all| - 1]);
    }
  }

  lemma ParseBegins(x: string)
    ensures Parse(x).Done? ==> Begins(x, Parse(x).value)
  {
    hide NextMarker, SubHtml, Parse, SectionHead, Begins;
    ParseStep(x);
    var o := NextMarker(x, OPENS);
    if o.None? {
      SubHtmlBegins(x);
    } else {
      HeadBegins(x, o.value);
      var head := SectionHead(x, o.value);
      if head.Done? && Parse(x[head.value.1..]).Done? {
        BeginsMore(x, head.value.0, Parse(x[head.value.1..]).value);
      }
    }
  }

  // --- The piece at the join

  /** In a well-shaped result the last piece of `vs`, merged with what follows, is well-shaped. */
  lemma {:induction false} LastShaped(vs: seq<Value>, ys: seq<Value>)
    requires Normal(vs) && vs != []
    requires Attach(vs, Done(ys)).Done? ==> Shaped(Attach(vs, Done(ys)).value)
    ensures ShapedValue(MergeFront(vs[|vs| - 1], ys)[0])
  {
    hide ShapedValue, NormalValue;
    var rest := vs[1..];
    AttachDone(rest, ys);
    var zs := Attach(rest, Done(ys)).value;
    if |vs| > 1 {
      AttachFirst(rest, ys);
      assert MergeFront(vs[0], zs) == [vs[0]] + zs;
      assert ([vs[0]] + zs)[1..] == zs;
      LastShaped(rest, ys);
    } else {
      assert zs == ys;
    }
  }

  lemma {:induction false} AttachDone(vs: seq<Value>, ys: seq<Value>)
    ensures Attach(vs, Done(ys)).Done?
  {
    if vs != [] {
      AttachDone(vs[1..], ys);
    }
  }

  lemma AttachFirst(vs: seq<Value>, ys: seq<Value>)
    requires vs != []
    ensures Attach(vs, Done(ys)).Done? && Attach(vs, Done(ys)).value != []
    ensures Attach(vs, Done(ys)).value[0].Html? ==> vs[0].Html?
  {
    AttachDone(vs[1..], ys);
  }

  lemma {:induction false} QuietSplit(u: string, v: string, w: string, ms: seq<string>)
    requires Quiet(u + v, w, ms)
    ensures Quiet(u, v + w, ms)
  {
    hide NoneAt;
    if u != "" {
      assert (u + v)[1..] == u[1..] + v;
      assert u + (v + w) == (u + v) + w;
      QuietSplit(u[1..], v, w, ms);
    }
  }

  /** HTML whose merged piece holds no marker starts none that reaches into the text. */
  lemma JoinQuiet(t: string, x: string, ys: seq<Value>, ms: seq<string>)
    requires AreMarkers(ms) && Begins(x, ys)
    requires Quiet(t + (if ys != [] && ys[0].Html? then ys[0].text else ""), "", ms)
    ensures Quiet(t, x, ms)
  {
    hide Quiet;
    if ys != [] && ys[0].Html? {
      var g := ys[0].text;
      assert x == g + x[|g|..];
      QuietBeforeTag(t + g, x[|g|..], ms);
      QuietSplit(t, g, x[|g|..], ms);
    } else {
      assert t + "" == t;
      QuietBeforeTag(t, x, ms);
    }
  }

  // --- The main result

  /** The text of a normal template in front of a text that parses gives the template's pieces
      and then those of the text if and only if the template's last HTML starts no marker that
      reaches into the text. */
  lemma ParsePrefixedExactly(vs: seq<Value>, x: string)
    requires Normal(vs) && Parse(x).Done?
    ensures Parse(Print(vs) + x) == Attach(vs, Parse(x)) <==> NoStraddle(vs, x)
  {
    hide Parse, Print, Attach, Normal, Shaped, Quiet, Begins;
    if NoStraddle(vs, x) {
      ParsePrefixed(vs, x);
    }
    if Parse(Print(vs) + x) == Attach(vs, Parse(x)) && vs != [] && vs[|vs| - 1].Html? {
      var ys := Parse(x).value;
      ParseShaped(Print(vs) + x);
      AttachDone(vs, ys);
      LastShaped(vs, ys);
      ParseBegins(x);
      OpensAreMarkers();
      var t := vs[|vs| - 1].text;
      assert t + "" == t;
      JoinQuiet(t, x, ys, OPENS);
      JoinQuiet(t, x, ys, VALUES);
    }
  }
}
