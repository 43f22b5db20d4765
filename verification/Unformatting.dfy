/** fromUnformattedData: removing white space outside quotes, then the quotes, turns the
    padded text of a response into its compact text. */
module Unformatting {
  import opened Basics
  import opened Responses
  import opened ResponsePrinter
  import opened ResponseParser

  /** The first remove_if: white space outside quotes goes; a quote flips the flag. */
  function DropSpaces(s: string, isQuote: bool): string {
    if s == "" then ""
    else
      var q := if s[0] == '\"' then !isQuote else isQuote;
      (if !q && IsSpace(s[0]) then "" else [s[0]]) + DropSpaces(s[1..], q)
  }

  /** The second remove_if. */
  function DropQuotes(s: string): string {
    if s == "" then "" else (if s[0] == '\"' then "" else [s[0]]) + DropQuotes(s[1..])
  }

  function Strip(s: string): string {
    DropQuotes(DropSpaces(s, false))
  }

  /** The flag after a text. */
  predicate Flag(s: string, isQuote: bool) {
    if s == "" then isQuote else Flag(s[1..], if s[0] == '\"' then !isQuote else isQuote)
  }

  /** White space outside quotes goes, any other character but a quote stays. */
  lemma StripChar(c: char, s: string)
    requires c != '\"'
    ensures Strip([c] + s) == (if c as int in {9, 10, 11, 12, 13, 32} then "" else [c]) + Strip(s)
  {
    assert ([c] + s)[1..] == s;
    var rest := DropSpaces(s, false);
    assert ([c] + rest)[1..] == rest && "" + rest == rest;
    assert IsSpace(c) <==> c as int in {9, 10, 11, 12, 13, 32};
  }

  lemma {:induction false} InQuotes(v: string, w: string)
    requires '\"' !in v
    ensures DropSpaces(v + w, true) == v + DropSpaces(w, true)
    ensures DropQuotes(v + w) == v + DropQuotes(w)
  {
    if v == "" {
      assert v + w == w;
    } else {
      assert (v + w)[1..] == v[1..] + w;
      InQuotes(v[1..], w);
    }
  }

  /** Between quotes everything stays, and the quotes go. */
  lemma StripQuoted(v: string, s: string)
    requires '\"' !in v
    ensures Strip("\"" + v + "\"" + s) == v + Strip(s)
  {
    var t := "\"" + v + "\"" + s;
    var closing := ['\"'] + s;
    assert t[1..] == v + closing && closing[1..] == s;
    InQuotes(v, closing);
    var rest := DropSpaces(s, false);
    assert DropSpaces(closing, true) == ['\"'] + rest;
    assert DropSpaces(t, false) == ['\"'] + (v + (['\"'] + rest));
    assert (['\"'] + (v + (['\"'] + rest)))[1..] == v + (['\"'] + rest);
    InQuotes(v, ['\"'] + rest);
    assert (['\"'] + rest)[1..] == rest;
  }

  /** After a quote that is never closed white space stays to the end. */
  lemma StripUnclosed(v: string)
    requires '\"' !in v
    ensures Strip("\"" + v) == v
  {
    var t := "\"" + v;
    assert t[1..] == v && v + "" == v;
    InQuotes(v, "");
    assert DropSpaces(t, false) == ['\"'] + v && (['\"'] + v)[1..] == v;
  }

  lemma AppendChar(a: string, c: string, b: string)
    ensures a + (c + b) == (a + c) + b
  {
  }

  /** fromUnformattedData: both filters, then fromData. */
  method ReadUnformatted(data: string) returns (r: Reply<Response>)
    ensures r == FromData(Strip(data))
  {
    hide FromData, DropQuotes;
    var kept := "";
    var isQuote := false;
    ghost var goal := DropSpaces(data, false);
    assert data[0..] == data && "" + goal == goal;
    for i := 0 to |data|
      invariant goal == kept + DropSpaces(data[i..], isQuote)
    {
      ghost var rest := data[i..];
      assert rest[0] == data[i] && rest[1..] == data[i + 1..];
      if data[i] == '\"' {
        isQuote := !isQuote;
      }
      if !(!isQuote && IsSpace(data[i])) {
        AppendChar(kept, [data[i]], DropSpaces(data[i + 1..], isQuote));
        kept := kept + [data[i]];
      }
    }
    assert kept + "" == kept;
    var bare := RemoveQuotes(kept);
    r := ReadData(bare);
  }

  method RemoveQuotes(data: string) returns (kept: string)
    ensures kept == DropQuotes(data)
  {
    kept := "";
    ghost var goal := DropQuotes(data);
    assert data[0..] == data && "" + goal == goal;
    for i := 0 to |data|
      invariant goal == kept + DropQuotes(data[i..])
    {
      ghost var rest := data[i..];
      assert rest[0] == data[i] && rest[1..] == data[i + 1..];
      if data[i] != '\"' {
        AppendChar(kept, [data[i]], DropQuotes(data[i + 1..]));
        kept := kept + [data[i]];
      }
    }
    assert kept + "" == kept;
  }

  // --- Stripping text piece by piece

  lemma {:induction false} DropQuotesConcat(u: string, v: string)
    ensures DropQuotes(u + v) == DropQuotes(u) + DropQuotes(v)
  {
    if u == "" {
      assert u + v == v;
    } else {
      assert (u + v)[1..] == u[1..] + v;
      DropQuotesConcat(u[1..], v);
    }
  }

  /** What is kept of the character `c`. */
  function KeptSpace(c: char, isQuote: bool): string {
    if !isQuote && IsSpace(c) then "" else [c]
  }

  function Flip(c: char, isQuote: bool): bool {
    if c == '\"' then !isQuote else isQuote
  }

  lemma DropSpacesStep(s: string, q: bool)
    requires s != ""
    ensures DropSpaces(s, q) == KeptSpace(s[0], Flip(s[0], q)) + DropSpaces(s[1..], Flip(s[0], q))
    ensures Flag(s, q) == Flag(s[1..], Flip(s[0], q))
  {
  }

  lemma {:induction false} DropSpacesConcat(u: string, v: string, q: bool)
    ensures DropSpaces(u + v, q) == DropSpaces(u, q) + DropSpaces(v, Flag(u, q))
    ensures Flag(u + v, q) == Flag(v, Flag(u, q))
  {
    if u == "" {
      assert u + v == v && "" + DropSpaces(v, q) == DropSpaces(v, q);
    } else {
      hide DropSpaces, Flag, KeptSpace, Flip;
      assert (u + v)[1..] == u[1..] + v;
      var q' := Flip(u[0], q);
      DropSpacesConcat(u[1..], v, q');
      DropSpacesStep(u + v, q);
      DropSpacesStep(u, q);
      AppendChar(KeptSpace(u[0], q'), DropSpaces(u[1..], q'), DropSpaces(v, Flag(u, q)));
    }
  }

  /** The text `t` has balanced quotes and strips to `u`. */
  predicate Strips(t: string, u: string) {
    !Flag(t, false) && Strip(t) == u
  }

  lemma StripsConcat(t: string, u: string, t': string, u': string)
    requires Strips(t, u) && Strips(t', u')
    ensures Strips(t + t', u + u')
  {
    hide DropSpaces, DropQuotes, Flag;
    DropSpacesConcat(t, t', false);
    DropQuotesConcat(DropSpaces(t, false), DropSpaces(t', false));
  }

  /** Text between quotes keeps its white space. */
  lemma {:induction false} InsideQuotes(v: string)
    requires '\"' !in v
    ensures DropSpaces(v, true) == v && Flag(v, true) && DropQuotes(v) == v
  {
    if v != "" {
      InsideQuotes(v[1..]);
    }
  }

  lemma StripsQuoted(v: string)
    requires '\"' !in v
    ensures Strips("\"" + v + "\"", v)
  {
    hide DropSpaces, DropQuotes, Flag;
    InsideQuotes(v);
    QuoteMark();
    DropSpacesConcat("\"" + v, "\"", false);
    DropSpacesConcat("\"", v, false);
    DropQuotesConcat("\"" + v, "\"");
    DropQuotesConcat("\"", v);
    assert "" + v + "" == v;
  }

  lemma QuoteMark()
    ensures DropSpaces("\"", false) == "\"" && DropSpaces("\"", true) == "\""
    ensures Flag("\"", false) && !Flag("\"", true)
    ensures DropQuotes("\"") == ""
  {
    var m := "\"";
    assert m[1..] == "" && m + "" == m;
    assert DropSpaces(m[1..], true) == "" && DropSpaces(m[1..], false) == "";
    assert DropQuotes(m[1..]) == "";
  }

  lemma StripsMark(c: char)
    requires c != '\"'
    ensures Strips([c], if IsSpace(c) then "" else [c])
  {
    var m := [c];
    assert m[1..] == "" && m + "" == m;
    assert DropSpaces(m[1..], false) == "" && DropQuotes(m[1..]) == "" && DropQuotes("") == "";
    assert DropSpaces(m, false) == if IsSpace(c) then "" else m;
    assert DropQuotes(m) == m;
  }

  lemma {:induction false} StripsTabs(n: nat)
    ensures Strips(Tabs(n), "")
  {
    hide Strips;
    if n == 0 {
      StripsNothing();
    } else {
      StripsTabs(n - 1);
      StripsMark('\t');
      StripsConcat("\t", "", Tabs(n - 1), "");
      assert "" + "" == "";
    }
  }

  lemma StripsNothing()
    ensures Strips("", "")
  {
  }

  /** A key loses its white space. */
  function Squeeze(key: string): string {
    if key == "" then "" else (if IsSpace(key[0]) then "" else [key[0]]) + Squeeze(key[1..])
  }

  lemma {:induction false} StripsKey(key: string)
    requires '\"' !in key
    ensures Strips(key, Squeeze(key))
  {
    hide Strips;
    if key == "" {
      StripsNothing();
    } else {
      StripsMark(key[0]);
      StripsKey(key[1..]);
      assert key == [key[0]] + key[1..];
      StripsConcat([key[0]], if IsSpace(key[0]) then "" else [key[0]], key[1..], Squeeze(key[1..]));
    }
  }

  // --- Whole responses

  /** No quote in any key or value. */
  predicate Quoteless(w: Response) {
    forall e | e in w.elements :: QuotelessElement(e)
  }

  predicate QuotelessElement(e: Element) {
    '\"' !in e.key && QuotelessContent(e.content)
  }

  predicate QuotelessContent(c: Content) {
    match c
    case Strings(ss) => forall s | s in ss :: '\"' !in s
    case Objects(os) => forall o | o in os :: Quoteless(o)
  }

  /** The response with the white space of its keys removed. */
  function Bare(w: Response): Response {
    Response(seq(|w.elements|, i requires 0 <= i < |w.elements| => BareElement(w.elements[i])))
  }

  function BareElement(e: Element): Element {
    Element(Squeeze(e.key), BareContent(e.content), e.forced)
  }

  function BareContent(c: Content): (r: Content)
    ensures r.Size() == c.Size()
  {
    match c
    case Strings(_) => c
    case Objects(os) => Objects(seq(|os|, i requires 0 <= i < |os| => Bare(os[i])))
  }

  lemma {:induction false} JoinedStrips(ps: seq<string>, cs: seq<string>)
    requires |ps| == |cs|
    requires forall i | 0 <= i < |ps| :: Strips(ps[i], cs[i])
    ensures Strips(Joined(ps, true), Joined(cs, false))
  {
    hide Strips, Joined;
    if ps == [] {
      JoinedNothing(true);
      JoinedNothing(false);
      StripsNothing();
    } else {
      JoinedStrips(ps[1..], cs[1..]);
      var comma := if |ps| > 1 then "," else "";
      var tail, tail' := Joined(ps[1..], true), Joined(cs[1..], false);
      JoinedUnfold(ps, true);
      JoinedUnfold(cs, false);
      StripsMark('\n');
      StripsMark(',');
      StripsNothing();
      StripsConcat("\n", "", tail, tail');
      StripsConcat(comma, comma, "\n" + tail, "" + tail');
      StripsConcat(ps[0], cs[0], comma + ("\n" + tail), comma + ("" + tail'));
    }
  }

  lemma JoinedUnfold(pieces: seq<string>, pad: bool)
    requires pieces != []
    ensures Joined(pieces, pad) ==
            pieces[0] + ((if |pieces| > 1 then "," else "") + (Pad(pad, "\n") + Joined(pieces[1..], pad)))
  {
    hide Pad;
  }

  /** Stripping the padded text of any response without quotes gives the compact text of the
      response with the white space of its keys removed. */
  lemma {:induction false} ObjectStrips(w: Response, depth: nat, prespace: bool, depth': nat, prespace': bool)
    requires Quoteless(w)
    ensures Strips(ObjectText(w, depth, prespace, true), ObjectText(Bare(w), depth', prespace', false))
    decreases w, 0
  {
    hide Strips, Joined, FieldText, QuotelessElement, BareElement, Tabs;
    var ps, cs := FieldTexts(w.elements, depth + 1, true), FieldTexts(Bare(w).elements, depth' + 1, false);
    forall i | 0 <= i < |ps|
      ensures Strips(ps[i], cs[i])
    {
      assert w.elements[i] in w.elements;
      FieldStrips(w.elements[i], depth + 1, depth' + 1);
    }
    JoinedStrips(ps, cs);
    var inner, inner' := Joined(ps, true), Joined(cs, false);
    var pre := Pad(prespace, Tabs(depth));
    StripsTabs(depth);
    StripsNothing();
    StripsMark('{');
    StripsMark('}');
    StripsMark('\n');
    StripsConcat(Tabs(depth), "", "}", "}");
    StripsConcat(inner, inner', Tabs(depth) + "}", "" + "}");
    StripsConcat("\n", "", inner + (Tabs(depth) + "}"), inner' + ("" + "}"));
    StripsConcat("{", "{", "\n" + (inner + (Tabs(depth) + "}")), "" + (inner' + ("" + "}")));
    StripsConcat(pre, "", "{" + ("\n" + (inner + (Tabs(depth) + "}"))), "{" + ("" + (inner' + ("" + "}"))));
    assert ObjectText(w, depth, prespace, true) == pre + ("{" + ("\n" + (inner + (Tabs(depth) + "}"))));
    assert ObjectText(Bare(w), depth', prespace', false) == "" + ("{" + ("" + (inner' + ("" + "}"))));
  }

  lemma {:induction false} FieldStrips(e: Element, depth: nat, depth': nat)
    requires QuotelessElement(e)
    ensures Strips(FieldText(e, depth, true), FieldText(BareElement(e), depth', false))
    decreases e, 0
  {
    hide Strips, ContainerText, QuotelessContent, BareContent, Tabs, Squeeze;
    var c := ContainerText(e.content, depth, e.forced, true);
    var c' := ContainerText(BareContent(e.content), depth', e.forced, false);
    ContainerStrips(e.content, depth, e.forced, depth');
    StripsKey(e.key);
    StripsTabs(depth);
    StripsMark(':');
    StripsMark(' ');
    StripsConcat(" ", "", c, c');
    StripsConcat(":", ":", " " + c, "" + c');
    StripsConcat(e.key, Squeeze(e.key), ":" + (" " + c), ":" + ("" + c'));
    StripsConcat(Tabs(depth), "", e.key + (":" + (" " + c)), Squeeze(e.key) + (":" + ("" + c')));
    assert FieldText(e, depth, true) == Tabs(depth) + (e.key + (":" + (" " + c)));
    assert FieldText(BareElement(e), depth', false) == "" + (Squeeze(e.key) + (":" + ("" + c')));
  }

  lemma {:induction false} ContainerStrips(c: Content, depth: nat, forced: bool, depth': nat)
    requires QuotelessContent(c)
    ensures Strips(ContainerText(c, depth, forced, true), ContainerText(BareContent(c), depth', forced, false))
    decreases c, 2
  {
    hide Strips, QuotelessContent, BareContent, ItemTexts, ArrayText;
    if c.Size() > 1 || forced {
      ArrayStrips(c, depth, depth');
    } else {
      StripsNothing();
      ItemsStrip(c, depth, false, depth', false);
    }
  }

  lemma {:induction false} ArrayStrips(c: Content, depth: nat, depth': nat)
    requires QuotelessContent(c)
    ensures Strips(ArrayText(c, depth, true), ArrayText(BareContent(c), depth', false))
    decreases c, 1
  {
    hide Strips, Joined, QuotelessContent, BareContent, ItemTexts, Tabs;
    var ps, cs := ItemTexts(c, depth + 1, true, true), ItemTexts(BareContent(c), depth' + 1, true, false);
    ItemsStrip(c, depth + 1, true, depth' + 1, true);
    JoinedStrips(ps, cs);
    var inner, inner' := Joined(ps, true), Joined(cs, false);
    StripsTabs(depth);
    StripsMark('[');
    StripsMark(']');
    StripsMark('\n');
    StripsConcat(Tabs(depth), "", "]", "]");
    StripsConcat(inner, inner', Tabs(depth) + "]", "" + "]");
    StripsConcat("\n", "", inner + (Tabs(depth) + "]"), inner' + ("" + "]"));
    StripsConcat("[", "[", "\n" + (inner + (Tabs(depth) + "]")), "" + (inner' + ("" + "]")));
    assert ArrayText(c, depth, true) == "[" + ("\n" + (inner + (Tabs(depth) + "]")));
    assert ArrayText(BareContent(c), depth', false) == "[" + ("" + (inner' + ("" + "]")));
  }

  lemma {:induction false} ItemsStrip(c: Content, depth: nat, prespace: bool, depth': nat, prespace': bool)
    requires QuotelessContent(c)
    ensures forall i | 0 <= i < c.Size() ::
              Strips(ItemTexts(c, depth, prespace, true)[i], ItemTexts(BareContent(c), depth', prespace', false)[i])
    decreases c, 0
  {
    hide Strips, ObjectText, Quoteless, Bare, StringText;
    forall i | 0 <= i < c.Size()
      ensures Strips(ItemTexts(c, depth, prespace, true)[i], ItemTexts(BareContent(c), depth', prespace', false)[i])
    {
      match c
      case Strings(ss) =>
        assert ss[i] in ss;
        StringStrips(ss[i], depth, prespace, depth', prespace');
      case Objects(os) =>
        assert os[i] in os;
        ObjectStrips(os[i], depth, prespace, depth', prespace');
    }
  }

  lemma StringStrips(v: string, depth: nat, prespace: bool, depth': nat, prespace': bool)
    requires '\"' !in v
    ensures Strips(StringText(v, depth, prespace, true), StringText(v, depth', prespace', false))
  {
    hide Strips, Tabs;
    var pre := Pad(prespace, Tabs(depth));
    StripsTabs(depth);
    StripsNothing();
    StripsQuoted(v);
    StripsConcat(pre, "", "\"" + v + "\"", v);
    assert StringText(v, depth, prespace, true) == pre + ("\"" + v + "\"");
    assert StringText(v, depth', prespace', false) == "" + v;
  }
}
