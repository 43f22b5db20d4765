/** Exactly when reading the padded text is reading the compact text: keys and values
    without quotes, keys without white space. */
module UnformattingExact {
  import opened Basics
  import opened Responses
  import opened ResponsePrinter
  import opened ResponseParser
  import opened Unformatting

  /** No white space in any key. */
  predicate Tight(w: Response) {
    forall e | e in w.elements :: TightElement(e)
  }

  predicate TightElement(e: Element) {
    (forall c | c in e.key :: !IsSpace(c)) && TightContent(e.content)
  }

  predicate TightContent(c: Content) {
    c.Objects? ==> forall o | o in c.objects :: Tight(o)
  }

  // --- Keys without white space stay as they are

  lemma {:induction false} SqueezeLength(key: string)
    ensures |Squeeze(key)| <= |key|
    ensures |Squeeze(key)| == |key| <==> forall c | c in key :: !IsSpace(c)
    ensures |Squeeze(key)| == |key| ==> Squeeze(key) == key
  {
    if key != "" {
      SqueezeLength(key[1..]);
      assert key == [key[0]] + key[1..];
    }
  }

  lemma {:induction false} BareTight(w: Response)
    requires Tight(w)
    ensures Bare(w) == w
    decreases w
  {
    hide TightElement, BareElement;
    forall i | 0 <= i < |w.elements|
      ensures BareElement(w.elements[i]) == w.elements[i]
    {
      assert w.elements[i] in w.elements;
      BareElementTight(w.elements[i]);
    }
    assert Bare(w).elements == w.elements;
  }

  lemma {:induction false} BareElementTight(e: Element)
    requires TightElement(e)
    ensures BareElement(e) == e
    decreases e
  {
    hide Bare, Tight, Squeeze;
    SqueezeLength(e.key);
    if e.content.Objects? {
      var os := e.content.objects;
      forall i | 0 <= i < |os|
        ensures Bare(os[i]) == os[i]
      {
        assert os[i] in os;
        BareTight(os[i]);
      }
      assert BareContent(e.content).objects == os;
    }
  }

  // --- Quotes never survive stripping

  lemma {:induction false} NoQuotesLeft(s: string)
    ensures '\"' !in DropQuotes(s)
  {
    if s != "" {
      NoQuotesLeft(s[1..]);
    }
  }

  lemma {:induction false} JoinedContains(pieces: seq<string>, i: nat, c: char)
    requires i < |pieces| && c in pieces[i]
    ensures c in Joined(pieces, false)
  {
    JoinedUnfold(pieces, false);
    hide Joined;
    if i > 0 {
      JoinedContains(pieces[1..], i - 1, c);
    }
  }

  lemma {:induction false} QuotelessObject(w: Response, depth: nat, prespace: bool)
    requires '\"' !in ObjectText(w, depth, prespace, false)
    ensures Quoteless(w)
    decreases w, 0
  {
    hide Joined, FieldText, QuotelessElement, Tabs;
    var pieces := FieldTexts(w.elements, depth + 1, false);
    forall e | e in w.elements
      ensures QuotelessElement(e)
    {
      var i :| 0 <= i < |w.elements| && w.elements[i] == e;
      if '\"' in pieces[i] {
        JoinedContains(pieces, i, '\"');
      }
      QuotelessField(e, depth + 1);
    }
  }

  lemma {:induction false} QuotelessField(e: Element, depth: nat)
    requires '\"' !in FieldText(e, depth, false)
    ensures QuotelessElement(e)
    decreases e, 3
  {
    hide Joined, ItemTexts, QuotelessContent, Tabs;
    var c := e.content;
    if c.Size() > 1 || e.forced {
      var items := ItemTexts(c, depth + 1, true, false);
      var j := Joined(items, false);
      assert ContainerText(c, depth, true, false) == "[" + "" + j + "" + "]";
      assert FieldText(e, depth, false) == e.key + ":" + ("[" + "" + j + "" + "]");
      assert '\"' !in j;
      forall i | 0 <= i < |items|
        ensures '\"' !in items[i]
      {
        if '\"' in items[i] {
          JoinedContains(items, i, '\"');
        }
      }
      QuotelessItems(c, depth + 1, true);
    } else {
      QuotelessItems(c, depth, false);
    }
  }

  lemma {:induction false} QuotelessItems(c: Content, depth: nat, prespace: bool)
    requires forall i | 0 <= i < c.Size() :: '\"' !in ItemTexts(c, depth, prespace, false)[i]
    ensures QuotelessContent(c)
    decreases c, 2
  {
    hide ObjectText, Quoteless, Tabs;
    match c
    case Strings(ss) =>
      forall s | s in ss
        ensures '\"' !in s
      {
        var i :| 0 <= i < |ss| && ss[i] == s;
        assert '\"' !in ItemTexts(c, depth, prespace, false)[i];
      }
    case Objects(os) =>
      forall o | o in os
        ensures Quoteless(o)
      {
        var i :| 0 <= i < |os| && os[i] == o;
        assert '\"' !in ItemTexts(c, depth, prespace, false)[i];
        QuotelessObject(o, depth, prespace);
      }
  }

  // --- Removing white space from a key shortens the text

  /** Each text of `ps` is at most as long as its counterpart in `qs`. */
  predicate Shorter(ps: seq<string>, qs: seq<string>) {
    |ps| == |qs| && forall i | 0 <= i < |ps| :: |ps[i]| <= |qs[i]|
  }

  lemma {:induction false} JoinedLengths(ps: seq<string>, qs: seq<string>)
    requires Shorter(ps, qs)
    ensures |Joined(ps, false)| <= |Joined(qs, false)|
    ensures |Joined(ps, false)| == |Joined(qs, false)| ==> forall i | 0 <= i < |ps| :: |ps[i]| == |qs[i]|
  {
    if ps != [] {
      JoinedUnfold(ps, false);
      JoinedUnfold(qs, false);
      hide Joined;
      JoinedLengths(ps[1..], qs[1..]);
      if |Joined(ps, false)| == |Joined(qs, false)| {
        forall i | 0 <= i < |ps|
          ensures |ps[i]| == |qs[i]|
        {
          assert i > 0 ==> ps[i] == ps[1..][i - 1] && qs[i] == qs[1..][i - 1];
        }
      }
    }
  }

  lemma {:induction false} ObjectLength(w: Response, depth: nat, prespace: bool)
    ensures |ObjectText(Bare(w), depth, prespace, false)| <= |ObjectText(w, depth, prespace, false)|
    ensures |ObjectText(Bare(w), depth, prespace, false)| == |ObjectText(w, depth, prespace, false)| ==> Tight(w)
    decreases w, 0
  {
    hide Joined, FieldText, TightElement, BareElement, Tabs;
    var ps, qs := FieldTexts(Bare(w).elements, depth + 1, false), FieldTexts(w.elements, depth + 1, false);
    forall i | 0 <= i < |w.elements|
      ensures |ps[i]| <= |qs[i]| && (|ps[i]| == |qs[i]| ==> TightElement(w.elements[i]))
    {
      FieldLength(w.elements[i], depth + 1);
    }
    JoinedLengths(ps, qs);
  }

  lemma {:induction false} FieldLength(e: Element, depth: nat)
    ensures |FieldText(BareElement(e), depth, false)| <= |FieldText(e, depth, false)|
    ensures |FieldText(BareElement(e), depth, false)| == |FieldText(e, depth, false)| ==> TightElement(e)
    decreases e, 0
  {
    hide ContainerText, TightContent, BareContent, Tabs, Squeeze;
    SqueezeLength(e.key);
    ContainerLength(e.content, depth, e.forced);
  }

  lemma {:induction false} ContainerLength(c: Content, depth: nat, forced: bool)
    ensures |ContainerText(BareContent(c), depth, forced, false)| <= |ContainerText(c, depth, forced, false)|
    ensures |ContainerText(BareContent(c), depth, forced, false)| == |ContainerText(c, depth, forced, false)| ==>
              TightContent(c)
    decreases c, 2
  {
    hide Joined, ItemTexts, TightContent, BareContent, Tabs;
    if c.Size() > 1 || forced {
      ItemsLength(c, depth + 1, true);
      JoinedLengths(ItemTexts(BareContent(c), depth + 1, true, false), ItemTexts(c, depth + 1, true, false));
    } else {
      ItemsLength(c, depth, false);
    }
  }

  lemma {:induction false} ItemsLength(c: Content, depth: nat, prespace: bool)
    ensures Shorter(ItemTexts(BareContent(c), depth, prespace, false), ItemTexts(c, depth, prespace, false))
    ensures (forall i | 0 <= i < c.Size() ::
              |ItemTexts(BareContent(c), depth, prespace, false)[i]| == |ItemTexts(c, depth, prespace, false)[i]|) ==>
            TightContent(c)
    decreases c, 0
  {
    hide ObjectText, StringText, Tight, Bare;
    var ps, qs := ItemTexts(BareContent(c), depth, prespace, false), ItemTexts(c, depth, prespace, false);
    if c.Objects? {
      forall i | 0 <= i < |c.objects|
        ensures |ps[i]| <= |qs[i]| && (|ps[i]| == |qs[i]| ==> Tight(c.objects[i]))
      {
        ObjectLength(c.objects[i], depth, prespace);
      }
    }
  }

  // --- The result

  /** Stripping the padded text gives exactly the compact text if and only if no key or value
      has a quote and no key has white space. */
  lemma StripIsCompact(w: Response)
    ensures Strip(Text(w, true)) == Text(w, false) <==> Quoteless(w) && Tight(w)
  {
    hide ObjectText, Strip, Quoteless, Tight, Bare;
    if Strip(Text(w, true)) == Text(w, false) {
      StripHasNoQuotes(Text(w, true));
      QuotelessObject(w, 0, false);
    }
    if Quoteless(w) {
      ObjectStrips(w, 0, false, 0, false);
      ObjectLength(w, 0, false);
      if Tight(w) {
        BareTight(w);
      }
    }
  }

  lemma StripHasNoQuotes(s: string)
    ensures '\"' !in Strip(s)
  {
    NoQuotesLeft(DropSpaces(s, false));
  }

  /** Reading the padded text is reading the compact text. */
  lemma UnformattedIsFormatted(w: Response)
    requires Quoteless(w) && Tight(w)
    ensures FromData(Strip(Text(w, true))) == FromData(Text(w, false))
  {
    StripIsCompact(w);
  }
}
