/** What every successful reading delivers, from any text whatever, and with it exactly which
    responses survive being printed and read. */
module ResponseShape {
  import opened Basics
  import opened Responses
  import opened ResponsePrinter
  import opened ResponseParser
  import opened ResponseRoundTrip
  import ResponseEdges

  /** No key with a ':', no value with a ',', no empty list, and no several values without
      their brackets marked, at every depth. */
  predicate Shaped(w: Response) {
    forall e | e in w.elements :: ShapedElement(e)
  }

  predicate ShapedElement(e: Element) {
    ':' !in e.key && ShapedContent(e.content) && (e.content.Size() > 1 ==> e.forced)
  }

  predicate ShapedContent(c: Content) {
    match c
    case Strings(ss) => ss != [] && forall s | s in ss :: ',' !in s
    case Objects(os) => os != [] && forall o | o in os :: Shaped(o)
  }

  lemma ShapedConcat(a: seq<Element>, b: seq<Element>)
    requires Shaped(Response(a)) && Shaped(Response(b))
    ensures Shaped(Response(a + b))
  {
    hide ShapedElement;
    forall e | e in a + b
      ensures ShapedElement(e)
    {
      assert e in Response(a).elements || e in Response(b).elements;
    }
  }

  lemma ShapedOne(e: Element)
    requires ShapedElement(e)
    ensures Shaped(Response([e]))
  {
  }

  /** From any text, a reading that succeeds delivers keys without ':', values without ',',
      non-empty lists, and marked brackets around several values. */
  lemma {:induction false} ReadShaped(data: string)
    ensures FromData(data).Parsed? ==> Shaped(FromData(data).value)
    decreases |data|, 1
  {
    hide Fields, Shaped;
    if data != "" && data[0] == '{' && data[|data| - 1] == '}' {
      FieldsShaped(data[1..]);
    } else {
      ShapedNothing();
    }
  }

  lemma ShapedNothing()
    ensures Shaped(Response([]))
  {
  }

  lemma {:induction false} FieldsShaped(rest: string)
    requires rest != "" && rest[|rest| - 1] == '}'
    ensures Fields(rest).Parsed? ==> Shaped(Response(Fields(rest).value))
    decreases |rest|, 4
  {
    hide FirstField, Fields, Shaped, ShapedElement;
    FieldsStep(rest, []);
    BehindNothing(Fields(rest));
    ShapedNothing();
    FirstFieldShaped(rest);
    var o := FirstField(rest);
    if o.Parsed? && o.value.Some? {
      var e, more := o.value.value.0, rest[o.value.value.1..];
      assert [] + [e] == [e];
      FieldsShaped(more);
      ShapedOne(e);
      if Fields(more).Parsed? {
        ShapedConcat([e], Fields(more).value);
      }
    }
  }

  lemma {:induction false} FirstFieldShaped(rest: string)
    requires rest != "" && rest[|rest| - 1] == '}'
    ensures var o := FirstField(rest); o.Parsed? && o.value.Some? ==> ShapedElement(o.value.value.0)
    decreases |rest|, 3
  {
    hide FieldContent, ShapedContent;
    var end := |rest| - 1;
    var div := IndexOf(rest[..end], ':');
    if div < end {
      ContentShaped(rest[div + 1..]);
      assert rest[..end][..div] == rest[..div];
    }
  }

  lemma {:induction false} ContentShaped(t: string)
    requires t != "" && t[|t| - 1] == '}'
    ensures var o := FieldContent(t);
      o.Parsed? ==> ShapedContent(o.value.0) && (o.value.0.Size() > 1 ==> t[0] == '[')
    decreases |t|, 2
  {
    hide FromData, ObjectList, SplitCommas, Match, Shaped;
    var end := |t| - 1;
    if t[0] == '{' {
      ReadShaped(t[..Match(t[..end], '{', '}', -1) + 1]);
    } else if t[0] == '[' {
      var b := Match(t[..end], '[', ']', -1);
      OpeningFirst(t[..end]);
      ObjectsShaped(t[1..b + 1]);
      SplitPieces(t[1..b]);
    } else {
      var b := IndexOf(t[..end], ',');
      assert t[..end][..b] == t[..b];
    }
  }

  lemma {:induction false} ObjectsShaped(seg: string)
    ensures var o := ObjectList(seg);
      o.Parsed? ==> o.value != [] && forall w | w in o.value :: Shaped(w)
    decreases |seg|, 2
  {
    hide FromData, Match, Shaped;
    if seg != "" && seg[0] == '{' {
      var lim := |seg| - 1;
      var b := Match(seg[..lim], '{', '}', -1);
      ReadShaped(seg[..b + 1]);
      if b < lim - 1 {
        ObjectsShaped(seg[b + 2..]);
      }
    }
  }

  // --- What comes back

  /** A response that was read is its own normal form and can be printed. */
  lemma {:induction false} ShapedNorm(w: Response)
    requires Shaped(w)
    ensures Norm(w) == w && Populated(w)
    decreases w, 1
  {
    hide ShapedElement, NormElement, PopulatedContent;
    forall i | 0 <= i < |w.elements|
      ensures NormElement(w.elements[i]) == w.elements[i] && PopulatedContent(w.elements[i].content)
    {
      assert w.elements[i] in w.elements;
      ShapedElementNorm(w.elements[i]);
    }
    assert NormElements(w.elements) == w.elements;
  }

  lemma {:induction false} ShapedElementNorm(e: Element)
    requires ShapedElement(e)
    ensures NormElement(e) == e && PopulatedContent(e.content)
    decreases e, 0
  {
    hide Shaped, Norm, Populated;
    if e.content.Objects? {
      var os := e.content.objects;
      forall o | o in os
        ensures Norm(o) == o && Populated(o)
      {
        assert Shaped(o);
        ShapedNorm(o);
      }
      assert NormAll(os) == os;
    }
  }

  const BRACKETS := "{}[]"

  /** No empty list, and no bracket in any key or value. */
  predicate Unbracketed(w: Response) {
    forall e | e in w.elements :: UnbracketedElement(e)
  }

  predicate UnbracketedElement(e: Element) {
    Free(e.key, BRACKETS) && UnbracketedContent(e.content)
  }

  predicate UnbracketedContent(c: Content) {
    match c
    case Strings(ss) => ss != [] && forall s | s in ss :: Free(s, BRACKETS)
    case Objects(os) => os != [] && forall o | o in os :: Unbracketed(o)
  }

  /** No key with a ':' and no value with a ',', at every depth. */
  predicate Undivided(w: Response) {
    forall e | e in w.elements :: UndividedElement(e)
  }

  predicate UndividedElement(e: Element) {
    ':' !in e.key && UndividedContent(e.content)
  }

  predicate UndividedContent(c: Content) {
    match c
    case Strings(ss) => forall s | s in ss :: ',' !in s
    case Objects(os) => forall o | o in os :: Undivided(o)
  }

  lemma FreeMore(s: string, c: char, chars: string)
    requires Free(s, chars) && c !in s
    ensures Free(s, [c] + chars)
  {
  }

  lemma {:induction false} SendableParts(w: Response)
    requires Unbracketed(w) && Undivided(w)
    ensures Sendable(w)
    decreases w, 1
  {
    hide SendableElement, UnbracketedElement, UndividedElement;
    forall e | e in w.elements
      ensures SendableElement(e)
    {
      SendableElementParts(e);
    }
  }

  lemma {:induction false} SendableElementParts(e: Element)
    requires UnbracketedElement(e) && UndividedElement(e)
    ensures SendableElement(e)
    decreases e, 0
  {
    hide Free, Sendable, Unbracketed, Undivided;
    assert [':'] + BRACKETS == KEY_BREAKERS && [','] + BRACKETS == VALUE_BREAKERS;
    FreeMore(e.key, ':', BRACKETS);
    match e.content
    case Strings(ss) =>
      forall s | s in ss
        ensures Free(s, VALUE_BREAKERS)
      {
        FreeMore(s, ',', BRACKETS);
      }
    case Objects(os) =>
      forall o | o in os
        ensures Sendable(o)
      {
        SendableParts(o);
      }
  }

  lemma {:induction false} UndividedNorm(w: Response)
    requires Shaped(Norm(w))
    ensures Undivided(w)
    decreases w, 1
  {
    hide ShapedElement, UndividedElement, NormElement;
    forall e | e in w.elements
      ensures UndividedElement(e)
    {
      var i :| 0 <= i < |w.elements| && w.elements[i] == e;
      assert Norm(w).elements[i] in Norm(w).elements;
      UndividedElementNorm(e);
    }
  }

  lemma {:induction false} UndividedElementNorm(e: Element)
    requires ShapedElement(NormElement(e))
    ensures UndividedElement(e)
    decreases e, 0
  {
    hide Shaped, Undivided, Norm;
    if e.content.Objects? {
      var os := e.content.objects;
      forall o | o in os
        ensures Undivided(o)
      {
        var j :| 0 <= j < |os| && os[j] == o;
        assert NormAll(os)[j] in NormAll(os);
        UndividedNorm(o);
      }
    }
  }

  /** A response without brackets in its keys and values comes back from its compact text if
      and only if no key has a ':' and no value a ',', at any depth. */
  lemma ObjectBackExactly(w: Response)
    requires Unbracketed(w)
    ensures FromData(Text(w, false)) == Parsed(Norm(w)) <==> Undivided(w)
  {
    hide FromData, ObjectText, Norm, Sendable, Unbracketed, Undivided, Shaped;
    if Undivided(w) {
      SendableParts(w);
      ObjectBack(w, 0, false);
    }
    if FromData(Text(w, false)) == Parsed(Norm(w)) {
      ReadShaped(Text(w, false));
      UndividedNorm(w);
    }
  }

  // --- What becomes of a comma

  lemma OneString(value: string, depth: nat)
    ensures ContainerText(Strings([value]), depth, false, false) == value
  {
    CompactStrings([value], depth, false);
  }

  /** The response with one entry that holds one string. */
  function Single(key: string, value: string): Response {
    Response([Element(key, Strings([value]), false)])
  }

  lemma SingleText(key: string, value: string)
    ensures Text(Single(key, value), false) == "{" + ((key + ([':'] + value)) + "}")
  {
    hide Joined, FieldText, ContainerText, Tabs;
    var w := Single(key, value);
    var e := w.elements[0];
    CompactObject(w, 0, false);
    CompactField(e, 1);
    OneString(value, 1);
    assert FieldTexts(w.elements, 1, false) == [FieldText(e, 1, false)];
    JoinedCons([FieldText(e, 1, false)]);
  }

  /** A comma inside a value cuts it, as the printer does not escape it: the value comes back
      without the comma and what follows, and what follows is read as further entries. */
  lemma CommaDivides(key: string, u: string, v: string)
    requires Free(key, KEY_BREAKERS) && Free(u, VALUE_BREAKERS)
    ensures FromData(Text(Single(key, u + [','] + v), false)) ==
            match Behind(Single(key, u).elements, Fields(v + "}"))
            case Parsed(es) => Parsed(Response(es))
            case Rejected => Rejected
            case Undefined => Undefined
  {
    hide Free, FromData, Fields, FieldContent, Behind;
    var value := u + [','] + v;
    var text := key + ([':'] + value);
    SingleText(key, value);
    ReadObject(text);
    var r := [','] + (v + "}");
    RestShape(v);
    ReadOneString(u, r);
    ReadFirst(key, u, Strings([u]), r);
    FirstOfString(u, r);
    assert text + "}" == key + ([':'] + (u + r));
    assert Next(r) == v + "}";
  }

  /** Without a ':' behind the comma the rest of the value is dropped. */
  lemma CommaTruncates(key: string, u: string, v: string)
    requires Free(key, KEY_BREAKERS) && Free(u, VALUE_BREAKERS) && ':' !in v
    ensures FromData(Text(Single(key, u + [','] + v), false)) == Parsed(Single(key, u))
  {
    hide Free, FromData, Fields, ObjectText;
    CommaDivides(key, u, v);
    ResponseEdges.FieldsWithoutColon(v);
    assert Single(key, u).elements + [] == Single(key, u).elements;
  }

  /** With a ':' behind the comma the value comes back as two entries, the second of the
      value's own making. */
  lemma CommaInjects(key: string, u: string, other: string, v: string)
    requires Free(key, KEY_BREAKERS) && Free(u, VALUE_BREAKERS)
    requires Free(other, KEY_BREAKERS) && Free(v, VALUE_BREAKERS)
    ensures FromData(Text(Single(key, u + [','] + (other + [':'] + v)), false)) ==
            Parsed(Response(Single(key, u).elements + Single(other, v).elements))
  {
    hide Free, FromData, Fields, FieldContent, ObjectText;
    CommaDivides(key, u, other + [':'] + v);
    RestShape("");
    ReadOneString(v, "}");
    ReadFirst(other, v, Strings([v]), "}");
    FirstOfString(v, "}");
    assert (other + [':'] + v) + "}" == other + ([':'] + (v + "}"));
    FieldsOfNothing();
    assert Single(other, v).elements + [] == Single(other, v).elements;
  }
}
