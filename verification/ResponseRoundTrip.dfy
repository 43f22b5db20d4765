/** What the printer writes compactly, the parser reads back. */
module ResponseRoundTrip {
  import opened Basics
  import opened Responses
  import opened ResponsePrinter
  import opened ResponseParser

  // --- Which responses, and what comes back

  predicate Free(s: string, chars: string) {
    forall c | c in chars :: c !in s
  }

  const KEY_BREAKERS := ":{}[]"
  const VALUE_BREAKERS := ",{}[]"

  /** Keys and values free of the characters that would end or open something. */
  predicate Sendable(w: Response) {
    forall e | e in w.elements :: SendableElement(e)
  }

  predicate SendableElement(e: Element) {
    Free(e.key, KEY_BREAKERS) && SendableContent(e.content)
  }

  predicate SendableContent(c: Content) {
    match c
    case Strings(ss) => ss != [] && forall s | s in ss :: Free(s, VALUE_BREAKERS)
    case Objects(os) => os != [] && forall o | o in os :: Sendable(o)
  }

  /** The response that comes back: a list has its brackets marked as forced exactly when
      it was printed with brackets. */
  function Norm(w: Response): Response {
    Response(NormElements(w.elements))
  }

  function NormElements(es: seq<Element>): (r: seq<Element>)
    ensures |r| == |es|
  {
    seq(|es|, i requires 0 <= i < |es| => NormElement(es[i]))
  }

  function NormElement(e: Element): Element {
    Element(e.key, NormContent(e.content), e.forced || e.content.Size() > 1)
  }

  function NormContent(c: Content): (r: Content)
    ensures r.Size() == c.Size()
  {
    match c
    case Strings(_) => c
    case Objects(os) => Objects(NormAll(os))
  }

  function NormAll(os: seq<Response>): (r: seq<Response>)
    ensures |r| == |os|
  {
    seq(|os|, i requires 0 <= i < |os| => Norm(os[i]))
  }

  /** Adding a sendable value under a sendable key keeps a response sendable, so every
      response built by additions of such keys and values is. */
  lemma AddedSendable(w: Response, key: string, value: Content, forced: bool)
    requires Sendable(w) && Free(key, KEY_BREAKERS) && SendableContent(value)
    requires var i := Find(w.elements, key);
      i < |w.elements| ==> w.elements[i].content.Strings? == value.Strings?
    ensures Sendable(Response(Added(w.elements, key, value, forced)))
  {
    hide Free, Sendable;
    var es := Added(w.elements, key, value, forced);
    var i := Find(w.elements, key);
    SendableElements(w);
    if i < |w.elements| {
      assert w.elements[i] in w.elements;
      AppendSendable(w.elements[i].content, value);
    }
    forall e | e in es
      ensures SendableElement(e)
    {
      var j :| 0 <= j < |es| && es[j] == e;
      if j < |w.elements| && j != i {
        assert e == w.elements[j];
      }
    }
    ElementsSendable(Response(es));
  }

  lemma AppendSendable(c: Content, more: Content)
    requires SendableContent(c) && SendableContent(more) && c.Strings? == more.Strings?
    ensures SendableContent(c.Append(more))
  {
    hide Free, Sendable;
  }

  lemma SendableElements(w: Response)
    requires Sendable(w)
    ensures forall e | e in w.elements :: SendableElement(e)
  {
  }

  lemma ElementsSendable(w: Response)
    requires forall e | e in w.elements :: SendableElement(e)
    ensures Sendable(w)
  {
  }

  // --- The compact text

  lemma CompactObject(w: Response, depth: nat, prespace: bool)
    ensures ObjectText(w, depth, prespace, false) ==
            "{" + (Joined(FieldTexts(w.elements, depth + 1, false), false) + "}")
  {
    hide FieldTexts, Joined, Tabs;
  }

  lemma CompactField(e: Element, depth: nat)
    ensures FieldText(e, depth, false) == e.key + ([':'] + ContainerText(e.content, depth, e.forced, false))
  {
    hide ContainerText, Tabs;
  }

  lemma CompactArray(c: Content, depth: nat)
    ensures ArrayText(c, depth, false) == "[" + (Joined(ItemTexts(c, depth + 1, true, false), false) + "]")
  {
    hide ItemTexts, Joined, Tabs;
  }

  lemma CompactStrings(ss: seq<string>, depth: nat, prespace: bool)
    ensures ItemTexts(Strings(ss), depth, prespace, false) == ss
  {
    hide Tabs;
    var items := ItemTexts(Strings(ss), depth, prespace, false);
    forall i | 0 <= i < |ss|
      ensures items[i] == ss[i]
    {
      assert "" + "" + ss[i] + "" == ss[i];
    }
  }

  lemma JoinedCons(pieces: seq<string>)
    requires pieces != []
    ensures |pieces| == 1 ==> Joined(pieces, false) == pieces[0]
    ensures |pieces| > 1 ==> Joined(pieces, false) == pieces[0] + ([','] + Joined(pieces[1..], false))
  {
    var rest := Joined(pieces[1..], false);
    if |pieces| == 1 {
      assert pieces[1..] == [];
      JoinedNothing(false);
      assert Joined(pieces, false) == pieces[0] + ("" + ("" + rest));
      hide Joined;
      assert pieces[0] + ("" + ("" + "")) == pieces[0];
    } else {
      assert Joined(pieces, false) == pieces[0] + ("," + ("" + rest));
      hide Joined;
      assert "" + rest == rest;
    }
  }

  // --- Bracket levels

  /** The bracket depth after a text, or None when it closes more than is open. */
  function Level(u: string, open: char, close: char, depth: nat): Option<nat> {
    if u == "" then Some(depth)
    else if u[0] == open then Level(u[1..], open, close, depth + 1)
    else if u[0] == close then (if depth == 0 then None else Level(u[1..], open, close, depth - 1))
    else Level(u[1..], open, close, depth)
  }

  lemma {:induction false} LevelConcat(u: string, v: string, open: char, close: char, depth: nat)
    requires Level(u, open, close, depth).Some?
    ensures Level(u + v, open, close, depth) == Level(v, open, close, Level(u, open, close, depth).value)
  {
    if u == "" {
      assert u + v == v;
    } else {
      assert (u + v)[1..] == u[1..] + v;
      LevelConcat(u[1..], v, open, close,
        if u[0] == open then depth + 1 else if u[0] == close then depth - 1 else depth);
    }
  }

  lemma {:induction false} MatchOver(u: string, v: string, open: char, close: char, depth: nat)
    requires Level(u, open, close, depth).Some?
    ensures Match(u + v, open, close, depth) == |u| + Match(v, open, close, Level(u, open, close, depth).value)
  {
    if u == "" {
      assert u + v == v;
    } else {
      assert (u + v)[1..] == u[1..] + v;
      MatchOver(u[1..], v, open, close,
        if u[0] == open then depth + 1 else if u[0] == close then depth - 1 else depth);
    }
  }

  /** A text that leaves every depth as it was. */
  ghost predicate Flat(u: string, open: char, close: char) {
    forall depth: nat :: Level(u, open, close, depth) == Some(depth)
  }

  lemma FlatConcat(u: string, v: string, open: char, close: char)
    requires Flat(u, open, close) && Flat(v, open, close)
    ensures Flat(u + v, open, close)
  {
    forall depth: nat
      ensures Level(u + v, open, close, depth) == Some(depth)
    {
      LevelConcat(u, v, open, close, depth);
    }
  }

  lemma {:induction false} FlatPlain(u: string, open: char, close: char)
    requires open !in u && close !in u
    ensures Flat(u, open, close)
  {
    if u != "" {
      FlatPlain(u[1..], open, close);
      forall depth: nat
        ensures Level(u, open, close, depth) == Some(depth)
      {
        assert Level(u[1..], open, close, depth) == Some(depth);
      }
    }
  }

  lemma FlatWrap(u: string, open: char, close: char)
    requires Flat(u, open, close) && open != close
    ensures Flat([open] + (u + [close]), open, close)
  {
    forall depth: nat
      ensures Level([open] + (u + [close]), open, close, depth) == Some(depth)
    {
      var s := [open] + (u + [close]);
      assert s[1..] == u + [close];
      LevelConcat(u, [close], open, close, depth + 1);
      assert [close][1..] == "";
    }
  }

  /** From an opening bracket, over a flat text, to the closing bracket. */
  lemma MatchWrapped(u: string, v: string, open: char, close: char)
    requires Flat(u, open, close) && open != close
    ensures Match([open] + (u + [close]) + v, open, close, -1) == |u| + 1
  {
    var s := [open] + (u + [close]) + v;
    assert s[1..] == u + ([close] + v);
    MatchOver(u, [close] + v, open, close, 0);
  }

  ghost predicate BothFlat(u: string) {
    Flat(u, '{', '}') && Flat(u, '[', ']')
  }

  lemma BothFlatConcat(u: string, v: string)
    requires BothFlat(u) && BothFlat(v)
    ensures BothFlat(u + v)
  {
    FlatConcat(u, v, '{', '}');
    FlatConcat(u, v, '[', ']');
  }

  lemma BothFlatPlain(u: string)
    requires '{' !in u && '}' !in u && '[' !in u && ']' !in u
    ensures BothFlat(u)
  {
    FlatPlain(u, '{', '}');
    FlatPlain(u, '[', ']');
  }

  lemma BothFlatWrap(u: string)
    requires BothFlat(u)
    ensures BothFlat("{" + (u + "}")) && BothFlat("[" + (u + "]"))
  {
    FlatWrap(u, '{', '}');
    FlatWrap(u, '[', ']');
    FlatPlain("{", '[', ']');
    FlatPlain("}", '[', ']');
    FlatPlain("[", '{', '}');
    FlatPlain("]", '{', '}');
    FlatConcat(u, "}", '[', ']');
    FlatConcat("{", u + "}", '[', ']');
    FlatConcat(u, "]", '{', '}');
    FlatConcat("[", u + "]", '{', '}');
  }

  lemma {:induction false} BothFlatJoined(pieces: seq<string>)
    requires forall p | p in pieces :: BothFlat(p)
    ensures BothFlat(Joined(pieces, false))
  {
    hide BothFlat;
    if pieces == [] {
      JoinedNothing(false);
      BothFlatPlain("");
    } else {
      JoinedCons(pieces);
      assert pieces[0] in pieces;
      if |pieces| > 1 {
        assert forall p | p in pieces[1..] :: p in pieces;
        BothFlatJoined(pieces[1..]);
        BothFlatPlain(",");
        BothFlatConcat(",", Joined(pieces[1..], false));
        BothFlatConcat(pieces[0], "," + Joined(pieces[1..], false));
      }
    }
  }

  // Printed text is flat.

  lemma {:induction false} ObjectFlat(w: Response, depth: nat, prespace: bool)
    requires Sendable(w)
    ensures BothFlat(ObjectText(w, depth, prespace, false))
    ensures BothFlat(Joined(FieldTexts(w.elements, depth + 1, false), false))
    decreases w, 0
  {
    hide BothFlat, Joined, SendableElement, FieldText;
    var pieces := FieldTexts(w.elements, depth + 1, false);
    forall p | p in pieces
      ensures BothFlat(p)
    {
      var i :| 0 <= i < |pieces| && pieces[i] == p;
      assert w.elements[i] in w.elements;
      FieldFlat(w.elements[i], depth + 1);
    }
    BothFlatJoined(pieces);
    CompactObject(w, depth, prespace);
    BothFlatWrap(Joined(pieces, false));
  }

  lemma KeyFree(s: string)
    requires Free(s, KEY_BREAKERS)
    ensures ':' !in s && '{' !in s && '}' !in s && '[' !in s && ']' !in s
  {
    var k := KEY_BREAKERS;
    assert k[0] == ':' && k[1] == '{' && k[2] == '}' && k[3] == '[' && k[4] == ']';
  }

  lemma ValueFree(s: string)
    requires Free(s, VALUE_BREAKERS)
    ensures ',' !in s && '{' !in s && '}' !in s && '[' !in s && ']' !in s
  {
    var k := VALUE_BREAKERS;
    assert k[0] == ',' && k[1] == '{' && k[2] == '}' && k[3] == '[' && k[4] == ']';
  }

  lemma {:induction false} FieldFlat(e: Element, depth: nat)
    requires SendableElement(e)
    ensures BothFlat(FieldText(e, depth, false))
    decreases e, 0
  {
    hide BothFlat, ContainerText, SendableContent, Free, FieldText;
    KeyFree(e.key);
    BothFlatPlain(e.key);
    BothFlatPlain(":");
    ContainerFlat(e.content, depth, e.forced);
    BothFlatConcat(":", ContainerText(e.content, depth, e.forced, false));
    CompactField(e, depth);
    BothFlatConcat(e.key, ":" + ContainerText(e.content, depth, e.forced, false));
  }

  lemma {:induction false} ContainerFlat(c: Content, depth: nat, forced: bool)
    requires SendableContent(c)
    ensures BothFlat(ContainerText(c, depth, forced, false))
    ensures BothFlat(Joined(ItemTexts(c, depth + 1, true, false), false))
    decreases c, 2
  {
    hide BothFlat, Joined, ItemTexts, SendableContent, ArrayText;
    forall p | p in ItemTexts(c, depth + 1, true, false)
      ensures BothFlat(p)
    {
      ItemFlat(c, depth + 1, true, p);
    }
    BothFlatJoined(ItemTexts(c, depth + 1, true, false));
    CompactArray(c, depth);
    BothFlatWrap(Joined(ItemTexts(c, depth + 1, true, false), false));
    var items := ItemTexts(c, depth, false, false);
    SendableSize(c);
    assert items[0] in items;
    ItemFlat(c, depth, false, items[0]);
  }

  lemma SendableSize(c: Content)
    requires SendableContent(c)
    ensures c.Size() > 0
  {
  }

  lemma {:induction false} ItemFlat(c: Content, depth: nat, prespace: bool, p: string)
    requires SendableContent(c) && p in ItemTexts(c, depth, prespace, false)
    ensures BothFlat(p)
    decreases c, 1
  {
    hide BothFlat, ObjectText, Free;
    match c
    case Strings(ss) =>
      CompactStrings(ss, depth, prespace);
      assert p in ss;
      ValueFree(p);
      BothFlatPlain(p);
    case Objects(os) =>
      var items := ItemTexts(c, depth, prespace, false);
      var i :| 0 <= i < |items| && items[i] == p;
      assert os[i] in os;
      ObjectFlat(os[i], depth, prespace);
  }

  // --- Reading it back

  /** A text in which a value may end: the brace that closes the object, or a comma before
      more entries. */
  predicate Rest(r: string) {
    r == "}" || (|r| > 1 && r[0] == ',' && r[|r| - 1] == '}')
  }

  /** An object between its braces reads as its fields. */
  lemma ReadObject(u: string)
    ensures FromData("{" + (u + "}")) ==
            match Fields(u + "}")
            case Parsed(es) => Parsed(Response(es))
            case Rejected => Rejected
            case Undefined => Undefined
  {
    hide Fields;
    var s := "{" + (u + "}");
    assert s[1..] == u + "}";
  }

  lemma SplitFirst(v: string, more: string)
    requires ',' !in v
    ensures SplitCommas(v + ([','] + more)) == [v] + SplitCommas(more)
    ensures SplitCommas(v) == [v]
  {
    hide IndexOf;
    var s := v + ([','] + more);
    assert s == v + [','] + more;
    IndexOfConcat(v, ',', more);
    IndexOfAbsent(v, ',');
    assert s[..|v|] == v && s[|v| + 1..] == more;
  }

  lemma {:induction false} SplitPieces(s: string)
    ensures forall p | p in SplitCommas(s) :: ',' !in p
    decreases |s|
  {
    SplitStep(s);
    hide SplitCommas;
    var i := IndexOf(s, ',');
    if i < |s| {
      SplitPieces(s[i + 1..]);
    }
  }

  /** A bracketed list of strings comes back exactly when no string has a comma. */
  lemma SplitExactly(ss: seq<string>)
    requires ss != []
    ensures SplitCommas(Joined(ss, false)) == ss <==> forall s | s in ss :: ',' !in s
  {
    hide SplitCommas, Joined;
    SplitPieces(Joined(ss, false));
    if forall s | s in ss :: ',' !in s {
      SplitBack(ss);
    }
  }

  lemma {:induction false} SplitBack(ss: seq<string>)
    requires ss != [] && forall s | s in ss :: ',' !in s
    ensures SplitCommas(Joined(ss, false)) == ss
    decreases |ss|
  {
    hide SplitCommas, Joined;
    JoinedCons(ss);
    assert ss[0] in ss;
    if |ss| == 1 {
      SplitFirst(ss[0], "");
      assert ss == [ss[0]];
    } else {
      assert forall s | s in ss[1..] :: s in ss;
      SplitBack(ss[1..]);
      SplitFirst(ss[0], Joined(ss[1..], false));
      assert ss == [ss[0]] + ss[1..];
    }
  }

  /** A bracketed text at the front of `t` is found whole. */
  lemma BlockEnd(u: string, r: string, open: char, close: char)
    requires Flat(u, open, close) && open != close && r != ""
    ensures var t := [open] + (u + [close]) + r;
      && Match(t[..|t| - 1], open, close, -1) == |u| + 1
      && t[..|u| + 2] == [open] + (u + [close])
  {
    var t := [open] + (u + [close]) + r;
    assert t[..|t| - 1] == [open] + (u + [close]) + r[..|r| - 1];
    MatchWrapped(u, r[..|r| - 1], open, close);
  }

  /** One object as a value. */
  lemma ReadOneObject(u: string, w: Response, r: string)
    requires Flat(u, '{', '}') && r != "" && r[|r| - 1] == '}'
    requires FromData("{" + (u + "}")) == Parsed(w)
    ensures FieldContent("{" + (u + "}") + r) == Parsed((Objects([w]), |u| + 2))
  {
    hide FromData, ObjectList, Flat;
    hide Match;
    var t := "{" + (u + "}") + r;
    BlockEnd(u, r, '{', '}');
    assert t[0] == '{' && t[|t| - 1] == '}' && |u| + 1 != |t| - 1;
  }

  /** A bracketed list as a value, once its closing bracket is found. */
  lemma ListContent(t: string, b: nat)
    requires t != "" && t[0] == '[' && t[|t| - 1] == '}'
    requires Match(t[..|t| - 1], '[', ']', -1) == b && 1 <= b < |t| - 1
    ensures t[1] != '{' ==> FieldContent(t) == Parsed((Strings(SplitCommas(t[1..b])), b + 1))
    ensures t[1] == '{' ==>
              var ws := ObjectList(t[1..b + 1]);
              FieldContent(t) ==
              if ws.Rejected? then Rejected else if ws.Undefined? then Undefined else Parsed((Objects(ws.value), b + 1))
  {
    hide Match, ObjectList, SplitCommas;
  }

  lemma BracketedText(u: string, r: string)
    requires r != "" && r[|r| - 1] == '}' && Flat(u, '[', ']')
    ensures var t := "[" + (u + "]") + r;
      && t[0] == '[' && t[|t| - 1] == '}' && |u| + 1 < |t| - 1
      && Match(t[..|t| - 1], '[', ']', -1) == |u| + 1
      && t[1] == (u + "]")[0] && t[1..|u| + 1] == u && t[1..|u| + 2] == u + "]"
  {
    hide Flat, Match;
    BlockEnd(u, r, '[', ']');
    var t := "[" + (u + "]") + r;
    assert t[1..|u| + 1] == u && t[1..|u| + 2] == u + "]";
  }

  /** A bracketed list of strings as a value. */
  lemma ReadStrings(ss: seq<string>, r: string)
    requires ss != [] && (forall s | s in ss :: Free(s, VALUE_BREAKERS)) && r != "" && r[|r| - 1] == '}'
    requires BothFlat(Joined(ss, false))
    ensures FieldContent("[" + (Joined(ss, false) + "]") + r) == Parsed((Strings(ss), |Joined(ss, false)| + 2))
  {
    hide FieldContent, Flat, SplitCommas, Joined, Match;
    var u := Joined(ss, false);
    BracketedText(u, r);
    forall s | s in ss
      ensures ',' !in s
    {
      ValueFree(s);
    }
    SplitBack(ss);
    NoBraceFirst(ss);
    ListContent("[" + (u + "]") + r, |u| + 1);
  }

  lemma NoBraceFirst(ss: seq<string>)
    requires ss != [] && forall s | s in ss :: Free(s, VALUE_BREAKERS)
    ensures (Joined(ss, false) + "]")[0] != '{'
  {
    hide Free;
    JoinedCons(ss);
    assert ss[0] in ss;
    ValueFree(ss[0]);
    if ss[0] != "" {
      assert ss[0][0] in ss[0];
    }
  }

  /** A bracketed list of objects as a value. */
  lemma ReadObjects(u: string, ws: seq<Response>, r: string)
    requires Flat(u, '[', ']') && r != "" && r[|r| - 1] == '}'
    requires u != "" && u[0] == '{'
    requires ObjectList(u + "]") == Parsed(ws)
    ensures FieldContent("[" + (u + "]") + r) == Parsed((Objects(ws), |u| + 2))
  {
    hide FieldContent, ObjectList, Flat, Match;
    BracketedText(u, r);
    ListContent("[" + (u + "]") + r, |u| + 1);
  }

  /** A single string as a value. */
  lemma ReadOneString(v: string, r: string)
    requires Free(v, VALUE_BREAKERS) && Rest(r)
    ensures FieldContent(v + r) == Parsed((Strings([v]), |v|))
  {
    hide FromData, ObjectList, Free;
    ValueFree(v);
    var t := v + r;
    assert t[..|t| - 1] == v + r[..|r| - 1];
    IndexOfOver(v, ',', r[..|r| - 1]);
    assert t[..|v|] == v;
    assert v != "" ==> v[0] in v;
  }

  /** The ':' after a key is the first one. */
  lemma KeyEnd(key: string, t: string)
    requires Free(key, KEY_BREAKERS) && t != ""
    ensures var rest := key + ([':'] + t);
      && IndexOf(rest[..|rest| - 1], ':') == |key| < |rest| - 1
      && rest[|key| + 1..] == t && rest[..|key|] == key
  {
    hide Free, IndexOf;
    var rest := key + ([':'] + t);
    KeyFree(key);
    assert rest[..|rest| - 1] == key + [':'] + t[..|t| - 1];
    IndexOfConcat(key, ':', t[..|t| - 1]);
  }

  /** Where reading goes on after an entry. */
  function Next(r: string): string {
    if |r| <= 1 then r else r[1..]
  }

  lemma AfterField(key: string, c: string, r: string) returns (left: nat)
    requires r != "" && r[|r| - 1] == '}'
    ensures var rest := key + ([':'] + (c + r));
      && left <= |rest| && rest[left..] == Next(r)
      && left == if |key| + 1 + |c| != |rest| - 1 then |key| + 1 + |c| + 1 else |key| + 1 + |c|
  {
    var rest := key + ([':'] + (c + r));
    var n := |key| + 1 + |c|;
    assert rest[n..] == r;
    if |r| == 1 {
      left := n;
    } else {
      left := n + 1;
      assert rest[n + 1..] == r[1..];
    }
  }

  /** One entry at the front of the rest of an object. */
  lemma FirstBack(key: string, c: string, content: Content, r: string) returns (left: nat)
    requires Free(key, KEY_BREAKERS) && r != "" && r[|r| - 1] == '}'
    requires FieldContent(c + r) == Parsed((content, |c|))
    ensures var rest := key + ([':'] + (c + r));
      && left <= |rest| && rest[left..] == Next(r)
      && FirstField(rest) == Parsed(Some((Element(key, content, (c + r)[0] == '['), left)))
  {
    hide FieldContent, Free, IndexOf, Next, Rest;
    left := AfterField(key, c, r);
    NextNonEmpty(r);
    KeyEnd(key, c + r);
  }

  lemma RestEnds(r: string)
    requires Rest(r)
    ensures r != "" && r[|r| - 1] == '}'
  {
  }

  lemma NextNonEmpty(r: string)
    requires r != "" && r[|r| - 1] == '}'
    ensures Next(r) != "" && Next(r)[|Next(r)| - 1] == '}'
  {
  }

  lemma ReadFirst(key: string, c: string, content: Content, r: string)
    requires Free(key, KEY_BREAKERS) && r != "" && r[|r| - 1] == '}'
    requires FieldContent(c + r) == Parsed((content, |c|))
    ensures Fields(key + ([':'] + (c + r))) ==
            Behind([Element(key, content, (c + r)[0] == '[')], Fields(Next(r)))
  {
    hide FieldContent, Free, IndexOf, Fields, FirstField, Next, Rest, Behind;
    var rest := key + ([':'] + (c + r));
    var e := Element(key, content, (c + r)[0] == '[');
    var left := FirstBack(key, c, content, r);
    NextNonEmpty(r);
    FieldsStep(rest, []);
    BehindNothing(Fields(rest));
    assert [] + [e] == [e];
  }

  // Whole responses

  /** Printing any sendable response compactly and reading the text gives the response back,
      with its bracket flags normalised. */
  lemma {:induction false} ObjectBack(w: Response, depth: nat, prespace: bool)
    requires Sendable(w)
    ensures FromData(ObjectText(w, depth, prespace, false)) == Parsed(Norm(w))
    decreases w, 1
  {
    hide Fields, FieldTexts, Joined, ObjectText, SendableElement, NormElement;
    CompactObject(w, depth, prespace);
    ReadObject(Joined(FieldTexts(w.elements, depth + 1, false), false));
    forall e | e in w.elements
      ensures SendableElement(e)
    {
    }
    FieldsBack(w.elements, depth + 1);
  }

  lemma {:induction false} FieldsBack(es: seq<Element>, depth: nat)
    requires forall e | e in es :: SendableElement(e)
    ensures Fields(Joined(FieldTexts(es, depth, false), false) + "}") == Parsed(NormElements(es))
    decreases es, 0
  {
    hide Fields, FieldText, Joined, NormElement, SendableElement, Rest;
    var pieces := FieldTexts(es, depth, false);
    if es == [] {
      JoinedNothing(false);
      assert pieces == [];
      FieldsOfNothing();
      assert "" + "}" == "}";
    } else {
      var more := FieldTexts(es[1..], depth, false);
      assert pieces[1..] == more;
      assert es[0] in es;
      assert forall e | e in es[1..] :: e in es;
      FieldsBack(es[1..], depth);
      JoinedCons(pieces);
      var r := if |es| == 1 then "}" else [','] + (Joined(more, false) + "}");
      RestShape(Joined(more, false));
      assert Joined(pieces, false) + "}" == pieces[0] + r;
      FieldBack(es[0], depth, r);
      assert r != "}" ==> r[1..] == Joined(more, false) + "}";
      assert NormElements(es) == [NormElement(es[0])] + NormElements(es[1..]);
      if |es| == 1 {
        FieldsOfNothing();
        assert NormElements(es[1..]) == [];
      }
    }
  }

  lemma FieldsOfNothing()
    ensures Fields("}") == Parsed([])
  {
    NoField("}");
  }

  lemma RestShape(u: string)
    ensures Rest("}") && Rest([','] + (u + "}"))
    ensures [','] + (u + "}") != "}"
  {
  }

  lemma {:induction false} FieldBack(e: Element, depth: nat, r: string)
    requires SendableElement(e) && Rest(r)
    ensures Fields(FieldText(e, depth, false) + r) ==
            Behind([NormElement(e)], Fields(Next(r)))
    decreases e, 1
  {
    hide Fields, FieldContent, ContainerText, SendableContent, NormContent, Rest, Free;
    RestEnds(r);
    var c := ContainerText(e.content, depth, e.forced, false);
    ContainerBack(e.content, depth, e.forced, r);
    CompactField(e, depth);
    assert FieldText(e, depth, false) + r == e.key + ([':'] + (c + r));
    ReadFirst(e.key, c, NormContent(e.content), r);
  }

  lemma {:induction false} ContainerBack(c: Content, depth: nat, forced: bool, r: string)
    requires SendableContent(c) && Rest(r)
    ensures var text := ContainerText(c, depth, forced, false);
      && FieldContent(text + r) == Parsed((NormContent(c), |text|))
      && ((text + r)[0] == '[' <==> forced || c.Size() > 1)
    decreases c, 3
  {
    hide FieldContent, ContainerText, Joined, ItemTexts, ObjectText, Rest, Flat, Free;
    RestEnds(r);
    var bracketed := c.Size() > 1 || forced;
    match c
    case Strings(ss) =>
      StringsBack(ss, depth, forced, r);
    case Objects(os) =>
      if bracketed {
        ContainerFlat(c, depth, forced);
        ObjectsBack(os, depth + 1);
        var u := Joined(ItemTexts(c, depth + 1, true, false), false);
        ReadObjects(u, NormAll(os), r);
        Bracketed(c, depth, forced);
      } else {
        OneObjectBack(os, depth, r);
      }
  }

  lemma Bracketed(c: Content, depth: nat, forced: bool)
    requires forced || c.Size() > 1
    ensures ContainerText(c, depth, forced, false) ==
            "[" + (Joined(ItemTexts(c, depth + 1, true, false), false) + "]")
  {
    hide ArrayText, ItemTexts, Joined;
    CompactArray(c, depth);
  }

  lemma StringsBack(ss: seq<string>, depth: nat, forced: bool, r: string)
    requires SendableContent(Strings(ss)) && Rest(r)
    ensures var text := ContainerText(Strings(ss), depth, forced, false);
      && FieldContent(text + r) == Parsed((Strings(ss), |text|))
      && ((text + r)[0] == '[' <==> forced || |ss| > 1)
  {
    hide FieldContent, Joined, ItemTexts, Rest, Flat, Free, ArrayText;
    RestEnds(r);
    CompactStrings(ss, depth, false);
    CompactStrings(ss, depth + 1, true);
    if |ss| > 1 || forced {
      ContainerFlat(Strings(ss), depth, forced);
      Bracketed(Strings(ss), depth, forced);
      hide ContainerText;
      ReadStrings(ss, r);
    } else {
      assert ss[0] in ss && ss == [ss[0]];
      ReadOneString(ss[0], r);
      FirstOfString(ss[0], r);
    }
  }

  lemma FirstOfString(v: string, r: string)
    requires Free(v, VALUE_BREAKERS) && Rest(r)
    ensures (v + r)[0] != '['
  {
    hide Free;
    ValueFree(v);
    assert v != "" ==> v[0] in v;
  }

  lemma {:induction false} OneObjectBack(os: seq<Response>, depth: nat, r: string)
    requires |os| == 1 && Sendable(os[0]) && Rest(r)
    ensures var text := ContainerText(Objects(os), depth, false, false);
      && FieldContent(text + r) == Parsed((NormContent(Objects(os)), |text|))
      && (text + r)[0] == '{'
    decreases os, 1
  {
    hide FieldContent, Joined, ObjectText, FieldTexts, Rest, Flat, FromData, Sendable, Norm;
    RestEnds(r);
    var w := os[0];
    ObjectBack(w, depth, false);
    ObjectFlat(w, depth, false);
    CompactObject(w, depth, false);
    var u := Joined(FieldTexts(w.elements, depth + 1, false), false);
    ReadOneObject(u, Norm(w), r);
    assert NormAll(os) == [Norm(w)];
    assert ContainerText(Objects(os), depth, false, false) == ObjectText(w, depth, false, false);
  }

  lemma {:induction false} ObjectsBack(os: seq<Response>, depth: nat)
    requires os != [] && forall o | o in os :: Sendable(o)
    ensures var u := Joined(ItemTexts(Objects(os), depth, true, false), false);
      && u != "" && u[0] == '{'
      && ObjectList(u + "]") == Parsed(NormAll(os))
    decreases os, 2
  {
    hide Joined, ObjectText, FieldTexts, Flat, FromData, ObjectList, Sendable, Norm;
    var pieces := ItemTexts(Objects(os), depth, true, false);
    var w := os[0];
    assert w in os;
    ObjectBack(w, depth, true);
    ObjectFlat(w, depth, true);
    CompactObject(w, depth, true);
    var inner := Joined(FieldTexts(w.elements, depth + 1, false), false);
    JoinedCons(pieces);
    assert NormAll(os) == [Norm(w)] + NormAll(os[1..]);
    if |os| == 1 {
      assert NormAll(os) == [Norm(w)];
      LastObject(inner, Norm(w));
    } else {
      var more := ItemTexts(Objects(os[1..]), depth, true, false);
      assert pieces[1..] == more;
      assert forall o | o in os[1..] :: o in os;
      ObjectsBack(os[1..], depth);
      NextObject(inner, Norm(w), ',', Joined(more, false) + "]", Parsed(NormAll(os[1..])));
      assert pieces[0] + ([','] + Joined(more, false)) + "]" == pieces[0] + ([','] + (Joined(more, false) + "]"));
    }
  }

  lemma LastObject(inner: string, w: Response)
    requires Flat(inner, '{', '}') && FromData("{" + (inner + "}")) == Parsed(w)
    ensures ObjectList("{" + (inner + "}") + "]") == Parsed([w])
  {
    hide FromData, Flat;
    BlockEnd(inner, "]", '{', '}');
  }

  /** The character between two objects of a list is not looked at. */
  lemma NextObject(inner: string, w: Response, c: char, more: string, ws: Reply<seq<Response>>)
    requires Flat(inner, '{', '}') && FromData("{" + (inner + "}")) == Parsed(w)
    requires more != "" && ObjectList(more) == ws
    ensures ObjectList("{" + (inner + "}") + ([c] + more)) == Behind([w], ws)
  {
    hide FromData, Flat, Match;
    var seg := "{" + (inner + "}") + ([c] + more);
    BlockEnd(inner, [c] + more, '{', '}');
    assert seg[|inner| + 3..] == more;
  }
}
