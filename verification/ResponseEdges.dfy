/** Texts at the edge of the response language: what reads as nothing, what is rejected, and
    what runs past the end of the text. */
module ResponseEdges {
  import opened Basics
  import opened Responses
  import opened ResponsePrinter
  import opened ResponseParser
  import opened ResponseRoundTrip

  /** The empty text is the empty response; without its outer braces any other is rejected. */
  lemma OutsideBraces(data: string)
    ensures data == "" ==> FromData(data) == Parsed(Response([]))
    ensures data != "" && (data[0] != '{' || data[|data| - 1] != '}') ==> FromData(data) == Rejected
  {
  }

  /** Between the braces, text without a ':' is no entry. */
  lemma NoEntry(u: string)
    requires ':' !in u
    ensures FromData("{" + (u + "}")) == Parsed(Response([]))
  {
    hide IndexOf, FieldContent, FromData, Fields;
    ReadObject(u);
    FieldsWithoutColon(u);
  }

  lemma FieldsWithoutColon(v: string)
    requires ':' !in v
    ensures Fields(v + "}") == Parsed([])
  {
    hide IndexOf, FieldContent;
    var rest := v + "}";
    assert rest[..|rest| - 1] == v;
    IndexOfAbsent(v, ':');
  }

  /** The object whose first entry has this key and goes on with `v`. */
  function Entry(key: string, v: string): string {
    "{" + ((key + ([':'] + v)) + "}")
  }

  /** An entry that cannot be read spoils the object. */
  lemma FaultyEntry(key: string, v: string)
    requires Free(key, KEY_BREAKERS)
    ensures FieldContent(v + "}") == Rejected ==> FromData(Entry(key, v)) == Rejected
    ensures FieldContent(v + "}") == Undefined ==> FromData(Entry(key, v)) == Undefined
  {
    hide Free, FieldContent, IndexOf, FromData, Fields;
    var u, t := key + ([':'] + v), v + "}";
    var rest := u + "}";
    ReadObject(u);
    KeyEnd(key, t);
    assert rest == key + ([':'] + t);
    FieldsStep(rest, []);
    BehindNothing(Fields(rest));
  }

  lemma {:induction false} MatchNever(u: string, open: char, close: char, depth: int)
    requires close !in u
    ensures Match(u, open, close, depth) == |u|
  {
    if u != "" {
      MatchNever(u[1..], open, close, if u[0] == open then depth + 1 else depth);
    }
  }

  /** A list of strings without its ']' runs past the end. */
  lemma UnclosedList(key: string, u: string)
    requires Free(key, KEY_BREAKERS) && ']' !in u && (u == "" || u[0] != '{')
    ensures FromData(Entry(key, "[" + u)) == Undefined
  {
    hide FromData, Free, Match, SplitCommas, ObjectList;
    var t := "[" + u + "}";
    assert t[..|t| - 1] == "[" + u && t[1] == (u + "}")[0];
    MatchNever("[" + u, '[', ']', -1);
    FaultyEntry(key, "[" + u);
  }

  /** An object without its '}' borrows that of the object around it and then runs past the end. */
  lemma UnclosedObject(key: string, u: string)
    requires Free(key, KEY_BREAKERS) && '}' !in u
    ensures FromData(Entry(key, "{" + u)) ==
            if FromData("{" + (u + "}")).Rejected? then Rejected else Undefined
  {
    hide FromData, Free, Match, SplitCommas, ObjectList;
    var t := "{" + u + "}";
    assert t == "{" + (u + "}");
    assert t[..|t| - 1] == "{" + u && t[..|t|] == t;
    MatchNever("{" + u, '{', '}', -1);
    FaultyEntry(key, "{" + u);
  }

  /** Inside a list an object without its '}' gets the text rejected, whatever follows. */
  lemma UnclosedInList(key: string, u: string, v: string)
    requires Free(key, KEY_BREAKERS) && Free(u, "{}[]")
    ensures FromData(Entry(key, "[" + (("{" + u) + "]") + v)) == Rejected
  {
    hide FromData, Match, ObjectList, FieldContent, Flat;
    PlainBrackets(u);
    FlatPlain("{" + u, '[', ']');
    var w, r := "{" + u, v + "}";
    var t := "[" + (w + "]") + r;
    BracketedText(w, r);
    ListContent(t, |w| + 1);
    UnclosedSegment(u);
    assert "[" + (w + "]") + v + "}" == t;
    FaultyEntry(key, "[" + (w + "]") + v);
  }

  lemma PlainBrackets(u: string)
    requires Free(u, "{}[]")
    ensures '{' !in u && '}' !in u && '[' !in u && ']' !in u
  {
    var k := "{}[]";
    assert k[0] == '{' && k[1] == '}' && k[2] == '[' && k[3] == ']';
  }

  lemma UnclosedSegment(u: string)
    requires '}' !in u
    ensures ObjectList(("{" + u) + "]") == Rejected
  {
    hide Match, FromData;
    var seg := ("{" + u) + "]";
    assert seg[..|seg| - 1] == "{" + u && seg[..|seg|] == seg;
    MatchNever("{" + u, '{', '}', -1);
    OutsideBraces(seg);
  }

  /** Behind an object of a list only another object may follow; anything else is an assertion
      of the source that fails. */
  lemma JunkInList(key: string, u: string, c: char, v: string, x: string)
    requires Free(key, KEY_BREAKERS) && ':' !in u && Free(u, "{}[]") && Free([c] + v, "{}[]")
    ensures FromData(Entry(key, "[" + (("{" + (u + "}") + ([c] + v)) + "]") + x)) == Undefined
  {
    hide FromData, Match, ObjectList, FieldContent, Flat, Free;
    PlainBrackets(u);
    PlainBrackets([c] + v);
    var w, r := "{" + (u + "}") + ([c] + v), x + "}";
    FlatPlain(w, '[', ']');
    FlatPlain(u, '{', '}');
    var t := "[" + (w + "]") + r;
    BracketedText(w, r);
    ListContent(t, |w| + 1);
    NoEntry(u);
    assert (v + "]")[0] != '{' by {
      assert v != "" ==> v[0] in [c] + v;
    }
    BadObjectList(v + "]");
    NextObject(u, Response([]), c, v + "]", Undefined);
    assert w + "]" == "{" + (u + "}") + ([c] + (v + "]"));
    assert "[" + (w + "]") + x + "}" == t;
    FaultyEntry(key, "[" + (w + "]") + x);
  }

  /** The character behind a bracketed value is not looked at. */
  lemma AnySeparator(key: string, ss: seq<string>, c: char, v: string)
    requires Free(key, KEY_BREAKERS) && ss != [] && (forall s | s in ss :: Free(s, VALUE_BREAKERS))
    ensures Fields(key + ([':'] + ("[" + (Joined(ss, false) + "]") + ([c] + (v + "}"))))) ==
            Behind([Element(key, Strings(ss), true)], Fields(v + "}"))
  {
    hide Fields, FieldContent, Free, Joined, BothFlat, Behind;
    forall s | s in ss
      ensures BothFlat(s)
    {
      ValueFree(s);
      BothFlatPlain(s);
    }
    BothFlatJoined(ss);
    var r := [c] + (v + "}");
    ReadStrings(ss, r);
    ReadFirst(key, "[" + (Joined(ss, false) + "]"), Strings(ss), r);
    assert Next(r) == v + "}";
  }
}
