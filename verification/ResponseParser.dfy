/** Reading a response back: what responseWrapper::fromData computes as a function of the
    text, and the source's cursor loops, which compute exactly that. */
module ResponseParser {
  import opened Basics
  import opened Responses

  /** Rejected is std::nullopt. Undefined is a cursor past the end or a failed assertion. */
  datatype Reply<+T> = Parsed(value: T) | Rejected | Undefined {
    predicate IsFailure() { !Parsed? }

    function PropagateFailure<U>(): Reply<U>
      requires !Parsed?
    {
      if Rejected? then Rejected else Undefined
    }

    function Extract(): T
      requires Parsed?
    {
      value
    }
  }

  // --- Bracket matching

  /** Where the bracket that closes the open ones stands, or the length when it is missing;
      `depth` is one less than the number of open brackets. */
  function Match(s: string, open: char, close: char, depth: int): (i: nat)
    ensures i <= |s|
  {
    if s == "" then 0
    else if s[0] == open then 1 + Match(s[1..], open, close, depth + 1)
    else if s[0] == close then (if depth == 0 then 0 else 1 + Match(s[1..], open, close, depth - 1))
    else 1 + Match(s[1..], open, close, depth)
  }

  /** fromData's `match`, over the text between two cursors; the source asserts that it
      starts at an opening bracket. */
  method MatchBracket(s: string, begin: nat, end: nat, open: char, close: char) returns (it: nat)
    requires begin <= end <= |s| && open != close
    requires begin < end ==> s[begin] == open
    ensures it == begin + Match(s[begin..end], open, close, -1)
  {
    var depth := -1;
    it := begin;
    ghost var goal := begin + Match(s[begin..end], open, close, -1);
    while it != end
      invariant begin <= it <= end
      invariant goal == it + Match(s[it..end], open, close, depth)
    {
      ghost var rest := s[it..end];
      assert rest[0] == s[it] && rest[1..] == s[it + 1..end];
      if s[it] == open {
        depth := depth + 1;
      }
      if s[it] == close {
        if depth == 0 {
          return;
        }
        depth := depth - 1;
      }
      it := it + 1;
    }
  }

  // --- Reading

  /** The values of a list of strings: the pieces between commas. */
  function SplitCommas(s: string): (r: seq<string>)
    ensures r != []
    decreases |s|
  {
    var i := IndexOf(s, ',');
    if i == |s| then [s] else [s[..i]] + SplitCommas(s[i + 1..])
  }

  function FromData(data: string): Reply<Response>
    decreases |data|, 1
  {
    if data == "" then Parsed(Response([]))
    else if data[0] != '{' || data[|data| - 1] != '}' then Rejected
    else
      var es :- Fields(data[1..]);
      Parsed(Response(es))
  }

  /** What is already read, in front of what is still to come. */
  function Behind<T>(done: seq<T>, r: Reply<seq<T>>): Reply<seq<T>> {
    match r
    case Parsed(more) => Parsed(done + more)
    case Rejected => Rejected
    case Undefined => Undefined
  }

  /** The entries of an object, from a cursor to the brace that closes it. */
  function Fields(rest: string): Reply<seq<Element>>
    requires rest != "" && rest[|rest| - 1] == '}'
    decreases |rest|, 4
  {
    match FirstField(rest)
    case Rejected => Rejected
    case Undefined => Undefined
    case Parsed(None) => Parsed([])
    case Parsed(Some(field)) => Behind([field.0], Fields(rest[field.1..]))
  }

  /** The next entry and where the text goes on; None without a ':' to divide key and value. */
  function FirstField(rest: string): (r: Reply<Option<(Element, nat)>>)
    requires rest != "" && rest[|rest| - 1] == '}'
    ensures r.Parsed? && r.value.Some? ==> 0 < r.value.value.1 < |rest|
    decreases |rest|, 3
  {
    var end := |rest| - 1;
    var div := IndexOf(rest[..end], ':');
    if div == end then Parsed(None)
    else
      var t := rest[div + 1..];
      var content :- FieldContent(t);
      var left := div + 1 + content.1;
      Parsed(Some((Element(rest[..div], content.0, t[0] == '['), if left != end then left + 1 else left)))
  }

  /** What stands after a ':', and how many characters it takes; the text runs on to the
      brace that closes the whole object. */
  function FieldContent(t: string): (r: Reply<(Content, nat)>)
    requires t != "" && t[|t| - 1] == '}'
    ensures r.Parsed? ==> r.value.1 < |t|
    decreases |t|, 2
  {
    var end := |t| - 1;
    if t[0] == '{' then
      var b := Match(t[..end], '{', '}', -1);
      var w :- FromData(t[..b + 1]);
      if b == end then Undefined else Parsed((Objects([w]), b + 1))
    else if t[0] == '[' then
      var b := Match(t[..end], '[', ']', -1);
      if t[1] == '{' then
        var ws :- ObjectList(t[1..b + 1]);
        if b == end then Undefined else Parsed((Objects(ws), b + 1))
      else
        if b == end then Undefined else Parsed((Strings(SplitCommas(t[1..b])), b + 1))
    else
      var b := IndexOf(t[..end], ',');
      Parsed((Strings([t[..b]]), b))
  }

  /** The objects of a list, from a cursor to the bracket that closes it. */
  function ObjectList(seg: string): Reply<seq<Response>>
    decreases |seg|, 2
  {
    if seg == "" || seg[0] != '{' then Undefined
    else
      var lim := |seg| - 1;
      var b := Match(seg[..lim], '{', '}', -1);
      var w :- FromData(seg[..b + 1]);
      if b == lim then Undefined
      else if b == lim - 1 then Parsed([w])
      else
        var ws :- ObjectList(seg[b + 2..]);
        Parsed([w] + ws)
  }

  // --- The loops

  lemma BehindTwice<T>(a: seq<T>, b: seq<T>, r: Reply<seq<T>>)
    ensures Behind(a, Behind(b, r)) == Behind(a + b, r)
  {
    if r.Parsed? {
      assert a + (b + r.value) == (a + b) + r.value;
    }
  }

  lemma BehindNothing<T>(r: Reply<seq<T>>)
    ensures Behind([], r) == r
  {
    if r.Parsed? {
      assert [] + r.value == r.value;
    }
  }

  lemma SplitStep(s: string)
    ensures var i := IndexOf(s, ',');
      && (i == |s| ==> SplitCommas(s) == [s])
      && (i < |s| ==> SplitCommas(s) == [s[..i]] + SplitCommas(s[i + 1..]))
  {
    hide IndexOf;
  }

  lemma AppendFirst<T>(a: seq<T>, x: T, b: seq<T>)
    ensures a + ([x] + b) == (a + [x]) + b
  {
  }

  /** The loop that reads an array of values. */
  method ReadStringArray(s: string, begin: nat, blockEnd: nat) returns (elements: seq<string>)
    requires begin <= blockEnd <= |s|
    ensures elements == SplitCommas(s[begin..blockEnd])
  {
    hide IndexOf, SplitCommas;
    elements := [];
    var subleft := begin;
    ghost var goal := SplitCommas(s[begin..blockEnd]);
    assert [] + goal == goal;
    while true
      invariant begin <= subleft <= blockEnd
      invariant goal == elements + SplitCommas(s[subleft..blockEnd])
      decreases blockEnd - subleft
    {
      ghost var rest := s[subleft..blockEnd];
      SplitStep(rest);
      var subdiv := subleft + IndexOf(s[subleft..blockEnd], ',');
      assert rest[..subdiv - subleft] == s[subleft..subdiv];
      elements := elements + [s[subleft..subdiv]];
      if subdiv == blockEnd {
        return;
      }
      assert rest[subdiv - subleft + 1..] == s[subdiv + 1..blockEnd];
      AppendFirst(elements[..|elements| - 1], s[subleft..subdiv], SplitCommas(s[subdiv + 1..blockEnd]));
      subleft := subdiv + 1;
    }
  }

  lemma ObjectListStep(seg: string, done: seq<Response>)
    requires seg != "" && seg[0] == '{'
    ensures var lim, b := |seg| - 1, Match(seg[..|seg| - 1], '{', '}', -1);
      var o := FromData(seg[..b + 1]);
      && (o.Rejected? ==> Behind(done, ObjectList(seg)) == Rejected)
      && (o.Undefined? ==> Behind(done, ObjectList(seg)) == Undefined)
      && (o.Parsed? ==>
            Behind(done, ObjectList(seg)) ==
            if b == lim then Undefined
            else if b == lim - 1 then Parsed(done + [o.value])
            else Behind(done + [o.value], ObjectList(seg[b + 2..])))
  {
    hide FromData, Match;
    var b := Match(seg[..|seg| - 1], '{', '}', -1);
    var o := FromData(seg[..b + 1]);
    if o.Parsed? && b < |seg| - 2 {
      BehindTwice(done, [o.value], ObjectList(seg[b + 2..]));
    }
  }

  /** The loop that reads an array of objects, up to the bracket at `blockEnd`. */
  method ReadObjectArray(s: string, begin: nat, blockEnd: nat) returns (r: Reply<seq<Response>>)
    requires begin <= blockEnd < |s|
    ensures r == ObjectList(s[begin..blockEnd + 1])
    decreases blockEnd + 1 - begin, 2
  {
    hide FromData, Match, ObjectList;
    var elements: seq<Response> := [];
    var subleft := begin;
    ghost var goal := ObjectList(s[begin..blockEnd + 1]);
    BehindNothing(goal);
    while true
      invariant begin <= subleft <= blockEnd
      invariant goal == Behind(elements, ObjectList(s[subleft..blockEnd + 1]))
      decreases blockEnd - subleft
    {
      ghost var seg := s[subleft..blockEnd + 1];
      if s[subleft] != '{' {
        BadObjectList(seg);
        return Undefined;
      }
      ObjectListStep(seg, elements);
      assert seg[..|seg| - 1] == s[subleft..blockEnd];
      var subdiv := MatchBracket(s, subleft, blockEnd, '{', '}');
      assert seg[..subdiv - subleft + 1] == s[subleft..subdiv + 1];
      var val := ReadData(s[subleft..subdiv + 1]);
      if val.Rejected? {
        return Rejected;
      }
      if val.Undefined? || subdiv == blockEnd {
        return Undefined;
      }
      elements := elements + [val.value];
      if subdiv == blockEnd - 1 {
        return Parsed(elements);
      }
      assert seg[subdiv - subleft + 2..] == s[subdiv + 2..blockEnd + 1];
      subleft := subdiv + 2;
    }
  }

  lemma BadObjectList(seg: string)
    requires seg == "" || seg[0] != '{'
    ensures ObjectList(seg) == Undefined
  {
  }

  /** The three branches on the character after a ':'. */
  method ReadContent(data: string, next: nat) returns (r: Reply<(Content, nat)>)
    requires next < |data| && data[|data| - 1] == '}'
    ensures r == FieldContent(data[next..])
    decreases |data| - next, 3
  {
    hide FromData, Match, ObjectList, IndexOf, SplitCommas;
    ghost var t := data[next..];
    var end := |data| - 1;
    assert t[..|t| - 1] == data[next..end];
    if data[next] == '{' {
      var blockEnd := MatchBracket(data, next, end, '{', '}');
      assert t[..blockEnd - next + 1] == data[next..blockEnd + 1];
      var val := ReadData(data[next..blockEnd + 1]);
      if val.Rejected? {
        return Rejected;
      }
      if val.Undefined? || blockEnd == end {
        return Undefined;
      }
      r := Parsed((Objects([val.value]), blockEnd + 1 - next));
    } else if data[next] == '[' {
      var blockEnd := MatchBracket(data, next, end, '[', ']');
      OpeningFirst(data[next..end]);
      if data[next + 1] == '{' {
        assert t[1..blockEnd - next + 1] == data[next + 1..blockEnd + 1];
        var vals := ReadObjectArray(data, next + 1, blockEnd);
        if vals.Rejected? {
          return Rejected;
        }
        if vals.Undefined? || blockEnd == end {
          return Undefined;
        }
        r := Parsed((Objects(vals.value), blockEnd + 1 - next));
      } else {
        var vals := ReadStringArray(data, next + 1, blockEnd);
        if blockEnd == end {
          return Undefined;
        }
        assert t[1..blockEnd - next] == data[next + 1..blockEnd];
        r := Parsed((Strings(vals), blockEnd + 1 - next));
      }
    } else {
      var blockEnd := next + IndexOf(data[next..end], ',');
      assert t[..blockEnd - next] == data[next..blockEnd];
      r := Parsed((Strings([data[next..blockEnd]]), blockEnd - next));
    }
  }

  lemma OpeningFirst(s: string)
    requires s != "" && s[0] == '['
    ensures Match(s, '[', ']', -1) >= 1
  {
  }

  lemma FieldsStep(rest: string, done: seq<Element>)
    requires rest != "" && rest[|rest| - 1] == '}'
    ensures var o := FirstField(rest);
      && (o.Rejected? ==> Behind(done, Fields(rest)) == Rejected)
      && (o.Undefined? ==> Behind(done, Fields(rest)) == Undefined)
      && (o.Parsed? && o.value.None? ==> Behind(done, Fields(rest)) == Parsed(done))
      && (o.Parsed? && o.value.Some? ==>
            Behind(done, Fields(rest)) == Behind(done + [o.value.value.0], Fields(rest[o.value.value.1..])))
  {
    hide FirstField;
    var o := FirstField(rest);
    if o.Parsed? && o.value.Some? {
      BehindTwice(done, [o.value.value.0], Fields(rest[o.value.value.1..]));
    } else {
      assert done + [] == done;
    }
  }

  /** One turn of fromData's loop, at the cursor `left`. */
  method ReadField(data: string, left: nat) returns (r: Reply<Option<(Element, nat)>>)
    requires left < |data| && data[|data| - 1] == '}'
    ensures r == FirstField(data[left..])
    decreases |data| - left, 4
  {
    hide FieldContent, IndexOf;
    ghost var rest := data[left..];
    var end := |data| - 1;
    assert rest[..|rest| - 1] == data[left..end];
    var div := left + IndexOf(data[left..end], ':');
    if div == end {
      return Parsed(None);
    }
    var next := div + 1;
    assert rest[div - left + 1..] == data[next..];
    assert rest[..div - left] == data[left..div];
    var content := ReadContent(data, next);
    if content.Rejected? {
      return Rejected;
    }
    if content.Undefined? {
      return Undefined;
    }
    var l := next + content.value.1;
    if l != end {
      l := l + 1;
    }
    r := Parsed(Some((Element(data[left..div], content.value.0, data[next] == '['), l - left)));
  }

  /** fromData: the cursor `left` between the outer braces. The empty text is the empty response,
      and any other text without its outer braces is none. */
  method ReadData(data: string) returns (r: Reply<Response>)
    ensures data == "" ==> r == Parsed(Response([]))
    ensures data != "" && (data[0] != '{' || data[|data| - 1] != '}') ==> r == Rejected
    ensures r == FromData(data)
    decreases |data|, 1
  {
    hide FirstField, Fields;
    if data == "" {
      return Parsed(Response([]));
    }
    if data[0] != '{' || data[|data| - 1] != '}' {
      return Rejected;
    }
    var ret: seq<Element> := [];
    var left := 1;
    var end := |data| - 1;
    ghost var goal := Fields(data[1..]);
    BehindNothing(goal);
    while left != end
      invariant 1 <= left <= end
      invariant goal == Behind(ret, Fields(data[left..]))
      decreases end - left
    {
      FieldsStep(data[left..], ret);
      var field := ReadField(data, left);
      if field.Rejected? {
        return Rejected;
      }
      if field.Undefined? {
        return Undefined;
      }
      if field.value.None? {
        return Parsed(Response(ret));
      }
      assert data[left..][field.value.value.1..] == data[left + field.value.value.1..];
      ret := ret + [field.value.value.0];
      left := left + field.value.value.1;
    }
    FieldsStep(data[left..], ret);
    NoField(data[left..]);
    r := Parsed(Response(ret));
  }

  lemma NoField(rest: string)
    requires |rest| == 1 && rest[0] == '}'
    ensures FirstField(rest) == Parsed(None)
  {
    assert rest[..0] == "";
  }
}
