/** The condition language of conditional sections: tests on response values joined by
    `&` and `|`, read strictly from left to right. */
module Conditions {
  import opened Basics
  import opened Responses

  datatype Test = Always | Equal(variable: string, constant: string) | NotEqual(variable: string, constant: string)

  datatype Conjunction = And | Or

  /** conditions[0] conjunctions[0] conditions[1] conjunctions[1] ... */
  datatype Chain = Chain(tests: seq<Test>, conjunctions: seq<Conjunction>)

  predicate WellShaped(c: Chain) {
    |c.tests| == |c.conjunctions| + 1
  }

  // --- Evaluation

  predicate HasValue(data: Response, variable: string, constant: string) {
    Search(data, variable) == Some(Strings([constant]))
  }

  predicate CheckTest(t: Test, data: Response) {
    match t
    case Always => true
    case Equal(v, k) => HasValue(data, v, k)
    case NotEqual(v, k) => !HasValue(data, v, k)
  }

  predicate ApplyConjunction(left: bool, c: Conjunction, right: bool) {
    match c
    case And => left && right
    case Or => left || right
  }

  /** The left fold over the first n+1 tests. */
  predicate CheckFirst(c: Chain, n: nat, data: Response)
    requires WellShaped(c) && n < |c.tests|
  {
    if n == 0 then CheckTest(c.tests[0], data)
    else ApplyConjunction(CheckFirst(c, n - 1, data), c.conjunctions[n - 1], CheckTest(c.tests[n], data))
  }

  predicate Check(c: Chain, data: Response)
    requires WellShaped(c)
  {
    CheckFirst(c, |c.tests| - 1, data)
  }

  /** translationCondition::check. */
  method CheckChain(c: Chain, data: Response) returns (currentState: bool)
    requires WellShaped(c)
    ensures currentState == Check(c, data)
  {
    hide HasValue;
    currentState := CheckTest(c.tests[0], data);
    for i := 1 to |c.tests|
      invariant currentState == CheckFirst(c, i - 1, data)
    {
      currentState := ApplyConjunction(currentState, c.conjunctions[i - 1], CheckTest(c.tests[i], data));
    }
  }

  /** Test `i` holds, starts the chain or follows an `|`, and every later test that an
      `&` attaches holds as well. */
  ghost predicate Decides(c: Chain, i: nat, n: nat, data: Response)
    requires WellShaped(c) && n < |c.tests|
  {
    && i <= n
    && (i == 0 || c.conjunctions[i - 1] == Or)
    && CheckTest(c.tests[i], data)
    && forall j | i < j <= n && c.conjunctions[j - 1] == And :: CheckTest(c.tests[j], data)
  }

  /** There is no precedence: a chain holds exactly when some test decides it. */
  lemma {:induction false} CheckWithoutPrecedence(c: Chain, n: nat, data: Response)
    requires WellShaped(c) && n < |c.tests|
    ensures CheckFirst(c, n, data) <==> exists i: nat :: Decides(c, i, n, data)
  {
    if n == 0 {
      assert Decides(c, 0, 0, data) <==> CheckTest(c.tests[0], data);
    } else {
      CheckWithoutPrecedence(c, n - 1, data);
      if CheckFirst(c, n, data) {
        if c.conjunctions[n - 1] == Or && CheckTest(c.tests[n], data) {
          assert Decides(c, n, n, data);
        } else {
          var i: nat :| Decides(c, i, n - 1, data);
          assert Decides(c, i, n, data);
        }
      }
      if i: nat :| Decides(c, i, n, data) {
        if i < n {
          assert Decides(c, i, n - 1, data);
        }
      }
    }
  }

  // --- Parsing

  /** parseSubCondition: the first '=' decides; only without one is '!' looked for. */
  function ParseTest(source: string): Test {
    var eq := IndexOf(source, '=');
    if eq < |source| then Equal(source[..eq], source[eq + 1..])
    else
      var ne := IndexOf(source, '!');
      if ne < |source| then NotEqual(source[..ne], source[ne + 1..]) else Always
  }

  /** The nearer of the first '&' and the first '|'. */
  function Divisor(s: string): (d: nat)
    ensures d <= |s|
    ensures d < |s| ==> s[d] == '&' || s[d] == '|'
    ensures '&' !in s[..d] && '|' !in s[..d]
  {
    var a, o := IndexOf(s, '&'), IndexOf(s, '|');
    if o < a then
      assert s[..o] <= s[..a];
      o
    else
      assert s[..a] <= s[..o];
      a
  }

  function ConjunctionOf(c: char): Conjunction {
    if c == '&' then And else Or
  }

  function Prepend(t: Test, j: Conjunction, rest: Chain): Chain {
    Chain([t] + rest.tests, [j] + rest.conjunctions)
  }

  function Parse(source: string): (c: Chain)
    ensures WellShaped(c)
    decreases |source|
  {
    var d := Divisor(source);
    if d == |source| then Chain([ParseTest(source)], [])
    else Prepend(ParseTest(source[..d]), ConjunctionOf(source[d]), Parse(source[d + 1..]))
  }

  function Join(done: Chain, rest: Chain): Chain {
    Chain(done.tests + rest.tests, done.conjunctions + rest.conjunctions)
  }

  /** One step of Parse, behind what is already parsed. */
  lemma ParseStep(s: string, done: Chain)
    requires |done.tests| == |done.conjunctions|
    ensures var d := Divisor(s);
      var more := done.tests + [ParseTest(s[..d])];
      Join(done, Parse(s)) ==
      if d == |s| then Chain(more, done.conjunctions)
      else Join(Chain(more, done.conjunctions + [ConjunctionOf(s[d])]), Parse(s[d + 1..]))
  {
    hide ParseTest, Divisor, Join;
    var d := Divisor(s);
    if d == |s| {
      assert s[..d] == s;
      JoinOne(done, ParseTest(s));
    } else {
      JoinPrepend(done, ParseTest(s[..d]), ConjunctionOf(s[d]), Parse(s[d + 1..]));
    }
  }

  lemma JoinOne(done: Chain, t: Test)
    ensures Join(done, Chain([t], [])) == Chain(done.tests + [t], done.conjunctions)
  {
    assert done.conjunctions + [] == done.conjunctions;
  }

  lemma JoinPrepend(done: Chain, t: Test, j: Conjunction, rest: Chain)
    ensures Join(done, Prepend(t, j, rest)) == Join(Chain(done.tests + [t], done.conjunctions + [j]), rest)
  {
    assert done.tests + ([t] + rest.tests) == (done.tests + [t]) + rest.tests;
    assert done.conjunctions + ([j] + rest.conjunctions) == (done.conjunctions + [j]) + rest.conjunctions;
  }

  /** The search for the nearer of the two characters, from the cursor `left`. */
  method FindDivisor(source: string, left: nat) returns (div: nat, kind: Conjunction)
    requires left <= |source|
    ensures div == left + Divisor(source[left..])
    ensures div < |source| ==> kind == ConjunctionOf(source[div])
  {
    div := left + IndexOf(source[left..], '&');
    kind := And;
    var temp := left + IndexOf(source[left..], '|');
    if temp < div {
      div, kind := temp, Or;
    }
  }

  /** translationCondition::parse: the cursor `left` over the text. */
  method ParseChain(source: string) returns (ret: Chain)
    ensures ret == Parse(source)
  {
    hide Parse, ParseTest, Divisor;
    var left := 0;
    ret := Chain([], []);
    ghost var goal := Parse(source);
    assert source[0..] == source;
    assert Join(ret, goal) == goal;
    while true
      invariant left <= |source| && |ret.tests| == |ret.conjunctions|
      invariant goal == Join(ret, Parse(source[left..]))
      decreases |source| - left
    {
      ParseStep(source[left..], ret);
      var div, kind := FindDivisor(source, left);
      assert source[left..][..div - left] == source[left..div];
      ret := ret.(tests := ret.tests + [ParseTest(source[left..div])]);
      if div < |source| {
        assert source[left..][div - left + 1..] == source[div + 1..];
        ret := ret.(conjunctions := ret.conjunctions + [kind]);
        left := div + 1;
      } else {
        break;
      }
    }
  }

  // --- Printing

  function PrintTest(t: Test): string {
    match t
    case Always => ""
    case Equal(v, k) => v + ['='] + k
    case NotEqual(v, k) => v + ['!'] + k
  }

  function SymbolOf(j: Conjunction): char {
    if j == And then '&' else '|'
  }

  function PrintTests(tests: seq<Test>, js: seq<Conjunction>): string
    requires |tests| == |js| + 1
  {
    if js == [] then PrintTest(tests[0])
    else PrintTest(tests[0]) + [SymbolOf(js[0])] + PrintTests(tests[1..], js[1..])
  }

  function Print(c: Chain): string
    requires WellShaped(c)
  {
    PrintTests(c.tests, c.conjunctions)
  }

  /** A test that its own text denotes: the variable has none of the operator characters
      looked for before the test's own. */
  predicate CanonicalTest(t: Test) {
    match t
    case Always => true
    case Equal(v, k) => '=' !in v
    case NotEqual(v, k) => '=' !in v && '!' !in v && '=' !in k
  }

  predicate Undivided(s: string) {
    '&' !in s && '|' !in s
  }

  predicate Canonical(c: Chain) {
    && WellShaped(c)
    && forall t | t in c.tests :: CanonicalTest(t) && Undivided(PrintTest(t))
  }

  lemma TestRoundTrip(t: Test)
    ensures ParseTest(PrintTest(t)) == t <==> CanonicalTest(t)
  {
    match t
    case Always =>
    case Equal(v, k) =>
      var s := v + ['='] + k;
      if '=' !in v {
        IndexOfConcat(v, '=', k);
        assert s[..|v|] == v && s[|v| + 1..] == k;
      } else {
        IndexOfInside(v, '=', ['='] + k);
        assert s == v + (['='] + k);
      }
    case NotEqual(v, k) =>
      var s := v + ['!'] + k;
      if CanonicalTest(t) {
        IndexOfAbsent(s, '=');
        IndexOfConcat(v, '!', k);
        assert s[..|v|] == v && s[|v| + 1..] == k;
      } else if '=' in v || '=' in k {
        assert '=' in s;
        var i := IndexOf(s, '=');
        assert i < |s|;
      } else {
        IndexOfAbsent(s, '=');
        IndexOfInside(v, '!', ['!'] + k);
        assert s == v + (['!'] + k);
      }
  }

  lemma DivisorConcat(u: string, c: char, v: string)
    requires Undivided(u) && (c == '&' || c == '|')
    ensures Divisor(u + [c] + v) == |u|
  {
    var w := [c] + v;
    assert u + [c] + v == u + w;
    IndexOfOver(u, '&', w);
    IndexOfOver(u, '|', w);
    assert IndexOf(w, c) == 0;
    hide IndexOf;
  }

  /** How many joining characters a text has. */
  function Joins(s: string): nat {
    if s == "" then 0 else (if s[0] == '&' || s[0] == '|' then 1 else 0) + Joins(s[1..])
  }

  lemma {:induction false} JoinsConcat(u: string, v: string)
    ensures Joins(u + v) == Joins(u) + Joins(v)
  {
    if u == "" {
      assert u + v == v;
    } else {
      assert (u + v)[1..] == u[1..] + v;
      JoinsConcat(u[1..], v);
    }
  }

  lemma JoinsNone(s: string)
    ensures Joins(s) == 0 <==> Undivided(s)
  {
    if s != "" {
      JoinsNone(s[1..]);
      assert s == [s[0]] + s[1..];
    }
  }

  /** Parsing makes one conjunction of every joining character. */
  lemma {:induction false} ParseCountsJoins(s: string)
    ensures |Parse(s).conjunctions| == Joins(s)
    decreases |s|
  {
    var d := Divisor(s);
    JoinsNone(s[..d]);
    JoinsConcat(s[..d], s[d..]);
    assert s == s[..d] + s[d..];
    if d < |s| {
      ParseCountsJoins(s[d + 1..]);
      assert s[d..][1..] == s[d + 1..];
    }
  }

  /** A printed chain has its own joining characters and those inside its tests. */
  lemma {:induction false} PrintCountsJoins(tests: seq<Test>, js: seq<Conjunction>)
    requires |tests| == |js| + 1
    ensures Joins(PrintTests(tests, js)) >= |js|
    ensures Joins(PrintTests(tests, js)) == |js| ==> forall t | t in tests :: Undivided(PrintTest(t))
  {
    var u := PrintTest(tests[0]);
    JoinsNone(u);
    if js != [] {
      var rest := PrintTests(tests[1..], js[1..]);
      PrintCountsJoins(tests[1..], js[1..]);
      JoinsConcat(u + [SymbolOf(js[0])], rest);
      JoinsConcat(u, [SymbolOf(js[0])]);
      assert tests == [tests[0]] + tests[1..];
    }
  }

  /** Printing a chain and parsing the text gives the chain back exactly when every test is
      canonical and free of the joining characters. */
  lemma ChainRoundTrip(c: Chain)
    requires WellShaped(c)
    ensures Parse(Print(c)) == c <==> Canonical(c)
  {
    hide Parse, ParseTest, PrintTest, PrintTests, CanonicalTest, Joins;
    ParseCountsJoins(Print(c));
    PrintCountsJoins(c.tests, c.conjunctions);
    if forall t | t in c.tests :: Undivided(PrintTest(t)) {
      ParsePrinted(c);
      forall t | t in c.tests
        ensures ParseTest(PrintTest(t)) == t <==> CanonicalTest(t)
      {
        TestRoundTrip(t);
      }
      if Parse(Print(c)) == c {
        forall t | t in c.tests
          ensures CanonicalTest(t)
        {
          var i :| 0 <= i < |c.tests| && c.tests[i] == t;
          assert c.tests[i] == ParseTest(PrintTest(c.tests[i]));
        }
      }
    }
  }

  /** With undivided tests, parsing the printed chain parses each test on its own. */
  lemma {:induction false} ParsePrinted(c: Chain)
    requires WellShaped(c)
    requires forall t | t in c.tests :: Undivided(PrintTest(t))
    ensures var p := Parse(Print(c));
      && p.conjunctions == c.conjunctions
      && forall i | 0 <= i < |c.tests| :: p.tests[i] == ParseTest(PrintTest(c.tests[i]))
    decreases |c.tests|
  {
    hide ParseTest, PrintTest, Divisor, Parse;
    var u := PrintTest(c.tests[0]);
    assert c.tests[0] in c.tests;
    ParseUndivided(u);
    if c.conjunctions != [] {
      var rest := Chain(c.tests[1..], c.conjunctions[1..]);
      forall t | t in rest.tests
        ensures Undivided(PrintTest(t))
      {
        assert t in c.tests;
      }
      ParsePrinted(rest);
      ParseJoined(u, c.conjunctions[0], Print(rest));
    }
  }

  lemma ParseUndivided(u: string)
    requires Undivided(u)
    ensures Parse(u) == Chain([ParseTest(u)], [])
  {
    hide ParseTest;
    IndexOfAbsent(u, '&');
    IndexOfAbsent(u, '|');
  }

  lemma ParseJoined(u: string, j: Conjunction, v: string)
    requires Undivided(u)
    ensures Parse(u + [SymbolOf(j)] + v) == Prepend(ParseTest(u), j, Parse(v))
  {
    hide ParseTest, Divisor;
    var s := u + [SymbolOf(j)] + v;
    DivisorConcat(u, SymbolOf(j), v);
    assert s[..|u|] == u && s[|u| + 1..] == v;
  }

  // --- Which texts are printed back

  /** Every piece between joining characters is empty or has an operator. */
  predicate WholeTests(s: string)
    decreases |s|
  {
    var d := Divisor(s);
    WholeTest(s[..d]) && (d < |s| ==> WholeTests(s[d + 1..]))
  }

  predicate WholeTest(s: string) {
    s == "" || '=' in s || '!' in s
  }

  lemma TestText(s: string)
    ensures WholeTest(s) ==> PrintTest(ParseTest(s)) == s
    ensures !WholeTest(s) ==> PrintTest(ParseTest(s)) == ""
  {
    var eq, ne := IndexOf(s, '='), IndexOf(s, '!');
    assert eq < |s| ==> s == s[..eq] + [s[eq]] + s[eq + 1..];
    assert ne < |s| ==> s == s[..ne] + [s[ne]] + s[ne + 1..];
    assert s[..|s|] == s;
  }

  /** The text of a condition is printed back exactly when no piece of it lacks an operator:
      such a piece always holds and is dropped. */
  lemma {:induction false} ConditionText(s: string)
    ensures |Print(Parse(s))| <= |s|
    ensures Print(Parse(s)) == s <==> WholeTests(s)
    decreases |s|
  {
    hide ParseTest, PrintTest, PrintTests, Divisor, WholeTest;
    var d := Divisor(s);
    TestText(s[..d]);
    if !WholeTest(s[..d]) {
      WholeTestEmpty(s[..d]);
    }
    if d < |s| {
      var more := Parse(s[d + 1..]);
      ConditionText(s[d + 1..]);
      PrintPrepended(ParseTest(s[..d]), ConjunctionOf(s[d]), more);
      ThreeParts(PrintTest(ParseTest(s[..d])), Print(more), s, d);
    } else {
      assert s[..d] == s;
      PrintSingle(ParseTest(s));
    }
  }

  lemma PrintSingle(t: Test)
    ensures Print(Chain([t], [])) == PrintTest(t)
  {
  }

  /** Parts no longer than those around a character of the text give the text back exactly
      when they are those parts. */
  lemma ThreeParts(u: string, v: string, s: string, d: nat)
    requires d < |s| && |u| <= d && |v| <= |s| - d - 1
    ensures u + [s[d]] + v == s <==> u == s[..d] && v == s[d + 1..]
  {
    assert s == s[..d] + ([s[d]] + s[d + 1..]);
    if u + [s[d]] + v == s {
      assert |u| == d;
      assert s[..d] == u && s[d + 1..] == v;
    }
  }

  lemma WholeTestEmpty(s: string)
    requires !WholeTest(s)
    ensures s != ""
  {
  }

  lemma PrintPrepended(t: Test, j: Conjunction, c: Chain)
    requires WellShaped(c)
    ensures Print(Prepend(t, j, c)) == PrintTest(t) + [SymbolOf(j)] + Print(c)
  {
    hide PrintTest;
    assert ([t] + c.tests)[1..] == c.tests && ([j] + c.conjunctions)[1..] == c.conjunctions;
  }

  // --- What a condition's text means

  lemma ParseOne(s: string, t: Test, data: Response)
    requires Undivided(s) && ParseTest(s) == t
    ensures Check(Parse(s), data) == CheckTest(t, data)
  {
    hide ParseTest;
    ParseUndivided(s);
  }

  /** K=v holds exactly when the response has the one string v under K. */
  lemma EqualHolds(v: string, k: string, data: Response)
    requires Undivided(v) && Undivided(k) && '=' !in v
    ensures Check(Parse(v + ['='] + k), data) <==> Search(data, v) == Some(Strings([k]))
  {
    hide Parse, ParseTest, Check, Search;
    TestRoundTrip(Equal(v, k));
    ParseOne(v + ['='] + k, Equal(v, k), data);
  }

  /** K!v holds exactly when it does not, be it for want of any value under K. */
  lemma NotEqualHolds(v: string, k: string, data: Response)
    requires Undivided(v) && Undivided(k) && '=' !in v && '!' !in v && '=' !in k
    ensures Check(Parse(v + ['!'] + k), data) <==> Search(data, v) != Some(Strings([k]))
  {
    hide Parse, ParseTest, Check, Search;
    TestRoundTrip(NotEqual(v, k));
    ParseOne(v + ['!'] + k, NotEqual(v, k), data);
  }

  /** A text without any operator always holds. */
  lemma BareHolds(s: string, data: Response)
    requires Undivided(s) && '=' !in s && '!' !in s
    ensures Check(Parse(s), data)
  {
    hide Parse, Check;
    IndexOfAbsent(s, '=');
    IndexOfAbsent(s, '!');
    ParseOne(s, Always, data);
  }

  /** A chain and one more test. */
  function Attached(c: Chain, j: Conjunction, t: Test): Chain {
    Chain(c.tests + [t], c.conjunctions + [j])
  }

  lemma {:induction false} CheckFirstAttached(c: Chain, j: Conjunction, t: Test, n: nat, data: Response)
    requires WellShaped(c) && n < |c.tests|
    ensures CheckFirst(Attached(c, j, t), n, data) == CheckFirst(c, n, data)
  {
    hide CheckTest;
    if n > 0 {
      CheckFirstAttached(c, j, t, n - 1, data);
    }
  }

  lemma {:induction false} ParseAttached(s: string, c: char, t: string)
    requires Undivided(t) && (c == '&' || c == '|')
    ensures Parse(s + [c] + t) == Attached(Parse(s), ConjunctionOf(c), ParseTest(t))
    decreases |s|
  {
    hide ParseTest, Divisor, Parse;
    var d := Divisor(s);
    if d == |s| {
      DivisorWhole(s);
      ParseUndivided(s);
      ParseJoined(s, ConjunctionOf(c), t);
      ParseUndivided(t);
      assert SymbolOf(ConjunctionOf(c)) == c;
    } else {
      var u, v := s[..d], s[d + 1..];
      DivisorParts(s);
      var j := ConjunctionOf(s[d]);
      assert SymbolOf(j) == s[d];
      assert s == u + [s[d]] + v;
      assert s + [c] + t == u + [s[d]] + (v + [c] + t);
      ParseAttached(v, c, t);
      ParseJoined(u, j, v);
      ParseJoined(u, j, v + [c] + t);
      PrependAttached(ParseTest(u), j, Parse(v), ConjunctionOf(c), ParseTest(t));
    }
  }

  lemma DivisorWhole(s: string)
    requires Divisor(s) == |s|
    ensures Undivided(s)
  {
    assert s[..|s|] == s;
  }

  lemma DivisorParts(s: string)
    requires Divisor(s) < |s|
    ensures Undivided(s[..Divisor(s)]) && (s[Divisor(s)] == '&' || s[Divisor(s)] == '|')
  {
  }

  lemma PrependAttached(t: Test, j: Conjunction, c: Chain, k: Conjunction, u: Test)
    ensures Prepend(t, j, Attached(c, k, u)) == Attached(Prepend(t, j, c), k, u)
  {
    assert [t] + (c.tests + [u]) == ([t] + c.tests) + [u];
    assert [j] + (c.conjunctions + [k]) == ([j] + c.conjunctions) + [k];
  }

  /** A further test behind `&` must hold as well, behind `|` it suffices: whatever text is in
      front of it, with any joins of its own, counts as one condition. */
  lemma JoinedHolds(s: string, c: char, t: string, data: Response)
    requires Undivided(t) && (c == '&' || c == '|')
    ensures Check(Parse(s + [c] + t), data) <==>
            if c == '&' then Check(Parse(s), data) && Check(Parse(t), data)
            else Check(Parse(s), data) || Check(Parse(t), data)
  {
    hide Parse, ParseTest, CheckTest;
    ParseAttached(s, c, t);
    ParseOne(t, ParseTest(t), data);
    var p := Parse(s);
    CheckFirstAttached(p, ConjunctionOf(c), ParseTest(t), |p.tests| - 1, data);
  }

  // --- Opposite conditions

  /** Whether of the conditions K=v and K!v exactly one holds for these data. */
  predicate Opposite(v: string, k: string, data: Response) {
    Check(Parse(v + ['='] + k), data) == !Check(Parse(v + ['!'] + k), data)
  }

  /** For operands without joining characters, exactly one of K=v and K!v holds whatever the
      data if and only if neither text has an operator in front of its own or a further '='. */
  lemma Complementary(v: string, k: string)
    requires Undivided(v) && Undivided(k)
    ensures (forall data: Response :: Opposite(v, k, data)) <==> '=' !in v && '!' !in v && '=' !in k
  {
    hide Parse, Opposite;
    if '=' !in v && '!' !in v && '=' !in k {
      forall data: Response
        ensures Opposite(v, k, data)
      {
        OppositeTests(v, k, data);
      }
    } else if '=' in v || '=' in k {
      NeitherHolds(v, k);
    } else {
      BothHold(v, k);
    }
  }

  lemma OppositeTests(v: string, k: string, data: Response)
    requires Undivided(v) && Undivided(k) && '=' !in v && '!' !in v && '=' !in k
    ensures Opposite(v, k, data)
  {
    hide Parse, Check;
    EqualHolds(v, k, data);
    NotEqualHolds(v, k, data);
  }

  /** Without data neither of two tests for equality holds. */
  lemma NeitherHolds(v: string, k: string)
    requires Undivided(v) && Undivided(k) && ('=' in v || '=' in k)
    ensures !Opposite(v, k, Response([]))
  {
    hide Parse, ParseTest, Check;
    var yes, no := v + ['='] + k, v + ['!'] + k;
    EqualsParse(yes);
    EqualsParse(no);
    ParseOne(yes, ParseTest(yes), Response([]));
    ParseOne(no, ParseTest(no), Response([]));
  }

  lemma EqualsParse(s: string)
    requires '=' in s
    ensures ParseTest(s).Equal?
  {
  }

  /** With a '!' inside v the second text tests another variable, for another value. */
  lemma BothHold(v: string, k: string)
    requires Undivided(v) && Undivided(k) && '=' !in v && '!' in v && '=' !in k
    ensures exists data: Response :: !Opposite(v, k, data)
  {
    hide Parse, ParseTest, Check;
    var yes, no := v + ['='] + k, v + ['!'] + k;
    var i := IndexOf(v, '!');
    var w, c := v[..i], v[i + 1..] + ['!'] + k;
    assert v == w + ['!'] + v[i + 1..];
    assert no == w + ['!'] + c;
    var data := Response([Element(v, Strings([k]), false)]);
    EqualHolds(v, k, data);
    TestRoundTrip(NotEqual(w, c));
    ParseOne(no, NotEqual(w, c), data);
    assert w != v && Search(data, w) == None;
    assert !Opposite(v, k, data);
  }
}
