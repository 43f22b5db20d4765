/** Form and query text: the decoder parseURLValues, and every encoding it inverts
    (application/x-www-form-urlencoded, section 17.13.4.1 of HTML 4.01, with percent-encoding
    as in section 2.1 of RFC 3986). */
module Forms {
  import opened Basics
  import opened Queries

  // --- Decoding

  function HexValue(c: char): Option<nat> {
    if '0' <= c <= '9' then Some(c as nat - '0' as nat)
    else if 'a' <= c <= 'f' then Some(c as nat - 'a' as nat + 10)
    else if 'A' <= c <= 'F' then Some(c as nat - 'A' as nat + 10)
    else None
  }

  function HexByte(a: char, b: char): (r: Option<char>) {
    var x, y := HexValue(a), HexValue(b);
    if x.Some? && y.Some? then Some((x.value * 16 + y.value) as char) else None
  }

  /** curl_easy_unescape: a '%' before two hexadecimal digits stands for a byte. */
  function Unescape(s: string): string {
    if s == "" then ""
    else if s[0] == '%' && |s| > 2 && HexByte(s[1], s[2]).Some? then
      [HexByte(s[1], s[2]).value] + Unescape(s[3..])
    else [s[0]] + Unescape(s[1..])
  }

  /** std::replace of '+' by a space. */
  function PlusToSpace(s: string): string {
    if s == "" then "" else [if s[0] == '+' then ' ' else s[0]] + PlusToSpace(s[1..])
  }

  function Decode(s: string): string {
    Unescape(PlusToSpace(s))
  }

  /** One element: only the first '=' divides, and only the value is decoded. */
  function ElementName(segment: string): string {
    segment[..IndexOf(segment, '=')]
  }

  function ElementValue(segment: string): string {
    var div := IndexOf(segment, '=');
    if div < |segment| && |segment| - div - 1 != 0 then Decode(segment[div + 1..]) else ""
  }

  /** parseURLValues; a later element of the same name replaces the earlier one. */
  function Parse(source: string): Elements
    decreases |source|
  {
    if source == "" then map[]
    else
      var end := IndexOf(source, '&');
      var segment := source[..end];
      map[ElementName(segment) := ElementValue(segment)] +
      Parse(if end < |source| then source[end + 1..] else "")
  }

  lemma ParseStep(source: string)
    ensures var end := IndexOf(source, '&');
      Parse(source) ==
      if source == "" then map[]
      else map[ElementName(source[..end]) := ElementValue(source[..end])] +
           Parse(if end < |source| then source[end + 1..] else "")
  {
    hide ElementName, ElementValue, IndexOf;
  }

  method ParseURLValues(source: string) returns (ret: Elements)
    ensures ret == Parse(source)
  {
    hide ElementName, ElementValue, IndexOf, Parse;
    ret := map[];
    var it := 0;
    ghost var goal := Parse(source);
    assert source[0..] == source;
    while it != |source|
      invariant it <= |source|
      invariant goal == ret + Parse(source[it..])
      decreases |source| - it
    {
      ghost var rest := source[it..];
      ParseStep(rest);
      var end := it + IndexOf(source[it..], '&');
      assert rest[..end - it] == source[it..end];
      var id, value := TakeElement(source[it..end]);
      assert end < |source| ==> rest[end - it + 1..] == source[end + 1..];
      assert source[|source|..] == "";
      ret := ret[id := value];
      it := end;
      if it != |source| {
        it := it + 1;
      }
    }
    ParseStep(source[it..]);
    assert ret + map[] == ret;
  }

  method TakeElement(segment: string) returns (id: string, value: string)
    ensures id == ElementName(segment) && value == ElementValue(segment)
  {
    var div := IndexOf(segment, '=');
    id := segment[..div];
    if div != |segment| && |segment| - div - 1 != 0 {
      value := Decode(segment[div + 1..]);
    } else {
      value := "";
    }
  }

  // --- Any text

  /** A text that encodes nothing stands for itself. */
  lemma {:induction false} PlainDecodes(s: string)
    requires '%' !in s && '+' !in s
    ensures Decode(s) == s
  {
    if s != "" {
      PlainDecodes(s[1..]);
      assert s == [s[0]] + s[1..];
      assert PlusToSpace(s) == [s[0]] + PlusToSpace(s[1..]);
      assert ([s[0]] + PlusToSpace(s[1..]))[1..] == PlusToSpace(s[1..]);
    }
  }

  /** The hexadecimal digits: 0 to 9, A to F, and a to f again. */
  function HexAt(i: nat): char
    requires i < 22
  {
    if i < 10 then '0' + i as char else if i < 16 then 'A' + (i - 10) as char else 'a' + (i - 16) as char
  }

  /** What they stand for. */
  function HexOf(i: nat): nat
    requires i < 22
  {
    if i < 16 then i else i - 6
  }

  predicate IsHex(c: char) {
    exists i: nat :: i < 22 && HexAt(i) == c
  }

  lemma HexValues(c: char)
    ensures HexValue(c).Some? <==> IsHex(c)
    ensures forall i: nat | i < 22 && HexAt(i) == c :: HexValue(c) == Some(HexOf(i))
  {
    if '0' <= c <= '9' {
      assert HexAt(c as nat - '0' as nat) == c;
    } else if 'A' <= c <= 'F' {
      assert HexAt(c as nat - 'A' as nat + 10) == c;
    } else if 'a' <= c <= 'f' {
      assert HexAt(c as nat - 'a' as nat + 16) == c;
    }
  }

  /** A '%' and two hexadecimal digits of either case stand for one byte. */
  lemma PercentDecodes(i: nat, j: nat, s: string)
    requires i < 22 && j < 22
    ensures Decode(['%', HexAt(i), HexAt(j)] + s) == [(16 * HexOf(i) + HexOf(j)) as char] + Decode(s)
  {
    hide Decode, HexValue, HexAt, HexOf;
    HexValues(HexAt(i));
    HexValues(HexAt(j));
    var e := ['%', HexAt(i), HexAt(j)];
    HexBound(i);
    HexBound(j);
    DecodeByte(e, (16 * HexOf(i) + HexOf(j)) as char, s);
  }

  lemma HexBound(i: nat)
    requires i < 22
    ensures HexOf(i) < 16
  {
  }

  /** A '%' without two hexadecimal digits behind it stands for itself. */
  lemma StrayPercent(s: string)
    requires |s| < 2 || !IsHex(s[0]) || !IsHex(s[1])
    ensures Decode("%" + s) == "%" + Decode(s)
  {
    hide IsHex;
    var t := "%" + s;
    assert t[1..] == s;
    assert PlusToSpace(t) == ['%'] + PlusToSpace(s);
    var u := PlusToSpace(t);
    assert u[1..] == PlusToSpace(s);
    PlusKeepsDigits(s);
    if |s| >= 2 {
      HexValues(s[0]);
      HexValues(s[1]);
    }
  }

  lemma PlusKeepsDigits(s: string)
    ensures |PlusToSpace(s)| == |s|
    ensures |s| >= 2 ==> var u := PlusToSpace(s);
      HexByte(u[0], u[1]).None? <==> HexByte(s[0], s[1]).None?
  {
    if |s| >= 2 {
      assert PlusToSpace(s) == [if s[0] == '+' then ' ' else s[0]] + PlusToSpace(s[1..]);
      assert s[1..][0] == s[1];
    }
  }

  /** An element without '=' is a name with an empty value, and so is one with nothing behind it. */
  lemma NameAlone(n: string)
    requires n != "" && '&' !in n && '=' !in n
    ensures Parse(n) == map[n := ""] && Parse(n + "=") == map[n := ""]
  {
    hide IndexOf;
    IndexOfAbsent(n, '&');
    IndexOfAbsent(n, '=');
    IndexOfAbsent(n + "=", '&');
    IndexOfConcat(n, '=', "");
    assert n + ['='] + "" == n + "=";
    assert n[..|n|] == n && (n + "=")[..|n + "="|] == n + "=" && (n + "=")[..|n|] == n;
    ParseStep(n);
    ParseStep(n + "=");
    ParseNothing();
    assert map[n := ""] + map[] == map[n := ""];
  }

  lemma ParseNothing()
    ensures Parse("") == map[]
  {
  }

  /** Only the first '=' divides. */
  lemma FirstEqualDivides(n: string, v: string)
    requires '&' !in n && '=' !in n && '&' !in v && '%' !in v && '+' !in v
    ensures Parse(n + ['='] + v) == map[n := v]
  {
    hide IndexOf, Decode;
    var s := n + ['='] + v;
    IndexOfAbsent(s, '&');
    IndexOfConcat(n, '=', v);
    assert s[..|s|] == s && s[..|n|] == n && s[|n| + 1..] == v;
    PlainDecodes(v);
    ParseStep(s);
    ParseNothing();
    assert map[n := v] + map[] == map[n := v];
  }

  lemma ParseFirst(segment: string, rest: string)
    requires '&' !in segment
    ensures Parse(segment + ['&'] + rest) == map[ElementName(segment) := ElementValue(segment)] + Parse(rest)
    ensures segment != "" ==> Parse(segment) == map[ElementName(segment) := ElementValue(segment)]
    ensures ElementName("") == "" && ElementValue("") == ""
  {
    var s := segment + ['&'] + rest;
    IndexOfConcat(segment, '&', rest);
    IndexOfAbsent(segment, '&');
    assert s[..|segment|] == segment && s[|segment| + 1..] == rest && segment[..|segment|] == segment;
    ParseNothing();
    hide IndexOf, Parse;
    ParseStep(s);
    ParseStep(segment);
  }

  /** What an '&' behind a text adds: an element without a name, when nothing is in front of it. */
  function Gap(u: string): Elements {
    if u == "" || u[|u| - 1] == '&' then map["" := ""] else map[]
  }

  lemma MapsAssociate(a: Elements, b: Elements, c: Elements, d: Elements)
    ensures a + (b + c + d) == (a + b) + c + d
    ensures map[] + a == a && a + map[] == a
  {
  }

  /** The elements around an '&' are decoded on their own, the later ones winning. Nothing in
      front of an '&' is an element without a name and a value. */
  lemma {:induction false} ParseConcat(u: string, v: string)
    ensures Parse(u + ['&'] + v) == Parse(u) + Gap(u) + Parse(v)
    decreases |u|
  {
    hide IndexOf, ElementName, ElementValue, Parse;
    MapsAssociate(Parse(u), Parse(u), Parse(u), Parse(u));
    if '&' !in u {
      ParseFirst(u, v);
      ParseNothing();
      MapsAssociate(Gap(u), Gap(u), Gap(u), Gap(u));
    } else {
      var i := IndexOf(u, '&');
      FirstAmpersand(u);
      var first, w := u[..i], u[i + 1..];
      assert u == first + ['&'] + w;
      assert u + ['&'] + v == first + ['&'] + (w + ['&'] + v);
      ParseFirst(first, w);
      ParseFirst(first, w + ['&'] + v);
      ParseConcat(w, v);
      assert Gap(u) == Gap(w) by {
        assert w != "" ==> w[|w| - 1] == u[|u| - 1];
        assert w == "" ==> u[|u| - 1] == u[i];
      }
      MapsAssociate(map[ElementName(first) := ElementValue(first)], Parse(w), Gap(w), Parse(v));
    }
  }

  lemma FirstAmpersand(u: string)
    requires '&' in u
    ensures var i := IndexOf(u, '&'); i < |u| && u[i] == '&' && '&' !in u[..i]
  {
    assert u[..|u|] == u;
  }

  // --- Encoding

  /** Whether `e` stands for the byte `c`: itself, a '+' for a space, or a '%' and two
      hexadecimal digits of either case. */
  predicate EncodesByte(e: string, c: char) {
    || (e == [c] && c != '&' && c != '+' && c != '%')
    || (e == "+" && c == ' ')
    || (|e| == 3 && e[0] == '%' && HexByte(e[1], e[2]) == Some(c))
  }

  /** Whether the pieces encode the value byte by byte, by whatever choice of encodings. */
  predicate Encodes(pieces: seq<string>, value: string) {
    |pieces| == |value| && forall i | 0 <= i < |value| :: EncodesByte(pieces[i], value[i])
  }

  function Flatten(pieces: seq<string>): string {
    if pieces == [] then "" else pieces[0] + Flatten(pieces[1..])
  }

  lemma {:induction false} PlusConcat(u: string, v: string)
    ensures PlusToSpace(u + v) == PlusToSpace(u) + PlusToSpace(v)
  {
    if u == "" {
      assert u + v == v;
    } else {
      assert (u + v)[1..] == u[1..] + v;
      PlusConcat(u[1..], v);
    }
  }

  lemma DecodeByte(e: string, c: char, rest: string)
    requires EncodesByte(e, c)
    ensures Decode(e + rest) == [c] + Decode(rest)
  {
    PlusConcat(e, rest);
    var r := PlusToSpace(rest);
    if e == [c] && c != '+' && c != '%' {
      assert PlusToSpace(e) == [c] + PlusToSpace("");
      assert ([c] + r)[1..] == r;
    } else if e == "+" && c == ' ' {
      assert PlusToSpace(e) == [' '] + PlusToSpace("");
      assert ([' '] + r)[1..] == r;
    } else {
      PlusKeepsEscape(e);
      assert (e + r)[3..] == r;
    }
  }

  lemma PlusKeepsEscape(e: string)
    requires |e| == 3 && e[0] == '%' && HexByte(e[1], e[2]).Some?
    ensures PlusToSpace(e) == e
  {
    assert e[1..][1..] == e[2..] && e[2..][1..] == "";
    assert PlusToSpace(e[2..]) == [e[2]] + PlusToSpace("");
    assert PlusToSpace(e[1..]) == [e[1]] + PlusToSpace(e[2..]);
    assert PlusToSpace(e) == [e[0]] + PlusToSpace(e[1..]);
  }

  lemma {:induction false} DecodeEncoded(pieces: seq<string>, value: string)
    requires Encodes(pieces, value)
    ensures Decode(Flatten(pieces)) == value
    ensures '&' !in Flatten(pieces)
    ensures value != "" ==> Flatten(pieces) != ""
  {
    hide Decode;
    if value != "" {
      DecodeEncoded(pieces[1..], value[1..]);
      DecodeByte(pieces[0], value[0], Flatten(pieces[1..]));
      NoAmpersand(pieces[0], value[0]);
      assert value == [value[0]] + value[1..];
    } else {
      DecodeNothing();
    }
  }

  lemma DecodeNothing()
    ensures Decode("") == ""
  {
  }

  lemma NoAmpersand(e: string, c: char)
    requires EncodesByte(e, c)
    ensures '&' !in e && e != ""
  {
  }

  /** A name and its encoded value. */
  datatype Pair = Pair(name: string, pieces: seq<string>, value: string)

  predicate WellEncoded(p: Pair) {
    '&' !in p.name && '=' !in p.name && Encodes(p.pieces, p.value)
  }

  function PairText(p: Pair): string {
    p.name + ['='] + Flatten(p.pieces)
  }

  function PairsText(ps: seq<Pair>): string {
    if ps == [] then ""
    else if |ps| == 1 then PairText(ps[0])
    else PairText(ps[0]) + ['&'] + PairsText(ps[1..])
  }

  /** The last value of every name. */
  function LastWins(ps: seq<Pair>): Elements {
    if ps == [] then map[] else map[ps[0].name := ps[0].value] + LastWins(ps[1..])
  }

  lemma PairBack(p: Pair)
    requires WellEncoded(p)
    ensures '&' !in PairText(p) && PairText(p) != ""
    ensures ElementName(PairText(p)) == p.name && ElementValue(PairText(p)) == p.value
  {
    hide IndexOf, Decode, Encodes;
    DecodeEncoded(p.pieces, p.value);
    var s, e := PairText(p), Flatten(p.pieces);
    IndexOfConcat(p.name, '=', e);
    assert s[..|p.name|] == p.name && s[|p.name| + 1..] == e;
    if e == "" {
      DecodeNothing();
    }
  }

  /** The decoder inverts every encoding of every list of names and byte values: the result
      is the last value of every name. */
  lemma {:induction false} ParseEncoded(ps: seq<Pair>)
    requires forall p | p in ps :: WellEncoded(p)
    ensures Parse(PairsText(ps)) == LastWins(ps)
  {
    hide ElementName, ElementValue, IndexOf, PairText, WellEncoded;
    if ps != [] {
      assert ps[0] in ps;
      PairBack(ps[0]);
      var t := PairText(ps[0]);
      if |ps| == 1 {
        IndexOfAbsent(t, '&');
        assert t[..|t|] == t && ps[1..] == [];
      } else {
        forall p | p in ps[1..]
          ensures WellEncoded(p)
        {
          assert p in ps;
        }
        ParseEncoded(ps[1..]);
        var more := PairsText(ps[1..]);
        IndexOfConcat(t, '&', more);
        var s := t + ['&'] + more;
        assert s[..|t|] == t && s[|t| + 1..] == more;
      }
    }
  }

  // --- One such encoder

  function HexDigit(n: nat): (c: char)
    requires n < 16
    ensures HexValue(c) == Some(n)
  {
    if n < 10 then '0' + n as char else 'A' + (n - 10) as char
  }

  predicate Unreserved(c: char) {
    'a' <= c <= 'z' || 'A' <= c <= 'Z' || '0' <= c <= '9' || c == '-' || c == '_' || c == '.' || c == '*'
  }

  /** The encoding a browser sends of one byte. */
  function EncodeByte(c: char): (e: string)
    requires c as int < 256
    ensures EncodesByte(e, c)
  {
    if Unreserved(c) then [c]
    else if c == ' ' then "+"
    else ['%', HexDigit(c as nat / 16), HexDigit(c as nat % 16)]
  }

  predicate Bytes(s: string) {
    forall c | c in s :: c as int < 256
  }

  function EncodePieces(value: string): (pieces: seq<string>)
    requires Bytes(value)
    ensures Encodes(pieces, value)
  {
    seq(|value|, i requires 0 <= i < |value| => assert value[i] in value; EncodeByte(value[i]))
  }

  /** Names and byte values as a browser sends them: a query or form text. */
  function EncodePairs(ps: seq<(string, string)>): seq<Pair>
    requires forall i | 0 <= i < |ps| :: Bytes(ps[i].1)
  {
    seq(|ps|, i requires 0 <= i < |ps| => Pair(ps[i].0, EncodePieces(ps[i].1), ps[i].1))
  }

  /** What a browser sends is read as the last value of every name, for any byte values under
      names without '&' and '='. */
  lemma BrowserFormBack(ps: seq<(string, string)>)
    requires forall i | 0 <= i < |ps| :: Bytes(ps[i].1) && '&' !in ps[i].0 && '=' !in ps[i].0
    ensures Parse(PairsText(EncodePairs(ps))) == LastWins(EncodePairs(ps))
  {
    hide Parse, PairsText, LastWins, Encodes;
    var pairs := EncodePairs(ps);
    forall p | p in pairs
      ensures WellEncoded(p)
    {
      var i :| 0 <= i < |pairs| && pairs[i] == p;
      assert Encodes(EncodePieces(ps[i].1), ps[i].1);
    }
    ParseEncoded(pairs);
  }

  // --- The order of the two replacements

  lemma UnescapeByte(e: string, c: char, rest: string)
    requires EncodesByte(e, c)
    ensures PlusToSpace(Unescape(e + rest)) == PlusToSpace([c]) + PlusToSpace(Unescape(rest))
  {
    var r := Unescape(rest);
    if e == [c] || e == "+" {
      assert e + rest == [e[0]] + rest && (e + rest)[1..] == rest;
      PlusConcat([e[0]], r);
    } else {
      assert (e + rest)[3..] == rest;
      PlusConcat([c], r);
    }
  }

  /** With the replacements the other way round every plus of the value comes out as a space,
      so that order inverts the encodings of a value if and only if it has no plus. */
  lemma {:induction false} PlusBeforePercent(pieces: seq<string>, value: string)
    requires Encodes(pieces, value)
    ensures PlusToSpace(Unescape(Flatten(pieces))) == PlusToSpace(value)
    ensures PlusToSpace(Unescape(Flatten(pieces))) == value <==> '+' !in value
  {
    hide Unescape, EncodesByte;
    PlusLost(value);
    if value != "" {
      PlusBeforePercent(pieces[1..], value[1..]);
      UnescapeByte(pieces[0], value[0], Flatten(pieces[1..]));
      PlusConcat([value[0]], value[1..]);
      assert value == [value[0]] + value[1..];
    } else {
      UnescapeNothing();
    }
  }

  lemma UnescapeNothing()
    ensures Unescape("") == ""
  {
  }

  lemma {:induction false} PlusLost(s: string)
    ensures PlusToSpace(s) == s <==> '+' !in s
  {
    if s != "" {
      PlusLost(s[1..]);
      assert s == [s[0]] + s[1..];
    }
  }
}
