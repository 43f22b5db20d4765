/** Decimal text of integers: what std::to_string prints, and what std::from_chars
    and std::stol read back from the front of a text. */
module Decimal {
  import opened Basics

  const MAX_U64: nat := 0xFFFF_FFFF_FFFF_FFFF
  // The enumerators `and` and `or` only compile under MSVC, whose long has 32 bits.
  const MIN_LONG: int := -0x8000_0000
  const MAX_LONG: int := 0x7FFF_FFFF

  predicate IsDigit(c: char) {
    '0' <= c <= '9'
  }

  function DigitChar(d: nat): (c: char)
    requires d < 10
    ensures IsDigit(c) && DigitValue(c) == d
  {
    '0' + d as char
  }

  function DigitValue(c: char): nat
    requires IsDigit(c)
  {
    c as nat - '0' as nat
  }

  /** std::to_string of an unsigned number. */
  function ToText(n: nat): (s: string)
    ensures s != ""
    ensures forall c | c in s :: IsDigit(c)
  {
    if n < 10 then [DigitChar(n)] else ToText(n / 10) + [DigitChar(n % 10)]
  }

  function ToTextSigned(n: int): string {
    if n < 0 then "-" + ToText(-n) else ToText(n)
  }

  /** One more decimal digit. */
  lemma NextDigit(n: nat, d: nat)
    requires d < 10
    ensures ToText(d) == [['0', '1', '2', '3', '4', '5', '6', '7', '8', '9'][d]]
    ensures n > 0 ==> ToText(10 * n + d) == ToText(n) + ToText(d)
  {
    if n > 0 {
      assert (10 * n + d) / 10 == n && (10 * n + d) % 10 == d;
    }
  }

  /** The number of digits at the front of a text. */
  function DigitRun(s: string): (k: nat)
    ensures k <= |s|
    ensures forall i | 0 <= i < k :: IsDigit(s[i])
    ensures k < |s| ==> !IsDigit(s[k])
  {
    if s != "" && IsDigit(s[0]) then 1 + DigitRun(s[1..]) else 0
  }

  function ValueOf(s: string): nat
    requires forall i | 0 <= i < |s| :: IsDigit(s[i])
  {
    if s == "" then 0
    else ValueOf(s[..|s| - 1]) * 10 + DigitValue(s[|s| - 1])
  }

  /** std::from_chars into a uint64_t: no sign, no white space, trailing text ignored. */
  function FromChars(s: string): Option<nat> {
    var k := DigitRun(s);
    if k == 0 || ValueOf(s[..k]) > MAX_U64 then None else Some(ValueOf(s[..k]))
  }

  function SkipSpaces(s: string): string {
    if s != "" && IsSpace(s[0]) then SkipSpaces(s[1..]) else s
  }

  /** std::stol: leading white space, an optional sign, digits; None when it throws. */
  function Stol(s: string): Option<int> {
    var t := SkipSpaces(s);
    var negative := t != "" && t[0] == '-';
    var digits := if t != "" && (t[0] == '-' || t[0] == '+') then t[1..] else t;
    var k := DigitRun(digits);
    if k == 0 then None
    else
      var n: int := if negative then 0 - ValueOf(digits[..k]) else ValueOf(digits[..k]);
      if MIN_LONG <= n <= MAX_LONG then Some(n) else None
  }

  lemma {:induction false} ValueOfToText(n: nat)
    ensures ValueOf(ToText(n)) == n
  {
    if n >= 10 {
      ValueOfToText(n / 10);
      var s := ToText(n);
      assert s[..|s| - 1] == ToText(n / 10);
    } else {
      assert ToText(n)[..0] == "";
    }
  }

  lemma {:induction false} DigitRunOver(u: string, rest: string)
    requires forall c | c in u :: IsDigit(c)
    requires rest == "" || !IsDigit(rest[0])
    ensures DigitRun(u + rest) == |u|
  {
    if u != "" {
      assert (u + rest)[1..] == u[1..] + rest;
      DigitRunOver(u[1..], rest);
    } else {
      assert u + rest == rest;
    }
  }

  function Zeros(k: nat): (s: string)
    ensures |s| == k && forall i | 0 <= i < k :: s[i] == '0'
  {
    if k == 0 then "" else ['0'] + Zeros(k - 1)
  }

  lemma {:induction false} ValueOfZeros(k: nat, s: string)
    requires forall i | 0 <= i < |s| :: IsDigit(s[i])
    ensures forall i | 0 <= i < |Zeros(k) + s| :: IsDigit((Zeros(k) + s)[i])
    ensures ValueOf(Zeros(k) + s) == ValueOf(s)
    decreases k + |s|
  {
    var t := Zeros(k) + s;
    if s == "" {
      assert t == Zeros(k);
      if k > 0 {
        assert t[..k - 1] == Zeros(k - 1);
        ValueOfZeros(k - 1, "");
        assert Zeros(k - 1) + "" == Zeros(k - 1);
      }
    } else {
      assert t[..|t| - 1] == Zeros(k) + s[..|s| - 1];
      ValueOfZeros(k, s[..|s| - 1]);
    }
  }

  /** Digits with any number of leading zeros, in front of a non-digit. */
  lemma DigitsRead(k: nat, n: nat, rest: string)
    requires rest == "" || !IsDigit(rest[0])
    ensures var s := Zeros(k) + ToText(n) + rest;
      && IsDigit(s[0]) && DigitRun(s) == k + |ToText(n)|
      && ValueOf(s[..DigitRun(s)]) == n
  {
    var d := Zeros(k) + ToText(n);
    var s := d + rest;
    assert forall c | c in d :: IsDigit(c);
    DigitRunOver(d, rest);
    assert s[..|d|] == d && d[0] in d && s[0] == d[0];
    ValueOfZeros(k, ToText(n));
    ValueOfToText(n);
  }

  /** Digits with any leading zeros are read up to the first non-digit, if they fit 64 bits;
      a text that does not begin with a digit is no number. */
  lemma FromCharsReads(k: nat, n: nat, rest: string)
    requires rest == "" || !IsDigit(rest[0])
    ensures FromChars(Zeros(k) + ToText(n) + rest) == if n <= 0xFFFF_FFFF_FFFF_FFFF then Some(n) else None
    ensures FromChars(rest) == None
  {
    DigitsRead(k, n, rest);
  }

  /** An unsigned 64-bit number printed and read back, whatever non-digit follows it. */
  lemma FromCharsToText(n: nat, rest: string)
    requires rest == "" || !IsDigit(rest[0])
    ensures FromChars(ToText(n) + rest) == if n <= 0xFFFF_FFFF_FFFF_FFFF then Some(n) else None
  {
    FromCharsReads(0, n, rest);
    assert Zeros(0) + ToText(n) == ToText(n);
  }

  lemma {:induction false} SkipsSpaces(spaces: string, s: string)
    requires forall c | c in spaces :: IsSpace(c)
    requires s == "" || !IsSpace(s[0])
    ensures SkipSpaces(spaces + s) == s
  {
    if spaces == "" {
      assert spaces + s == s;
    } else {
      assert (spaces + s)[1..] == spaces[1..] + s;
      SkipsSpaces(spaces[1..], s);
    }
  }

  /** What std::stol makes of the digits behind the white space and the sign. */
  function Signed(negative: bool, digits: string): Option<int> {
    var k := DigitRun(digits);
    if k == 0 then None
    else
      var n: int := if negative then 0 - ValueOf(digits[..k]) else ValueOf(digits[..k]);
      if -0x8000_0000 <= n <= 0x7FFF_FFFF then Some(n) else None
  }

  lemma StolSkips(s: string, t: string)
    requires SkipSpaces(s) == t
    ensures t != "" && (t[0] == '-' || t[0] == '+') ==> Stol(s) == Signed(t[0] == '-', t[1..])
    ensures t == "" || (t[0] != '-' && t[0] != '+') ==> Stol(s) == Signed(false, t)
  {
    hide SkipSpaces, ValueOf, DigitRun;
  }

  lemma StolSigned(spaces: string, sign: string, digits: string)
    requires forall c | c in spaces :: IsSpace(c)
    requires sign == "" || sign == "+" || sign == "-"
    requires sign == "" ==> digits == "" || (digits[0] != '+' && digits[0] != '-' && !IsSpace(digits[0]))
    ensures Stol(spaces + (sign + digits)) == Signed(sign == "-", digits)
  {
    hide Signed, Stol, SkipSpaces;
    var t := sign + digits;
    if sign == "" {
      assert t == digits;
    } else {
      assert t[0] == sign[0] && t[1..] == digits;
    }
    SkipsSpaces(spaces, t);
    StolSkips(spaces + t, t);
  }

  /** A number is read behind any white space, a sign and any leading zeros, up to the first
      non-digit, if it is a long. */
  lemma StolReads(spaces: string, sign: string, k: nat, n: nat, rest: string)
    requires forall c | c in spaces :: IsSpace(c)
    requires sign == "" || sign == "+" || sign == "-"
    requires rest == "" || !IsDigit(rest[0])
    ensures var v: int := if sign == "-" then 0 - n else n;
      Stol(spaces + (sign + (Zeros(k) + ToText(n) + rest))) ==
      if -0x8000_0000 <= v <= 0x7FFF_FFFF then Some(v) else None
  {
    hide Stol, ValueOf, ToText, Zeros, SkipSpaces;
    DigitsRead(k, n, rest);
    StolSigned(spaces, sign, Zeros(k) + ToText(n) + rest);
  }

  /** Without a digit there it throws. */
  lemma StolThrows(spaces: string, sign: string, rest: string)
    requires forall c | c in spaces :: IsSpace(c)
    requires sign == "" || sign == "+" || sign == "-"
    requires rest == "" || !IsDigit(rest[0])
    requires sign == "" ==> rest == "" || (rest[0] != '+' && rest[0] != '-' && !IsSpace(rest[0]))
    ensures Stol(spaces + (sign + rest)) == None
  {
    hide Stol, SkipSpaces;
    StolSigned(spaces, sign, rest);
  }

  /** A long printed and read back by std::stol, whatever non-digit follows it. */
  lemma StolToText(n: int, rest: string)
    requires rest == "" || !IsDigit(rest[0])
    ensures Stol(ToTextSigned(n) + rest) == if -0x8000_0000 <= n <= 0x7FFF_FFFF then Some(n) else None
  {
    hide Stol, ToText;
    var m: nat := if n < 0 then 0 - n else n;
    var sign := if n < 0 then "-" else "";
    StolReads("", sign, 0, m, rest);
    assert "" + (sign + (Zeros(0) + ToText(m) + rest)) == ToTextSigned(n) + rest;
  }
}
