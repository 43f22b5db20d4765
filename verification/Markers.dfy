/** The HTMT markers: which texts begin a section, a value or a query, and which
    close a section. No marker can begin inside another one. */
module Markers {
  import opened MarkerSearch

  /** The three section kinds, in the order of the source's tag tables. */
  datatype Kind = Iteration | Code | Condition

  datatype Marker = Open(kind: Kind) | Close(kind: Kind) | ValueTag | QueryTag {
    function Text(): string {
      match this
      case Open(Iteration) => "<HTMT:"
      case Open(Code) => "<HTMTCODE:"
      case Open(Condition) => "<HTMTCOND:"
      case Close(Iteration) => "</HTMT>"
      case Close(Code) => "</HTMTCODE>"
      case Close(Condition) => "</HTMTCOND>"
      case ValueTag => "<HTMTVAL"
      case QueryTag => "<HTMTQUERY"
    }
  }

  /** The text that opens a section of each kind. */
  function OpenText(k: Kind): string { Open(k).Text() }

  /** The text that closes a section of each kind. */
  function CloseText(k: Kind): string { Close(k).Text() }

  const OPENS: seq<string> := [OpenText(Iteration), OpenText(Code), OpenText(Condition)]
  const CLOSES: seq<string> := [CloseText(Iteration), CloseText(Code), CloseText(Condition)]
  const VALUES: seq<string> := [ValueTag.Text(), QueryTag.Text()]
  const ALL: seq<string> := OPENS + CLOSES + VALUES

  lemma AllMarkers(m: Marker)
    ensures m.Text() in ALL
    ensures m.Open? ==> m.Text() in OPENS
  {
    match m
    case Open(Iteration) => assert OPENS[0] == m.Text() && ALL[0] == OPENS[0];
    case Open(Code) => assert OPENS[1] == m.Text() && ALL[1] == OPENS[1];
    case Open(Condition) => assert OPENS[2] == m.Text() && ALL[2] == OPENS[2];
    case Close(Iteration) => assert CLOSES[0] == m.Text() && ALL[3] == CLOSES[0];
    case Close(Code) => assert CLOSES[1] == m.Text() && ALL[4] == CLOSES[1];
    case Close(Condition) => assert CLOSES[2] == m.Text() && ALL[5] == CLOSES[2];
    case ValueTag => assert VALUES[0] == m.Text() && ALL[6] == VALUES[0];
    case QueryTag => assert VALUES[1] == m.Text() && ALL[7] == VALUES[1];
  }

  /** Every marker starts with '<' and has no other '<'. */
  lemma MarkerShape(m: Marker)
    ensures |m.Text()| >= 6 && m.Text()[0] == '<' && '<' !in m.Text()[1..]
  {
    match m
    case Open(Iteration) =>
    case Open(Code) =>
    case Open(Condition) =>
    case Close(Iteration) =>
    case Close(Code) =>
    case Close(Condition) =>
    case ValueTag =>
    case QueryTag =>
  }

  /** A closing marker is one character longer than its opening marker. */
  lemma KindLengths(k: Kind)
    ensures 6 <= |OpenText(k)| && |CloseText(k)| == |OpenText(k)| + 1
  {
    match k
    case Iteration =>
    case Code =>
    case Condition =>
  }

  /** A position at which two different markers carry different characters. */
  function Difference(a: Marker, b: Marker): nat {
    if a.Close? != b.Close? then 1
    else if a.Close? then (if a.kind.Iteration? || b.kind.Iteration? then 6 else 8)
    else if a.Open? && b.Open? && !a.kind.Iteration? && !b.kind.Iteration? then 7
    else 5
  }

  lemma Differ(a: Marker, b: Marker)
    requires a != b
    ensures var i := Difference(a, b);
      i < |a.Text()| && i < |b.Text()| && a.Text()[i] != b.Text()[i]
  {
  }

  /** The markers are prefix-free, whatever text follows them. */
  lemma PrefixFree(a: Marker, b: Marker, x: string)
    requires a != b
    ensures !(a.Text() <= b.Text() + x)
  {
    Differ(a, b);
    var i := Difference(a, b);
    assert (b.Text() + x)[i] == b.Text()[i];
  }

  /** Whether every text of `ms` is a marker. */
  predicate AreMarkers(ms: seq<string>) {
    forall m | m in ms :: m in ALL
  }

  lemma MarkerOfText(t: string) returns (m: Marker)
    requires t in ALL
    ensures m.Text() == t
  {
    if t in VALUES {
      m := if t == ValueTag.Text() then ValueTag else QueryTag;
    } else if t in CLOSES {
      m := if t == CloseText(Iteration) then Close(Iteration)
           else if t == CloseText(Code) then Close(Code) else Close(Condition);
    } else {
      m := if t == OpenText(Iteration) then Open(Iteration)
           else if t == OpenText(Code) then Open(Code) else Open(Condition);
    }
  }

  /** No marker at all lies in `u`. */
  predicate MarkerFree(u: string) {
    Quiet(u, "", ALL)
  }

  /** A marker can only straddle a boundary at its own '<': a text that is quiet on its own is
      quiet in front of a '<'. */
  lemma {:induction false} QuietBeforeTag(u: string, v: string, ms: seq<string>)
    requires Quiet(u, "", ms) && AreMarkers(ms)
    requires v == "" || v[0] == '<'
    ensures Quiet(u, v, ms)
  {
    if u != "" {
      QuietBeforeTag(u[1..], v, ms);
      assert u + "" == u;
      forall t | t in ms
        ensures !(t <= u + v)
      {
        var m := MarkerOfText(t);
        MarkerShape(m);
        if |t| <= |u| {
          assert (u + v)[..|t|] == u[..|t|];
        } else if v != "" {
          assert (u + v)[|u|] == '<';
          assert t[|u|] == t[1..][|u| - 1];
        }
      }
    }
  }

  lemma {:induction false} QuietFewer(u: string, v: string, ms: seq<string>, fewer: seq<string>)
    requires Quiet(u, v, ms) && forall m | m in fewer :: m in ms
    ensures Quiet(u, v, fewer)
  {
    if u != "" {
      QuietFewer(u[1..], v, ms, fewer);
    }
  }

  /** No marker straddles the end of marker-free text before nothing or a '<'. */
  lemma MarkerFreeQuiet(u: string, v: string, ms: seq<string>)
    requires MarkerFree(u) && AreMarkers(ms)
    requires v == "" || v[0] == '<'
    ensures Quiet(u, v, ms)
  {
    hide Quiet;
    QuietBeforeTag(u, v, ALL);
    QuietFewer(u, v, ALL, ms);
  }

  /** A text without '<' holds no marker. */
  lemma {:induction false} PlainQuiet(u: string, v: string, ms: seq<string>)
    requires '<' !in u && AreMarkers(ms)
    ensures Quiet(u, v, ms)
  {
    if u != "" {
      PlainQuiet(u[1..], v, ms);
      forall t | t in ms
        ensures !(t <= u + v)
      {
        var m := MarkerOfText(t);
        MarkerShape(m);
        assert (u + v)[0] == u[0];
      }
    }
  }

  /** A text that begins with one marker and has no '<' after it holds no other marker. */
  lemma HeadQuiet(m: Marker, u: string, v: string, ms: seq<string>)
    requires '<' !in u && AreMarkers(ms)
    requires m.Text() !in ms
    ensures Quiet(m.Text() + u, v, ms)
  {
    var head := m.Text() + u;
    MarkerShape(m);
    assert head[1..] == m.Text()[1..] + u;
    PlainQuiet(head[1..], v, ms);
    assert head + v == m.Text() + (u + v);
    forall t | t in ms
      ensures !(t <= head + v)
    {
      var other := MarkerOfText(t);
      PrefixFree(other, m, u + v);
    }
  }
}
