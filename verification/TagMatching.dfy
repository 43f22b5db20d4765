/** Matching the tag that closes a section, over other sections nested in it. */
module TagMatching {
  import opened Basics
  import opened MarkerSearch

  /** std::strncmp over at most what is left of the text: near the end of the text a
      mere beginning of the tag counts as the tag. */
  predicate Looks(s: string, tag: string) {
    s != "" && (tag <= s || s <= tag)
  }

  /** 1 where a section of this kind opens, -1 where one closes. */
  function Sign(s: string, open: string, close: string): int {
    if Looks(s, open) then 1 else if Looks(s, close) then -1 else 0
  }

  /** How far past the front of `s` the search stops, with `depth` more tags open than
      closed. Depth -1 is the source's wrapped-around maximum before the first tag.
      None when the cursor is moved past the end of the text. */
  function TagScan(s: string, open: string, close: string, depth: int): Option<nat>
    requires depth >= -1
    requires depth == -1 && s != "" ==> Looks(s, open)
  {
    if s == "" then
      Some(0)
    else if Sign(s, open, close) == 1 then
      // The cursor jumps over the tag, and the loop then steps over one more character.
      if |open| < |s| then Shift(|open| + 1, TagScan(s[|open| + 1..], open, close, depth + 1)) else None
    else if Sign(s, open, close) == -1 && depth == 0 then
      if |close| <= |s| && close != "" then Some(|close|) else None
    else
      Shift(1, TagScan(s[1..], open, close, depth + Sign(s, open, close)))
  }

  /** A search that stops does so inside the text, and not where it started. */
  lemma {:induction false} TagScanBounds(s: string, open: string, close: string, depth: int)
    requires depth >= -1
    requires depth == -1 && s != "" ==> Looks(s, open)
    ensures var o := TagScan(s, open, close, depth);
      o.Some? ==> o.value <= |s| && (s != "" ==> o.value > 0)
    decreases |s|
  {
    if s != "" {
      if Sign(s, open, close) == 1 {
        if |open| < |s| {
          TagScanBounds(s[|open| + 1..], open, close, depth + 1);
        }
      } else if depth + Sign(s, open, close) >= 0 {
        TagScanBounds(s[1..], open, close, depth + Sign(s, open, close));
      }
    }
  }

  /** One step of TagScan. */
  lemma Unfold(s: string, open: string, close: string, depth: int)
    requires s != "" && depth >= -1 && (depth == -1 ==> Looks(s, open))
    ensures Sign(s, open, close) == 1 ==>
              TagScan(s, open, close, depth) ==
              if |open| < |s| then Shift(|open| + 1, TagScan(s[|open| + 1..], open, close, depth + 1)) else None
    ensures Sign(s, open, close) == -1 && depth == 0 ==>
              TagScan(s, open, close, depth) == if |close| <= |s| && close != "" then Some(|close|) else None
    ensures Sign(s, open, close) != 1 && (Sign(s, open, close) == -1 ==> depth != 0) ==>
              TagScan(s, open, close, depth) ==
              Shift(1, TagScan(s[1..], open, close, depth + Sign(s, open, close)))
  {
  }

  lemma TagScanNothing(open: string, close: string, depth: int)
    requires depth >= -1
    ensures TagScan("", open, close, depth) == Some(0)
  {
  }

  /** tagSearch: a cursor `it` and a depth counter over the text from `begin` on. */
  method TagSearch(s: string, begin: nat, open: string, close: string) returns (r: Option<nat>)
    requires begin <= |s| && open != "" && close != ""
    requires s[begin..] != "" ==> Looks(s[begin..], open)
    ensures r == Shift(begin, TagScan(s[begin..], open, close, -1))
  {
    hide TagScan;
    ghost var goal := Shift(begin, TagScan(s[begin..], open, close, -1));
    var depth: int := -1;
    var it := begin;
    while it != |s|
      invariant begin <= it <= |s| && depth >= -1
      invariant depth == -1 && it < |s| ==> Looks(s[it..], open)
      invariant goal == Shift(it, TagScan(s[it..], open, close, depth))
      decreases |s| - it
    {
      ghost var rest := s[it..];
      Unfold(rest, open, close, depth);
      if Looks(s[it..], open) {
        depth := depth + 1;
        it := it + |open|;
        if it >= |s| {
          return None;
        }
        assert rest[|open| + 1..] == s[it + 1..];
      } else {
        assert rest[1..] == s[it + 1..];
        if Looks(s[it..], close) {
          if depth == 0 {
            return if it + |close| <= |s| then Some(it + |close|) else None;
          }
          depth := depth - 1;
        }
      }
      it := it + 1;
    }
    TagScanNothing(open, close, depth);
    r := Some(|s|);
  }

  lemma SignNone(s: string, open: string, close: string)
    requires NoneAt(s, [open, close])
    requires |s| >= |open| && |s| >= |close|
    ensures Sign(s, open, close) == 0
  {
    assert open in [open, close] && close in [open, close];
  }

  lemma SignOpen(x: string, open: string, close: string)
    requires open != ""
    ensures Sign(open + x, open, close) == 1
  {
    assert (open + x)[..|open|] == open;
  }

  lemma SignClose(x: string, open: string, close: string)
    requires close != "" && |open| <= |close|
    requires !(open <= close + x)
    ensures Sign(close + x, open, close) == -1
  {
    assert (close + x)[..|close|] == close;
  }

  /** A text in which neither tag begins leaves the depth alone. */
  lemma {:induction false} TagScanOver(u: string, v: string, open: string, close: string, depth: nat)
    requires Quiet(u, v, [open, close])
    requires |v| >= |close| && |v| >= |open|
    ensures TagScan(u + v, open, close, depth) == Shift(|u|, TagScan(v, open, close, depth))
  {
    hide TagScan, Sign, Looks, NoneAt;
    if u == "" {
      assert u + v == v;
    } else {
      var s := u + v;
      SignNone(s, open, close);
      Unfold(s, open, close, depth);
      assert s[1..] == u[1..] + v;
      TagScanOver(u[1..], v, open, close, depth);
    }
  }

  /** An opening tag and the character after it go one deeper. */
  lemma TagScanOpen(c: char, v: string, open: string, close: string, depth: int)
    requires open != "" && depth >= -1
    ensures TagScan(open + [c] + v, open, close, depth) == Shift(|open| + 1, TagScan(v, open, close, depth + 1))
  {
    hide TagScan, Sign;
    var s := open + [c] + v;
    assert s == open + ([c] + v);
    SignOpen([c] + v, open, close);
    assert s[..|open|] == open;
    assert s[|open| + 1..] == v;
    Unfold(s, open, close, depth);
  }

  /** A closing tag inside goes one back up, its other characters being plain. */
  lemma TagScanClose(v: string, open: string, close: string, depth: nat)
    requires close != "" && |v| >= |close| >= |open|
    requires !(open <= close + v) && depth > 0
    requires Quiet(close[1..], v, [open, close])
    ensures TagScan(close + v, open, close, depth) == Shift(|close|, TagScan(v, open, close, depth - 1))
  {
    hide TagScan, Sign, Looks, Quiet;
    var s := close + v;
    SignClose(v, open, close);
    assert s[1..] == close[1..] + v;
    Unfold(s, open, close, depth);
    TagScanOver(close[1..], v, open, close, depth - 1);
  }

  /** At depth 0 the first closing tag ends the search. */
  lemma TagScanEnd(v: string, open: string, close: string)
    requires close != "" && |open| <= |close| && !(open <= close + v)
    ensures TagScan(close + v, open, close, 0) == Some(|close|)
  {
    hide TagScan, Sign, Looks;
    SignClose(v, open, close);
    Unfold(close + v, open, close, 0);
  }

  // An independent reading of the search: counting tags.

  /** Opening tags minus closing tags among the first `n` positions. */
  function Net(s: string, n: nat, open: string, close: string): int
    requires n <= |s|
  {
    if n == 0 then 0 else Sign(s, open, close) + Net(s[1..], n - 1, open, close)
  }

  /** Every tag look-alike is whole, and nothing looks like a tag in the characters of an
      opening tag or directly after it. */
  predicate Spaced(s: string, open: string, close: string) {
    s == "" ||
    (&& (Sign(s, open, close) == 1 ==> |s| > |open| && Plain(s[1..], |open|, open, close))
     && (Sign(s, open, close) == -1 ==> |s| >= |close| > 0)
     && Spaced(s[1..], open, close))
  }

  predicate Plain(s: string, n: nat, open: string, close: string)
    requires n <= |s|
  {
    n == 0 || (Sign(s, open, close) == 0 && Plain(s[1..], n - 1, open, close))
  }

  lemma {:induction false} PlainSkip(s: string, n: nat, open: string, close: string, depth: nat)
    requires n <= |s| && Plain(s, n, open, close)
    ensures TagScan(s, open, close, depth) == Shift(n, TagScan(s[n..], open, close, depth))
  {
    hide TagScan, Sign, Looks;
    if n > 0 {
      Unfold(s, open, close, depth);
      PlainSkip(s[1..], n - 1, open, close, depth);
      assert s[1..][n - 1..] == s[n..];
    }
  }

  /** The first `n` positions never bring the depth below zero. */
  ghost predicate StaysOpen(s: string, depth: nat, n: nat, open: string, close: string)
    requires n <= |s|
  {
    forall j: nat | j <= n :: depth + Net(s, j, open, close) >= 0
  }

  /** Position `n` is the first at which the tags read so far balance. */
  ghost predicate BalancesAt(s: string, depth: nat, n: int, open: string, close: string) {
    0 <= n < |s| && depth + Net(s, n + 1, open, close) == -1 && StaysOpen(s, depth, n, open, close)
  }

  /** The search stops just past the closing tag at the first position at which the tags
      balance, or at the end of the text when they never do. */
  lemma {:induction false} TagScanBalances(s: string, open: string, close: string, depth: nat)
    requires Spaced(s, open, close)
    ensures TagScan(s, open, close, depth).Some?
    ensures var r := TagScan(s, open, close, depth).value;
      || BalancesAt(s, depth, r - |close|, open, close)
      || (r == |s| && StaysOpen(s, depth, |s|, open, close))
    decreases |s|
  {
    hide TagScan, Sign, Looks, Plain, StaysOpen;
    if s == "" {
      TagScanNothing(open, close, depth);
      StaysOpenAtStart(s, depth, open, close);
    } else {
      Unfold(s, open, close, depth);
      SignBounds(s, open, close);
      var d := depth + Sign(s, open, close);
      if d >= 0 {
        ScanStep(s, open, close, depth);
        TagScanBalances(s[1..], open, close, d);
        var r := TagScan(s[1..], open, close, d).value;
        if BalancesAt(s[1..], d, r - |close|, open, close) {
          StaysOpenStep(s, open, close, depth, r - |close|);
        } else {
          StaysOpenStep(s, open, close, depth, |s[1..]|);
        }
      } else {
        StaysOpenAtStart(s, depth, open, close);
        assert Net(s, 1, open, close) == -1 + Net(s[1..], 0, open, close);
      }
    }
  }

  lemma SignBounds(s: string, open: string, close: string)
    ensures -1 <= Sign(s, open, close) <= 1
  {
  }

  lemma StaysOpenAtStart(s: string, depth: nat, open: string, close: string)
    ensures StaysOpen(s, depth, 0, open, close)
  {
  }

  lemma ScanStep(s: string, open: string, close: string, depth: nat)
    requires s != "" && Spaced(s, open, close) && depth + Sign(s, open, close) >= 0
    ensures TagScan(s, open, close, depth) ==
            Shift(1, TagScan(s[1..], open, close, depth + Sign(s, open, close)))
  {
    hide TagScan, Sign, Looks, Plain;
    Unfold(s, open, close, depth);
    SignBounds(s, open, close);
    if Sign(s, open, close) == 1 {
      PlainSkip(s[1..], |open|, open, close, depth + 1);
      assert s[1..][|open|..] == s[|open| + 1..];
    }
  }

  lemma StaysOpenStep(s: string, open: string, close: string, depth: nat, n: nat)
    requires s != "" && n <= |s[1..]| && depth + Sign(s, open, close) >= 0
    requires StaysOpen(s[1..], depth + Sign(s, open, close), n, open, close)
    ensures StaysOpen(s, depth, n + 1, open, close)
  {
    hide Sign;
    forall j: nat | j <= n + 1
      ensures depth + Net(s, j, open, close) >= 0
    {
      if j > 0 {
        assert depth + Sign(s, open, close) + Net(s[1..], j - 1, open, close) >= 0;
      }
    }
  }

  /** Position `n` is the first after the start at which the tags read so far balance. */
  ghost predicate FirstBalance(s: string, n: int, open: string, close: string) {
    && 0 <= n < |s|
    && Net(s, n + 1, open, close) == 0
    && StaysPositive(s, n, open, close)
  }

  ghost predicate StaysPositive(s: string, n: nat, open: string, close: string)
    requires n <= |s|
  {
    forall j: nat | 1 <= j <= n :: Net(s, j, open, close) > 0
  }

  /** The same for a search that starts at an opening tag. */
  lemma TagSearchBalances(s: string, open: string, close: string)
    requires open != "" && open <= s && Spaced(s, open, close)
    ensures TagScan(s, open, close, -1).Some?
    ensures var r := TagScan(s, open, close, -1).value;
      || FirstBalance(s, r - |close|, open, close)
      || (r == |s| && StaysPositive(s, |s|, open, close))
  {
    assert Sign(s, open, close) == 1;
    assert |s| > |open| && Plain(s[1..], |open|, open, close) && Spaced(s[1..], open, close);
    hide TagScan, Sign, Looks, StaysOpen, StaysPositive, Plain, Spaced;
    var t := s[1..];
    Unfold(s, open, close, -1);
    PlainSkip(t, |open|, open, close, 0);
    assert t[|open|..] == s[|open| + 1..];
    TagScanBalances(t, open, close, 0);
    var r := TagScan(t, open, close, 0).value;
    if BalancesAt(t, 0, r - |close|, open, close) {
      PositiveFromOpen(s, open, close, r - |close|);
      assert Net(s, r - |close| + 2, open, close) == 1 + Net(t, r - |close| + 1, open, close);
    } else {
      PositiveFromOpen(s, open, close, |t|);
    }
  }

  lemma PositiveFromOpen(s: string, open: string, close: string, n: nat)
    requires s != "" && Sign(s, open, close) == 1 && n <= |s[1..]| && StaysOpen(s[1..], 0, n, open, close)
    ensures StaysPositive(s, n + 1, open, close)
  {
    hide Sign;
    forall j: nat | 1 <= j <= n + 1
      ensures Net(s, j, open, close) > 0
    {
      assert 0 + Net(s[1..], j - 1, open, close) >= 0;
    }
  }
}
