/** Finding the nearest of several markers (findNextSet with std::min_element, and the
    search loop of parseSubHTML). */
module MarkerSearch {
  import opened Basics

  /** No text of `ms` stands at the front of `s`. */
  predicate NoneAt(s: string, ms: seq<string>) {
    forall m | m in ms :: !(m <= s)
  }

  /** No text of `ms` begins inside `u` when `v` follows, not even one reaching into `v`. */
  predicate Quiet(u: string, v: string, ms: seq<string>) {
    u == "" || (NoneAt(u + v, ms) && Quiet(u[1..], v, ms))
  }

  /** Where the nearest marker stands, and which of the list it is. */
  datatype Hit = Hit(pos: nat, which: nat)

  function ShiftHit(n: nat, o: Option<Hit>): Option<Hit> {
    match o
    case None => None
    case Some(h) => Some(Hit(n + h.pos, h.which))
  }

  /** std::string_view::find. */
  function FindMarker(s: string, m: string): Option<nat> {
    if m <= s then Some(0)
    else if s == "" then None
    else Shift(1, FindMarker(s[1..], m))
  }

  /** The index in `ms` of the first marker that stands at the front of `s`. */
  function MarkerAt(s: string, ms: seq<string>): (i: nat)
    ensures i <= |ms|
    ensures i < |ms| ==> ms[i] <= s
  {
    if ms == [] then 0
    else if ms[0] <= s then 0
    else 1 + MarkerAt(s, ms[1..])
  }

  /** The first position at which any marker of `ms` stands. */
  function NextMarker(s: string, ms: seq<string>): (o: Option<Hit>)
    ensures o.Some? ==> o.value.pos <= |s| && o.value.which < |ms|
    ensures o.Some? ==> ms[o.value.which] <= s[o.value.pos..]
  {
    var i := MarkerAt(s, ms);
    if i < |ms| then
      assert s[0..] == s;
      Some(Hit(0, i))
    else if s == "" then
      None
    else
      ShiftHit(1, NextMarker(s[1..], ms))
  }

  lemma {:induction false} MarkerAtFirst(s: string, ms: seq<string>, j: nat)
    requires j < |ms| && ms[j] <= s
    ensures MarkerAt(s, ms) <= j
  {
    if !(ms[0] <= s) {
      MarkerAtFirst(s, ms[1..], j - 1);
    }
  }

  /** NextMarker is the nearest of all the occurrences, the earlier marker of the list
      winning a tie, and it is None exactly when there is no occurrence. */
  lemma {:induction false} NextMarkerIsNearest(s: string, ms: seq<string>, k: nat, j: nat)
    requires k <= |s| && j < |ms| && ms[j] <= s[k..]
    ensures NextMarker(s, ms).Some?
    ensures var h := NextMarker(s, ms).value; h.pos < k || (h.pos == k && h.which <= j)
  {
    if k == 0 {
      assert s[0..] == s;
      MarkerAtFirst(s, ms, j);
    } else if MarkerAt(s, ms) == |ms| {
      assert s[k..] == s[1..][k - 1..];
      NextMarkerIsNearest(s[1..], ms, k - 1, j);
    }
  }

  lemma {:induction false} MarkerAtNone(s: string, ms: seq<string>)
    requires NoneAt(s, ms)
    ensures MarkerAt(s, ms) == |ms|
  {
    if ms != [] {
      assert ms[0] in ms;
      assert forall m | m in ms[1..] :: m in ms;
      MarkerAtNone(s, ms[1..]);
    }
  }

  /** Quietness does not depend on text further on than `v`. */
  lemma {:induction false} QuietPrefix(u: string, v: string, w: string, ms: seq<string>)
    requires Quiet(u, v + w, ms)
    ensures Quiet(u, v, ms)
  {
    if u != "" {
      QuietPrefix(u[1..], v, w, ms);
      assert u + (v + w) == (u + v) + w;
      forall m | m in ms
        ensures !(m <= u + v)
      {
        assert !(m <= u + (v + w));
      }
    }
  }

  /** A quiet text in front only moves the nearest marker. */
  lemma {:induction false} NextMarkerOver(u: string, v: string, ms: seq<string>)
    requires Quiet(u, v, ms)
    ensures NextMarker(u + v, ms) == ShiftHit(|u|, NextMarker(v, ms))
  {
    hide MarkerAt, NoneAt;
    if u == "" {
      assert u + v == v;
    } else {
      MarkerAtNone(u + v, ms);
      assert (u + v)[1..] == u[1..] + v;
      NextMarkerOver(u[1..], v, ms);
    }
  }

  /** The source's comparison: a later marker of the list wins only when strictly nearer. */
  function Nearer(best: Option<Hit>, temp: Option<nat>, which: nat): Option<Hit> {
    if temp.Some? && (best.None? || temp.value < best.value.pos) then Some(Hit(temp.value, which)) else best
  }

  lemma MarkerAtSnoc(s: string, ms: seq<string>, m: string)
    ensures MarkerAt(s, ms + [m]) ==
            if MarkerAt(s, ms) < |ms| then MarkerAt(s, ms) else if m <= s then |ms| else |ms| + 1
  {
    if ms != [] {
      assert (ms + [m])[1..] == ms[1..] + [m];
      MarkerAtSnoc(s, ms[1..], m);
    }
  }

  lemma NextMarkerStep(s: string, ms: seq<string>)
    ensures MarkerAt(s, ms) < |ms| ==> NextMarker(s, ms) == Some(Hit(0, MarkerAt(s, ms)))
    ensures MarkerAt(s, ms) == |ms| ==>
              NextMarker(s, ms) == if s == "" then None else ShiftHit(1, NextMarker(s[1..], ms))
  {
    hide MarkerAt;
  }

  lemma FindMarkerStep(s: string, m: string)
    ensures FindMarker(s, m) == if m <= s then Some(0) else if s == "" then None else Shift(1, FindMarker(s[1..], m))
  {
  }

  lemma {:induction false} NextMarkerSnoc(s: string, ms: seq<string>, m: string)
    ensures NextMarker(s, ms + [m]) == Nearer(NextMarker(s, ms), FindMarker(s, m), |ms|)
  {
    hide MarkerAt, NextMarker, FindMarker;
    MarkerAtSnoc(s, ms, m);
    NextMarkerStep(s, ms);
    NextMarkerStep(s, ms + [m]);
    FindMarkerStep(s, m);
    if s != "" {
      NextMarkerSnoc(s[1..], ms, m);
    }
  }

  /** The source's search: find each marker, keep the first smallest position. */
  method FindNearest(s: string, ms: seq<string>) returns (best: Option<Hit>)
    ensures best == NextMarker(s, ms)
  {
    best := None;
    NextMarkerOfNone(s);
    for i := 0 to |ms|
      invariant best == NextMarker(s, ms[..i])
    {
      NextMarkerSnoc(s, ms[..i], ms[i]);
      assert ms[..i + 1] == ms[..i] + [ms[i]];
      var temp := FindMarker(s, ms[i]);
      if temp.Some? && (best.None? || temp.value < best.value.pos) {
        best := Some(Hit(temp.value, i));
      }
    }
    assert ms[..|ms|] == ms;
  }

  lemma NextMarkerOfNone(s: string)
    ensures NextMarker(s, []) == None
  {
  }
}
