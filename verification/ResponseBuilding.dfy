/** What a response holds after any sequence of additions: under every key the values added
    under it, in order. */
module ResponseBuilding {
  import opened Basics
  import opened Responses

  datatype Addition =
    | OfString(key: string, str: string, forced: bool)
    | OfObject(key: string, obj: Response, forced: bool)

  function OneValue(a: Addition): Content {
    if a.OfString? then Strings([a.str]) else Objects([a.obj])
  }

  /** The source asserts that a key is used for strings or for objects, not for both. */
  predicate Consistent(adds: seq<Addition>) {
    forall i, j | 0 <= i < j < |adds| && adds[i].key == adds[j].key :: adds[i].OfString? == adds[j].OfString?
  }

  /** One addition; nothing when the assertion fails. */
  function AddedTo(es: seq<Element>, a: Addition): seq<Element> {
    var i := Find(es, a.key);
    if i < |es| && es[i].content.Strings? != a.OfString? then es else Added(es, a.key, OneValue(a), a.forced)
  }

  /** The entries after the additions one by one. */
  function Build(adds: seq<Addition>): seq<Element> {
    if adds == [] then [] else AddedTo(Build(adds[..|adds| - 1]), adds[|adds| - 1])
  }

  // --- The same, seen from the list of additions

  predicate Mentions(adds: seq<Addition>, key: string) {
    exists i | 0 <= i < |adds| :: adds[i].key == key
  }

  function StringsOf(adds: seq<Addition>, key: string): seq<string> {
    if adds == [] then []
    else
      var n := |adds| - 1;
      StringsOf(adds[..n], key) + (if adds[n].OfString? && adds[n].key == key then [adds[n].str] else [])
  }

  function ObjectsOf(adds: seq<Addition>, key: string): seq<Response> {
    if adds == [] then []
    else
      var n := |adds| - 1;
      ObjectsOf(adds[..n], key) + (if adds[n].OfObject? && adds[n].key == key then [adds[n].obj] else [])
  }

  function ContentOf(adds: seq<Addition>, key: string): Content {
    if StringsOf(adds, key) != [] then Strings(StringsOf(adds, key)) else Objects(ObjectsOf(adds, key))
  }

  /** The additions that bring a new key. */
  function Firsts(adds: seq<Addition>): seq<Addition> {
    if adds == [] then []
    else
      var n := |adds| - 1;
      Firsts(adds[..n]) + (if Mentions(adds[..n], adds[n].key) then [] else [adds[n]])
  }

  /** One entry for every key, in the order in which the keys came up, with the bracket flag of
      the first addition and all the values. */
  function Collected(adds: seq<Addition>): (es: seq<Element>)
    ensures |es| == |Firsts(adds)|
  {
    seq(|Firsts(adds)|, i requires 0 <= i < |Firsts(adds)| =>
      Element(Firsts(adds)[i].key, ContentOf(adds, Firsts(adds)[i].key), Firsts(adds)[i].forced))
  }

  lemma {:induction false} FirstsMention(adds: seq<Addition>, key: string)
    ensures Mentions(adds, key) <==> exists i | 0 <= i < |Firsts(adds)| :: Firsts(adds)[i].key == key
  {
    if adds != [] {
      var n := |adds| - 1;
      var before, all := Firsts(adds[..n]), Firsts(adds);
      FirstsMention(adds[..n], key);
      MentionsSnoc(adds, key);
      hide Mentions, Firsts;
      if i :| 0 <= i < |before| && before[i].key == key {
        assert all[i].key == key by { FirstsSnoc(adds); }
      }
      FirstsSnoc(adds);
      if adds[n].key == key && !Mentions(adds[..n], key) {
        assert all[|before|].key == key;
      }
      if i :| 0 <= i < |all| && all[i].key == key {
        assert i < |before| ==> before[i].key == key;
      }
    }
  }

  lemma FirstsSnoc(adds: seq<Addition>)
    requires adds != []
    ensures var n := |adds| - 1;
      Firsts(adds) == Firsts(adds[..n]) + (if Mentions(adds[..n], adds[n].key) then [] else [adds[n]])
  {
  }

  lemma MentionsSnoc(adds: seq<Addition>, key: string)
    requires adds != []
    ensures Mentions(adds, key) <==> Mentions(adds[..|adds| - 1], key) || adds[|adds| - 1].key == key
  {
    var n := |adds| - 1;
    assert forall i | 0 <= i < n :: adds[..n][i] == adds[i];
    if i :| 0 <= i < |adds| && adds[i].key == key {
      assert i < n ==> adds[..n][i].key == key;
    }
    if i :| 0 <= i < n && adds[..n][i].key == key {
      assert adds[i].key == key;
    }
  }

  lemma {:induction false} FirstsDistinct(adds: seq<Addition>)
    ensures forall i, j | 0 <= i < j < |Firsts(adds)| :: Firsts(adds)[i].key != Firsts(adds)[j].key
  {
    if adds != [] {
      var n := |adds| - 1;
      FirstsDistinct(adds[..n]);
      FirstsMention(adds[..n], adds[n].key);
      FirstsSnoc(adds);
      hide Firsts, Mentions;
    }
  }

  /** What one more addition does to the values under a key. */
  lemma ContentSnoc(adds: seq<Addition>, key: string)
    requires adds != []
    ensures var n := |adds| - 1;
      && StringsOf(adds, key) ==
           StringsOf(adds[..n], key) + (if adds[n].OfString? && adds[n].key == key then [adds[n].str] else [])
      && ObjectsOf(adds, key) ==
           ObjectsOf(adds[..n], key) + (if adds[n].OfObject? && adds[n].key == key then [adds[n].obj] else [])
  {
  }

  lemma {:induction false} OneKind(adds: seq<Addition>, a: Addition)
    requires Consistent(adds + [a])
    ensures a.OfString? ==> ObjectsOf(adds, a.key) == []
    ensures a.OfObject? ==> StringsOf(adds, a.key) == []
    ensures !Mentions(adds, a.key) ==> StringsOf(adds, a.key) == [] && ObjectsOf(adds, a.key) == []
    ensures Mentions(adds, a.key) ==> StringsOf(adds, a.key) != [] || ObjectsOf(adds, a.key) != []
  {
    if adds != [] {
      var n := |adds| - 1;
      var less := adds[..n] + [a];
      assert forall i | 0 <= i < n :: less[i] == (adds + [a])[i];
      assert (adds + [a])[n] == adds[n] && (adds + [a])[n + 1] == a && less[n] == a;
      assert forall i, j | 0 <= i < j < |less| && less[i].key == less[j].key ::
          (adds + [a])[i].OfString? == (adds + [a])[if j == n then n + 1 else j].OfString?;
      OneKind(adds[..n], a);
      MentionsSnoc(adds, a.key);
      ContentSnoc(adds, a.key);
    }
  }

  lemma CollectedAt(adds: seq<Addition>, i: nat)
    requires i < |Firsts(adds)|
    ensures var f := Firsts(adds)[i];
      Collected(adds)[i] == Element(f.key, ContentOf(adds, f.key), f.forced)
  {
    hide Firsts, ContentOf;
  }

  lemma FindFirst(adds: seq<Addition>, key: string)
    ensures Find(Collected(adds), key) < |Collected(adds)| <==> Mentions(adds, key)
  {
    hide ContentOf, Firsts, Mentions, Collected;
    FirstsMention(adds, key);
    var es := Collected(adds);
    var k := Find(es, key);
    if k < |es| {
      CollectedAt(adds, k);
      assert Firsts(adds)[k].key == key;
    }
    if i :| 0 <= i < |Firsts(adds)| && Firsts(adds)[i].key == key {
      CollectedAt(adds, i);
      assert es[i].key == key;
    }
  }

  /** Whatever strings and objects are added under whatever keys, the response has one entry for
      every key, in the order in which the keys came up, with the flag of the key's first
      addition and exactly the values added under the key, in order. */
  lemma {:induction false} BuildCollects(adds: seq<Addition>)
    requires Consistent(adds)
    ensures Build(adds) == Collected(adds)
  {
    hide AddedTo;
    if adds != [] {
      var n := |adds| - 1;
      assert forall i | 0 <= i < n :: adds[..n][i] == adds[i];
      BuildCollects(adds[..n]);
      assert adds == adds[..n] + [adds[n]];
      AddCollects(adds[..n], adds[n]);
    }
  }

  /** The content under a key after one more addition. */
  lemma ContentMore(adds: seq<Addition>, a: Addition, key: string)
    requires Consistent(adds + [a])
    ensures key != a.key ==> ContentOf(adds + [a], key) == ContentOf(adds, key)
    ensures key == a.key && a.OfString? ==> ContentOf(adds + [a], key) == Strings(StringsOf(adds, key) + [a.str])
    ensures key == a.key && a.OfObject? ==> ContentOf(adds + [a], key) == Objects(ObjectsOf(adds, key) + [a.obj])
    ensures key == a.key && Mentions(adds, key) ==>
              ContentOf(adds, key) ==
              if a.OfString? then Strings(StringsOf(adds, key)) else Objects(ObjectsOf(adds, key))
    ensures key == a.key && !Mentions(adds, key) ==> StringsOf(adds, key) == [] && ObjectsOf(adds, key) == []
  {
    var more := adds + [a];
    assert more[..|adds|] == adds;
    ContentSnoc(more, key);
    OneKind(adds, a);
    hide StringsOf, ObjectsOf, Mentions, Consistent;
    assert StringsOf(adds, key) + [] == StringsOf(adds, key);
    assert ObjectsOf(adds, key) + [] == ObjectsOf(adds, key);
  }

  lemma AddHolds(adds: seq<Addition>, a: Addition)
    requires Consistent(adds + [a])
    ensures Holds(Collected(adds), AddedTo(Collected(adds), a), a.key, ContentOf(adds + [a], a.key), a.forced)
  {
    FindFirst(adds, a.key);
    ContentMore(adds, a, a.key);
    hide Mentions, Consistent, StringsOf, ObjectsOf, Holds, Added, Collected, Firsts;
    var before := Collected(adds);
    var i := Find(before, a.key);
    if i < |before| {
      CollectedAt(adds, i);
    }
    if a.OfString? {
      StringGoesLast(before, a.key, a.str, a.forced);
      assert StringsUnder(Response(before), a.key) == StringsOf(adds, a.key);
    } else {
      ObjectGoesLast(before, a.key, a.obj, a.forced);
      assert ObjectsUnder(Response(before), a.key) == ObjectsOf(adds, a.key);
    }
  }

  lemma FirstsAfter(adds: seq<Addition>, a: Addition)
    ensures Firsts(adds + [a]) == if Mentions(adds, a.key) then Firsts(adds) else Firsts(adds) + [a]
  {
    assert (adds + [a])[..|adds|] == adds;
  }

  lemma HoldsCollected(adds: seq<Addition>, a: Addition, after: seq<Element>)
    requires Consistent(adds + [a])
    requires Holds(Collected(adds), after, a.key, ContentOf(adds + [a], a.key), a.forced)
    ensures after == Collected(adds + [a])
  {
    var before, more := Collected(adds), adds + [a];
    FindFirst(adds, a.key);
    FirstsAfter(adds, a);
    FirstsDistinct(adds);
    hide Mentions, Consistent, ContentOf, Collected, Firsts;
    var i := Find(before, a.key);
    assert |after| == |Collected(more)|;
    forall j | 0 <= j < |after|
      ensures after[j] == Collected(more)[j]
    {
      CollectedAt(more, j);
      if j < |before| {
        CollectedAt(adds, j);
        if j == i {
          assert after[j] == Element(a.key, ContentOf(more, a.key), before[i].forced);
        } else {
          assert after[j] == before[j];
          if i < |before| {
            CollectedAt(adds, i);
          }
          ContentMore(adds, a, before[j].key);
        }
      }
    }
  }

  /** An addition to the collected entries does what it does to the list of additions. */
  lemma AddCollects(adds: seq<Addition>, a: Addition)
    requires Consistent(adds + [a])
    ensures AddedTo(Collected(adds), a) == Collected(adds + [a])
  {
    hide *;
    AddHolds(adds, a);
    HoldsCollected(adds, a, AddedTo(Collected(adds), a));
  }

  /** So a search finds exactly the values added under the key, in order. */
  lemma SearchCollects(adds: seq<Addition>, key: string)
    requires Consistent(adds)
    ensures Search(Response(Build(adds)), key) ==
            if Mentions(adds, key) then Some(ContentOf(adds, key)) else None
  {
    hide Build, Mentions, ContentOf, Collected, Firsts;
    BuildCollects(adds);
    FindFirst(adds, key);
    var i := Find(Collected(adds), key);
    if i < |Collected(adds)| {
      CollectedAt(adds, i);
    }
  }
}
