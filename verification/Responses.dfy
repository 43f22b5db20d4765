/** The response tree: insertion-ordered keys, each holding a list of strings or a list
    of sub-responses. */
module Responses {
  import opened Basics

  datatype Content = Strings(strings: seq<string>) | Objects(objects: seq<Response>) {
    function Size(): nat {
      if Strings? then |strings| else |objects|
    }

    function Append(more: Content): Content
      requires Strings? == more.Strings?
    {
      if Strings? then Strings(strings + more.strings) else Objects(objects + more.objects)
    }
  }

  /** One entry; `forced` asks for brackets even around a single value. */
  datatype Element = Element(key: string, content: Content, forced: bool)

  datatype Response = Response(elements: seq<Element>)

  /** The position of the first entry with this key, or the number of entries. */
  function Find(es: seq<Element>, key: string): (i: nat)
    ensures i <= |es|
    ensures i < |es| ==> es[i].key == key
    ensures forall j | 0 <= j < i :: es[j].key != key
  {
    if es == [] || es[0].key == key then 0 else 1 + Find(es[1..], key)
  }

  /** responseWrapper::search. */
  function Search(w: Response, key: string): Option<Content> {
    var i := Find(w.elements, key);
    if i < |w.elements| then Some(w.elements[i].content) else None
  }

  /** No key twice and no empty list: what every response built by Add satisfies. */
  ghost predicate Built(es: seq<Element>) {
    && (forall i, j | 0 <= i < j < |es| :: es[i].key != es[j].key)
    && (forall i | 0 <= i < |es| :: es[i].content.Size() > 0)
  }

  /** The entries after adding a one-value content under `key`. */
  function Added(es: seq<Element>, key: string, value: Content, forced: bool): seq<Element>
    requires var i := Find(es, key); i < |es| ==> es[i].content.Strings? == value.Strings?
  {
    var i := Find(es, key);
    if i < |es| then es[i := es[i].(content := es[i].content.Append(value))]
    else es + [Element(key, value, forced)]
  }

  /** Adding keeps keys distinct and lists non-empty; a new key goes last, an old key stays
      where it was and keeps its bracket flag. */
  lemma AddedKeepsBuilt(es: seq<Element>, key: string, value: Content, forced: bool)
    requires Built(es) && value.Size() > 0
    requires var i := Find(es, key); i < |es| ==> es[i].content.Strings? == value.Strings?
    ensures var r := Added(es, key, value, forced);
      && Built(r)
      && |r| == |es| + (if Find(es, key) < |es| then 0 else 1)
      && forall i | 0 <= i < |es| :: r[i].key == es[i].key && r[i].forced == es[i].forced
  {
  }

  /** Adding extends exactly the one list, and leaves every other lookup alone. */
  lemma AddedSearch(w: Response, key: string, value: Content, forced: bool, other: string)
    requires var o := Search(w, key); o.Some? ==> o.value.Strings? == value.Strings?
    ensures var r := Response(Added(w.elements, key, value, forced));
      Search(r, other) ==
      if other != key then Search(w, other)
      else Some(if Search(w, key).Some? then Search(w, key).value.Append(value) else value)
  {
    var es := Added(w.elements, key, value, forced);
    var k := Find(w.elements, other);
    if other == key || k < |w.elements| {
      FindIs(es, other, k);
    } else {
      FindIs(es, other, |es|);
    }
  }

  /** The strings, or the objects, under a key so far. */
  function StringsUnder(w: Response, key: string): seq<string> {
    match Search(w, key)
    case Some(Strings(ss)) => ss
    case _ => []
  }

  function ObjectsUnder(w: Response, key: string): seq<Response> {
    match Search(w, key)
    case Some(Objects(os)) => os
    case _ => []
  }

  /** From `before` to `after` the list under the key became `content`: in its old entry, with
      the old bracket flag, or in a new last entry with the given one. Nothing else changed. */
  predicate Holds(before: seq<Element>, after: seq<Element>, key: string, content: Content, forced: bool) {
    var i := Find(before, key);
    if i < |before| then
      after == before[..i] + [Element(key, content, before[i].forced)] + before[i + 1..]
    else
      after == before + [Element(key, content, forced)]
  }

  /** A string goes behind the strings that the key has already. */
  lemma StringGoesLast(es: seq<Element>, key: string, value: string, forced: bool)
    requires var i := Find(es, key); i < |es| ==> es[i].content.Strings?
    ensures var r := Added(es, key, Strings([value]), forced);
      Holds(es, r, key, Strings(StringsUnder(Response(es), key) + [value]), forced)
  {
    assert [] + [value] == [value];
  }

  /** And so does an object behind its objects. */
  lemma ObjectGoesLast(es: seq<Element>, key: string, value: Response, forced: bool)
    requires var i := Find(es, key); i < |es| ==> es[i].content.Objects?
    ensures var r := Added(es, key, Objects([value]), forced);
      Holds(es, r, key, Objects(ObjectsUnder(Response(es), key) + [value]), forced)
  {
    assert [] + [value] == [value];
  }

  /** What a search finds then. */
  lemma HoldsSearch(before: seq<Element>, after: seq<Element>, key: string, content: Content, forced: bool,
                    other: string)
    requires Holds(before, after, key, content, forced)
    ensures Search(Response(after), other) == if other == key then Some(content) else Search(Response(before), other)
  {
    var k := Find(before, other);
    if other == key || k < |before| {
      FindIs(after, other, k);
    } else {
      FindIs(after, other, |after|);
    }
  }

  lemma AddedSearches(es: seq<Element>, key: string, value: Content, content: Content, forced: bool)
    requires var i := Find(es, key); i < |es| ==> es[i].content.Strings? == value.Strings?
    requires Holds(es, Added(es, key, value, forced), key, content, forced)
    ensures var r := Response(Added(es, key, value, forced));
      && Search(r, key) == Some(content)
      && forall k | k != key :: Search(r, k) == Search(Response(es), k)
  {
    hide Added, Holds, Search;
    var r := Added(es, key, value, forced);
    HoldsSearch(es, r, key, content, forced, key);
    forall k | k != key
      ensures Search(Response(r), k) == Search(Response(es), k)
    {
      HoldsSearch(es, r, key, content, forced, k);
    }
  }

  lemma FindIs(es: seq<Element>, key: string, i: nat)
    requires i <= |es| && (i < |es| ==> es[i].key == key)
    requires forall j | 0 <= j < i :: es[j].key != key
    ensures Find(es, key) == i
  {
  }

  lemma AppendToNothing(value: Content)
    ensures value.Strings? ==> Strings([]).Append(value) == value
    ensures value.Objects? ==> Objects([]).Append(value) == value
  {
  }

  /** The two parallel vectors of a responseWrapper, seen as entries. */
  function Zip(elements: seq<(string, Content)>, forced: seq<bool>): (es: seq<Element>)
    requires |elements| == |forced|
    ensures |es| == |elements|
    ensures forall i | 0 <= i < |es| :: es[i] == Element(elements[i].0, elements[i].1, forced[i])
  {
    seq(|elements|, i requires 0 <= i < |elements| => Element(elements[i].0, elements[i].1, forced[i]))
  }

  /** A response under construction. Sub-responses are moved in, hence held by value. */
  class ResponseWrapper {
    var elements: seq<(string, Content)>
    var forcedArrays: seq<bool>

    ghost predicate Valid()
      reads this
    {
      |elements| == |forcedArrays| && Built(Zip(elements, forcedArrays))
    }

    function Value(): Response
      requires |elements| == |forcedArrays|
      reads this
    {
      Response(Zip(elements, forcedArrays))
    }

    constructor ()
      ensures Valid() && Value() == Response([])
    {
      elements := [];
      forcedArrays := [];
    }

    /** find: the index of the key, or the end. */
    method FindKey(key: string) returns (i: nat)
      requires Valid()
      ensures i == Find(Value().elements, key)
    {
      i := 0;
      while i < |elements|
        invariant i <= |elements|
        invariant forall j | 0 <= j < i :: elements[j].0 != key
      {
        if elements[i].0 == key {
          break;
        }
        i := i + 1;
      }
      FindIs(Value().elements, key, i);
    }

    /** genericAdd; the source asserts that an existing key holds the same kind of list. */
    method GenericAdd(key: string, value: Content, isForced: bool)
      requires Valid() && value.Size() == 1
      requires var o := Search(Value(), key); o.Some? ==> o.value.Strings? == value.Strings?
      modifies this
      ensures Valid()
      ensures Value() == Response(Added(old(Value().elements), key, value, isForced))
    {
      ghost var before := Value().elements;
      AddedKeepsBuilt(before, key, value, isForced);
      hide Built;
      var it := FindKey(key);
      if it == |elements| {
        elements := elements + [(key, if value.Strings? then Strings([]) else Objects([]))];
        forcedArrays := forcedArrays + [isForced];
      }
      AppendToNothing(value);
      elements := elements[it := (elements[it].0, elements[it].1.Append(value))];
      assert Value().elements == Added(before, key, value, isForced);
    }

    method AddString(key: string, value: string, forceArray: bool)
      requires Valid()
      requires var o := Search(Value(), key); o.Some? ==> o.value.Strings?
      modifies this
      ensures Valid()
      ensures Holds(old(Value().elements), Value().elements, key,
                    Strings(old(StringsUnder(Value(), key)) + [value]), forceArray)
      ensures Search(Value(), key) == Some(Strings(old(StringsUnder(Value(), key)) + [value]))
      ensures forall k | k != key :: Search(Value(), k) == old(Search(Value(), k))
      ensures Value() == Response(Added(old(Value().elements), key, Strings([value]), forceArray))
    {
      ghost var before := Value();
      StringGoesLast(before.elements, key, value, forceArray);
      AddedSearches(before.elements, key, Strings([value]), Strings(StringsUnder(before, key) + [value]), forceArray);
      hide Added, Holds, Search, StringsUnder;
      GenericAdd(key, Strings([value]), forceArray);
    }

    method AddObject(key: string, value: Response, forceArray: bool)
      requires Valid()
      requires var o := Search(Value(), key); o.Some? ==> o.value.Objects?
      modifies this
      ensures Valid()
      ensures Holds(old(Value().elements), Value().elements, key,
                    Objects(old(ObjectsUnder(Value(), key)) + [value]), forceArray)
      ensures Search(Value(), key) == Some(Objects(old(ObjectsUnder(Value(), key)) + [value]))
      ensures forall k | k != key :: Search(Value(), k) == old(Search(Value(), k))
      ensures Value() == Response(Added(old(Value().elements), key, Objects([value]), forceArray))
    {
      ghost var before := Value();
      ObjectGoesLast(before.elements, key, value, forceArray);
      AddedSearches(before.elements, key, Objects([value]), Objects(ObjectsUnder(before, key) + [value]), forceArray);
      hide Added, Holds, Search, ObjectsUnder;
      GenericAdd(key, Objects([value]), forceArray);
    }
  }
}
