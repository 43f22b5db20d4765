/** The name/value elements of a request: lookups of queryBase. */
module Queries {

  type Elements = map<string, string>

  /** queryBase::hasElement. */
  predicate HasElement(q: Elements, name: string, allowEmpty: bool) {
    name in q && (allowEmpty || q[name] != "")
  }

  /** queryBase::containsAll: an element without text counts only when that is allowed. */
  method ContainsAll(q: Elements, names: seq<string>, allowEmpty: bool) returns (all: bool)
    ensures all <==> forall n | n in names :: n in q && (q[n] == "" ==> allowEmpty)
  {
    for i := 0 to |names|
      invariant forall j | 0 <= j < i :: HasElement(q, names[j], allowEmpty)
    {
      if !HasElement(q, names[i], allowEmpty) {
        return false;
      }
    }
    all := true;
  }

  /** queryBase::containsAny. */
  method ContainsAny(q: Elements, names: seq<string>, allowEmpty: bool) returns (any: bool)
    ensures any <==> exists n | n in names :: n in q && (q[n] == "" ==> allowEmpty)
  {
    for i := 0 to |names|
      invariant forall j | 0 <= j < i :: !HasElement(q, names[j], allowEmpty)
    {
      if HasElement(q, names[i], allowEmpty) {
        return true;
      }
    }
    any := false;
  }
}
