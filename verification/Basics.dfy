/** Small shared vocabulary: optional values, outcomes of code that may leave its
    buffer or throw, the library searches of the C++ standard library, and the
    string buffer that printers append to. */
module Basics {

  datatype Option<+T> = None | Some(value: T)

  /** Why a run of the parsers has no result. */
  datatype Fault =
    | OutOfRange   // a cursor is dereferenced or moved past the end of its buffer
    | BadCode      // std::stol throws: no digits, or out of the range of long

  datatype Outcome<+T> = Done(value: T) | Failed(fault: Fault) {
    predicate IsFailure() { Failed? }

    function PropagateFailure<U>(): Outcome<U>
      requires Failed?
    {
      Failed(fault)
    }

    function Extract(): T
      requires Done?
    {
      value
    }
  }

  /** Adds a distance already travelled to the result of a search of the rest. */
  function Shift(n: nat, o: Option<nat>): Option<nat> {
    match o
    case None => None
    case Some(k) => Some(n + k)
  }

  lemma ShiftTwice(a: nat, b: nat, o: Option<nat>)
    ensures Shift(a, Shift(b, o)) == Shift(a + b, o)
  {
  }

  /** std::find: the position of the first `c`, or the end. */
  function IndexOf(s: string, c: char): (i: nat)
    ensures i <= |s|
    ensures c !in s[..i]
    ensures i < |s| ==> s[i] == c
  {
    if s == "" then 0
    else if s[0] == c then 0
    else 1 + IndexOf(s[1..], c)
  }

  /** Text without `c` in front only moves the search. */
  lemma {:induction false} IndexOfOver(u: string, c: char, v: string)
    requires c !in u
    ensures IndexOf(u + v, c) == |u| + IndexOf(v, c)
  {
    if u == "" {
      assert u + v == v;
    } else {
      assert (u + v)[1..] == u[1..] + v;
      IndexOfOver(u[1..], c, v);
    }
  }

  lemma IndexOfConcat(u: string, c: char, v: string)
    requires c !in u
    ensures IndexOf(u + [c] + v, c) == |u|
  {
    IndexOfOver(u, c, [c] + v);
    assert u + [c] + v == u + ([c] + v);
  }

  lemma {:induction false} IndexOfInside(u: string, c: char, v: string)
    requires c in u
    ensures IndexOf(u + v, c) == IndexOf(u, c) < |u|
  {
    assert (u + v)[1..] == u[1..] + v;
    if u[0] != c {
      IndexOfInside(u[1..], c, v);
    }
  }

  lemma IndexOfAbsent(u: string, c: char)
    requires c !in u
    ensures IndexOf(u, c) == |u|
  {
  }

  /** std::isspace in the "C" locale. */
  predicate IsSpace(c: char) {
    c == ' ' || ('\t' <= c <= '\r')
  }

  /** A std::string passed by reference to code that appends to it. */
  class Buffer {
    var text: string

    constructor ()
      ensures text == ""
    {
      text := "";
    }

    method Append(s: string)
      modifies this
      ensures text == old(text) + s
    {
      text := text + s;
    }

    /** src.erase(src.end() - n): removes the one character n places from the end. */
    method EraseFromEnd(n: nat)
      requires 1 <= n <= |text|
      modifies this
      ensures text == old(text)[..|old(text)| - n] + old(text)[|old(text)| - n + 1..]
    {
      text := text[..|text| - n] + text[|text| - n + 1..];
    }
  }
}
