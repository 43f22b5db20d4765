/** The text of a response, compact or padded with tabs, line breaks and quotes, and the
    source's printers, which append to a buffer and erase the last comma. */
module ResponsePrinter {
  import opened Basics
  import opened Responses

  /** No empty list anywhere: the source asserts this of every list it prints. */
  predicate Populated(w: Response) {
    forall e | e in w.elements :: PopulatedContent(e.content)
  }

  predicate PopulatedContent(c: Content) {
    match c
    case Strings(ss) => ss != []
    case Objects(os) => os != [] && forall o | o in os :: Populated(o)
  }

  // --- The text

  /** addPadding. */
  function Pad(pad: bool, s: string): string {
    if pad then s else ""
  }

  function Tabs(n: nat): string {
    if n == 0 then "" else "\t" + Tabs(n - 1)
  }

  /** Pieces separated by commas; a padded piece ends its line. */
  function Joined(pieces: seq<string>, pad: bool): string {
    if pieces == [] then ""
    else pieces[0] + ((if |pieces| > 1 then "," else "") + (Pad(pad, "\n") + Joined(pieces[1..], pad)))
  }

  function StringText(value: string, depth: nat, prespace: bool, pad: bool): string {
    Pad(pad && prespace, Tabs(depth)) + Pad(pad, "\"") + value + Pad(pad, "\"")
  }

  function ObjectText(w: Response, depth: nat, prespace: bool, pad: bool): string
    decreases w
  {
    Pad(pad && prespace, Tabs(depth)) + "{" + Pad(pad, "\n")
    + Joined(FieldTexts(w.elements, depth + 1, pad), pad)
    + Pad(pad, Tabs(depth)) + "}"
  }

  function FieldTexts(es: seq<Element>, depth: nat, pad: bool): (r: seq<string>)
    ensures |r| == |es|
    decreases es
  {
    seq(|es|, i requires 0 <= i < |es| => FieldText(es[i], depth, pad))
  }

  function FieldText(e: Element, depth: nat, pad: bool): string
    decreases e
  {
    Pad(pad, Tabs(depth)) + e.key + ":" + Pad(pad, " ") + ContainerText(e.content, depth, e.forced, pad)
  }

  /** Brackets around several values, or around one when forced. */
  function ContainerText(c: Content, depth: nat, forced: bool, pad: bool): string
    decreases c, 2
  {
    if c.Size() > 1 || forced then
      ArrayText(c, depth, pad)
    else
      var items := ItemTexts(c, depth, false, pad);
      if items == [] then "" else items[0]
  }

  function ArrayText(c: Content, depth: nat, pad: bool): string
    decreases c, 1
  {
    "[" + Pad(pad, "\n") + Joined(ItemTexts(c, depth + 1, true, pad), pad) + Pad(pad, Tabs(depth)) + "]"
  }

  function ItemTexts(c: Content, depth: nat, prespace: bool, pad: bool): (r: seq<string>)
    ensures |r| == c.Size()
    decreases c, 0
  {
    match c
    case Strings(ss) => seq(|ss|, i requires 0 <= i < |ss| => StringText(ss[i], depth, prespace, pad))
    case Objects(os) => seq(|os|, i requires 0 <= i < |os| => ObjectText(os[i], depth, prespace, pad))
  }

  /** responseWrapper::toData(pad). */
  function Text(w: Response, pad: bool): string {
    ObjectText(w, 0, false, pad)
  }

  // --- The printers

  /** What the loops have appended before the last comma is erased. */
  function Trailing(pieces: seq<string>, pad: bool): string {
    if pieces == [] then "" else Trailing(pieces[..|pieces| - 1], pad) + pieces[|pieces| - 1] + "," + Pad(pad, "\n")
  }

  lemma {:induction false} JoinedSnoc(pieces: seq<string>, last: string, pad: bool)
    ensures Joined(pieces + [last], pad) == Trailing(pieces, pad) + last + Pad(pad, "\n")
    decreases |pieces|
  {
    if pieces == [] {
      assert [last][1..] == [];
    } else {
      JoinedTrailing(pieces, [last], pad);
      assert [last][1..] == [];
    }
  }

  lemma {:induction false} JoinedTrailing(pieces: seq<string>, rest: seq<string>, pad: bool)
    requires rest != []
    ensures Joined(pieces + rest, pad) == Trailing(pieces, pad) + Joined(rest, pad)
    decreases |pieces|
  {
    hide Pad;
    if pieces == [] {
      assert pieces + rest == rest && "" + Joined(rest, pad) == Joined(rest, pad);
    } else {
      var n := |pieces| - 1;
      var more := [pieces[n]] + rest;
      assert pieces + rest == pieces[..n] + more;
      JoinedTrailing(pieces[..n], more, pad);
      assert more[1..] == rest;
      var t, nl := Trailing(pieces[..n], pad), Pad(pad, "\n");
      assert t + (pieces[n] + ("," + (nl + Joined(rest, pad)))) == t + pieces[n] + "," + nl + Joined(rest, pad);
    }
  }

  /** Erasing the last comma, which the line break of a padded text may follow. */
  method EraseLastComma(src: Buffer, ghost before: string, ghost pieces: seq<string>, pad: bool)
    requires pieces != [] && src.text == before + Trailing(pieces, pad)
    modifies src
    ensures src.text == before + Joined(pieces, pad)
  {
    hide Joined;
    ghost var n := |pieces| - 1;
    ghost var head := before + (Trailing(pieces[..n], pad) + pieces[n]);
    JoinedSnoc(pieces[..n], pieces[n], pad);
    assert pieces == pieces[..n] + [pieces[n]];
    assert src.text == head + "," + Pad(pad, "\n");
    hide Trailing;
    src.EraseFromEnd(if pad then 2 else 1);
    assert src.text == head + Pad(pad, "\n");
  }

  lemma TrailingSnoc(pieces: seq<string>, i: nat, pad: bool)
    requires i < |pieces|
    ensures Trailing(pieces[..i + 1], pad) == Trailing(pieces[..i], pad) + pieces[i] + "," + Pad(pad, "\n")
  {
    assert pieces[..i + 1][..i] == pieces[..i];
  }

  /** elementToData for a string. */
  method StringToData(src: Buffer, depth: nat, value: string, prespace: bool, pad: bool)
    modifies src
    ensures src.text == old(src.text) + StringText(value, depth, prespace, pad)
  {
    ghost var before := src.text;
    if pad && prespace {
      src.Append(Tabs(depth));
    }
    if pad {
      src.Append("\"" + value + "\"");
    } else {
      src.Append(value);
    }
    assert src.text == before + StringText(value, depth, prespace, pad);
  }

  /** containerToData's element, of either kind. */
  method ItemToData(src: Buffer, depth: nat, c: Content, i: nat, prespace: bool, pad: bool)
    requires i < c.Size() && PopulatedContent(c)
    modifies src
    ensures src.text == old(src.text) + ItemTexts(c, depth, prespace, pad)[i]
    decreases c, 0
  {
    if c.Strings? {
      StringToData(src, depth, c.strings[i], prespace, pad);
    } else {
      ToData(c.objects[i], src, depth, prespace, pad);
    }
  }

  /** The bracketed list of containerToData. */
  method ArrayToData(src: Buffer, depth: nat, c: Content, pad: bool)
    requires PopulatedContent(c)
    modifies src
    ensures src.text == old(src.text) + ArrayText(c, depth, pad)
    decreases c, 1
  {
    hide Trailing, Joined, ItemTexts, Tabs, Pad;
    ghost var before := src.text;
    src.Append("[");
    src.Append(Pad(pad, "\n"));
    ghost var head := src.text;
    ghost var pieces := ItemTexts(c, depth + 1, true, pad);
    TrailingNothing(pieces, pad);
    assert head == head + "";
    for i := 0 to c.Size()
      invariant src.text == head + Trailing(pieces[..i], pad)
    {
      ItemToData(src, depth + 1, c, i, true, pad);
      src.Append(",");
      src.Append(Pad(pad, "\n"));
      TrailingSnoc(pieces, i, pad);
    }
    assert pieces[..c.Size()] == pieces;
    EraseLastComma(src, head, pieces, pad);
    src.Append(Pad(pad, Tabs(depth)));
    src.Append("]");
    assert src.text == before + ("[" + Pad(pad, "\n") + Joined(pieces, pad) + Pad(pad, Tabs(depth)) + "]");
  }

  lemma TrailingNothing(pieces: seq<string>, pad: bool)
    ensures Trailing(pieces[..0], pad) == ""
  {
  }

  /** containerToData. */
  method ContainerToData(src: Buffer, depth: nat, c: Content, forceArray: bool, pad: bool)
    requires PopulatedContent(c)
    modifies src
    ensures src.text == old(src.text) + ContainerText(c, depth, forceArray, pad)
    decreases c, 2
  {
    if c.Size() > 1 || forceArray {
      ArrayToData(src, depth, c, pad);
    } else {
      ItemToData(src, depth, c, 0, false, pad);
    }
  }

  /** One entry of toData's loop. */
  method FieldToData(src: Buffer, depth: nat, e: Element, pad: bool)
    requires PopulatedContent(e.content)
    modifies src
    ensures src.text == old(src.text) + FieldText(e, depth, pad)
    decreases e
  {
    hide ContainerText, Tabs;
    ghost var before := src.text;
    src.Append(Pad(pad, Tabs(depth)));
    src.Append(e.key);
    src.Append(":");
    src.Append(Pad(pad, " "));
    ContainerToData(src, depth, e.content, e.forced, pad);
    assert src.text == before + FieldText(e, depth, pad);
  }

  /** toData's loop over the entries, and the erased last comma. */
  method FieldsToData(es: seq<Element>, src: Buffer, depth: nat, pad: bool)
    requires forall e | e in es :: PopulatedContent(e.content)
    modifies src
    ensures src.text == old(src.text) + Joined(FieldTexts(es, depth, pad), pad)
    decreases es
  {
    hide Trailing, Joined, Tabs, FieldText, FieldTexts, Pad;
    ghost var head := src.text;
    ghost var pieces := FieldTexts(es, depth, pad);
    TrailingNothing(pieces, pad);
    assert head == head + "";
    for i := 0 to |es|
      invariant src.text == head + Trailing(pieces[..i], pad)
    {
      assert es[i] in es;
      FieldTextsAt(es, depth, pad, i);
      FieldToData(src, depth, es[i], pad);
      src.Append(",");
      src.Append(Pad(pad, "\n"));
      TrailingSnoc(pieces, i, pad);
    }
    assert pieces[..|es|] == pieces;
    if es != [] {
      EraseLastComma(src, head, pieces, pad);
    } else {
      JoinedNothing(pad);
    }
  }

  /** responseWrapper::toData(src, depth, prespace, pad). */
  method ToData(w: Response, src: Buffer, depth: nat, prespace: bool, pad: bool)
    requires Populated(w)
    modifies src
    ensures src.text == old(src.text) + ObjectText(w, depth, prespace, pad)
    decreases w
  {
    hide Joined, Tabs, FieldTexts, Pad;
    ghost var before := src.text;
    src.Append(Pad(pad && prespace, Tabs(depth)));
    src.Append("{");
    src.Append(Pad(pad, "\n"));
    FieldsToData(w.elements, src, depth + 1, pad);
    src.Append(Pad(pad, Tabs(depth)));
    src.Append("}");
    assert src.text == before + (Pad(pad && prespace, Tabs(depth)) + "{" + Pad(pad, "\n")
      + Joined(FieldTexts(w.elements, depth + 1, pad), pad) + Pad(pad, Tabs(depth)) + "}");
  }

  lemma FieldTextsAt(es: seq<Element>, depth: nat, pad: bool, i: nat)
    requires i < |es|
    ensures FieldTexts(es, depth, pad)[i] == FieldText(es[i], depth, pad)
  {
    hide FieldText;
  }

  lemma JoinedNothing(pad: bool)
    ensures Joined([], pad) == ""
    ensures Trailing([], pad) == ""
  {
  }
}
