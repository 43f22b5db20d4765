/** The printed form of a response, compact and padded, spelled out: the separators, brackets,
    quotes and indentation that the two modes put around any keys and values. */
module ResponseLayout {
  import opened Basics
  import opened Responses
  import opened ResponsePrinter

  lemma JoinedOne(p: string, pad: bool)
    ensures Joined([p], pad) == p + Pad(pad, "\n")
  {
    JoinedNothing(pad);
    assert [p][1..] == [];
  }

  lemma JoinedTwo(p: string, q: string, pad: bool)
    ensures Joined([p, q], pad) == p + ("," + Pad(pad, "\n")) + q + Pad(pad, "\n")
  {
    hide Pad;
    JoinedOne(q, pad);
    assert [p, q][1..] == [q];
  }

  lemma OneTab()
    ensures Tabs(0) == "" && Tabs(1) == "\t" && Tabs(2) == "\t\t"
  {
    assert Tabs(0) == "";
    assert Tabs(1) == "\t" + Tabs(0);
    assert Tabs(2) == "\t" + Tabs(1);
  }

  /** An object's text from those of its entries, one level deeper. */
  lemma ObjectOf(w: Response, depth: nat, pad: bool, fields: string, tabs: string)
    requires Joined(FieldTexts(w.elements, depth + 1, pad), pad) == fields && Tabs(depth) == tabs
    ensures ObjectText(w, depth, false, pad) == if pad then "{\n" + fields + tabs + "}" else "{" + fields + "}"
  {
    hide Joined, FieldTexts, Tabs;
  }

  lemma OneField(e: Element, depth: nat, pad: bool)
    ensures FieldTexts([e], depth, pad) == [FieldText(e, depth, pad)]
  {
    hide FieldText;
  }

  lemma FieldOf(e: Element, depth: nat, pad: bool, content: string, tabs: string)
    requires ContainerText(e.content, depth, e.forced, pad) == content && Tabs(depth) == tabs
    ensures FieldText(e, depth, pad) == if pad then tabs + e.key + ": " + content else e.key + ":" + content
  {
    hide ContainerText, Tabs;
  }

  lemma StringOf(v: string, depth: nat, pad: bool)
    ensures ContainerText(Strings([v]), depth, false, pad) == if pad then "\"" + v + "\"" else v
  {
    hide Tabs;
    assert ItemTexts(Strings([v]), depth, false, pad)[0] == StringText(v, depth, false, pad);
  }

  lemma ArrayOf(c: Content, depth: nat, pad: bool, items: string, tabs: string)
    requires Joined(ItemTexts(c, depth + 1, true, pad), pad) == items && Tabs(depth) == tabs
    ensures ArrayText(c, depth, pad) == if pad then "[\n" + items + tabs + "]" else "[" + items + "]"
  {
    hide Tabs, Joined, ItemTexts;
  }

  lemma ItemOf(a: string, depth: nat, pad: bool, tabs: string)
    requires Tabs(depth) == tabs
    ensures StringText(a, depth, true, pad) == if pad then tabs + "\"" + a + "\"" else a
  {
    hide Tabs;
  }

  lemma ItemsOf(ss: seq<string>, depth: nat, pad: bool)
    ensures ItemTexts(Strings(ss), depth, true, pad) ==
            seq(|ss|, i requires 0 <= i < |ss| => StringText(ss[i], depth, true, pad))
  {
    hide StringText;
  }

  lemma ListOf(a: string, b: string, depth: nat, forced: bool, pad: bool, tabs: string, more: string)
    requires Tabs(depth) == tabs && Tabs(depth + 1) == more
    ensures ContainerText(Strings([a, b]), depth, forced, pad) ==
            if pad then "[\n" + ((more + "\"" + a + "\"") + ",\n" + (more + "\"" + b + "\"") + "\n") + tabs + "]"
            else "[" + (a + "," + b) + "]"
  {
    hide Tabs, Joined, StringText, ItemTexts, ArrayText;
    var p, q := StringText(a, depth + 1, true, pad), StringText(b, depth + 1, true, pad);
    ItemsOf([a, b], depth + 1, pad);
    assert ItemTexts(Strings([a, b]), depth + 1, true, pad) == [p, q];
    JoinedTwo(p, q, pad);
    ItemOf(a, depth + 1, pad, more);
    ItemOf(b, depth + 1, pad, more);
    ArrayOf(Strings([a, b]), depth, pad, p + ("," + Pad(pad, "\n")) + q + Pad(pad, "\n"), tabs);
    assert pad ==> "," + Pad(pad, "\n") == ",\n";
  }

  lemma ForcedOf(a: string, depth: nat, pad: bool, tabs: string, more: string)
    requires Tabs(depth) == tabs && Tabs(depth + 1) == more
    ensures ContainerText(Strings([a]), depth, true, pad) ==
            if pad then "[\n" + ((more + "\"" + a + "\"") + "\n") + tabs + "]" else "[" + a + "]"
  {
    hide Tabs, Joined, StringText, ItemTexts, ArrayText;
    var p := StringText(a, depth + 1, true, pad);
    ItemsOf([a], depth + 1, pad);
    assert ItemTexts(Strings([a]), depth + 1, true, pad) == [p];
    JoinedOne(p, pad);
    ItemOf(a, depth + 1, pad, more);
    ArrayOf(Strings([a]), depth, pad, p + Pad(pad, "\n"), tabs);
  }

  lemma NestedOf(w: Response, depth: nat, pad: bool)
    ensures ContainerText(Objects([w]), depth, false, pad) == ObjectText(w, depth, false, pad)
  {
    hide ObjectText;
  }

  lemma SingleField(e: Element, depth: nat, pad: bool, content: string, tabs: string, more: string)
    requires ContainerText(e.content, depth + 1, e.forced, pad) == content
    requires Tabs(depth) == tabs && Tabs(depth + 1) == more
    ensures ObjectText(Response([e]), depth, false, pad) ==
            if pad then "{\n" + ((more + e.key + ": " + content) + "\n") + tabs + "}"
            else "{" + (e.key + ":" + content) + "}"
  {
    hide ContainerText, Tabs, FieldText, Joined, FieldTexts, ObjectText;
    OneField(e, depth + 1, pad);
    FieldOf(e, depth + 1, pad, content, more);
    JoinedOne(FieldText(e, depth + 1, pad), pad);
    ObjectOf(Response([e]), depth, pad, FieldText(e, depth + 1, pad) + Pad(pad, "\n"), tabs);
  }

  /** The response without entries. */
  lemma EmptyLayout()
    ensures Text(Response([]), false) == "{}" && Text(Response([]), true) == "{\n}"
  {
    hide FieldText;
    JoinedNothing(false);
    JoinedNothing(true);
  }

  /** A string. */
  lemma StringLayout(k: string, v: string)
    ensures var w := Response([Element(k, Strings([v]), false)]);
      && Text(w, false) == "{" + (k + ":" + v) + "}"
      && Text(w, true) == "{\n\t" + k + ": " + ("\"" + v + "\"") + "\n}"
  {
    hide ObjectText, ContainerText, Tabs;
    OneTab();
    var e := Element(k, Strings([v]), false);
    StringOf(v, 1, false);
    StringOf(v, 1, true);
    SingleField(e, 0, false, v, "", "\t");
    SingleField(e, 0, true, "\"" + v + "\"", "", "\t");
    Frame(k, "\"" + v + "\"");
  }

  lemma ListParts(a: string, b: string)
    ensures "[\n" + (("\t\t" + "\"" + a + "\"") + ",\n" + ("\t\t" + "\"" + b + "\"") + "\n") + "\t" + "]" ==
            "[\n\t\t\"" + a + "\",\n\t\t\"" + b + "\"\n\t]"
    ensures "[" + (a + "," + b) + "]" == "[" + a + "," + b + "]"
  {
  }

  lemma ForcedParts(a: string)
    ensures "[\n" + (("\t\t" + "\"" + a + "\"") + "\n") + "\t" + "]" == "[\n\t\t\"" + a + "\"\n\t]"
  {
  }

  /** A list, bracketed whether forced or not, in the order of its values. */
  lemma ListLayout(k: string, a: string, b: string, forced: bool)
    ensures var w := Response([Element(k, Strings([a, b]), forced)]);
      && Text(w, false) == "{" + (k + ":" + ("[" + a + "," + b + "]")) + "}"
      && Text(w, true) == "{\n\t" + k + ": " + ("[\n\t\t\"" + a + "\",\n\t\t\"" + b + "\"\n\t]") + "\n}"
  {
    hide ObjectText, ContainerText, Tabs;
    OneTab();
    var e := Element(k, Strings([a, b]), forced);
    ListOf(a, b, 1, forced, false, "\t", "\t\t");
    ListOf(a, b, 1, forced, true, "\t", "\t\t");
    ListParts(a, b);
    var list := "[\n\t\t\"" + a + "\",\n\t\t\"" + b + "\"\n\t]";
    SingleField(e, 0, false, "[" + a + "," + b + "]", "", "\t");
    SingleField(e, 0, true, list, "", "\t");
    Frame(k, list);
  }

  lemma Frame(k: string, content: string)
    ensures "{\n" + (("\t" + k + ": " + content) + "\n") + "" + "}" == "{\n\t" + k + ": " + content + "\n}"
  {
  }

  /** A single value with forced brackets. */
  lemma ForcedLayout(k: string, v: string)
    ensures var w := Response([Element(k, Strings([v]), true)]);
      && Text(w, false) == "{" + (k + ":" + ("[" + v + "]")) + "}"
      && Text(w, true) == "{\n\t" + k + ": " + ("[\n\t\t\"" + v + "\"\n\t]") + "\n}"
  {
    hide ObjectText, ContainerText, Tabs;
    OneTab();
    var e := Element(k, Strings([v]), true);
    ForcedOf(v, 1, false, "\t", "\t\t");
    ForcedOf(v, 1, true, "\t", "\t\t");
    ForcedParts(v);
    var list := "[\n\t\t\"" + v + "\"\n\t]";
    SingleField(e, 0, false, "[" + v + "]", "", "\t");
    SingleField(e, 0, true, list, "", "\t");
    Frame(k, list);
  }

  lemma InnerFrame(j: string, content: string)
    ensures "{\n" + (("\t\t" + j + ": " + content) + "\n") + "\t" + "}" == "{\n\t\t" + j + ": " + content + "\n\t}"
  {
  }

  /** An object inside an object. */
  lemma ObjectLayout(k: string, j: string, v: string)
    ensures var w := Response([Element(k, Objects([Response([Element(j, Strings([v]), false)])]), false)]);
      && Text(w, false) == "{" + (k + ":" + ("{" + (j + ":" + v) + "}")) + "}"
      && Text(w, true) == "{\n\t" + k + ": " + ("{\n\t\t" + j + ": " + ("\"" + v + "\"") + "\n\t}") + "\n}"
  {
    hide ObjectText, ContainerText, Tabs;
    OneTab();
    var inner := Element(j, Strings([v]), false);
    var e := Element(k, Objects([Response([inner])]), false);
    var value := "\"" + v + "\"";
    StringOf(v, 2, false);
    StringOf(v, 2, true);
    SingleField(inner, 1, false, v, "\t", "\t\t");
    SingleField(inner, 1, true, value, "\t", "\t\t");
    InnerFrame(j, value);
    NestedOf(Response([inner]), 1, false);
    NestedOf(Response([inner]), 1, true);
    var block := "{\n\t\t" + j + ": " + value + "\n\t}";
    SingleField(e, 0, false, "{" + (j + ":" + v) + "}", "", "\t");
    SingleField(e, 0, true, block, "", "\t");
    Frame(k, block);
  }

  /** Two entries' texts inside the outer braces. */
  lemma TwoFields(e: Element, f: Element, pad: bool, p: string, q: string)
    requires FieldText(e, 1, pad) == p && FieldText(f, 1, pad) == q
    ensures Text(Response([e, f]), pad) ==
            if pad then "{\n" + (p + ",\n" + q + "\n") + "}" else "{" + (p + "," + q) + "}"
  {
    hide FieldText, Joined, Tabs, ObjectText;
    OneTab();
    assert FieldTexts([e, f], 1, pad) == [p, q];
    JoinedTwo(p, q, pad);
    var fields := if pad then p + ",\n" + q + "\n" else p + "," + q;
    assert Joined([p, q], pad) == fields by {
      hide *;
      assert pad ==> "," + Pad(pad, "\n") == ",\n" && Pad(pad, "\n") == "\n";
      assert !pad ==> "," + Pad(pad, "\n") == "," && q + Pad(pad, "\n") == q;
    }
    hide Pad;
    ObjectOf(Response([e, f]), 0, pad, fields, "");
    NoTabs(fields);
  }

  lemma NoTabs(fields: string)
    ensures "{\n" + fields + "" + "}" == "{\n" + fields + "}"
  {
  }

  /** Two entries, in their order. */
  lemma EntriesLayout(k: string, a: string, j: string, b: string)
    ensures var w := Response([Element(k, Strings([a]), false), Element(j, Strings([b]), false)]);
      && Text(w, false) == "{" + ((k + ":" + a) + "," + (j + ":" + b)) + "}"
      && Text(w, true) ==
           "{\n" + (("\t" + k + ": " + ("\"" + a + "\"")) + ",\n" + ("\t" + j + ": " + ("\"" + b + "\"")) + "\n") + "}"
  {
    hide ObjectText, ContainerText, Tabs, FieldText;
    OneTab();
    var e, f := Element(k, Strings([a]), false), Element(j, Strings([b]), false);
    StringOf(a, 1, false);
    StringOf(a, 1, true);
    StringOf(b, 1, false);
    StringOf(b, 1, true);
    FieldOf(e, 1, false, a, "\t");
    FieldOf(f, 1, false, b, "\t");
    FieldOf(e, 1, true, "\"" + a + "\"", "\t");
    FieldOf(f, 1, true, "\"" + b + "\"", "\t");
    TwoFields(e, f, false, k + ":" + a, j + ":" + b);
    TwoFields(e, f, true, "\t" + k + ": " + ("\"" + a + "\""), "\t" + j + ": " + ("\"" + b + "\""));
  }
}
