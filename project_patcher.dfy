/** The project patcher (`Recipe._update_idea_project`): reference the
    library from the IDE module file, once. The text check for the marker
    comes first; only when it is absent is the text parsed, the library
    entry appended to the `NewModuleRootManager` component, and the tree
    written back behind an XML declaration. */
module ProjectPatcher {
  import opened Wrappers
  import opened Text
  import opened ElementTree

  /** The name of the library the recipe writes and references. */
  const LibraryName: string := "Buildout Eggs"

  /** The declaration written in front of the serialized tree. */
  const XmlDeclaration: string := "<?xml version=\"1.0\" encoding=\"UTF-8\"?>\n"

  /** The tail given to the previous last child of the component. */
  const EntryIndent: string := "\n    "

  /** The text whose presence means the module file already references the library. */
  function Marker(libraryName: string): string
  {
    "name=\"" + libraryName + "\""
  }

  /** Matches `component[@name="NewModuleRootManager"]`. */
  predicate IsRootManager(e: Element)
  {
    e.tag == "component" && Get(e.attrib, "name") == Some("NewModuleRootManager")
  }

  /** `find`: the first matching child, if any. */
  function FindRootManager(cs: seq<Element>): (r: Option<nat>)
    ensures r.Some? ==> r.value < |cs| && IsRootManager(cs[r.value])
                        && forall j :: 0 <= j < r.value ==> !IsRootManager(cs[j])
    ensures r.None? ==> forall j :: 0 <= j < |cs| ==> !IsRootManager(cs[j])
  {
    if |cs| == 0 then None
    else if IsRootManager(cs[0]) then Some(0)
    else match FindRootManager(cs[1..])
      case None => None
      case Some(k) => Some(k + 1)
  }

  /** The `orderEntry` element that references the library. */
  function OrderEntry(libraryName: string, tail: string): Element
  {
    Element("orderEntry", [("type", "library"), ("name", libraryName), ("level", "project")], "", [], tail)
  }

  /** An `orderEntry` child that references `libraryName` as a library. */
  predicate IsLibraryEntry(e: Element, libraryName: string)
  {
    e.tag == "orderEntry" && Get(e.attrib, "type") == Some("library") && Get(e.attrib, "name") == Some(libraryName)
  }

  function CountLibraryEntries(cs: seq<Element>, libraryName: string): nat
  {
    if |cs| == 0 then 0
    else CountLibraryEntries(cs[..|cs| - 1], libraryName) + (if IsLibraryEntry(cs[|cs| - 1], libraryName) then 1 else 0)
  }

  /** The component's children with their tails blanked: the tree without its formatting. */
  function Untailed(cs: seq<Element>): (r: seq<Element>)
    ensures |r| == |cs|
    ensures forall j :: 0 <= j < |cs| ==> r[j] == cs[j].(tail := "")
  {
    seq(|cs|, j requires 0 <= j < |cs| => cs[j].(tail := ""))
  }

  /** The entry goes last and takes over the previous last child's tail,
      which becomes the indentation of the new entry. */
  function AppendEntry(c: Element, libraryName: string): Element
    requires |c.children| > 0
  {
    var n := |c.children|;
    var last := c.children[n - 1];
    c.(children := c.children[..n - 1] + [last.(tail := EntryIndent), OrderEntry(libraryName, last.tail)])
  }

  /** The patched tree, or `None` when nothing is written: no root manager
      component, or one without children (an element with no children is
      false in `if element:`). */
  function Patch(root: Element, libraryName: string): Option<Element>
  {
    match FindRootManager(root.children)
    case None => None
    case Some(i) =>
      if |root.children[i].children| == 0 then None
      else Some(root.(children := root.children[i := AppendEntry(root.children[i], libraryName)]))
  }

  /** What a run does to the module file. */
  datatype Update = Unchanged | Rewritten(text: string) | ParseError

  /** The whole of `_update_idea_project` on the file's text; `parse` stands
      for `ElementTree.fromstring`, `None` for a parse error. */
  function UpdateText(text: string, parse: string -> Option<Element>, libraryName: string): Update
  {
    if Contains(text, Marker(libraryName)) then Unchanged
    else match parse(text)
      case None => ParseError
      case Some(root) =>
        match Patch(root, libraryName)
        case None => Unchanged
        case Some(patched) => Rewritten(XmlDeclaration + Serialize(patched))
  }

  // ----- What the patch does to the component -----

  lemma {:induction false} CountLibraryEntriesAppend(cs: seq<Element>, e: Element, libraryName: string)
    ensures CountLibraryEntries(cs + [e], libraryName)
         == CountLibraryEntries(cs, libraryName) + (if IsLibraryEntry(e, libraryName) then 1 else 0)
  {
    assert (cs + [e])[..|cs|] == cs;
  }

  /** The patched component has exactly one more library entry than before,
      and it is its last child. */
  lemma AppendEntryAddsOneReference(c: Element, libraryName: string)
    requires |c.children| > 0
    ensures var c' := AppendEntry(c, libraryName);
      CountLibraryEntries(c'.children, libraryName) == CountLibraryEntries(c.children, libraryName) + 1
      && IsLibraryEntry(c'.children[|c'.children| - 1], libraryName)
  {
    var n := |c.children|;
    var last := c.children[n - 1];
    var init := c.children[..n - 1];
    var c' := AppendEntry(c, libraryName);
    assert c.children == init + [last];
    assert c'.children == (init + [last.(tail := EntryIndent)]) + [OrderEntry(libraryName, last.tail)];
    var entry := OrderEntry(libraryName, last.tail);
    assert Get(entry.attrib, "type") == Some("library");
    assert Get(entry.attrib, "name") == Some(libraryName) by {
      assert entry.attrib[0].0 != "name";
    }
    assert IsLibraryEntry(entry, libraryName);
    assert IsLibraryEntry(last, libraryName) == IsLibraryEntry(last.(tail := EntryIndent), libraryName);
    CountLibraryEntriesAppend(init, last, libraryName);
    CountLibraryEntriesAppend(init, last.(tail := EntryIndent), libraryName);
    CountLibraryEntriesAppend(init + [last.(tail := EntryIndent)], OrderEntry(libraryName, last.tail), libraryName);
  }

  /** Only formatting changes besides the new entry: without tails, the
      children are the old ones followed by the entry, and the tail before
      the component's end tag is the one it had. */
  lemma AppendEntryKeepsChildren(c: Element, libraryName: string)
    requires |c.children| > 0
    ensures var c' := AppendEntry(c, libraryName);
      Untailed(c'.children) == Untailed(c.children) + [OrderEntry(libraryName, "")]
      && c'.children[|c'.children| - 1].tail == c.children[|c.children| - 1].tail
      && c'.children[|c.children| - 1].tail == EntryIndent
      && c'.tag == c.tag && c'.attrib == c.attrib && c'.text == c.text && c'.tail == c.tail
    ensures var c' := AppendEntry(c, libraryName);
      c'.children[..|c.children| - 1] == c.children[..|c.children| - 1]
      && c'.children[|c.children| - 1] == c.children[|c.children| - 1].(tail := EntryIndent)
  {
  }

  /** Where the patch applies: the first root manager component, when it
      has children; every other child of the root stays as it was. */
  lemma PatchTarget(root: Element, libraryName: string)
    ensures Patch(root, libraryName).Some?
        <==> exists i :: 0 <= i < |root.children| && IsRootManager(root.children[i])
                         && (forall j :: 0 <= j < i ==> !IsRootManager(root.children[j]))
                         && |root.children[i].children| > 0
    ensures Patch(root, libraryName).Some? ==>
      var r := Patch(root, libraryName).value;
      var i := FindRootManager(root.children).value;
      r.tag == root.tag && r.attrib == root.attrib && r.text == root.text && r.tail == root.tail
      && |r.children| == |root.children|
      && (forall j :: 0 <= j < |root.children| && j != i ==> r.children[j] == root.children[j])
      && r.children[i] == AppendEntry(root.children[i], libraryName)
  {
    var f := FindRootManager(root.children);
    if exists i :: 0 <= i < |root.children| && IsRootManager(root.children[i])
                   && (forall j :: 0 <= j < i ==> !IsRootManager(root.children[j]))
                   && |root.children[i].children| > 0 {
      var i :| 0 <= i < |root.children| && IsRootManager(root.children[i])
               && (forall j :: 0 <= j < i ==> !IsRootManager(root.children[j]))
               && |root.children[i].children| > 0;
      assert f.Some?;
      assert f.value == i;
    }
  }

  // ----- Serialization and idempotence -----

  /** An attribute value that `ElementTree` writes unchanged. */
  predicate PlainValue(s: string)
  {
    forall i :: 0 <= i < |s| ==> s[i] !in "&<>\"\r\n\t"
  }

  lemma LibraryNameIsPlain()
    ensures PlainValue(LibraryName)
  {
    var s := LibraryName;
    assert s == ['B', 'u', 'i', 'l', 'd', 'o', 'u', 't', ' ', 'E', 'g', 'g', 's'];
  }

  lemma MarkerAsAttribute(libraryName: string)
    ensures " " + "name" + "=\"" + libraryName + "\"" == " " + Marker(libraryName) + ""
  {
    assert " " + "name" + "=\"" == " " + ("name" + "=\"");
  }

  lemma EntryAttributesHaveMarker(libraryName: string)
    requires PlainValue(libraryName)
    ensures Contains(AttribText(OrderEntry(libraryName, "").attrib), Marker(libraryName))
  {
    var a := OrderEntry(libraryName, "").attrib;
    EscapeAttribPlain(libraryName);
    AttribTextHasPair(a, 1);
    MarkerAsAttribute(libraryName);
    ContainsMiddle(" ", Marker(libraryName), "");
    ContainsTransitive(AttribText(a), " " + a[1].0 + "=\"" + a[1].1 + "\"", Marker(libraryName));
  }

  /** The serialized entry holds the marker, whatever its tail. */
  lemma EntryHasMarker(libraryName: string, tail: string)
    requires PlainValue(libraryName)
    ensures Contains(Serialize(OrderEntry(libraryName, tail)), Marker(libraryName))
  {
    var e := OrderEntry(libraryName, tail);
    EntryAttributesHaveMarker(libraryName);
    assert e.attrib == OrderEntry(libraryName, "").attrib;
    ContainsWithin("<" + e.tag, AttribText(e.attrib), Body(e) + XmlEscape.Escape(tail), Marker(libraryName));
    ConcatAssoc("<" + e.tag + AttribText(e.attrib), Body(e), XmlEscape.Escape(tail));
  }

  /** After a patch the written text holds the marker. */
  lemma PatchedTextHasMarker(root: Element, libraryName: string)
    requires PlainValue(libraryName)
    requires Patch(root, libraryName).Some?
    ensures Contains(XmlDeclaration + Serialize(Patch(root, libraryName).value), Marker(libraryName))
  {
    var r := Patch(root, libraryName).value;
    var i := FindRootManager(root.children).value;
    var c := root.children[i];
    var c' := AppendEntry(c, libraryName);
    var n := |c.children|;
    var entry := OrderEntry(libraryName, c.children[n - 1].tail);
    var m := Marker(libraryName);
    assert r.children[i] == c';
    assert c'.children[n] == entry;
    EntryHasMarker(libraryName, entry.tail);
    SerializeContainsChild(c', n);
    ContainsTransitive(Serialize(c'), Serialize(entry), m);
    SerializeContainsChild(r, i);
    ContainsTransitive(Serialize(r), Serialize(c'), m);
    ContainsWithin(XmlDeclaration, Serialize(r), "", m);
    assert XmlDeclaration + Serialize(r) + "" == XmlDeclaration + Serialize(r);
  }

  /** Running the patcher on the text it wrote changes nothing, however the
      text is parsed: there is never a second entry. */
  lemma UpdateIsIdempotent(text: string, parse: string -> Option<Element>, parse': string -> Option<Element>,
                           libraryName: string)
    requires PlainValue(libraryName)
    requires UpdateText(text, parse, libraryName).Rewritten?
    ensures UpdateText(UpdateText(text, parse, libraryName).text, parse', libraryName) == Unchanged
  {
    var root := parse(text).value;
    PatchedTextHasMarker(root, libraryName);
  }

  /** A text that already names the library is never parsed or rewritten. */
  lemma MarkedTextIsLeftAlone(text: string, parse: string -> Option<Element>, libraryName: string)
    requires Contains(text, Marker(libraryName))
    ensures UpdateText(text, parse, libraryName) == Unchanged
  {
  }
}
