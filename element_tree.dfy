/** The part of `xml.etree.ElementTree` the project patcher relies on: the
    element tree itself, attribute lookup, and serialization of plain
    (namespace-free) elements as `ElementTree.tostring` writes them. */
module ElementTree {
  import opened Wrappers
  import opened Text
  import opened XmlEscape

  /** An element: tag, attributes in insertion order, text, children and
      tail. A `None` text or tail is the empty string here: both serialize
      to nothing. */
  datatype Element = Element(tag: string, attrib: seq<(string, string)>, text: string,
                             children: seq<Element>, tail: string)

  /** `attrib.get(key)`. */
  function Get(attrib: seq<(string, string)>, key: string): (r: Option<string>)
    ensures r.Some? <==> exists i :: 0 <= i < |attrib| && attrib[i].0 == key
    ensures r.Some? ==> (key, r.value) in attrib
  {
    if |attrib| == 0 then None
    else if attrib[0].0 == key then Some(attrib[0].1)
    else Get(attrib[1..], key)
  }

  /** Escaping of an attribute value: the three entities of character data,
      plus the double quote and the three whitespace characters that would
      otherwise be normalised away. */
  function EscapeAttribChar(c: char): string
  {
    if c == '&' then "&amp;"
    else if c == '<' then "&lt;"
    else if c == '>' then "&gt;"
    else if c == '"' then "&quot;"
    else if c == '\r' then "&#13;"
    else if c == '\n' then "&#10;"
    else if c == '\t' then "&#09;"
    else [c]
  }

  function EscapeAttrib(s: string): string
  {
    if |s| == 0 then "" else EscapeAttribChar(s[0]) + EscapeAttrib(s[1..])
  }

  /** A value with none of the seven characters is written as it is. */
  lemma {:induction false} EscapeAttribPlain(s: string)
    requires forall i :: 0 <= i < |s| ==> s[i] !in "&<>\"\r\n\t"
    ensures EscapeAttrib(s) == s
  {
    if |s| > 0 {
      assert s[0] !in "&<>\"\r\n\t";
      EscapeAttribPlain(s[1..]);
      assert [s[0]] + s[1..] == s;
    }
  }

  /** ` key="value"` for each attribute, in insertion order. */
  function AttribText(attrib: seq<(string, string)>): string
  {
    if |attrib| == 0 then ""
    else " " + attrib[0].0 + "=\"" + EscapeAttrib(attrib[0].1) + "\"" + AttribText(attrib[1..])
  }

  /** Each attribute whose value needs no escaping appears as ` key="value"`. */
  lemma {:induction false} AttribTextHasPair(attrib: seq<(string, string)>, i: int)
    requires 0 <= i < |attrib| && EscapeAttrib(attrib[i].1) == attrib[i].1
    ensures Contains(AttribText(attrib), " " + attrib[i].0 + "=\"" + attrib[i].1 + "\"")
  {
    var pair := " " + attrib[i].0 + "=\"" + attrib[i].1 + "\"";
    if i == 0 {
      ContainsMiddle("", pair, AttribText(attrib[1..]));
      assert AttribText(attrib) == "" + pair + AttribText(attrib[1..]);
    } else {
      AttribTextHasPair(attrib[1..], i - 1);
      var head := " " + attrib[0].0 + "=\"" + EscapeAttrib(attrib[0].1) + "\"";
      ContainsWithin(head, AttribText(attrib[1..]), "", pair);
      assert AttribText(attrib) == head + AttribText(attrib[1..]) + "";
    }
  }

  /** An element with neither text nor children is written in the short
      form `<tag ... />`; the tail follows the element. */
  function Serialize(e: Element): string
    decreases e, 1
  {
    "<" + e.tag + AttribText(e.attrib) + Body(e) + Escape(e.tail)
  }

  /** What follows the start tag's attributes: `>`, the text, the children
      and the end tag, or ` />` for an empty element. */
  function Body(e: Element): string
    decreases e, 0
  {
    if e.text != "" || |e.children| > 0
    then ">" + Escape(e.text) + SerializeAll(e.children) + ("</" + e.tag + ">")
    else " />"
  }

  function SerializeAll(cs: seq<Element>): string
    decreases cs
  {
    if |cs| == 0 then "" else Serialize(cs[0]) + SerializeAll(cs[1..])
  }

  /** The serialization of a list of children holds each child's. */
  lemma {:induction false} SerializeAllContains(cs: seq<Element>, i: int)
    requires 0 <= i < |cs|
    ensures Contains(SerializeAll(cs), Serialize(cs[i]))
  {
    if i == 0 {
      ContainsMiddle("", Serialize(cs[0]), SerializeAll(cs[1..]));
      assert SerializeAll(cs) == "" + Serialize(cs[0]) + SerializeAll(cs[1..]);
    } else {
      SerializeAllContains(cs[1..], i - 1);
      ContainsWithin(Serialize(cs[0]), SerializeAll(cs[1..]), "", Serialize(cs[i]));
      assert SerializeAll(cs) == Serialize(cs[0]) + SerializeAll(cs[1..]) + "";
    }
  }

  /** An element's serialization holds each child's. */
  lemma SerializeContainsChild(e: Element, i: int)
    requires 0 <= i < |e.children|
    ensures Contains(Serialize(e), Serialize(e.children[i]))
  {
    var child := Serialize(e.children[i]);
    SerializeAllContains(e.children, i);
    ContainsWithin(">" + Escape(e.text), SerializeAll(e.children), "</" + e.tag + ">", child);
    ContainsWithin("<" + e.tag + AttribText(e.attrib), Body(e), Escape(e.tail), child);
  }
}
