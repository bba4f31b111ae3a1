/**
 * The parsed page as the extractor sees it: a document is its elements in
 * document order, and an element is referred to by its index in that order.
 */
module Dom {
  import opened Wrappers

  datatype Attribute = Attribute(name: string, value: string)

  /**
   * One element of a document.
   * - `parent` is the index of the parent element; it is absent when the
   *   parent node is the document itself. A parent precedes its children in
   *   document order, so a link is only read when it points backwards.
   * - `xpath` is the element's structural locator (XPathHelper.getXPathExpression).
   * - `frameName` is what DomUtils.getFrameIdentification gives for a FRAME or
   *   IFRAME element (absent when it gives null).
   * - `frameDom` is the frame's own document as the browser serialises it;
   *   absent when fetching or parsing it throws an IOException.
   */
  datatype Element = Element(
    tag: string,
    attributes: seq<Attribute>,
    xpath: string,
    parent: Option<nat>,
    frameName: Option<string>,
    frameDom: Option<Document>)

  datatype Document = Document(elements: seq<Element>)

  /** Tag-name test of Document.getElementsByTagName; "*" matches every element. */
  predicate TagMatches(e: Element, name: string)
  {
    name == "*" || e.tag == name
  }

  /** Every index in `nodes` names an element of `doc`. */
  predicate ValidIndices(doc: Document, nodes: seq<nat>)
  {
    forall i :: 0 <= i < |nodes| ==> nodes[i] < |doc.elements|
  }

  predicate Increasing(s: seq<nat>)
  {
    forall i, j :: 0 <= i < j < |s| ==> s[i] < s[j]
  }

  /** The indices, from `from` on, of the elements named `name`, in document order. */
  function TagIndicesFrom(doc: Document, name: string, from: nat): (r: seq<nat>)
    decreases |doc.elements| - from
    ensures forall i :: 0 <= i < |r| ==> from <= r[i] < |doc.elements| && TagMatches(doc.elements[r[i]], name)
    ensures forall k :: from <= k < |doc.elements| && TagMatches(doc.elements[k], name) ==> k in r
    ensures Increasing(r)
  {
    if from >= |doc.elements| then []
    else if TagMatches(doc.elements[from], name) then [from] + TagIndicesFrom(doc, name, from + 1)
    else TagIndicesFrom(doc, name, from + 1)
  }

  /** Document.getElementsByTagName: every element named `name`, in document order. */
  function TagIndices(doc: Document, name: string): (r: seq<nat>)
    ensures forall i :: 0 <= i < |r| ==> r[i] < |doc.elements| && TagMatches(doc.elements[r[i]], name)
    ensures forall k :: 0 <= k < |doc.elements| && TagMatches(doc.elements[k], name) ==> k in r
    ensures Increasing(r)
  {
    TagIndicesFrom(doc, name, 0)
  }

  /** Element.getAttribute: the value of the first attribute named `name`, or "" when there is none. */
  function AttributeValue(attributes: seq<Attribute>, name: string): (r: string)
    ensures (forall a :: a in attributes ==> a.name != name) ==> r == ""
    ensures forall i :: 0 <= i < |attributes| && attributes[i].name == name
                        && (forall j :: 0 <= j < i ==> attributes[j].name != name)
                        ==> r == attributes[i].value
  {
    if attributes == [] then ""
    else if attributes[0].name == name then attributes[0].value
    else
      var rest := attributes[1..];
      assert forall i :: 1 <= i < |attributes| ==> attributes[i] == rest[i - 1];
      AttributeValue(rest, name)
  }

  function UpperChar(c: char): char
  {
    if 'a' <= c <= 'z' then (c as int - 'a' as int + 'A' as int) as char else c
  }

  /** String.toUpperCase, on the ASCII letters. */
  function UpperAscii(s: string): string
  {
    seq(|s|, i requires 0 <= i < |s| => UpperChar(s[i]))
  }
}
