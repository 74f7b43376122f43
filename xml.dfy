/**
 * A plain element tree standing in for the lxml elements the crosswalk builds.
 * Attributes keep their insertion order; a missing text is `None`. A `Node`
 * is an element under construction: `set` writes an attribute and
 * `SubElement` appends a child.
 */
module Xml {
  import opened Wrappers

  datatype Element = Element(name: string, attrs: seq<(string, string)>, text: Option<string>, children: seq<Element>)

  /** An element with text and no attributes or children. */
  function Leaf(name: string, text: Option<string>): Element {
    Element(name, [], text, [])
  }

  /** The names of a sequence of elements, in order. */
  function Names(es: seq<Element>): (r: seq<string>)
    ensures |r| == |es|
    ensures forall i :: 0 <= i < |es| ==> r[i] == es[i].name
  {
    if es == [] then [] else [es[0].name] + Names(es[1..])
  }

  /** The value of attribute `key`, the first one when it is set twice. */
  function Attr(e: Element, key: string): Option<string> {
    AttrIn(e.attrs, key)
  }

  function AttrIn(attrs: seq<(string, string)>, key: string): Option<string> {
    if attrs == [] then None
    else if attrs[0].0 == key then Some(attrs[0].1)
    else AttrIn(attrs[1..], key)
  }

  /** lxml's `set`: overwrite the value of `key` where it stands, or add it at the end. */
  function SetAttr(attrs: seq<(string, string)>, key: string, value: string): (r: seq<(string, string)>)
    ensures |r| == if AttrIn(attrs, key).None? then |attrs| + 1 else |attrs|
  {
    if attrs == [] then [(key, value)]
    else if attrs[0].0 == key then [(key, value)] + attrs[1..]
    else [attrs[0]] + SetAttr(attrs[1..], key, value)
  }

  /** After `set`, the attribute reads back as the value written, and every other
      attribute reads as before. */
  lemma {:induction false} SetAttrGet(attrs: seq<(string, string)>, key: string, value: string, other: string)
    ensures AttrIn(SetAttr(attrs, key, value), key) == Some(value)
    ensures other != key ==> AttrIn(SetAttr(attrs, key, value), other) == AttrIn(attrs, other)
  {
    if attrs != [] && attrs[0].0 != key {
      SetAttrGet(attrs[1..], key, value, other);
    }
  }

  /** Setting an attribute the element does not have yet appends it. */
  lemma {:induction false} SetAttrNew(attrs: seq<(string, string)>, key: string, value: string)
    requires forall i :: 0 <= i < |attrs| ==> attrs[i].0 != key
    ensures AttrIn(attrs, key).None?
    ensures SetAttr(attrs, key, value) == attrs + [(key, value)]
  {
    if attrs != [] {
      SetAttrNew(attrs[1..], key, value);
      assert attrs == [attrs[0]] + attrs[1..];
    }
  }

  /** An element being built. */
  class Node {
    var name: string
    var attrs: seq<(string, string)>
    var text: Option<string>
    var children: seq<Element>

    /** `ET.Element(name)`: no attributes, no text, no children. */
    constructor (name: string)
      ensures this.name == name && attrs == [] && text == None && children == []
    {
      this.name := name;
      attrs := [];
      text := None;
      children := [];
    }

    /** An element holding `e`. */
    constructor Of(e: Element)
      ensures name == e.name && attrs == e.attrs && text == e.text && children == e.children
    {
      name := e.name;
      attrs := e.attrs;
      text := e.text;
      children := e.children;
    }

    /** The element as built so far. */
    function Value(): Element
      reads this
    {
      Element(name, attrs, text, children)
    }

    /** The element is `before` with exactly `suffix` added to its children. */
    predicate Extends(before: Element, suffix: seq<Element>)
      reads this
    {
      name == before.name && attrs == before.attrs && text == before.text && children == before.children + suffix
    }

    /** `element.set(key, value)`. */
    method Set(key: string, value: string)
      modifies this
      ensures name == old(name) && attrs == SetAttr(old(attrs), key, value) && text == old(text) && children == old(children)
    {
      attrs := SetAttr(attrs, key, value);
    }

    /** `ET.SubElement(element, ...)` with the child already complete. */
    method Append(child: Element)
      modifies this
      ensures Extends(old(Value()), [child])
    {
      children := children + [child];
    }
  }
}
