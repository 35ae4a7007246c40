/**
 * The element tree of `src/element.rs`: the `Xml` node kinds, the `Element`
 * record, its construction, the queries an element answers (attributes,
 * children by name and namespace, text content) and the in-place edits of
 * an `&mut Element` (attribute updates and appending children).
 */
module Elements {
  import opened Wrappers
  import opened Attributes

  /** The namespace bound to the prefix `xml` in every new element. */
  const XmlNamespace: string := "http://www.w3.org/XML/1998/namespace"

  /** The namespace bound to the prefix `xmlns` in every new element. */
  const XmlnsNamespace: string := "http://www.w3.org/2000/xmlns/"

  /** One child of an element. */
  datatype Xml =
    | ElementNode(elem: Element)
    | CharacterNode(data: string)
    | CDATANode(data: string)
    | CommentNode(data: string)
    | PINode(data: string)

  /**
   * An element. `prefixes` maps a namespace to the prefix bound for it at
   * this element; `defaultNs` is the namespace unprefixed names fall into.
   */
  datatype Element = Element(
    name: string,
    ns: Option<string>,
    attributes: Attrs,
    children: seq<Xml>,
    prefixes: map<string, string>,
    defaultNs: Option<string>)

  /**
   * `Element::new`: no children, the given namespace also as the default
   * one, the two reserved prefixes bound, and the attributes collected from
   * the triples (a later triple overrides an earlier one with the same key).
   */
  function New(name: string, ns: Option<string>, attrs: seq<Triple>): (e: Element)
    ensures e.name == name && e.ns == ns && e.defaultNs == ns
    ensures e.children == []
    ensures e.prefixes.Keys == {XmlNamespace, XmlnsNamespace}
    ensures e.prefixes[XmlNamespace] == "xml" && e.prefixes[XmlnsNamespace] == "xmlns"
    ensures forall k :: Get(e.attributes, k) == LastValue(attrs, k)
  {
    Element(name, ns, FromTriples(attrs), [],
            map[XmlNamespace := "xml", XmlnsNamespace := "xmlns"], ns)
  }

  /** `Element::get_attribute`: the value stored under `(name, ns)`, if any. */
  function GetAttribute(e: Element, name: string, ns: Option<string>): (r: Option<string>)
    ensures r.None? <==> forall i :: 0 <= i < |e.attributes| ==> e.attributes[i].0 != AttrKey(name, ns)
    ensures forall i :: 0 <= i < |e.attributes| && e.attributes[i].0 == AttrKey(name, ns) ==>
              r == Some(e.attributes[i].1)
  {
    Get(e.attributes, AttrKey(name, ns))
  }

  /* ---------------------------------------------------------------- */
  /* Text content                                                      */
  /* ---------------------------------------------------------------- */

  /** The character and CDATA text of an element and its descendants, in document order. */
  function Content(e: Element): string
    decreases e, 1
  {
    NodesContent(e.children)
  }

  function NodesContent(cs: seq<Xml>): string
    decreases cs, 0
  {
    if cs == [] then [] else NodeContent(cs[0]) + NodesContent(cs[1..])
  }

  /** What one child contributes: comments and processing instructions contribute nothing. */
  function NodeContent(x: Xml): string
    decreases x, 0
  {
    match x
    case ElementNode(e) => Content(e)
    case CharacterNode(d) => d
    case CDATANode(d) => d
    case CommentNode(_) => []
    case PINode(_) => []
  }

  /** Appending a child appends exactly that child's contribution. */
  lemma {:induction false} NodesContentAppend(cs: seq<Xml>, x: Xml)
    ensures NodesContent(cs + [x]) == NodesContent(cs) + NodeContent(x)
  {
    if cs != [] {
      assert (cs + [x])[1..] == cs[1..] + [x];
      NodesContentAppend(cs[1..], x);
    } else {
      assert [x][1..] == [];
    }
  }

  /** `Element::content_str`: the text is accumulated child by child. */
  method ContentStr(e: Element) returns (res: string)
    ensures res == Content(e)
    decreases e
  {
    res := [];
    var i := 0;
    while i < |e.children|
      invariant 0 <= i <= |e.children|
      invariant res == NodesContent(e.children[..i])
    {
      var child := e.children[i];
      assert child in e.children;
      NodesContentAppend(e.children[..i], child);
      assert e.children[..i + 1] == e.children[..i] + [child];
      match child {
        case ElementNode(el) =>
          var s := ContentStr(el);
          res := res + s;
        case CharacterNode(d) =>
          res := res + d;
        case CDATANode(d) =>
          res := res + d;
        case CommentNode(_) =>
        case PINode(_) =>
      }
      i := i + 1;
    }
    assert e.children[..i] == e.children;
  }

  /* ---------------------------------------------------------------- */
  /* Children by name and namespace                                    */
  /* ---------------------------------------------------------------- */

  /** Whether `x` is an element child with exactly this name and namespace. */
  predicate IsMatch(x: Xml, name: string, ns: Option<string>) {
    x.ElementNode? && x.elem.name == name && x.elem.ns == ns
  }

  /** The element children with this name and namespace, in document order. */
  function Matching(cs: seq<Xml>, name: string, ns: Option<string>): (r: seq<Element>)
    ensures |r| <= |cs|
    ensures forall el :: el in r ==> el.name == name && el.ns == ns
  {
    if cs == [] then []
    else (if IsMatch(cs[0], name, ns) then [cs[0].elem] else []) + Matching(cs[1..], name, ns)
  }

  /** An element is among the matches exactly when it is a child with that name and namespace. */
  lemma {:induction false} MatchingMembers(cs: seq<Xml>, name: string, ns: Option<string>)
    ensures forall el :: el in Matching(cs, name, ns) <==>
              ElementNode(el) in cs && el.name == name && el.ns == ns
  {
    if cs != [] {
      MatchingMembers(cs[1..], name, ns);
      assert cs == [cs[0]] + cs[1..];
    }
  }

  /** The first match is the earliest matching child: every child before it does not match. */
  lemma {:induction false} FirstMatchIsEarliest(cs: seq<Xml>, name: string, ns: Option<string>)
    requires Matching(cs, name, ns) != []
    ensures exists i :: 0 <= i < |cs| && IsMatch(cs[i], name, ns)
              && cs[i].elem == Matching(cs, name, ns)[0]
              && forall j :: 0 <= j < i ==> !IsMatch(cs[j], name, ns)
  {
    if !IsMatch(cs[0], name, ns) {
      FirstMatchIsEarliest(cs[1..], name, ns);
      var i :| 0 <= i < |cs[1..]| && IsMatch(cs[1..][i], name, ns)
               && cs[1..][i].elem == Matching(cs[1..], name, ns)[0]
               && forall j :: 0 <= j < i ==> !IsMatch(cs[1..][j], name, ns);
      assert forall j :: 1 <= j < i + 1 ==> cs[j] == cs[1..][j - 1];
      assert IsMatch(cs[i + 1], name, ns);
    } else {
      assert IsMatch(cs[0], name, ns);
    }
  }

  /**
   * `ChildElements`: an iterator over the children still to be visited,
   * yielding those with the wanted name and namespace.
   */
  class ChildElements {
    var elems: seq<Xml>
    const name: string
    const ns: Option<string>

    /** `Element::get_children`: an iterator over all of `children`. */
    constructor (children: seq<Xml>, name: string, ns: Option<string>)
      ensures elems == children && this.name == name && this.ns == ns
    {
      elems := children;
      this.name := name;
      this.ns := ns;
    }

    /**
     * `ChildElements::next`: skips non-matching children and yields the
     * next match; once it yields nothing, nothing is left to visit.
     */
    method Next() returns (r: Option<Element>)
      modifies this
      ensures Matching(old(elems), name, ns) == Yielded(r) + Matching(elems, name, ns)
      ensures r.None? ==> elems == []
      ensures |elems| <= |old(elems)| && elems == old(elems)[|old(elems)| - |elems|..]
    {
      while elems != []
        invariant Matching(old(elems), name, ns) == Matching(elems, name, ns)
        invariant |elems| <= |old(elems)| && elems == old(elems)[|old(elems)| - |elems|..]
        decreases |elems|
      {
        var child := elems[0];
        elems := elems[1..];
        if IsMatch(child, name, ns) {
          return Some(child.elem);
        }
      }
      return None;
    }
  }

  /** Draining `get_children(name, ns)` yields exactly the matching children, in order. */
  method CollectChildren(e: Element, name: string, ns: Option<string>) returns (r: seq<Element>)
    ensures r == Matching(e.children, name, ns)
  {
    var it := new ChildElements(e.children, name, ns);
    r := [];
    var next := it.Next();
    while next.Some?
      invariant Matching(e.children, name, ns) == r + Yielded(next) + Matching(it.elems, name, ns)
      invariant next.None? ==> it.elems == []
      decreases |it.elems| + |Yielded(next)|
    {
      r := r + [next.value];
      next := it.Next();
      ConcatAssociates(r, Yielded(next), Matching(it.elems, name, ns));
    }
  }

  /** What one call of `ChildElements::next` yielded, as a sequence. */
  function Yielded(next: Option<Element>): (r: seq<Element>)
    ensures |r| <= 1
  {
    if next.Some? then [next.value] else []
  }

  /** `Element::get_child`: the first match of `get_children`, or nothing when there is none. */
  method GetChild(e: Element, name: string, ns: Option<string>) returns (r: Option<Element>)
    ensures r.None? <==> Matching(e.children, name, ns) == []
    ensures r.Some? ==> r.value == Matching(e.children, name, ns)[0]
  {
    var it := new ChildElements(e.children, name, ns);
    r := it.Next();
  }

  /** The document `<a><b/><c/><b/></a>`: looking up `b` finds both `b` children, the first one first. */
  lemma GetChildrenExample()
    ensures var b := New("b", None, []);
            var a := New("a", None, []).(children := [ElementNode(b), ElementNode(New("c", None, [])), ElementNode(b)]);
            Matching(a.children, "b", None) == [b, b]
  {
    var b := New("b", None, []);
    var c := New("c", None, []);
    var cs := [ElementNode(b), ElementNode(c), ElementNode(b)];
    assert IsMatch(ElementNode(b), "b", None) && !IsMatch(ElementNode(c), "b", None);
    assert cs[1..][1..][1..] == [];
    assert Matching(cs[1..][1..], "b", None) == [b];
    assert cs[1..] == [ElementNode(c), ElementNode(b)];
    assert Matching(cs[1..], "b", None) == [b];
  }

  /* ---------------------------------------------------------------- */
  /* In-place edits                                                    */
  /* ---------------------------------------------------------------- */

  /** An element being edited in place through `&mut Element`. */
  class MutableElement {
    var name: string
    var ns: Option<string>
    var attributes: Attrs
    var children: seq<Xml>
    var prefixes: map<string, string>
    var defaultNs: Option<string>

    /** The element this object currently holds. */
    function Value(): Element
      reads this
    {
      Element(name, ns, attributes, children, prefixes, defaultNs)
    }

    /** `Element::new`. */
    constructor (name: string, ns: Option<string>, attrs: seq<Triple>)
      ensures Value() == New(name, ns, attrs)
    {
      var e := New(name, ns, attrs);
      this.name := e.name;
      this.ns := e.ns;
      attributes := e.attributes;
      children := e.children;
      prefixes := e.prefixes;
      defaultNs := e.defaultNs;
    }

    /** `Element::set_attribute`: stores the value and returns the one it replaced. */
    method SetAttribute(name: string, ns: Option<string>, value: string) returns (previous: Option<string>)
      modifies this
      ensures previous == Get(old(attributes), AttrKey(name, ns))
      ensures Value() == old(Value()).(attributes := Set(old(attributes), AttrKey(name, ns), value))
    {
      previous := Get(attributes, AttrKey(name, ns));
      attributes := Set(attributes, AttrKey(name, ns), value);
    }

    /** `Element::remove_attribute`: drops the attribute and returns its value. */
    method RemoveAttribute(name: string, ns: Option<string>) returns (previous: Option<string>)
      modifies this
      ensures previous == Get(old(attributes), AttrKey(name, ns))
      ensures Value() == old(Value()).(attributes := Remove(old(attributes), AttrKey(name, ns)))
    {
      previous := Get(attributes, AttrKey(name, ns));
      attributes := Remove(attributes, AttrKey(name, ns));
    }

    /** `Element::tag`: appends the element and returns the child just appended. */
    method Tag(child: Element) returns (added: Element)
      modifies this
      ensures Value() == old(Value()).(children := old(children) + [ElementNode(child)])
      ensures children[|children| - 1] == ElementNode(added) && added == child
    {
      children := children + [ElementNode(child)];
      var last := children[|children| - 1];
      if last.ElementNode? {
        added := last.elem;
      } else {
        assert false;
        added := child;
      }
    }

    /** `Element::tag_stay`: appends the element and returns the parent. */
    method TagStay(child: Element) returns (self: MutableElement)
      modifies this
      ensures Value() == old(Value()).(children := old(children) + [ElementNode(child)])
      ensures self == this
    {
      children := children + [ElementNode(child)];
      self := this;
    }

    /** `Element::text`: appends character data and returns the parent. */
    method Text(text: string) returns (self: MutableElement)
      modifies this
      ensures Value() == old(Value()).(children := old(children) + [CharacterNode(text)])
      ensures self == this
    {
      children := children + [CharacterNode(text)];
      self := this;
    }

    /** `Element::cdata`: appends a CDATA section and returns the parent. */
    method Cdata(text: string) returns (self: MutableElement)
      modifies this
      ensures Value() == old(Value()).(children := old(children) + [CDATANode(text)])
      ensures self == this
    {
      children := children + [CDATANode(text)];
      self := this;
    }

    /** `Element::comment`: appends a comment and returns the parent. */
    method Comment(text: string) returns (self: MutableElement)
      modifies this
      ensures Value() == old(Value()).(children := old(children) + [CommentNode(text)])
      ensures self == this
    {
      children := children + [CommentNode(text)];
      self := this;
    }

    /** `Element::pi`: appends a processing instruction and returns the parent. */
    method Pi(text: string) returns (self: MutableElement)
      modifies this
      ensures Value() == old(Value()).(children := old(children) + [PINode(text)])
      ensures self == this
    {
      children := children + [PINode(text)];
      self := this;
    }
  }
}
