/**
 * The text rendering of an element (`fmt_elem` and `Display for Element`):
 * namespace prefixes looked up in the prefix table inherited from the
 * ancestors plus the element's own bindings, an `xmlns='…'` declaration
 * where the default namespace changes, the attributes, and either a
 * self-closing tag or the children followed by a closing tag.
 *
 * A missing prefix is the `expect("No namespace prefix bound")` panic (and
 * the `unwrap` of the closing tag); both are `None` here. Escaping of
 * attribute values and the display of non-element children belong to code
 * outside this model and are taken as the parameters `escape` and `show`.
 */
module Rendering {
  import opened Wrappers
  import opened Attributes
  import opened Elements

  /** Namespace to prefix, as bound at some point of the tree. */
  type PrefixTable = map<string, string>

  /** The attribute name that suppresses the generated default-namespace declaration. */
  const XmlnsName := "xmlns"

  /** A namespace as written in a declaration: its name, or nothing for no namespace. */
  function NsText(ns: Option<string>): string {
    if ns.Some? then ns.value else []
  }

  /**
   * The name in the opening tag: `prefix:name` when the namespace differs
   * from the default one, the prefix being looked up under the namespace
   * (under `""` when there is none).
   */
  function OpenName(e: Element, table: PrefixTable): Option<string> {
    if e.ns == e.defaultNs then Some(e.name)
    else if NsText(e.ns) in table then Some(table[NsText(e.ns)] + ":" + e.name)
    else None
  }

  /** The name in the closing tag: as the opening one, except that no namespace at all fails (`unwrap` on `None`). */
  function CloseName(e: Element, table: PrefixTable): Option<string> {
    if e.ns == e.defaultNs then Some(e.name)
    else if e.ns.Some? && e.ns.value in table then Some(table[e.ns.value] + ":" + e.name)
    else None
  }

  /** Whether some attribute, in any namespace, is named `xmlns`. */
  predicate HasXmlnsAttribute(e: Element) {
    exists i :: 0 <= i < |e.attributes| && e.attributes[i].0.name == XmlnsName
  }

  /**
   * The generated default-namespace declaration: at the root when there is
   * a default namespace, below it when the default namespace differs from
   * the parent's; never when an attribute is named `xmlns`.
   */
  function XmlnsDecl(e: Element, parent: Option<Element>): string {
    if HasXmlnsAttribute(e) then []
    else
      match parent
      case None => if e.defaultNs.Some? then " xmlns='" + e.defaultNs.value + "'" else []
      case Some(p) => if p.defaultNs != e.defaultNs then " xmlns='" + NsText(e.defaultNs) + "'" else []
  }

  /** One attribute: ` prefix:name='value'` in a namespace, ` name='value'` outside one. */
  function AttrText(attr: (AttrKey, string), table: PrefixTable, escape: string -> string): Option<string> {
    var (key, value) := attr;
    match key.ns
    case None => Some(" " + key.name + "='" + escape(value) + "'")
    case Some(ns) =>
      if ns in table then Some(" " + table[ns] + ":" + key.name + "='" + escape(value) + "'") else None
  }

  /** The attributes in iteration order. */
  function AttrsText(a: seq<(AttrKey, string)>, table: PrefixTable, escape: string -> string): Option<string> {
    if a == [] then Some([])
    else
      var first := AttrText(a[0], table, escape);
      var rest := AttrsText(a[1..], table, escape);
      if first.None? || rest.None? then None else Some(first.value + rest.value)
  }

  /** The opening tag up to, not including, its `>` or `/>`. */
  function StartTag(e: Element, parent: Option<Element>, table: PrefixTable, escape: string -> string): Option<string> {
    var open := OpenName(e, table);
    var attrs := AttrsText(e.attributes, table, escape);
    if open.None? || attrs.None? then None
    else Some("<" + open.value + XmlnsDecl(e, parent) + attrs.value)
  }

  /**
   * `fmt_elem`: the element rendered below `parent` (if any), with the
   * prefixes `inherited` from the ancestors; `None` when a needed prefix is
   * not bound.
   */
  function Render(e: Element, parent: Option<Element>, inherited: PrefixTable,
                  escape: string -> string, show: Xml -> string): Option<string>
    decreases e, 1
  {
    var table := inherited + e.prefixes;
    var start := StartTag(e, parent, table, escape);
    if start.None? then None
    else if e.children == [] then Some(start.value + "/>")
    else
      var inner := ChildrenText(e.children, e, table, escape, show);
      var close := CloseName(e, table);
      if inner.None? || close.None? then None
      else Some(start.value + ">" + inner.value + "</" + close.value + ">")
  }

  /** The children of `parent` one after another, rendered with the table in force at `parent`. */
  function ChildrenText(cs: seq<Xml>, parent: Element, table: PrefixTable,
                        escape: string -> string, show: Xml -> string): Option<string>
    decreases cs, 0
  {
    if cs == [] then Some([])
    else
      var first := NodeText(cs[0], parent, table, escape, show);
      var rest := ChildrenText(cs[1..], parent, table, escape, show);
      if first.None? || rest.None? then None else Some(first.value + rest.value)
  }

  /** An element child is rendered recursively; any other child through `Display for Xml`. */
  function NodeText(x: Xml, parent: Element, table: PrefixTable,
                    escape: string -> string, show: Xml -> string): Option<string>
    decreases x, 0
  {
    match x
    case ElementNode(c) => Render(c, Some(parent), table, escape, show)
    case _ => Some(show(x))
  }

  /** `Display for Element`: a root, with nothing inherited. */
  function Display(e: Element, escape: string -> string, show: Xml -> string): Option<string> {
    Render(e, None, map[], escape, show)
  }

  /* ---------------------------------------------------------------- */
  /* When rendering succeeds                                           */
  /* ---------------------------------------------------------------- */

  /** Every namespace that one of the element's own tags or attributes needs a prefix for is bound in `table`. */
  predicate TagsBound(e: Element, table: PrefixTable) {
    && (e.ns != e.defaultNs ==> NsText(e.ns) in table)
    && (e.ns != e.defaultNs && e.children != [] ==> e.ns.Some? && e.ns.value in table)
    && AttrsBound(e.attributes, table)
  }

  predicate AttrsBound(a: seq<(AttrKey, string)>, table: PrefixTable) {
    forall i :: 0 <= i < |a| && a[i].0.ns.Some? ==> a[i].0.ns.value in table
  }

  /** The tags of `e` and of every descendant find their prefixes, each in the table in force where it stands. */
  ghost predicate Resolvable(e: Element, inherited: PrefixTable)
    decreases e
  {
    var table := inherited + e.prefixes;
    && TagsBound(e, table)
    && forall x :: x in e.children && x.ElementNode? ==> Resolvable(x.elem, table)
  }

  /** The attributes render exactly when each namespaced one has its prefix bound. */
  lemma {:induction false} AttrsTextSomeIff(a: seq<(AttrKey, string)>, table: PrefixTable, escape: string -> string)
    ensures AttrsText(a, table, escape).Some? <==> AttrsBound(a, table)
  {
    if a != [] {
      AttrsTextSomeIff(a[1..], table, escape);
      assert forall i :: 1 <= i < |a| ==> a[i] == a[1..][i - 1];
    }
  }

  /** The opening tag can be written exactly when its own name and its attributes find their prefixes. */
  lemma StartTagSomeIff(e: Element, parent: Option<Element>, table: PrefixTable, escape: string -> string)
    ensures StartTag(e, parent, table, escape).Some?
        <==> (e.ns != e.defaultNs ==> NsText(e.ns) in table) && AttrsBound(e.attributes, table)
  {
    AttrsTextSomeIff(e.attributes, table, escape);
  }

  /**
   * Rendering fails exactly when some tag or attribute of the element or of
   * a descendant needs a prefix that is not bound there; where the element
   * stands (its parent) plays no part.
   */
  lemma {:induction false} RenderSomeIff(e: Element, parent: Option<Element>, inherited: PrefixTable,
                                         escape: string -> string, show: Xml -> string)
    ensures Render(e, parent, inherited, escape, show).Some? <==> Resolvable(e, inherited)
    decreases e, 1
  {
    var table := inherited + e.prefixes;
    StartTagSomeIff(e, parent, table, escape);
    if e.children != [] {
      ChildrenTextSomeIff(e.children, e, table, escape, show);
    }
  }

  /** The children render exactly when every element among them is resolvable with the parent's table. */
  lemma {:induction false} ChildrenTextSomeIff(cs: seq<Xml>, parent: Element, table: PrefixTable,
                                               escape: string -> string, show: Xml -> string)
    ensures ChildrenText(cs, parent, table, escape, show).Some?
        <==> forall x :: x in cs && x.ElementNode? ==> Resolvable(x.elem, table)
    decreases cs, 0
  {
    if cs != [] {
      ChildrenTextSomeIff(cs[1..], parent, table, escape, show);
      NodeTextSomeIff(cs[0], parent, table, escape, show);
      assert forall x :: x in cs <==> x == cs[0] || x in cs[1..];
    }
  }

  lemma {:induction false} NodeTextSomeIff(x: Xml, parent: Element, table: PrefixTable,
                                           escape: string -> string, show: Xml -> string)
    ensures NodeText(x, parent, table, escape, show).Some? <==> (x.ElementNode? ==> Resolvable(x.elem, table))
    decreases x, 0
  {
    if x.ElementNode? {
      RenderSomeIff(x.elem, Some(parent), table, escape, show);
    }
  }

  /** `Display` succeeds exactly when the tree finds every prefix it needs in its own bindings. */
  lemma DisplaySomeIff(e: Element, escape: string -> string, show: Xml -> string)
    ensures Display(e, escape, show).Some? <==> Resolvable(e, map[])
  {
    RenderSomeIff(e, None, map[], escape, show);
  }

  /** Binding more prefixes above an element never makes its rendering fail. */
  lemma {:induction false} MoreBindingsStillResolve(e: Element, t: PrefixTable, t': PrefixTable)
    requires Resolvable(e, t) && t.Keys <= t'.Keys
    ensures Resolvable(e, t')
    decreases e
  {
    var table, table' := t + e.prefixes, t' + e.prefixes;
    assert table.Keys <= table'.Keys;
    forall x | x in e.children && x.ElementNode?
      ensures Resolvable(x.elem, table')
    {
      MoreBindingsStillResolve(x.elem, table, table');
    }
  }

  /* ---------------------------------------------------------------- */
  /* The shape of the text                                             */
  /* ---------------------------------------------------------------- */

  /**
   * The text opens with the element's name, prefixed with the prefix bound
   * for its namespace exactly when the namespace differs from the default
   * one, followed by the default-namespace declaration if any.
   */
  lemma OpeningTag(e: Element, parent: Option<Element>, inherited: PrefixTable,
                   escape: string -> string, show: Xml -> string, s: string)
    requires Render(e, parent, inherited, escape, show) == Some(s)
    ensures var table := inherited + e.prefixes;
            && (e.ns == e.defaultNs ==> "<" + e.name + XmlnsDecl(e, parent) <= s)
            && (e.ns != e.defaultNs ==>
                  NsText(e.ns) in table && "<" + table[NsText(e.ns)] + ":" + e.name + XmlnsDecl(e, parent) <= s)
  {
    var table := inherited + e.prefixes;
    var st := StartTag(e, parent, table, escape).value;
    var head := "<" + OpenName(e, table).value + XmlnsDecl(e, parent);
    assert st == head + AttrsText(e.attributes, table, escape).value;
    assert head <= st && st <= s;
  }

  /**
   * The declaration `xmlns='…'` carries the element's default namespace (or
   * nothing for none), and is written exactly when no attribute is named
   * `xmlns` and either the element is a root with a default namespace or
   * its default namespace differs from its parent's.
   */
  lemma XmlnsDeclRule(e: Element, parent: Option<Element>)
    ensures XmlnsDecl(e, parent) != [] <==>
              && !HasXmlnsAttribute(e)
              && (|| (parent.None? && e.defaultNs.Some?)
                  || (parent.Some? && parent.value.defaultNs != e.defaultNs))
    ensures XmlnsDecl(e, parent) != [] ==> XmlnsDecl(e, parent) == " xmlns='" + NsText(e.defaultNs) + "'"
  {
  }

  /**
   * After the opening tag comes `/>` exactly when there are no children;
   * otherwise `>`, and the text ends with the closing tag, whose name is the
   * one the opening tag used.
   */
  lemma SelfClosingRule(e: Element, parent: Option<Element>, inherited: PrefixTable,
                        escape: string -> string, show: Xml -> string, s: string)
    requires Render(e, parent, inherited, escape, show) == Some(s)
    ensures var table := inherited + e.prefixes;
            var st := StartTag(e, parent, table, escape);
            && st.Some? && OpenName(e, table).Some?
            && |st.value| < |s| && s[..|st.value|] == st.value
            && (s[|st.value|] == '/' <==> e.children == [])
            && (e.children == [] ==> s == st.value + "/>")
            && (e.children != [] ==>
                  var close := "</" + OpenName(e, table).value + ">";
                  |close| <= |s| && s[|s| - |close|..] == close)
  {
    var table := inherited + e.prefixes;
    var st := StartTag(e, parent, table, escape).value;
    if e.children != [] {
      var inner := ChildrenText(e.children, e, table, escape, show).value;
      var close := "</" + CloseName(e, table).value + ">";
      assert s == st + (">" + inner) + close;
      assert s[|st|] == '>';
      assert CloseName(e, table) == OpenName(e, table);
    }
  }

  /* ---------------------------------------------------------------- */
  /* Examples                                                          */
  /* ---------------------------------------------------------------- */

  /** A new root in a namespace declares it and self-closes: `<a xmlns='urn:x'/>`. */
  lemma RootExample(escape: string -> string, show: Xml -> string)
    ensures Display(New("a", Some("urn:x"), []), escape, show) == Some("<a xmlns='urn:x'/>")
  {
    var e := New("a", Some("urn:x"), []);
    var table := map[] + e.prefixes;
    assert e.attributes == [];
    assert !HasXmlnsAttribute(e);
    assert XmlnsDecl(e, None) == " xmlns='" + "urn:x" + "'" == " xmlns='urn:x'";
    assert "<" + "a" + " xmlns='urn:x'" + [] == "<a xmlns='urn:x'";
    assert "<a xmlns='urn:x'" + "/>" == "<a xmlns='urn:x'/>";
  }

  /**
   * A child in a namespace the parent binds a prefix for uses that prefix,
   * and stays in the parent's (absent) default namespace:
   * `<a><p:c/></a>`.
   */
  lemma InheritedPrefixExample(escape: string -> string, show: Xml -> string)
    ensures var c := Element("c", Some("urn:p"), [], [], map[], None);
            var a := Element("a", None, [], [ElementNode(c)], map["urn:p" := "p"], None);
            Display(a, escape, show) == Some("<a><p:c/></a>")
  {
    var c := Element("c", Some("urn:p"), [], [], map[], None);
    var table: PrefixTable := map["urn:p" := "p"];
    assert map[] + table == table;
    assert table + c.prefixes == table;
    var a := Element("a", None, [], [ElementNode(c)], table, None);
    assert !HasXmlnsAttribute(a) && !HasXmlnsAttribute(c);
    assert XmlnsDecl(c, Some(a)) == [] && XmlnsDecl(a, None) == [];
    assert NsText(c.ns) == "urn:p" && table["urn:p"] == "p";
    assert "p" + ":" + "c" == "p:c" && "<" + "p:c" + [] + [] == "<p:c" && "<p:c" + "/>" == "<p:c/>";
    assert Render(c, Some(a), table, escape, show) == Some("<p:c/>");
    assert ChildrenText([ElementNode(c)][1..], a, table, escape, show) == Some([]);
    assert "<p:c/>" + [] == "<p:c/>";
    assert ChildrenText([ElementNode(c)], a, table, escape, show) == Some("<p:c/>");
    assert "<" + "a" + [] + [] == "<a";
    assert "<a" + ">" + "<p:c/>" + "</" + "a" + ">" == "<a><p:c/></a>";
  }

  /**
   * An element with no namespace under a default namespace finds its
   * opening prefix under `""`, but its closing tag needs a namespace name:
   * it renders while it has no children and fails as soon as it has one.
   */
  lemma NoNamespaceCloseFails(escape: string -> string, show: Xml -> string)
    ensures var e := Element("a", None, [], [], map["" := "p"], Some("urn:d"));
            && Display(e, escape, show) == Some("<p:a xmlns='urn:d'/>")
            && Display(e.(children := [CommentNode("x")]), escape, show).None?
  {
    var e := Element("a", None, [], [], map["" := "p"], Some("urn:d"));
    var table: PrefixTable := map["" := "p"];
    assert map[] + e.prefixes == table;
    assert !HasXmlnsAttribute(e);
    assert NsText(e.ns) == [] && [] in table && table[[]] == "p";
    assert "p" + ":" + "a" == "p:a";
    assert XmlnsDecl(e, None) == " xmlns='" + "urn:d" + "'" == " xmlns='urn:d'";
    assert "<" + "p:a" + " xmlns='urn:d'" + [] == "<p:a xmlns='urn:d'";
    assert "<p:a xmlns='urn:d'" + "/>" == "<p:a xmlns='urn:d'/>";
  }
}
