/**
 * The structured-value serialiser of `src/element.rs` (`impl Serialize for
 * Element`): an element becomes a unit, a single guessed value, a sequence
 * of texts, or a map of its attributes, its element children grouped by
 * name, its comments (`_comment`) and its texts (`_body`).
 *
 * The groups are collected in a hash map and emitted in its iteration
 * order, which is unspecified; the specification `Serializes` therefore
 * accepts the groups in any order, at every level of the tree.
 */
module Serialization {
  import opened Wrappers
  import opened Strings
  import opened Attributes
  import opened Elements
  import opened TypeGuessing
  import opened Literals

  /** `map_collect`: appends `v` to the vector stored under `k`, creating it when absent. */
  method MapCollect<K(==), V>(m: map<K, seq<V>>, k: K, v: V) returns (r: map<K, seq<V>>)
    ensures r.Keys == m.Keys + {k}
    ensures r[k] == (if k in m then m[k] else []) + [v]
    ensures forall k' :: k' in m && k' != k ==> r[k'] == m[k']
  {
    if k in m {
      r := m[k := m[k] + [v]];
    } else {
      r := m[k := [v]];
    }
  }

  /* ---------------------------------------------------------------- */
  /* What the serialiser gathers from the children                     */
  /* ---------------------------------------------------------------- */

  /** The element children named `n`, in document order (whatever their namespace). */
  function Group(cs: seq<Xml>, n: string): (g: seq<Element>)
    ensures forall el :: el in g ==> ElementNode(el) in cs && el.name == n
  {
    if cs == [] then []
    else
      var x := cs[|cs| - 1];
      Group(cs[..|cs| - 1], n) + (if x.ElementNode? && x.elem.name == n then [x.elem] else [])
  }

  /** The names of the element children. */
  function ElementNames(cs: seq<Xml>): set<string> {
    if cs == [] then {}
    else
      var x := cs[|cs| - 1];
      ElementNames(cs[..|cs| - 1]) + (if x.ElementNode? then {x.elem.name} else {})
  }

  /** The comments, in document order. */
  function Comments(cs: seq<Xml>): seq<string> {
    if cs == [] then []
    else
      var x := cs[|cs| - 1];
      Comments(cs[..|cs| - 1]) + (if x.CommentNode? then [x.data] else [])
  }

  /** The character data, each piece trimmed, the pieces empty after trimming dropped. */
  function Texts(cs: seq<Xml>): seq<string> {
    if cs == [] then []
    else
      var x := cs[|cs| - 1];
      Texts(cs[..|cs| - 1]) + (if x.CharacterNode? && Trim(x.data) != [] then [Trim(x.data)] else [])
  }

  /** A name has a group exactly when some element child carries it. */
  lemma {:induction false} GroupNonEmpty(cs: seq<Xml>, n: string)
    ensures n in ElementNames(cs) <==> Group(cs, n) != []
  {
    if cs != [] {
      GroupNonEmpty(cs[..|cs| - 1], n);
    }
  }

  /** Strings emitted as string values. */
  function Strs(items: seq<string>): (r: seq<Value>)
    ensures |r| == |items| && forall i :: 0 <= i < |items| ==> r[i] == Str(items[i])
  {
    seq(|items|, i requires 0 <= i < |items| => Str(items[i]))
  }

  /** The singular/plural rule of `_comment` and `_body`: nothing, one string, or a sequence of them. */
  function SingleOrSeq(key: string, items: seq<string>): seq<(string, Value)> {
    if |items| == 0 then []
    else if |items| == 1 then [(key, Str(items[0]))]
    else [(key, Seq(Strs(items)))]
  }

  /** The entries the attributes contribute, in attribute order; an attribute's namespace is dropped. */
  function AttrEntries(a: seq<(AttrKey, string)>): seq<(string, Value)> {
    if a == [] then []
    else AttrEntries(a[..|a| - 1]) + TypeGuess(a[|a| - 1].0.name, a[|a| - 1].1)
  }

  const CommentKey := "_comment"
  const BodyKey := "_body"

  /** The trailing `_comment` and `_body` entries of an element's map. */
  function TailEntries(cs: seq<Xml>): seq<(string, Value)> {
    SingleOrSeq(CommentKey, Comments(cs)) + SingleOrSeq(BodyKey, Texts(cs))
  }

  /* ---------------------------------------------------------------- */
  /* Specification                                                     */
  /* ---------------------------------------------------------------- */

  /**
   * `v` is a serialisation of `e`:
   *  - no attributes and no children give a unit;
   *  - with no attributes, no element children and no comments, one text
   *    is type-guessed and any other number of texts gives a sequence of
   *    strings;
   *  - otherwise a map: the attribute entries, then one entry per child
   *    name in some order, then `_comment` and `_body`.
   * CDATA sections and processing instructions contribute nothing.
   */
  ghost predicate Serializes(e: Element, v: Value)
    decreases e, 3
  {
    var cs := e.children;
    if e.attributes == [] && cs == [] then v == Unit
    else if ElementNames(cs) == {} && Comments(cs) == [] && e.attributes == [] then
      var texts := Texts(cs);
      v == (if |texts| == 1 then TypeGuessVal(texts[0]) else Seq(Strs(texts)))
    else
      v.Map? && MapEntriesOk(e, v.entries)
  }

  ghost predicate MapEntriesOk(e: Element, entries: seq<(string, Value)>)
    decreases e, 2
  {
    var a := AttrEntries(e.attributes);
    var tail := TailEntries(e.children);
    |a| + |tail| <= |entries|
    && entries[..|a|] == a
    && entries[|entries| - |tail|..] == tail
    && GroupEntriesOk(e, entries[|a|..|entries| - |tail|], ElementNames(e.children))
  }

  /**
   * `g` holds one entry per name in `names` and no other: its last entry
   * carries one of the names with that name's group serialised, and the
   * entries before it do the same for the remaining names.
   */
  ghost predicate GroupEntriesOk(e: Element, g: seq<(string, Value)>, names: set<string>)
    decreases e, 1, |g|
  {
    if g == [] then names == {}
    else
      var last := g[|g| - 1];
      && last.0 in names
      && GroupValueOk(e, last.0, last.1)
      && GroupEntriesOk(e, g[..|g| - 1], names - {last.0})
  }

  /** A group of one is serialised as that child; a larger group as the sequence of its children's serialisations. */
  ghost predicate GroupValueOk(e: Element, n: string, v: Value)
    decreases e, 0
  {
    var group := Group(e.children, n);
    if |group| == 1 then
      assert ElementNode(group[0]) in e.children;
      Serializes(group[0], v)
    else
      v.Seq? && |v.items| == |group|
      && forall k :: 0 <= k < |group| ==>
           assert ElementNode(group[k]) in e.children;
           Serializes(group[k], v.items[k])
  }

  /* ---------------------------------------------------------------- */
  /* The serialiser                                                    */
  /* ---------------------------------------------------------------- */

  /** `Element::serialize`. */
  method Serialize(e: Element) returns (v: Value)
    ensures Serializes(e, v)
    decreases e, 5
  {
    var cs := e.children;
    if |e.attributes| == 0 && |cs| == 0 {
      return Unit;
    }
    var elements: map<string, seq<Element>>, comments, texts := Collect(cs);
    assert |elements| == |ElementNames(cs)|;
    if |elements| == 0 && |comments| == 0 && |e.attributes| == 0 {
      if |texts| == 1 {
        v := TypeGuessVal(texts[0]);
      } else {
        v := Seq(Strs(texts));
      }
      SerializesTextsOnly(e, v);
      return;
    }

    var attrEntries := SerializeAttributes(e.attributes);
    var groupEntries := SerializeGroups(e, elements);
    var tail := SerializeTrailer(comments, texts);
    var entries := attrEntries + groupEntries + tail;
    SerializesMap(e, attrEntries, groupEntries, tail);
    v := Map(entries);
  }

  /** The loop over the attributes: each one is type-guessed under its local name. */
  method SerializeAttributes(attrs: seq<(AttrKey, string)>) returns (entries: seq<(string, Value)>)
    ensures entries == AttrEntries(attrs)
  {
    entries := [];
    for i := 0 to |attrs|
      invariant entries == AttrEntries(attrs[..i])
    {
      assert attrs[..i + 1][..i] == attrs[..i];
      entries := entries + TypeGuess(attrs[i].0.name, attrs[i].1);
    }
    assert attrs[..|attrs|] == attrs;
  }

  /** The `_comment` and `_body` entries, each absent, singular or plural. */
  method SerializeTrailer(comments: seq<string>, texts: seq<string>) returns (tail: seq<(string, Value)>)
    ensures tail == SingleOrSeq(CommentKey, comments) + SingleOrSeq(BodyKey, texts)
  {
    tail := [];
    if |comments| == 1 {
      tail := tail + [(CommentKey, Str(comments[0]))];
    } else if |comments| > 1 {
      tail := tail + [(CommentKey, Seq(Strs(comments)))];
    }
    if |texts| == 1 {
      tail := tail + [(BodyKey, Str(texts[0]))];
    } else if |texts| > 1 {
      tail := tail + [(BodyKey, Seq(Strs(texts)))];
    }
  }

  /** With no attributes, no element children and no comments, the texts alone decide. */
  lemma SerializesTextsOnly(e: Element, v: Value)
    requires e.attributes == [] && e.children != []
    requires ElementNames(e.children) == {} && Comments(e.children) == []
    ensures var texts := Texts(e.children);
            Serializes(e, v) <==> v == (if |texts| == 1 then TypeGuessVal(texts[0]) else Seq(Strs(texts)))
  {
  }

  lemma SerializesMap(e: Element, a: seq<(string, Value)>, g: seq<(string, Value)>, tail: seq<(string, Value)>)
    requires e.attributes != [] || ElementNames(e.children) != {} || Comments(e.children) != []
    requires a == AttrEntries(e.attributes) && tail == TailEntries(e.children)
    requires GroupEntriesOk(e, g, ElementNames(e.children))
    ensures Serializes(e, Map(a + g + tail))
  {
    MapEntriesFromParts(e, a, g, tail);
  }

  /** `elements`, `comments` and `texts` hold what the serialiser gathers from `cs`. */
  ghost predicate Gathered(cs: seq<Xml>, elements: map<string, seq<Element>>, comments: seq<string>, texts: seq<string>) {
    && elements.Keys == ElementNames(cs)
    && (forall n :: n in elements ==> elements[n] == Group(cs, n))
    && comments == Comments(cs)
    && texts == Texts(cs)
  }

  /** The loop over the children that fills the groups, the comments and the texts. */
  method Collect(cs: seq<Xml>) returns (elements: map<string, seq<Element>>, comments: seq<string>, texts: seq<string>)
    ensures elements.Keys == ElementNames(cs)
    ensures forall n :: n in elements ==> elements[n] == Group(cs, n)
    ensures comments == Comments(cs)
    ensures texts == Texts(cs)
  {
    elements, comments, texts := map[], [], [];
    for i := 0 to |cs|
      invariant Gathered(cs[..i], elements, comments, texts)
    {
      assert cs[..i + 1] == cs[..i] + [cs[i]];
      elements, comments, texts := CollectChild(cs[..i], cs[i], elements, comments, texts);
    }
    assert cs[..|cs|] == cs;
  }

  /** The body of the loop over the children: one child is sorted into its place. */
  method CollectChild(ghost done: seq<Xml>, x: Xml, elements: map<string, seq<Element>>, comments: seq<string>, texts: seq<string>)
    returns (elements': map<string, seq<Element>>, comments': seq<string>, texts': seq<string>)
    requires Gathered(done, elements, comments, texts)
    ensures Gathered(done + [x], elements', comments', texts')
  {
    GatheringStep(done, x);
    elements', comments', texts' := elements, comments, texts;
    match x {
      case ElementNode(el) =>
        GroupNonEmpty(done, el.name);
        elements' := MapCollect(elements, el.name, el);
      case CommentNode(c) =>
        comments' := comments + [c];
      case CharacterNode(text) =>
        var t := Trim(text);
        if t != [] {
          texts' := texts + [t];
        }
      case _ =>
    }
  }

  /** How each gathered quantity grows by one child. */
  lemma GatheringStep(cs: seq<Xml>, x: Xml)
    ensures ElementNames(cs + [x]) == ElementNames(cs) + (if x.ElementNode? then {x.elem.name} else {})
    ensures Comments(cs + [x]) == Comments(cs) + (if x.CommentNode? then [x.data] else [])
    ensures Texts(cs + [x]) == Texts(cs) + (if x.CharacterNode? && Trim(x.data) != [] then [Trim(x.data)] else [])
    ensures forall n :: Group(cs + [x], n) == Group(cs, n) + (if x.ElementNode? && x.elem.name == n then [x.elem] else [])
  {
    assert (cs + [x])[..|cs|] == cs;
  }

  /** The loop over the groups, in the hash map's (unspecified) order. */
  method SerializeGroups(e: Element, elements: map<string, seq<Element>>) returns (g: seq<(string, Value)>)
    requires elements.Keys == ElementNames(e.children)
    requires forall n :: n in elements ==> elements[n] == Group(e.children, n)
    ensures GroupEntriesOk(e, g, ElementNames(e.children))
    decreases e, 4
  {
    g := [];
    var remaining := elements.Keys;
    ghost var done: set<string> := {};
    while remaining != {}
      invariant remaining <= elements.Keys && done == elements.Keys - remaining
      invariant GroupEntriesOk(e, g, done)
      decreases |remaining|
    {
      var key :| key in remaining;
      g := AppendGroup(e, g, done, key, elements[key]);
      remaining := remaining - {key};
      done := done + {key};
    }
    assert done == elements.Keys;
  }

  /** One round of the loop: the group of `key` is serialised and its entry appended. */
  method AppendGroup(e: Element, g: seq<(string, Value)>, ghost done: set<string>, key: string, vec: seq<Element>)
    returns (g': seq<(string, Value)>)
    requires GroupEntriesOk(e, g, done) && key !in done
    requires key in ElementNames(e.children) && vec == Group(e.children, key)
    ensures GroupEntriesOk(e, g', done + {key})
    decreases e, 3
  {
    GroupNonEmpty(e.children, key);
    var value := SerializeGroup(e, key, vec);
    GroupEntriesStep(e, g, done, key, value);
    g' := g + [(key, value)];
  }

  lemma GroupEntriesStep(e: Element, g: seq<(string, Value)>, done: set<string>, key: string, value: Value)
    requires GroupEntriesOk(e, g, done) && key !in done && GroupValueOk(e, key, value)
    ensures GroupEntriesOk(e, g + [(key, value)], done + {key})
  {
    assert (g + [(key, value)])[..|g|] == g;
    assert done + {key} - {key} == done;
  }

  /** The group entries name every name exactly once, each with its group's serialisation. */
  lemma {:induction false} GroupEntriesFacts(e: Element, g: seq<(string, Value)>, names: set<string>)
    requires GroupEntriesOk(e, g, names)
    ensures |g| == |names|
    ensures forall i :: 0 <= i < |g| ==> g[i].0 in names && GroupValueOk(e, g[i].0, g[i].1)
    ensures forall i, j :: 0 <= i < j < |g| ==> g[i].0 != g[j].0
    decreases |g|
  {
    if g != [] {
      var init, last := g[..|g| - 1], g[|g| - 1];
      GroupEntriesFacts(e, init, names - {last.0});
      assert forall i :: 0 <= i < |init| ==> g[i] == init[i];
    }
  }

  /** One group: a single child as itself, several as a sequence. */
  method SerializeGroup(e: Element, key: string, vec: seq<Element>) returns (value: Value)
    requires vec == Group(e.children, key) && vec != []
    ensures GroupValueOk(e, key, value)
    decreases e, 2
  {
    if |vec| == 1 {
      assert ElementNode(vec[0]) in e.children;
      value := Serialize(vec[0]);
    } else {
      var items := SerializeEach(e, vec);
      value := Seq(items);
    }
  }

  /** The serialisations of the children in `vec`, one after another. */
  method SerializeEach(e: Element, vec: seq<Element>) returns (items: seq<Value>)
    requires forall el :: el in vec ==> ElementNode(el) in e.children
    ensures |items| == |vec|
    ensures forall j :: 0 <= j < |vec| ==> Serializes(vec[j], items[j])
    decreases e, 1
  {
    items := [];
    for k := 0 to |vec|
      invariant |items| == k
      invariant forall j :: 0 <= j < k ==> Serializes(vec[j], items[j])
    {
      assert ElementNode(vec[k]) in e.children;
      var item := Serialize(vec[k]);
      items := items + [item];
    }
  }

  /* ---------------------------------------------------------------- */
  /* Properties                                                        */
  /* ---------------------------------------------------------------- */

  /** The unit value is produced exactly for an element with no attributes and no children. */
  lemma SerializesUnitIff(e: Element, v: Value)
    requires Serializes(e, v)
    ensures v == Unit <==> e.attributes == [] && e.children == []
  {
    var cs := e.children;
    if !(e.attributes == [] && cs == []) && ElementNames(cs) == {} && Comments(cs) == [] && e.attributes == [] {
      var texts := Texts(cs);
      if |texts| == 1 {
        var t := TypeGuessVal(texts[0]);
        assert t.U64? || t.Bool? || t.F32? || t.Str?;
      }
    }
  }

  /** A CDATA section or a processing instruction leaves everything the serialiser gathers unchanged. */
  lemma GatheringIgnores(cs: seq<Xml>, x: Xml)
    requires x.CDATANode? || x.PINode?
    ensures ElementNames(cs + [x]) == ElementNames(cs)
    ensures Comments(cs + [x]) == Comments(cs)
    ensures Texts(cs + [x]) == Texts(cs)
    ensures forall n :: Group(cs + [x], n) == Group(cs, n)
  {
    GatheringStep(cs, x);
  }

  /** Appending a CDATA section or a processing instruction to a non-empty element changes nothing. */
  lemma IgnoredChildren(e: Element, x: Xml, v: Value)
    requires x.CDATANode? || x.PINode?
    requires e.attributes != [] || e.children != []
    ensures Serializes(e.(children := e.children + [x]), v) <==> Serializes(e, v)
  {
    var e' := e.(children := e.children + [x]);
    GatheringIgnores(e.children, x);
    assert TailEntries(e'.children) == TailEntries(e.children);
    if v.Map? {
      SameGatheringSameMaps(e, e', v.entries);
    }
  }

  /**
   * The exception: on an element with no attributes and no children, a
   * CDATA section or a processing instruction still counts as a child, so
   * the unit becomes the empty sequence.
   */
  lemma IgnoredChildOfEmpty(e: Element, x: Xml, v: Value)
    requires x.CDATANode? || x.PINode?
    requires e.attributes == [] && e.children == []
    ensures Serializes(e, v) <==> v == Unit
    ensures Serializes(e.(children := [x]), v) <==> v == Seq([])
  {
    var e' := e.(children := [x]);
    GatheringIgnores([], x);
    assert [] + [x] == e'.children;
    SerializesTextsOnly(e', v);
    assert Strs([]) == [];
  }

  /** Two elements with the same attributes that gather the same from their children accept the same maps. */
  lemma SameGatheringSameMaps(e: Element, e': Element, en: seq<(string, Value)>)
    requires e'.attributes == e.attributes
    requires ElementNames(e'.children) == ElementNames(e.children)
    requires TailEntries(e'.children) == TailEntries(e.children)
    requires forall n :: Group(e'.children, n) == Group(e.children, n)
    ensures MapEntriesOk(e', en) <==> MapEntriesOk(e, en)
  {
    if MapEntriesOk(e, en) {
      SameGatheringMap(e, e', en);
    }
    if MapEntriesOk(e', en) {
      SameGatheringMap(e', e, en);
    }
  }

  lemma SameGatheringMap(e: Element, e': Element, en: seq<(string, Value)>)
    requires e'.attributes == e.attributes
    requires ElementNames(e'.children) == ElementNames(e.children)
    requires TailEntries(e'.children) == TailEntries(e.children)
    requires forall n :: Group(e'.children, n) == Group(e.children, n)
    requires MapEntriesOk(e, en)
    ensures MapEntriesOk(e', en)
  {
    var g := MapEntriesParts(e, en);
    SameGatheringGroups(e, e', g, ElementNames(e.children));
    MapEntriesFromParts(e', AttrEntries(e.attributes), g, TailEntries(e.children));
  }

  /** The entries of an accepted map split into the attribute entries, the group entries and the tail. */
  lemma MapEntriesParts(e: Element, en: seq<(string, Value)>) returns (g: seq<(string, Value)>)
    requires MapEntriesOk(e, en)
    ensures en == AttrEntries(e.attributes) + g + TailEntries(e.children)
    ensures GroupEntriesOk(e, g, ElementNames(e.children))
  {
    var a, tail := AttrEntries(e.attributes), TailEntries(e.children);
    g := en[|a|..|en| - |tail|];
    assert en == en[..|a|] + g + en[|en| - |tail|..];
  }

  /** The attribute entries, group entries for every name and the tail make an accepted map. */
  lemma MapEntriesFromParts(e: Element, a: seq<(string, Value)>, g: seq<(string, Value)>, tail: seq<(string, Value)>)
    requires a == AttrEntries(e.attributes) && tail == TailEntries(e.children)
    requires GroupEntriesOk(e, g, ElementNames(e.children))
    ensures MapEntriesOk(e, a + g + tail)
  {
    var entries := a + g + tail;
    assert entries[..|a|] == a;
    assert entries[|entries| - |tail|..] == tail;
    assert entries[|a|..|entries| - |tail|] == g;
  }

  lemma {:induction false} SameGatheringGroups(e: Element, e': Element, g: seq<(string, Value)>, names: set<string>)
    requires forall n :: Group(e'.children, n) == Group(e.children, n)
    requires GroupEntriesOk(e, g, names)
    ensures GroupEntriesOk(e', g, names)
    decreases |g|
  {
    if g != [] {
      var last := g[|g| - 1];
      assert Group(e'.children, last.0) == Group(e.children, last.0);
      SameGatheringGroups(e, e', g[..|g| - 1], names - {last.0});
    }
  }

  /** Whitespace-only text in an otherwise empty element gives an empty sequence, not a unit. */
  lemma BlankTextGivesEmptySeq(e: Element, d: string, v: Value)
    requires e.attributes == [] && e.children == [CharacterNode(d)] && AllWhitespace(d)
    ensures Serializes(e, v) <==> v == Seq([])
  {
    GatheringStep([], CharacterNode(d));
    assert [] + [CharacterNode(d)] == e.children;
    TrimSpec(d);
    SerializesTextsOnly(e, v);
    assert Strs([]) == [];
  }

  /** A lone text is type-guessed after trimming: `<a>  42 </a>` gives the number 42. */
  lemma LoneTextIsGuessed(e: Element, v: Value)
    requires e.attributes == [] && e.children == [CharacterNode("  42 ")]
    ensures Serializes(e, v) <==> v == U64(42)
  {
    GatheringStep([], CharacterNode("  42 "));
    assert [] + [CharacterNode("  42 ")] == e.children;
    TrimPaddedNumber();
    ParseSmallNumber();
    SerializesTextsOnly(e, v);
  }

  lemma TrimPaddedNumber()
    ensures Trim("  42 ") == "42"
  {
    SpaceAndDigits();
    TrimStartPadded();
    TrimEndPadded();
  }

  lemma SpaceAndDigits()
    ensures IsWhitespace(' ') && !IsWhitespace('4') && !IsWhitespace('2')
  {
  }

  lemma TrimStartPadded()
    ensures TrimStart("  42 ") == "42 "
  {
    SpaceAndDigits();
    assert "  42 "[1..] == " 42 " && " 42 "[1..] == "42 ";
  }

  lemma TrimEndPadded()
    ensures TrimEnd("42 ") == "42"
  {
    SpaceAndDigits();
    assert "42 "[..2] == "42";
  }

  lemma ParseSmallNumber()
    ensures TypeGuessVal("42") == U64(42)
  {
    assert "42"[..1] == "4" && "4"[..0] == [];
    assert DecimalValue("4") == 4;
    assert ParseU64("42") == Some(42);
  }

  /** An empty element named `n`. */
  predicate IsLeaf(el: Element, n: string) {
    el.name == n && el.attributes == [] && el.children == []
  }

  /**
   * `<a><b/><c/><b/></a>`: the two `b` children form one group serialised
   * as a sequence of two units, `c` is a unit, and the two groups may come
   * in either order.
   */
  lemma GroupingExample(a: Element, b: Element, c: Element, v: Value)
    requires IsLeaf(b, "b") && IsLeaf(c, "c")
    requires a.attributes == [] && a.children == [ElementNode(b), ElementNode(c), ElementNode(b)]
    ensures Serializes(a, v) <==>
              v == Map([("b", Seq([Unit, Unit])), ("c", Unit)]) || v == Map([("c", Unit), ("b", Seq([Unit, Unit]))])
  {
    GroupingExampleGathering(a.children, b, c);
    SerializesGroupsOnly(a, v);
    if v.Map? {
      GroupingExampleEntries(a, b, c, v.entries);
    }
  }

  /** Without attributes, comments or texts, but with element children, only the group entries remain. */
  lemma SerializesGroupsOnly(e: Element, v: Value)
    requires e.attributes == [] && ElementNames(e.children) != {}
    requires Comments(e.children) == [] && Texts(e.children) == []
    ensures Serializes(e, v) <==> v.Map? && GroupEntriesOk(e, v.entries, ElementNames(e.children))
  {
    assert TailEntries(e.children) == [] && AttrEntries(e.attributes) == [];
    if v.Map? {
      var g := v.entries;
      assert g[0..|g| - 0] == g && g[..0] == [] && g[|g|..] == [];
    }
  }

  lemma GroupingExampleEntries(a: Element, b: Element, c: Element, g: seq<(string, Value)>)
    requires IsLeaf(b, "b") && IsLeaf(c, "c")
    requires ElementNames(a.children) == {"b", "c"}
    requires Group(a.children, "b") == [b, b] && Group(a.children, "c") == [c]
    ensures GroupEntriesOk(a, g, {"b", "c"}) <==>
              g == [("b", Seq([Unit, Unit])), ("c", Unit)] || g == [("c", Unit), ("b", Seq([Unit, Unit]))]
  {
    GroupingExampleValues(a, b, c);
    if GroupEntriesOk(a, g, {"b", "c"}) {
      GroupingExampleOnlyOrders(a, g);
    }
    GroupingExampleBothOrders(a, [("b", Seq([Unit, Unit])), ("c", Unit)]);
    GroupingExampleBothOrders(a, [("c", Unit), ("b", Seq([Unit, Unit]))]);
  }

  lemma GroupingExampleOnlyOrders(a: Element, g: seq<(string, Value)>)
    requires forall w :: GroupValueOk(a, "b", w) <==> w == Seq([Unit, Unit])
    requires forall w :: GroupValueOk(a, "c", w) <==> w == Unit
    requires GroupEntriesOk(a, g, {"b", "c"})
    ensures g == [("b", Seq([Unit, Unit])), ("c", Unit)] || g == [("c", Unit), ("b", Seq([Unit, Unit]))]
  {
    GroupEntriesFacts(a, g, {"b", "c"});
    TwoNames();
    assert GroupValueOk(a, g[0].0, g[0].1) && GroupValueOk(a, g[1].0, g[1].1);
    assert g == [g[0], g[1]];
  }

  lemma TwoNames()
    ensures |{"b", "c"}| == 2 && "b" != "c"
  {
    assert "b"[0] != "c"[0];
  }

  lemma GroupingExampleBothOrders(a: Element, g: seq<(string, Value)>)
    requires forall w :: GroupValueOk(a, "b", w) <==> w == Seq([Unit, Unit])
    requires forall w :: GroupValueOk(a, "c", w) <==> w == Unit
    requires g == [("b", Seq([Unit, Unit])), ("c", Unit)] || g == [("c", Unit), ("b", Seq([Unit, Unit]))]
    ensures GroupEntriesOk(a, g, {"b", "c"})
  {
    TwoNames();
    assert GroupEntriesOk(a, [], {});
    GroupEntriesStep(a, [], {}, g[0].0, g[0].1);
    assert [] + [(g[0].0, g[0].1)] == [g[0]] && {} + {g[0].0} == {g[0].0};
    GroupEntriesStep(a, [g[0]], {g[0].0}, g[1].0, g[1].1);
    assert [g[0]] + [(g[1].0, g[1].1)] == g;
    assert {g[0].0} + {g[1].0} == {"b", "c"};
  }

  lemma LeafSerializes(el: Element, n: string, w: Value)
    requires IsLeaf(el, n)
    ensures Serializes(el, w) <==> w == Unit
  {
  }

  lemma GroupingExampleValues(a: Element, b: Element, c: Element)
    requires IsLeaf(b, "b") && IsLeaf(c, "c")
    requires Group(a.children, "b") == [b, b] && Group(a.children, "c") == [c]
    ensures forall w :: GroupValueOk(a, "b", w) <==> w == Seq([Unit, Unit])
    ensures forall w :: GroupValueOk(a, "c", w) <==> w == Unit
  {
    forall w
      ensures GroupValueOk(a, "b", w) <==> w == Seq([Unit, Unit])
    {
      PairGroupValue(a, b, w);
    }
    forall w
      ensures GroupValueOk(a, "c", w) <==> w == Unit
    {
      LeafSerializes(c, "c", w);
    }
  }

  lemma PairGroupValue(a: Element, b: Element, w: Value)
    requires IsLeaf(b, "b") && Group(a.children, "b") == [b, b]
    ensures GroupValueOk(a, "b", w) <==> w == Seq([Unit, Unit])
  {
    if w.Seq? && |w.items| == 2 {
      LeafSerializes(b, "b", w.items[0]);
      LeafSerializes(b, "b", w.items[1]);
      assert w == Seq([Unit, Unit]) <==> w.items[0] == Unit && w.items[1] == Unit;
    }
  }

  lemma GroupingExampleGathering(cs: seq<Xml>, b: Element, c: Element)
    requires IsLeaf(b, "b") && IsLeaf(c, "c")
    requires cs == [ElementNode(b), ElementNode(c), ElementNode(b)]
    ensures ElementNames(cs) == {"b", "c"} && Comments(cs) == [] && Texts(cs) == []
    ensures Group(cs, "b") == [b, b] && Group(cs, "c") == [c]
  {
    var p0: seq<Xml> := [];
    var p1 := p0 + [ElementNode(b)];
    var p2 := p1 + [ElementNode(c)];
    assert cs == p2 + [ElementNode(b)];
    GatheringStep(p0, ElementNode(b));
    GatheringStep(p1, ElementNode(c));
    GatheringStep(p2, ElementNode(b));
  }
}

