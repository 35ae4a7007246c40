# serde-stream-xml: the element tree, in Dafny

This project models the `Element` tree of the Rust crate serde-stream-xml
(`src/element.rs`) and proves properties of it. The model covers:

- **Elements and their children.** The `Xml` node kinds and the `Element`
  record. `Element::new` seeds the `xml` and `xmlns` prefix bindings.
  Attribute lookup, insertion and removal work on keys `(name, namespace)`.
  `tag`, `tag_stay`, `text`, `cdata`, `comment` and `pi` are in-place
  appends on an element held through `&mut`.
- **Queries.** The `ChildElements` iterator behind `get_children` and
  `get_child`. `content_str`.
- **The structured-value serialiser** (`impl Serialize for Element`).
  - `map_collect`.
  - The gathering loop over the children, which trims character data with
    `str::trim`.
  - The type guessers `type_guess` and `type_guess_val`. They need `bool`,
    `u64` and `f32` literal parsing, `str::split_whitespace` and
    `str::to_lowercase`. Neither trims: an attribute value reaches
    `type_guess` as written.
  - The map of attribute entries, child groups, `_comment` and `_body`.
- **The text renderer** `fmt_elem` and `Display for Element`. It handles
  namespace prefixes and `xmlns` declarations, and chooses between a
  self-closing tag and children followed by a closing tag.

Layout:

| file | module | what |
|---|---|---|
| `wrappers.dfy` | `Wrappers` | `Option` |
| `strings.dfy` | `Strings` | `char::is_whitespace`, `trim`, `split_whitespace`, ASCII `to_lowercase` |
| `literals.dfy` | `Literals` | `bool`, `u64` and `f32` literal parsing |
| `typeguess.dfy` | `TypeGuessing` | the emitted `Value` type, `type_guess`, `type_guess_val` |
| `attributes.dfy` | `Attributes` | the attribute map |
| `elements.dfy` | `Elements` | `Xml`, `Element`, `new`, queries, `ChildElements`, the `&mut` edits (class `MutableElement`) |
| `serialize.dfy` | `Serialization` | `map_collect` and the serialiser, with its specification `Serializes` |
| `render.dfy` | `Rendering` | `fmt_elem`, `Display` |

### How the source is represented

- **Immutable values.** `Element` and `Xml` are Dafny datatypes, because
  the Rust types are `Clone` values. Dafny's `==` on them compares all six
  fields, `prefixes` and `default_ns` included, like the derived
  `PartialEq`. The one difference is the attributes: here they are a
  sequence, so their order counts, while the derived `PartialEq` compares
  the `AttrMap` as a map and ignores order. No modelled operation compares
  whole elements.
- **In-place edits.** Class `MutableElement` holds the six fields and
  updates them. `Value()` is the element it currently holds.
- **Attributes.** They are modelled in the insertion-ordered configuration
  (an `IndexMap`) as an association list with distinct keys. A new key is
  appended, and an existing key keeps its slot. `remove` moves the last
  entry into the vacated slot, as `IndexMap::remove` does.
- **Serialiser output.** It is a `Value` datatype: unit, bool, u64, float,
  string, sequence, or map with its entries in emission order.
  - A float is kept as the literal it was parsed from.
  - The child groups come from a `HashMap`, so their order is unspecified.
    Method `Serialize` picks the next group nondeterministically.
    The relational specification `Serializes(e, v)` accepts the groups in
    any order at every level of the tree, and exactly one entry per name.
- **Rendering.** It is a function returning `Option<string>`.
  - `None` stands for the `expect("No namespace prefix bound")` panics and
    for the `unwrap` of the closing tag.
  - The formatter is modelled as infallible.

### Behaviour of the code worth knowing

- **Equality.** `Element` derives `PartialEq` over all six fields
  (src/element.rs:26), so two elements with the same name, namespace,
  attributes and children but different prefix bindings or default
  namespace are unequal.
- **Order of child groups.** The serialiser gathers element children in a
  `HashMap` keyed by name (src/element.rs:131) and emits the groups in that
  map's iteration order, so the model promises no order across groups.
  Within a group, document order holds.
- **CDATA.** The serialiser skips CDATA sections and processing
  instructions (`_ => continue`, src/element.rs:144): they add no name,
  comment or text (`GatheringIgnores`), and on an element that already has
  attributes or children they change nothing (`IgnoredChildren`). They
  still count as children for the unit test at src/element.rs:126, so on an
  otherwise empty element one turns the unit into the empty sequence
  (`IgnoredChildOfEmpty`).
- **Tag prefixes.** `fmt_elem` prefixes a tag exactly when the element's
  namespace differs from the element's own `default_ns`
  (src/element.rs:191).
- **`xmlns` declarations.** `fmt_elem` writes one at a root that has a
  default namespace, and below it where `default_ns` differs from the
  parent's `default_ns`, unless an attribute is named `xmlns`
  (src/element.rs:201-214).
- **Closing tag.** With no namespace but a default namespace, the opening
  tag looks its prefix up under `""` (src/element.rs:193), but the closing
  tag unwraps the absent namespace and panics (src/element.rs:239).
  `NoNamespaceCloseFails` exhibits this.
- **Type-guessing order.** `type_guess` tries bool, then u64, then f32.
  `type_guess_val` tries u64, then bool, then f32. No literal is both a
  bool and a number, so the order is immaterial, and
  `TypeGuessAgreesWithVal` proves that the two guessers agree.
- **Duplicate attributes in `new`.** Collecting the triples
  (src/element.rs:296-299) lets a later duplicate override an earlier one,
  as `FromTriples` states.

### Functions characterised by lemmas

These functions only compute; their properties are the contracts of the
lemmas and methods listed beside them, each of which has a row under
"## Model".

| function | source | characterised by |
|---|---|---|
| `Rendering.Render` | src/element.rs:181-248 | `RenderSomeIff`, `MoreBindingsStillResolve`, `OpeningTag`, `XmlnsDeclRule`, `SelfClosingRule`, `InheritedPrefixExample`, `NoNamespaceCloseFails` |
| `Rendering.Display` | src/element.rs:250-254 | `DisplaySomeIff`, `RootExample` |
| `TypeGuessing.TypeGuess` | src/element.rs:64-97 | `TypeGuessSpec`, `TypeGuessAgreesWithVal`, `NumberWithUnitSplits`, `WordWithUnitStaysText` and the examples |
| `TypeGuessing.TypeGuessVal` | src/element.rs:99-110 | `TypeGuessValSpec`, `SpacedTextIsPlain`, `Serialization.LoneTextIsGuessed` |
| `Elements.Content` | src/element.rs:312-322 | `ContentStr` (the loop is proved to compute it), `NodesContentAppend` |

## Model

| member | source | states |
|---|---|---|
| Attributes.Get | src/element.rs:326-330 | the lookup yields nothing exactly when no entry has the key, and otherwise the value stored under it |
| Attributes.Set | src/element.rs:334-341 | after `insert` the key maps to the new value and every other key keeps its value; a new key is appended and an existing key keeps its position |
| Attributes.Remove | src/element.rs:345-348 | after `remove` the key is absent and every other key keeps its value; nothing changes for an absent key, otherwise the map shrinks by one and the last entry takes the removed key's position, every other entry staying where it was |
| Attributes.RemoveUndoesSet | src/element.rs:334-348 | removing a freshly inserted key gives back the original map |
| Attributes.SetStoredValue | src/element.rs:334-341 | re-inserting the value a key already has changes nothing |
| Attributes.FromTriples | src/element.rs:296-299 | collecting `(name, ns, value)` triples maps every key to the value of its last triple |
| Attributes.FromDistinctTriples | src/element.rs:453-471 | triples with distinct keys are stored in their given order, key and value alike |
| Elements.New | src/element.rs:282-309 | a new element has the given name and namespace, that namespace as default, no children, exactly the `xml` and `xmlns` bindings, and the attributes of the triples |
| Elements.GetAttribute | src/element.rs:326-330 | `get_attribute` is nothing exactly when no attribute has that name and namespace, and otherwise its value |
| Elements.NodesContentAppend | src/element.rs:312-322 | one more child adds exactly that child's text to the content |
| Elements.ContentStr | src/element.rs:312-322 | the loop accumulates exactly `Content(e)`: character and CDATA data in document order, recursing into elements, skipping comments and PIs |
| Elements.Matching | src/element.rs:263-277 | every match has the wanted name and namespace, and there are no more matches than children |
| Elements.MatchingMembers | src/element.rs:263-277 | an element is a match exactly when it is a child with that name and namespace |
| Elements.FirstMatchIsEarliest | src/element.rs:352-354 | the first match is a matching child with no matching child before it |
| Elements.ChildElements.constructor | src/element.rs:358-368 | `get_children` starts an iterator over all the children with the wanted name and namespace |
| Elements.ChildElements.Next | src/element.rs:266-276 | `next` yields the first remaining match and consumes the children up to it; yielding nothing means nothing is left |
| Elements.CollectChildren | src/element.rs:358-368 | draining the iterator yields exactly the matching children in document order |
| Elements.GetChild | src/element.rs:352-354 | `get_child` is nothing exactly when there is no match, and otherwise the first match |
| Elements.GetChildrenExample | src/element.rs:432-451 | in `<a><b/><c/><b/></a>` looking up `b` finds both `b` children |
| Elements.MutableElement.constructor | src/element.rs:282-309 | the object holds `Element::new`'s element |
| Elements.MutableElement.SetAttribute | src/element.rs:334-341 | returns the previous value; the attributes become the inserted map and no other field changes |
| Elements.MutableElement.RemoveAttribute | src/element.rs:345-348 | returns the previous value; the attributes become the map without the key and no other field changes |
| Elements.MutableElement.Tag | src/element.rs:371-377 | appends the element as the last child, changes nothing else, and returns the element just appended |
| Elements.MutableElement.TagStay | src/element.rs:380-383 | appends the element as the last child, changes nothing else, and returns the parent |
| Elements.MutableElement.Text | src/element.rs:386-389 | appends one character node, changes nothing else, and returns the parent |
| Elements.MutableElement.Cdata | src/element.rs:392-395 | appends one CDATA node, changes nothing else, and returns the parent |
| Elements.MutableElement.Comment | src/element.rs:398-401 | appends one comment node, changes nothing else, and returns the parent |
| Elements.MutableElement.Pi | src/element.rs:404-407 | appends one processing-instruction node, changes nothing else, and returns the parent |
| Literals.ParseBool | src/element.rs:70-73 | a bool is parsed exactly from `true` and `false`, and is true exactly for `true` |
| Literals.ParseU64 | src/element.rs:74-77 | a parsed u64 fits in 64 bits and comes from non-empty text without a minus sign |
| Literals.ParseU64Accepted | src/element.rs:74-77 | whatever the u64 parser accepts is a non-empty run of ASCII digits, possibly after a `+`, and the result is its decimal value; all other text is rejected |
| Literals.ParseU64OfDigits | src/element.rs:74-77 | every non-empty digit string, leading zeros included, with or without `+`, parses to its decimal value when that fits in 64 bits and is rejected otherwise |
| Literals.ParseU64Overflow | src/element.rs:74-77 | the spelling of a number above the 64-bit maximum is rejected, with or without `+` |
| Literals.ParseU64Examples | src/element.rs:74-77 | `"007"` is 7, `"+0"` is 0, and `"-0"`, `"abc"` and the empty text are rejected |
| Literals.DecimalRoundTrip | src/element.rs:74-77 | the value of a number's decimal spelling is that number |
| Literals.ParseU64OfDecimal | src/element.rs:74-77 | every 64-bit value is parsed back from its decimal spelling, with or without `+` |
| Literals.U64IsFloat | src/element.rs:74-81 | every literal the u64 parser accepts is also a float literal |
| Strings.TrimStartSpec | src/element.rs:139 | the start-trimmed text is a suffix, what it drops is whitespace, and it does not start with whitespace |
| Strings.TrimEndSpec | src/element.rs:139 | the end-trimmed text is a prefix, what it drops is whitespace, and it does not end with whitespace |
| Strings.TrimSpec | src/element.rs:139-141 | trimming gives the empty text exactly for all-whitespace input, and otherwise a text starting and ending with non-whitespace |
| Strings.SplitGivesWords | src/element.rs:84 | every piece of `split_whitespace` is non-empty and free of whitespace |
| Strings.SplitJoin | src/element.rs:84 | splitting words with any non-empty whitespace between neighbours and any whitespace before and after gives back the words |
| Strings.SplitDecomposes | src/element.rs:84 | every text is whitespace, then the pieces of `split_whitespace` each followed by whitespace (non-empty between two pieces), so the pieces are exactly the maximal non-whitespace runs |
| Strings.SplitTwoWords | src/element.rs:84-85 | two words with any whitespace between them and around them split into exactly those two words |
| Strings.ToLower | src/element.rs:87 | lower-casing keeps the length, maps each character through the ASCII rule, and leaves no upper-case ASCII letter |
| TypeGuessing.TypeGuessValSpec | src/element.rs:99-110 | `type_guess_val` tries u64, then bool, then f32, and otherwise keeps the text; the first parser that accepts decides |
| TypeGuessing.TypeGuessSpec | src/element.rs:64-97 | `type_guess` emits one entry under the key with the single guessed value, or two entries (number, lower-cased unit under `key_unit`) exactly for unparsed text with two tokens the first of which is a float |
| TypeGuessing.TypeGuessAgreesWithVal | src/element.rs:64-110 | the two guessers agree, except for the unit split, which only happens to text `type_guess_val` keeps as a string |
| TypeGuessing.NumberWithUnitSplits | src/element.rs:83-91 | a float literal and a unit, with any whitespace between and around them, always split into the number and the lower-cased unit |
| TypeGuessing.WordWithUnitStaysText | src/element.rs:83-96 | two words of which the first is not a float, however separated, stay one string entry with the text unchanged |
| TypeGuessing.SpacedTextIsPlain | src/element.rs:99-110 | text holding whitespace is kept as a string by `type_guess_val` |
| TypeGuessing.U64HasNoSpace | src/element.rs:74 | the u64 parser rejects text holding whitespace |
| TypeGuessing.FloatLiteralHasNoSpace | src/element.rs:78 | the f32 parser rejects text holding whitespace |
| TypeGuessing.FloatDigits | src/element.rs:78-81 | every non-empty digit string is a float literal |
| TypeGuessing.TypeGuessFloatExample | src/element.rs:496-505 | `"42.5"` under `dose` is one float entry |
| TypeGuessing.TypeGuessUnitExample | src/element.rs:507-517 | `"200 MG"` gives the float 200 under the key and the unit `"mg"` under `key_unit` |
| TypeGuessing.TypeGuessWideSeparatorExample | src/element.rs:83-91 | `"200  MG"` and `"200\tMG"` both split into the float 200 and the unit `"mg"` |
| TypeGuessing.TypeGuessPaddedExample | src/element.rs:83-91 | `" 200 MG "` splits into the float 200 and the unit `"mg"` |
| TypeGuessing.UntrimmedValueExample | src/element.rs:64-97 | an attribute value is not trimmed: `" 42"` stays the string `" 42"` |
| TypeGuessing.TypeGuessStringExample | src/element.rs:519-528 | `"Aspirin"` stays one string entry |
| TypeGuessing.TypeGuessRejectedUnitExample | src/element.rs:542-551 | `"abc MG"` stays one string entry with the text unchanged |
| Serialization.MapCollect | src/element.rs:44-50 | `map_collect` adds the key, appends the value to its vector (starting a new one when absent), and leaves every other key's vector unchanged |
| Serialization.Group | src/element.rs:131-136 | every member of a name's group is an element child with that name |
| Serialization.GroupNonEmpty | src/element.rs:131-136 | a name has a (non-empty) group exactly when some element child carries it |
| Serialization.Collect | src/element.rs:131-146 | the loop gathers exactly the groups by name, the comments and the non-empty trimmed texts of the children |
| Serialization.CollectChild | src/element.rs:134-145 | one round of the loop extends what was gathered by exactly one child |
| Serialization.GatheringStep | src/element.rs:134-145 | how names, comments, texts and each group grow by one child |
| Serialization.Serialize | src/element.rs:114-179 | the serialiser's output satisfies `Serializes`: unit, guessed lone text, sequence of texts, or the map of attribute entries, group entries and trailer |
| Serialization.SerializeAttributes | src/element.rs:155-157 | the attribute loop emits the type-guessed entries of every attribute, in attribute order |
| Serialization.SerializeTrailer | src/element.rs:166-175 | `_comment` and `_body` are each absent, a single string, or a sequence of strings |
| Serialization.SerializeGroups | src/element.rs:159-165 | the group loop emits one entry per child name, each with its group's serialisation |
| Serialization.AppendGroup | src/element.rs:159-165 | one round of the group loop adds the entry of a name not yet emitted |
| Serialization.SerializeGroup | src/element.rs:160-164 | a group of one is serialised as that child, a larger group as the sequence of its children's serialisations |
| Serialization.SerializeEach | src/element.rs:163 | the children of a group are serialised one by one, in document order |
| Serialization.GroupEntriesStep | src/element.rs:159-165 | appending the entry of a new name keeps the group entries valid for the larger set of names |
| Serialization.GroupEntriesFacts | src/element.rs:159-165 | the group entries hold each child name exactly once, with that name's group serialised |
| Serialization.SerializesTextsOnly | src/element.rs:147-152 | with no attributes, element children or comments, one text is type-guessed and any other number gives the sequence of texts |
| Serialization.SerializesMap | src/element.rs:153-177 | attribute entries, group entries and trailer make an accepted map |
| Serialization.SerializesUnitIff | src/element.rs:126-128 | the unit value comes exactly from an element with no attributes and no children |
| Serialization.GatheringIgnores | src/element.rs:144 | a CDATA section or processing instruction adds no name, group, comment or text |
| Serialization.IgnoredChildren | src/element.rs:134-146 | appending a CDATA section or a processing instruction to a non-empty element leaves its serialisations unchanged |
| Serialization.IgnoredChildOfEmpty | src/element.rs:126-152 | an element with no attributes and no children serialises only as unit, but with one CDATA section or processing instruction added it serialises only as the empty sequence |
| Serialization.BlankTextGivesEmptySeq | src/element.rs:138-152 | an element holding only whitespace text serialises as the empty sequence, not as unit |
| Serialization.LoneTextIsGuessed | src/element.rs:138-150 | `<a>  42 </a>` serialises as the number 42: the text is trimmed and then type-guessed |
| Serialization.SerializesGroupsOnly | src/element.rs:153-165 | with element children only, the serialisations are exactly the maps of valid group entries |
| Serialization.GroupingExample | src/element.rs:131-165 | `<a><b/><c/><b/></a>` serialises as `b` with two units and `c` with one unit, in either order and no other way |
| Serialization.LeafSerializes | src/element.rs:126-128 | an empty element serialises only as unit |
| Rendering.AttrsTextSomeIff | src/element.rs:217-225 | the attributes render exactly when every namespaced one has its prefix bound |
| Rendering.StartTagSomeIff | src/element.rs:190-225 | the opening tag renders exactly when its own prefix (if needed) and its attributes' prefixes are bound |
| Rendering.RenderSomeIff | src/element.rs:181-248 | rendering succeeds exactly when every needed prefix of the element and its descendants is bound in the table in force there; the parent plays no part |
| Rendering.ChildrenTextSomeIff | src/element.rs:231-236 | the children render exactly when every element child does, with the table extended by the parent's bindings |
| Rendering.DisplaySomeIff | src/element.rs:250-254 | `Display` succeeds exactly when every prefix the tree needs is bound by the tree itself, starting from no bindings |
| Rendering.MoreBindingsStillResolve | src/element.rs:187-188 | binding more prefixes above an element never makes its rendering fail |
| Rendering.OpeningTag | src/element.rs:190-215 | the text opens with the name, prefixed by the prefix bound for its namespace exactly when the namespace differs from the default one, then the declaration if any |
| Rendering.XmlnsDeclRule | src/element.rs:200-215 | `xmlns='…'` carries the default namespace and is written exactly when no attribute is named `xmlns` and either a root has a default namespace or the default namespace differs from the parent's |
| Rendering.SelfClosingRule | src/element.rs:227-245 | `/>` follows the opening tag exactly when there are no children; otherwise the text ends with a closing tag that repeats the opening tag's name |
| Rendering.RootExample | src/element.rs:250-254 | a new root in namespace `urn:x` renders as `<a xmlns='urn:x'/>` |
| Rendering.InheritedPrefixExample | src/element.rs:181-248 | a child in a namespace bound at its parent renders with that prefix: `<a><p:c/></a>` |
| Rendering.NoNamespaceCloseFails | src/element.rs:191-240 | with no namespace under a default one, the opening tag uses the `""` binding, but the closing tag fails once there are children |

## Left out

- `FromStr for Element` is not modelled, because it calls `todo!()` and always panics. The parser and tree builder it would use are not part of this model. The two parse-based tests are restated on hand-built elements.
- The `Deserialize` stub is not modelled, because it ignores its input and returns a placeholder element.
- Float values are not modelled. A float is kept as the literal text that `f32::from_str` accepts, and the grammar of that literal is modelled.
- `ToLower` covers ASCII letters only. Unicode case mapping of other characters is not modelled.
- The serde `Serializer` and `SerializeMap` machinery is not modelled. That includes sink errors and the `attr_num` size hint; the output is a `Value`, and the serialiser cannot fail.
- `escape` and `Display for Xml` are not part of this model. The renderer takes them as the parameters `escape` and `show`.
- Formatter write errors and partially written output before a panic are not modelled. Rendering either yields the whole text or `None`.
- `tracing::info!` logging is left out.
- The hash-map attribute configuration is not modelled, only the insertion-ordered one.
- `examples/json.rs` is not modelled. It is file reading and JSON printing around the serialiser.
- Element equality compares the attributes in order, as a sequence; the derived `PartialEq` compares the `AttrMap` as a map, so two elements whose attributes differ only in order are equal in the source and unequal here. No modelled operation compares elements.
- `Tag`'s returned `&mut Element` is a copy of the child here. Later edits through it do not reach the parent.
- Serialization.Serialize: the serialiser fixes one group order at run time; the model proves its output is one of the accepted orders, not which one.
