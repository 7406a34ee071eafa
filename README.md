# schema-bridgion format adapters, modelled in Dafny

schema-bridgion converts documents between XML, YAML, JSON and TOML through a
small intermediate representation (IR). This project models the IR node model
(`src/types.ts`) and the two format adapters that build it: the XML adapter
(`src/xml/xml2IR.ts`), which walks fast-xml-parser's ordered output, and the
YAML adapter (`src/yaml/yaml2IR.ts`), which walks the `yaml` library's
document graph and splices comments in as sibling nodes. Both parsers are
outside the model: their output is the model's input.

Files and modules:

- `ir.dfy`, module `IR`: the six node kinds (`Object`, `Comment`,
  `ScalarNode`, `Text`, `CData`, `Array`), the four-way `Scalar`, the
  `Document` envelope with its four source formats, JavaScript truthiness, and
  the list functions the properties use (comments of a list, nodes that are
  not comments, deep comment list, deep comment removal, tree size, record
  keys and lookup). An attribute record is an ordered list of key/value pairs,
  as a JavaScript object keeps its string keys in insertion order.
- `js_text.dfy`, module `JsText`: `String.prototype.trim` over the
  ECMAScript whitespace set, and `toString` of integers and booleans.
- `xml2ir.dfy`, module `XmlAdapter`: the tokenizer's entry list as a
  datatype, and `convertToIRDocument`, `convertChildren`,
  `convertAttributes`, `trimScalar` and `valueToString`. Each loop of the
  source is a method with that loop, proved equal to a specification function
  defined as a left fold; the `create*Node` helpers are the IR constructors.
- `xml_properties.dfy`, module `XmlProperties`: the properties of the XML
  specification functions and several of the repository's own test cases.
- `yaml2ir.dfy`, module `YamlAdapter`: the YAML node graph as a datatype,
  the option merge, and `convertYamlToIRDocument`, `convertYamlItems`,
  `convertSingleItem`, `convertValueNode` and the two comment helpers. The
  JavaScript arrays these functions push into are a `NodeList` class; each
  method is proved equal to a specification function.
- `yaml_properties.dfy`, module `YamlProperties`: the properties of the YAML
  specification functions and several test cases.

Quirks of the code that the model keeps, each stated as a lemma:

- The contents' before-comment is pushed into `IRDoc.root`, which is then
  replaced (`src/yaml/yaml2IR.ts:29-33`), so it is lost when the contents is a
  mapping or a sequence. When the contents is a scalar, its trailing comment is
  pushed twice, once by `convertValueNode` and once after it
  (`YamlProperties.RootComments`, `YamlProperties.ScalarRootTrailingCommentTwice`).
- A pair's comments come out as the key's before-comment, then all of the
  value's comments around the value node, then the key's trailing comment
  (`src/yaml/yaml2IR.ts:64-69`). Where the text has the key's trailing comment
  before the value's before-comment, the output reverses the two
  (`YamlProperties.PairCommentOrder`, `YamlProperties.KeyTrailingCommentAfterValue`).
- In `convertChildren` a CDATA section among other sub-entries, and a text
  entry whose value is falsy (`0`, `false`, `null`, `""`), produce nothing
  (`src/xml/xml2IR.ts:97-122`). An element whose only sub-entry is a falsy
  text, a comment or another element produces nothing at all
  (`XmlProperties.FalsyTextYieldsNothing`,
  `XmlProperties.SoleNonTextChildYieldsNothing`,
  `XmlProperties.StrayEntriesYieldNothing`).
- `IRScalarNode` declares `attrs` as required (`src/types.ts:28`), but the YAML
  adapter never sets it (`src/yaml/yaml2IR.ts:100-102`); the model's YAML
  scalar nodes have `attrs = None`.

## Model

| member | source | states |
|---|---|---|
| JsText.Trim | src/xml/xml2IR.ts:176 | `trim` returns a string no longer than its input that neither starts nor ends with ECMAScript whitespace |
| JsText.TrimCutsOnlyWhitespace | src/xml/xml2IR.ts:176 | `trim` removes nothing but whitespace: the input is whitespace, then the trimmed string, then whitespace |
| JsText.TrimOfPadded | src/xml/xml2IR.ts:176 | whitespace, then a string with no whitespace at either end, then whitespace, trims to exactly that middle string |
| JsText.TrimOfTrimmed | src/xml/xml2IR.ts:171 | a string with no whitespace at either end is its own trim |
| JsText.TrimIdempotent | src/xml/xml2IR.ts:171 | trimming a trimmed string changes nothing |
| JsText.NatToDecimal | src/xml/xml2IR.ts:175 | a natural number's text is a non-empty run of decimal digits with no leading zero |
| JsText.NatToDecimalRoundTrip | src/xml/xml2IR.ts:175 | reading a natural number's digits back gives the number |
| JsText.NumberToString | src/xml/xml2IR.ts:175 | an integer's `toString` has no whitespace at either end |
| JsText.NumberToStringRoundTrip | src/xml/xml2IR.ts:175 | an integer's `toString`, read back, is the integer |
| JsText.BooleanToString | src/xml/xml2IR.ts:175 | a boolean's `toString` has no whitespace at either end |
| XmlAdapter.TrimScalar | src/xml/xml2IR.ts:170-172 | a string scalar comes back trimmed and still a string; any other scalar comes back unchanged |
| XmlAdapter.ValueToString | src/xml/xml2IR.ts:174-177 | the text is trimmed; for a string it is its trim, for a number it reads back as that number, for a boolean it is its `toString` |
| XmlAdapter.Assign | src/xml/xml2IR.ts:161 | after `attrs[k] = v` the key maps to `v`, every other key keeps its value, the key set gains `k`, a new key goes last, and distinct keys stay distinct |
| XmlAdapter.AttrsFromRaw | src/xml/xml2IR.ts:157-164 | the converted record has distinct keys, exactly the raw keys with their first two characters dropped |
| XmlAdapter.ConvertAttributes | src/xml/xml2IR.ts:157-164 | the loop returns the record `AttrsFromRaw` specifies |
| XmlAdapter.ChildNodes | src/xml/xml2IR.ts:90-126 | one entry adds at most one node to the list |
| XmlAdapter.Children | src/xml/xml2IR.ts:88-129 | the converted list is never longer than the entry list |
| XmlAdapter.ConvertChildren | src/xml/xml2IR.ts:88-129 | the loop and its recursive call return the list `Children` specifies |
| XmlAdapter.TopNodes | src/xml/xml2IR.ts:49-82 | one top-level entry adds at most one node to the root |
| XmlAdapter.DocRoot | src/xml/xml2IR.ts:42-86 | the root is never longer than the top-level entry list |
| XmlAdapter.ConvertToIRDocument | src/xml/xml2IR.ts:42-86 | the document has source format xml, the root `DocRoot` specifies and the metadata `DocMetadata` specifies |
| XmlProperties.ChildrenAppend | src/xml/xml2IR.ts:88-129 | converting two entry lists one after the other gives the two conversions one after the other |
| XmlProperties.ChildrenInSourceOrder | src/xml/xml2IR.ts:90-127 | each entry's node sits after the nodes of the entries before it and before those of the entries after it |
| XmlProperties.DocRootAppend | src/xml/xml2IR.ts:48-83 | the root of two top-level lists one after the other is their two roots one after the other |
| XmlProperties.DocRootInSourceOrder | src/xml/xml2IR.ts:48-83 | root nodes appear in the order of their top-level entries |
| XmlProperties.ChildrenComments | src/xml/xml2IR.ts:92-95 | the comment nodes among the converted children are exactly the comment entries, trimmed, in source order |
| XmlProperties.DocRootComments | src/xml/xml2IR.ts:52-55 | the comment nodes of the root are exactly the top-level comment entries, trimmed, in source order |
| XmlProperties.ChildNodesShaped | src/xml/xml2IR.ts:102-125 | the node an entry converts to is never an array, its name and attrs are set, its keys are distinct and its strings trimmed, at every depth |
| XmlProperties.ChildrenShaped | src/xml/xml2IR.ts:88-129 | every node of a converted list has that shape, at every depth |
| XmlProperties.DocRootShaped | src/xml/xml2IR.ts:73-82 | every root node is a trimmed comment or a named object of that shape |
| XmlProperties.ChildNodesSize | src/xml/xml2IR.ts:103-126 | an entry's nodes, counted at every depth, are no more than its entries counted at every depth |
| XmlProperties.ChildrenSize | src/xml/xml2IR.ts:88-129 | a converted tree is never larger than the entry tree it comes from |
| XmlProperties.InstructionAddsNothingToRoot | src/xml/xml2IR.ts:59-71 | deleting a processing instruction from the input leaves the root unchanged |
| XmlProperties.MetadataKeys | src/xml/xml2IR.ts:59-68 | a key is in the metadata if and only if some top-level processing instruction has that literal key, '?' included |
| XmlProperties.MetadataValue | src/xml/xml2IR.ts:58-66 | the metadata holds the converted attributes of the last instruction with a given key |
| XmlProperties.AttrsLookup | src/xml/xml2IR.ts:157-164 | each converted key maps to the value of the last raw attribute with that stripped key, unchanged |
| XmlProperties.StrippedKeysMember | src/xml/xml2IR.ts:161 | a key is among the stripped keys if and only if some raw key strips to it |
| XmlProperties.AttrsKeepSourceOrder | src/xml/xml2IR.ts:157-164 | when no two keys collide after stripping, the record lists every attribute in source order with its prefix dropped and its value unchanged |
| XmlProperties.FalsyTextYieldsNothing | src/xml/xml2IR.ts:97-118 | a text entry whose value is falsy produces nothing, nested or as an element's only sub-entry |
| XmlProperties.SoleNonTextChildYieldsNothing | src/xml/xml2IR.ts:114-124 | an element whose only sub-entry is a comment or an element produces nothing |
| XmlProperties.CDataElementLosesNameAndAttrs | src/xml/xml2IR.ts:119-122 | an element whose only sub-entry is CDATA becomes a bare, untrimmed cdata node without name or attrs |
| XmlProperties.StrayEntriesYieldNothing | src/xml/xml2IR.ts:73-126 | CDATA among other sub-entries produces nothing, and neither does text or CDATA at the top level |
| XmlProperties.TopLevelElementIsObject | src/xml/xml2IR.ts:73-82 | an element with one truthy text is an object holding a text node at the top level and a trimmed scalar node when nested |
| XmlProperties.RootWithoutContent | test/xml/xml2IR.test.ts:308-323 | `<root/>` and `<root2></root2>` give two named objects with empty attrs and children, and no metadata |
| XmlProperties.RootComments | test/xml/xml2IR.test.ts:20-27 | two top-level comments give two trimmed comment nodes in order, the blank one empty |
| XmlProperties.XmlDeclarationGoesToMetadata | test/xml/xml2IR.test.ts:6-18 | `<?xml version="1.0"?>` gives metadata `?xml` with attribute `version` and an empty root |
| XmlProperties.DuplicateAttribute | test/xml/xml2IR.test.ts:34 | of two `id` attributes the later value is kept, once (the tokenizer already keeps only the later one; the adapter's assignment gives the same record on a list that repeats the key) |
| XmlProperties.ParseRootNodeItem | test/xml/xml2IR.test.ts:29-83 | the item's children are the text "23", a scalar with the later `id`, and a scalar whose padded text is trimmed |
| XmlProperties.MixedContent | test/xml/xml2IR.test.ts:247-271 | `Hello <b>World</b> !!` gives text, named scalar, text, in order and trimmed |
| XmlProperties.CDataChildren | test/xml/xml2IR.test.ts:219-245 | elements holding only CDATA give bare cdata nodes |
| YamlAdapter.MergeOptions | src/yaml/yaml2IR.ts:7-13 | after the merge the option is set: to the caller's value when given, to `true` otherwise |
| YamlAdapter.BeforeComment | src/yaml/yaml2IR.ts:110-117 | one trimmed comment node when the before-comment is present and non-empty, none otherwise |
| YamlAdapter.TrailingComment | src/yaml/yaml2IR.ts:119-126 | one trimmed comment node when the trailing comment is present and non-empty, none otherwise |
| YamlAdapter.NameFor | src/yaml/yaml2IR.ts:104 | a node gets a name exactly when the key text is present and non-empty, and then that text |
| YamlAdapter.ValueIR | src/yaml/yaml2IR.ts:84-104 | a sequence becomes an array, a mapping or pair an object, a scalar a scalar node with the library's value unchanged; no attrs; named by `NameFor` |
| YamlAdapter.YamlDocument | src/yaml/yaml2IR.ts:17-35 | the document has source format yaml and empty metadata, and no contents gives an empty root |
| YamlAdapter.NodeList.constructor | src/yaml/yaml2IR.ts:82 | a new array is empty |
| YamlAdapter.NodeList.Push | src/yaml/yaml2IR.ts:105 | `push` appends one node |
| YamlAdapter.NodeList.PushAll | src/yaml/yaml2IR.ts:49 | `push(...nodes)` appends the nodes in order |
| YamlAdapter.InsertBeforeCommentIfExist | src/yaml/yaml2IR.ts:110-117 | the caller's array gains exactly `BeforeComment` |
| YamlAdapter.InsertCommentIfExist | src/yaml/yaml2IR.ts:119-126 | the caller's array gains exactly `TrailingComment` |
| YamlAdapter.ConvertYamlItems | src/yaml/yaml2IR.ts:37-53 | the loop over `items ?? [node]` returns what `YamlItems` specifies |
| YamlAdapter.ConvertSingleItem | src/yaml/yaml2IR.ts:55-74 | returns what `SingleItem` specifies |
| YamlAdapter.ConvertValueNode | src/yaml/yaml2IR.ts:76-108 | returns what `ValueNodes` specifies |
| YamlAdapter.ConvertYamlToIRDocument | src/yaml/yaml2IR.ts:17-35 | returns what `YamlDocument` specifies, the replaced root list included |
| YamlAdapter.Yaml2IR | src/yaml/yaml2IR.ts:11-15 | converting with merged options returns what `YamlDocument` specifies |
| YamlProperties.ItemsNodesAppend | src/yaml/yaml2IR.ts:48-50 | converting two item lists one after the other gives the two conversions one after the other |
| YamlProperties.ItemsInSourceOrder | src/yaml/yaml2IR.ts:48-50 | each item's nodes sit between those of the items before and after it |
| YamlProperties.YamlItemsOverItemsOf | src/yaml/yaml2IR.ts:45 | a mapping or sequence converts item by item, any other node as a list of one item |
| YamlProperties.ValueNodesOneNode | src/yaml/yaml2IR.ts:82-107 | a value converts to exactly one node that is not a comment, its IR node |
| YamlProperties.SingleItemOneNode | src/yaml/yaml2IR.ts:55-74 | each pair or item contributes exactly one node that is not a comment |
| YamlProperties.ItemsOneNodeEach | src/yaml/yaml2IR.ts:37-53 | the nodes that are not comments are the items' value nodes, one per item, in order |
| YamlProperties.ItemValueName | src/yaml/yaml2IR.ts:60-104 | a pair's value is named by a non-empty key text and unnamed for an empty one; other items are unnamed |
| YamlProperties.PairCommentOrder | src/yaml/yaml2IR.ts:60-70 | a pair gives the key's before-comment, the value's before-comment, the value node, the value's trailing comment, the key's trailing comment |
| YamlProperties.KeyTrailingCommentAfterValue | src/yaml/yaml2IR.ts:64-69 | for `? a # k`, `: # vb`, `1` the output is the comment `vb`, the scalar named `a`, then the comment `k`: the key's trailing comment moves after the value's comment |
| YamlProperties.ValueNodesShaped | src/yaml/yaml2IR.ts:76-108 | every node built, at every depth, has no attrs, is neither text nor cdata, and comments are trimmed |
| YamlProperties.ItemsNodesShaped | src/yaml/yaml2IR.ts:37-53 | every node built from a list of items has that shape |
| YamlProperties.DocumentShaped | src/yaml/yaml2IR.ts:17-35 | every root node of a converted document has that shape |
| YamlProperties.ValueNodesComments | src/yaml/yaml2IR.ts:82-106 | each present comment of a value, at every depth, becomes exactly one comment node, trimmed, in the adapter's order (before-comment, inner comments, trailing comment; inside a pair the key's trailing comment after all of the value's), and no other comment node is made |
| YamlProperties.ItemsNodesComments | src/yaml/yaml2IR.ts:37-53 | the comment nodes built from a list of items are its comments, in order |
| YamlProperties.PairNodesComments | src/yaml/yaml2IR.ts:64-69 | a pair's comment nodes are the key's before-comment, the value's comments, the key's trailing comment |
| YamlProperties.EraseValueNodes | src/yaml/yaml2IR.ts:76-108 | removing every comment node from the output gives what the input without comments converts to |
| YamlProperties.EraseItemsNodes | src/yaml/yaml2IR.ts:37-53 | the same for a list of items |
| YamlProperties.RootFlattened | src/yaml/yaml2IR.ts:26-34 | the root of a mapping or sequence holds one value node per top-level item and otherwise only comments |
| YamlProperties.RootComments | src/yaml/yaml2IR.ts:29-33 | the root's comments are the items' comments then the contents' trailing comment; the contents' before-comment is lost |
| YamlProperties.ScalarRootTrailingCommentTwice | src/yaml/yaml2IR.ts:30-31 | a scalar root keeps its before-comment and emits its trailing comment twice |
| YamlProperties.CommentOnValueMapIsSibling | test/yaml/yaml2IR.test.ts:239-261 | a comment above a nested mapping's first key is a sibling before the object node, not a child |
| YamlProperties.InlineObject | test/yaml/yaml2IR.test.ts:263-280 | `inline_object: { a: 1, b: 2 }` gives one named object holding two named scalars without attrs |
| YamlProperties.NestedSequence | test/yaml/yaml2IR.test.ts:189-190 | a sequence inside a sequence is an unnamed array of unnamed scalars |

## Left out

- Parsing: the `XMLParser` configuration and `parse` call (`src/xml/xml2IR.ts:13-40`) and `parseDocument` (`src/yaml/yaml2IR.ts:12`). Tokenizing, entity handling and the type inference of text, attribute and scalar values belong to the parsers; the model takes their output as given.
- Floating-point numbers: numbers are integers, and `Num` stands for the integers JavaScript holds exactly, those up to 2^53 in absolute value. Their text is the exact decimal form; a larger integer prints differently in JavaScript (shortest round-trip digits, so `(2**60).toString()` is `1152921504606847000`, and an exponent form from 10^21 on), which is not modelled.
- The `instanceof` class tests of the YAML adapter are the constructors of the `YNode` datatype; `key.toString()` is a given string per key, including the compact text of complex keys.
- A pair whose key or value is missing (`null`): the source would throw when it reads a comment slot or calls `toString` on it; every `YNode` pair here has both.
- The `!yamlNode` test in `convertYamlItems`: every call passes a node, so that branch cannot be reached in the model.
- JavaScript's enumeration of integer-like object keys in ascending numeric order ahead of the other keys: attribute records keep plain insertion order.
- An option passed explicitly as `undefined`, which the object spread copies over the default: `Options` has no such value. The options are threaded through and never read, as in the source.
- An element entry that carries a second tag key beside its own: an entry has exactly one tag key here.
- `src/types.d.ts`, `vitest.config.ts`, `tsdown.config.ts` and the snapshot test of `test/yaml/yaml2IR.test.ts` are not part of this model.
- XmlAdapter.ValueToString: requires a non-null scalar; the source throws on `null`, and every caller passes a comment's text or a truthy value.
