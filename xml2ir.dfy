/** The XML adapter (src/xml/xml2IR.ts): turns the ordered entry list that
    fast-xml-parser produces in `preserveOrder` mode into an IR document.
    Tokenizing, entity handling and the type inference of text and attribute
    values belong to the parser: entries arrive here with their values
    already inferred. */
module XmlAdapter {
  import opened IR
  import opened JsText

  /** The attributes the tokenizer lists under ":@", in source order; every key
      still carries the two-character prefix "@_". No ":@" at all is []. The
      tokenizer hands over a JavaScript object, whose keys are distinct; this
      list may repeat a key, so it is a wider input than the adapter ever
      receives. */
  type RawAttrs = seq<(string, Scalar)>

  /** One entry of the tokenizer's ordered output. A processing instruction is a
      TagEntry whose key starts with '?'. */
  datatype Entry =
    | CommentEntry(text: string)                                // { "#comment": [{ "#text": text }] }
    | TextEntry(value: Scalar)                                  // { "#text": value }
    | CDataEntry(raw: string)                                   // { "#cdata": [{ "#text": raw }] }
    | TagEntry(key: string, attrs: RawAttrs, kids: seq<Entry>)  // { key: kids, ":@": attrs }

  predicate StartsWith(s: string, prefix: string)
  {
    |prefix| <= |s| && s[..|prefix|] == prefix
  }

  /** The keys both loops pass over: the attribute key, instructions and the
      tokenizer's '#' markers. */
  predicate SkippedKey(key: string)
  {
    key == ":@" || StartsWith(key, "?") || StartsWith(key, "#")
  }

  predicate IsInstruction(e: Entry)
  {
    e.TagEntry? && StartsWith(e.key, "?")
  }

  /** The ":@" member of an entry; comment, text and CDATA entries have none. */
  function RawAttrsOf(e: Entry): RawAttrs
  {
    if e.TagEntry? then e.attrs else []
  }

  /** `key.slice(2)`: drops the "@_" prefix (a shorter key gives ""). */
  function StripPrefix(key: string): string
  {
    if |key| >= 2 then key[2..] else ""
  }

  /** `trimScalar`: a string is trimmed; any other scalar passes through unchanged. */
  function TrimScalar(v: Scalar): (r: Scalar)
    ensures r.Str? <==> v.Str?
    ensures v.Str? ==> Trimmed(r.s) && |r.s| <= |v.s|
    ensures !v.Str? ==> r == v
  {
    if v.Str? then Str(Trim(v.s)) else v
  }

  /** `valueToString`: the trimmed text of a scalar. Null has no toString, so
      the source throws on it; callers only pass truthy values. */
  function ValueToString(v: Scalar): (r: string)
    requires !v.Null?
    ensures Trimmed(r)
    ensures v.Str? ==> r == Trim(v.s)
    ensures v.Num? ==> ParseInteger(r) == v.n
    ensures v.Bool? ==> r == BooleanToString(v.b)
  {
    match v
    case Str(s) => Trim(s)
    case Num(n) =>
      TrimOfTrimmed(NumberToString(n));
      NumberToStringRoundTrip(n);
      Trim(NumberToString(n))
    case Bool(b) =>
      TrimOfTrimmed(BooleanToString(b));
      Trim(BooleanToString(b))
  }

  /** `obj[k] = v` on a JavaScript object: a key already present keeps its
      place and takes the new value; a new key goes last. Since every raw key
      carries the same prefix, a present key is met only on a repeated raw
      key, which the wider `RawAttrs` allows. */
  function Assign(attrs: Attrs, k: string, v: Scalar): (r: Attrs)
    ensures Lookup(r, k) == Some(v)
    ensures forall k' | k' != k :: Lookup(r, k') == Lookup(attrs, k')
    ensures KeySet(r) == KeySet(attrs) + {k}
    ensures k !in KeySet(attrs) ==> r == attrs + [(k, v)]
    ensures DistinctKeys(attrs) ==> DistinctKeys(r)
  {
    if attrs == [] then [(k, v)]
    else if attrs[0].0 == k then
      var r := [(k, v)] + attrs[1..];
      assert r[1..] == attrs[1..];
      r
    else
      var tail := Assign(attrs[1..], k, v);
      var r := [attrs[0]] + tail;
      assert r[1..] == tail;
      assert attrs + [(k, v)] == [attrs[0]] + (attrs[1..] + [(k, v)]);
      r
  }

  /** The keys the raw attributes name once their prefix is dropped. */
  function StrippedKeys(raw: RawAttrs): set<string>
  {
    if raw == [] then {} else StrippedKeys(raw[..|raw| - 1]) + {StripPrefix(raw[|raw| - 1].0)}
  }

  /** The record `convertAttributes` builds from the raw attributes, assigning
      them one after another: its keys are the stripped keys, each once. */
  function AttrsFromRaw(raw: RawAttrs): (r: Attrs)
    ensures DistinctKeys(r)
    ensures KeySet(r) == StrippedKeys(raw)
  {
    if raw == [] then []
    else Assign(AttrsFromRaw(raw[..|raw| - 1]), StripPrefix(raw[|raw| - 1].0), raw[|raw| - 1].1)
  }

  /** `convertAttributes`. */
  method ConvertAttributes(attributes: RawAttrs) returns (attrs: Attrs)
    ensures attrs == AttrsFromRaw(attributes)
  {
    attrs := [];
    for i := 0 to |attributes|
      invariant attrs == AttrsFromRaw(attributes[..i])
    {
      var (key, value) := attributes[i];
      assert attributes[..i + 1][..i] == attributes[..i];
      attrs := Assign(attrs, StripPrefix(key), value);
    }
    assert attributes[..|attributes|] == attributes;
  }

  /** What one entry adds to the list `convertChildren` builds: at most one node. */
  function ChildNodes(child: Entry): (r: seq<Node>)
    ensures |r| <= 1
  {
    match child
    case CommentEntry(t) => [Comment(ValueToString(Str(t)))]
    case TextEntry(v) => if Truthy(v) then [Text(ValueToString(v))] else []
    case CDataEntry(_) => []
    case TagEntry(key, raw, kids) =>
      if SkippedKey(key) then []
      else
        var attrs := AttrsFromRaw(raw);
        if |kids| == 0 then [ScalarNode(Some(key), Some(attrs), Str(""))]
        else if |kids| == 1 then SoleChildNodes(key, attrs, kids[0])
        else [Object(Some(key), Some(attrs), Children(kids))]
  }

  /** An element with exactly one sub-entry: a truthy text gives a named scalar,
      a CDATA section gives a bare cdata node, anything else gives nothing. */
  function SoleChildNodes(key: string, attrs: Attrs, only: Entry): seq<Node>
  {
    match only
    case TextEntry(v) => if Truthy(v) then [ScalarNode(Some(key), Some(attrs), TrimScalar(v))] else []
    case CDataEntry(raw) => [CData(raw)]
    case _ => []
  }

  /** The list `convertChildren` returns: each entry's nodes, in order. */
  function Children(children: seq<Entry>): (r: seq<Node>)
    ensures |r| <= |children|
  {
    if children == [] then []
    else Children(children[..|children| - 1]) + ChildNodes(children[|children| - 1])
  }

  /** `convertChildren`. */
  method ConvertChildren(children: seq<Entry>) returns (res: seq<Node>)
    ensures res == Children(children)
    decreases children
  {
    res := [];
    for i := 0 to |children|
      invariant res == Children(children[..i])
    {
      var child := children[i];
      assert children[..i + 1][..i] == children[..i];
      assert Children(children[..i + 1]) == Children(children[..i]) + ChildNodes(child);
      if child.CommentEntry? {
        res := res + [Comment(ValueToString(Str(child.text)))];
        continue;
      }
      if child.TextEntry? && Truthy(child.value) {
        res := res + [Text(ValueToString(child.value))];
        continue;
      }
      var attrs := ConvertAttributes(RawAttrsOf(child));
      if child.TagEntry? && !SkippedKey(child.key) {
        var key, kids := child.key, child.kids;
        assert attrs == AttrsFromRaw(child.attrs);
        if |kids| == 0 {
          res := res + [ScalarNode(Some(key), Some(attrs), Str(""))];
        } else if |kids| == 1 {
          if kids[0].TextEntry? && Truthy(kids[0].value) {
            res := res + [ScalarNode(Some(key), Some(attrs), TrimScalar(kids[0].value))];
          }
          if kids[0].CDataEntry? {
            res := res + [CData(kids[0].raw)];
          }
          assert res == Children(children[..i]) + SoleChildNodes(key, attrs, kids[0]);
        } else {
          var sub := ConvertChildren(kids);
          res := res + [Object(Some(key), Some(attrs), sub)];
        }
      } else {
        assert ChildNodes(child) == [];
      }
    }
    assert children[..|children|] == children;
  }

  /** What one top-level entry adds to the document's root: a comment node, an
      object node for an element (whatever its content), or nothing. */
  function TopNodes(node: Entry): (r: seq<Node>)
    ensures |r| <= 1
  {
    match node
    case CommentEntry(t) => [Comment(ValueToString(Str(t)))]
    case TagEntry(key, raw, kids) =>
      if SkippedKey(key) then [] else [Object(Some(key), Some(AttrsFromRaw(raw)), Children(kids))]
    case _ => []
  }

  /** The document's root list: each top-level entry's nodes, in order. */
  function DocRoot(parsed: seq<Entry>): (r: seq<Node>)
    ensures |r| <= |parsed|
  {
    if parsed == [] then [] else DocRoot(parsed[..|parsed| - 1]) + TopNodes(parsed[|parsed| - 1])
  }

  /** The document's metadata: each processing instruction's attributes under
      its literal key, a later instruction overwriting an earlier one. */
  function DocMetadata(parsed: seq<Entry>): map<string, Attrs>
  {
    if parsed == [] then map[]
    else
      var m := DocMetadata(parsed[..|parsed| - 1]);
      var last := parsed[|parsed| - 1];
      if IsInstruction(last) then m[last.key := AttrsFromRaw(last.attrs)] else m
  }

  /** `convertToIRDocument`. */
  method ConvertToIRDocument(parsedNodes: seq<Entry>) returns (res: Document)
    ensures res.sourceFormat == Xml
    ensures res.root == DocRoot(parsedNodes)
    ensures res.metadata == DocMetadata(parsedNodes)
  {
    var root: seq<Node> := [];
    var metadata: map<string, Attrs> := map[];
    for i := 0 to |parsedNodes|
      invariant root == DocRoot(parsedNodes[..i])
      invariant metadata == DocMetadata(parsedNodes[..i])
    {
      var node := parsedNodes[i];
      assert parsedNodes[..i + 1][..i] == parsedNodes[..i];
      assert DocRoot(parsedNodes[..i + 1]) == root + TopNodes(node);
      assert DocMetadata(parsedNodes[..i + 1])
          == if IsInstruction(node) then metadata[node.key := AttrsFromRaw(node.attrs)] else metadata;
      if node.CommentEntry? {
        root := root + [Comment(ValueToString(Str(node.text)))];
        continue;
      }
      var attrs := ConvertAttributes(RawAttrsOf(node));
      var isInstruction := false;
      if node.TagEntry? && StartsWith(node.key, "?") {
        metadata := metadata[node.key := attrs];
        isInstruction := true;
      }
      if isInstruction {
        continue;
      }
      if node.TagEntry? && !SkippedKey(node.key) {
        var children := ConvertChildren(node.kids);
        root := root + [Object(Some(node.key), Some(attrs), children)];
      } else {
        assert TopNodes(node) == [];
      }
    }
    assert parsedNodes[..|parsedNodes|] == parsedNodes;
    res := Document(root, Xml, metadata);
  }
}
