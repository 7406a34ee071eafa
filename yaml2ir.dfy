/** The YAML adapter (src/yaml/yaml2IR.ts): turns the node graph of a parsed
    YAML document into an IR document, splicing each key's and value's
    comments in as sibling comment nodes. Parsing, scalar type resolution and
    the text of keys belong to the YAML library: nodes arrive here with their
    values resolved and each key's text given. */
module YamlAdapter {
  import opened IR
  import opened JsText

  /** The two comment slots every YAML node and key carries. */
  datatype Comments = Comments(commentBefore: Option<string>, comment: Option<string>)

  /** A mapping key: the text the library renders for it, and its comments. */
  datatype YKey = YKey(text: string, cm: Comments)

  /** A node of the parsed document. A pair has no comment slots of its own:
      its comments sit on its key and on its value. */
  datatype YNode =
    | YMap(items: seq<YNode>, cm: Comments)
    | YSeq(items: seq<YNode>, cm: Comments)
    | YScalar(value: Scalar, cm: Comments)
    | YPair(key: YKey, val: YNode)

  /** A parsed document; an empty one has no contents. */
  datatype YDocument = YDocument(contents: Option<YNode>)

  /** `Yaml2IROptions`: the one option, possibly absent. */
  datatype Options = Options(mergeTemplateParams: Option<bool>)

  /** `{ ...defaultOptions, ...options }`: the option is always set afterwards,
      to the caller's value if given and to the default `true` otherwise. */
  function MergeOptions(options: Options): (r: Options)
    ensures r.mergeTemplateParams.Some?
    ensures options.mergeTemplateParams.Some? ==> r == options
    ensures options.mergeTemplateParams.None? ==> r.mergeTemplateParams.value
  {
    if options.mergeTemplateParams.Some? then options else Options(Some(true))
  }

  /** The comment slots a node exposes (none for a pair). */
  function CommentsOf(n: YNode): Comments
  {
    if n.YPair? then Comments(None, None) else n.cm
  }

  /** JavaScript truthiness of an optional string slot. */
  predicate Present(c: Option<string>)
  {
    c.Some? && c.value != ""
  }

  /** What `insertBeforeCommentIfExist` pushes: one trimmed comment node when
      the before-comment is present, nothing otherwise. */
  function BeforeComment(c: Comments): (r: seq<Node>)
    ensures |r| == (if Present(c.commentBefore) then 1 else 0)
    ensures forall i | 0 <= i < |r| :: r[i].Comment? && Trimmed(r[i].value)
    ensures Present(c.commentBefore) ==> r[0].value == Trim(c.commentBefore.value)
  {
    if Present(c.commentBefore) then [Comment(Trim(c.commentBefore.value))] else []
  }

  /** What `insertCommentIfExist` pushes, for the trailing comment. */
  function TrailingComment(c: Comments): (r: seq<Node>)
    ensures |r| == (if Present(c.comment) then 1 else 0)
    ensures forall i | 0 <= i < |r| :: r[i].Comment? && Trimmed(r[i].value)
    ensures Present(c.comment) ==> r[0].value == Trim(c.comment.value)
  {
    if Present(c.comment) then [Comment(Trim(c.comment.value))] else []
  }

  /** `keyName && (ir.name = keyName)`: a name only for a non-empty key text. */
  function NameFor(keyName: Option<string>): (r: Option<string>)
    ensures r.Some? <==> Present(keyName)
    ensures r.Some? ==> r == keyName
  {
    if Present(keyName) then keyName else None
  }

  /** `items ?? [node]`: a mapping's or sequence's items, or the node alone. */
  function ItemsOf(n: YNode): seq<YNode>
  {
    if n.YMap? || n.YSeq? then n.items else [n]
  }

  // The functions below call each other on the same node; the second
  // component of each `decreases` orders them, per kind of node, in the
  // order the calls go down.

  /** `convertYamlItems`: each item's nodes, in order. */
  function YamlItems(n: YNode): seq<Node>
    decreases n, if n.YScalar? then 3 else if n.YPair? then 1 else 3
  {
    match n
    case YMap(items, _) => ItemsNodes(items)
    case YSeq(items, _) => ItemsNodes(items)
    case YPair(key, val) => PairNodes(key, val)
    case YScalar(_, _) => ValueNodes(n, None)
  }

  /** The nodes of a list of items, concatenated in order. */
  function ItemsNodes(items: seq<YNode>): seq<Node>
    decreases items, 0
  {
    if items == [] then []
    else ItemsNodes(items[..|items| - 1]) + SingleItem(items[|items| - 1])
  }

  /** `convertSingleItem`: a pair through its key, anything else unnamed. */
  function SingleItem(m: YNode): seq<Node>
    decreases m, if m.YScalar? then 2 else if m.YPair? then 0 else 6
  {
    if m.YPair? then PairNodes(m.key, m.val) else ValueNodes(m, None)
  }

  /** A pair: the key's before-comment, the value named by the key's text, then
      the key's trailing comment. */
  function PairNodes(key: YKey, val: YNode): seq<Node>
    decreases val, 7
  {
    BeforeComment(key.cm) + ValueNodes(val, Some(key.text)) + TrailingComment(key.cm)
  }

  /** `convertValueNode`: the node's before-comment, its IR node, then its
      trailing comment. */
  function ValueNodes(n: YNode, keyName: Option<string>): seq<Node>
    decreases n, if n.YScalar? then 1 else if n.YPair? then 3 else 5
  {
    BeforeComment(CommentsOf(n)) + [ValueIR(n, keyName)] + TrailingComment(CommentsOf(n))
  }

  /** The IR node `convertValueNode` builds: a sequence becomes an array, a
      mapping or pair an object without attrs, a scalar a scalar node without
      attrs that carries the library's value unchanged. */
  function ValueIR(n: YNode, keyName: Option<string>): (r: Node)
    ensures r.Array? <==> n.YSeq?
    ensures r.Object? <==> (n.YMap? || n.YPair?)
    ensures r.ScalarNode? <==> n.YScalar?
    ensures !r.Array? ==> r.attrs.None?
    ensures n.YScalar? ==> r.scalar == n.value
    ensures r.name == NameFor(keyName)
    decreases n, if n.YScalar? then 0 else if n.YPair? then 2 else 4
  {
    match n
    case YSeq(_, _) => Array(NameFor(keyName), YamlItems(n))
    case YMap(_, _) => Object(NameFor(keyName), None, YamlItems(n))
    case YPair(_, _) => Object(NameFor(keyName), None, YamlItems(n))
    case YScalar(v, _) => ScalarNode(NameFor(keyName), None, v)
  }

  /** `convertYamlToIRDocument`: no contents gives an empty root. Otherwise the
      root is the contents' items converted, then the contents' trailing
      comment; the contents' before-comment is pushed into a list that is then
      replaced, so it is lost. */
  function YamlDocument(doc: YDocument): (r: Document)
    ensures r.sourceFormat == Yaml && r.metadata == map[]
    ensures doc.contents.None? ==> r.root == []
  {
    match doc.contents
    case None => Document([], Yaml, map[])
    case Some(c) => Document(YamlItems(c) + TrailingComment(CommentsOf(c)), Yaml, map[])
  }

  /** A JavaScript array of IR nodes that callers own and helpers push into. */
  class NodeList {
    var items: seq<Node>

    constructor()
      ensures items == []
    {
      items := [];
    }

    method Push(n: Node)
      modifies this
      ensures items == old(items) + [n]
    {
      items := items + [n];
    }

    /** `push(...ns)`. */
    method PushAll(ns: seq<Node>)
      modifies this
      ensures items == old(items) + ns
    {
      items := items + ns;
    }
  }

  /** `insertBeforeCommentIfExist`. */
  method InsertBeforeCommentIfExist(c: Comments, res: NodeList)
    modifies res
    ensures res.items == old(res.items) + BeforeComment(c)
  {
    if Present(c.commentBefore) {
      res.Push(Comment(Trim(c.commentBefore.value)));
    }
  }

  /** `insertCommentIfExist`. */
  method InsertCommentIfExist(c: Comments, res: NodeList)
    modifies res
    ensures res.items == old(res.items) + TrailingComment(c)
  {
    if Present(c.comment) {
      res.Push(Comment(Trim(c.comment.value)));
    }
  }

  /** `convertYamlItems`. The options are passed down but never read. */
  method ConvertYamlItems(yamlNode: YNode, options: Options) returns (r: seq<Node>)
    ensures r == YamlItems(yamlNode)
    decreases yamlNode, if yamlNode.YScalar? then 3 else if yamlNode.YPair? then 1 else 3
  {
    var items := ItemsOf(yamlNode);
    var result := new NodeList();
    for i := 0 to |items|
      invariant result.items == ItemsNodes(items[..i])
    {
      assert items[..i + 1][..i] == items[..i];
      var sub := ConvertSingleItem(items[i], options);
      result.PushAll(sub);
    }
    assert items[..|items|] == items;
    if yamlNode.YPair? || yamlNode.YScalar? {
      assert items[..0] == [];
    }
    r := result.items;
  }

  /** `convertSingleItem`. */
  method ConvertSingleItem(node: YNode, options: Options) returns (r: seq<Node>)
    ensures r == SingleItem(node)
    decreases node, if node.YScalar? then 2 else if node.YPair? then 0 else 6
  {
    if node.YPair? {
      var key := node.key;
      var keyText := key.text;
      var nodes := new NodeList();
      InsertBeforeCommentIfExist(key.cm, nodes);
      assert nodes.items == BeforeComment(key.cm);
      var value := node.val;
      var sub := ConvertValueNode(value, Some(keyText), options);
      nodes.PushAll(sub);
      assert nodes.items == BeforeComment(key.cm) + ValueNodes(value, Some(keyText));
      InsertCommentIfExist(key.cm, nodes);
      return nodes.items;
    }
    r := ConvertValueNode(node, None, options);
  }

  /** `convertValueNode`. */
  method ConvertValueNode(node: YNode, keyName: Option<string>, options: Options) returns (r: seq<Node>)
    ensures r == ValueNodes(node, keyName)
    decreases node, if node.YScalar? then 1 else if node.YPair? then 3 else 5
  {
    var res := new NodeList();
    InsertBeforeCommentIfExist(CommentsOf(node), res);
    assert res.items == BeforeComment(CommentsOf(node));
    var ir: Node;
    if node.YSeq? {
      var value := ConvertYamlItems(node, options);
      ir := Array(None, value);
    } else if node.YMap? || node.YPair? {
      var children := ConvertYamlItems(node, options);
      ir := Object(None, None, children);
    } else {
      ir := ScalarNode(None, None, node.value);
    }
    if Present(keyName) {
      ir := ir.(name := keyName);
    }
    assert ir == ValueIR(node, keyName);
    res.Push(ir);
    assert res.items == BeforeComment(CommentsOf(node)) + [ValueIR(node, keyName)];
    InsertCommentIfExist(CommentsOf(node), res);
    r := res.items;
  }

  /** `convertYamlToIRDocument`. `irRoot` is the document's `root` list; it is
      replaced by the converted list after the before-comment went into it. */
  method ConvertYamlToIRDocument(doc: YDocument, options: Options) returns (irDoc: Document)
    ensures irDoc == YamlDocument(doc)
  {
    var irRoot := new NodeList();
    if doc.contents.None? {
      return Document(irRoot.items, Yaml, map[]);
    }
    var contents := doc.contents.value;
    InsertBeforeCommentIfExist(CommentsOf(contents), irRoot);
    var converted := ConvertYamlItems(contents, options);
    var root := new NodeList();
    root.PushAll(converted);
    assert root.items == converted;
    InsertCommentIfExist(CommentsOf(contents), root);
    irRoot := root;
    irDoc := Document(irRoot.items, Yaml, map[]);
  }

  /** `yaml2IR`, from the parsed document on: merges the options with the
      defaults and converts. */
  method Yaml2IR(doc: YDocument, options: Options) returns (irDoc: Document)
    ensures irDoc == YamlDocument(doc)
  {
    var merged := MergeOptions(options);
    irDoc := ConvertYamlToIRDocument(doc, merged);
  }
}
