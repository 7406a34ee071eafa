/** What the YAML adapter guarantees about the IR it builds: one value node
    per item with every other emitted node a comment, names taken from keys,
    the shape of every node, every source comment emitted once and in a fixed
    order (a key's trailing comment after all of its value's comments),
    a structure that does not depend on the comments, and the document-level
    quirks; then some of the repository's test cases. */
module YamlProperties {
  import opened IR
  import opened JsText
  import opened YamlAdapter

  // ---------------------------------------------------------------- items

  lemma {:induction false} ItemsNodesAppend(a: seq<YNode>, b: seq<YNode>)
    ensures ItemsNodes(a + b) == ItemsNodes(a) + ItemsNodes(b)
    decreases |b|
  {
    if b != [] {
      assert (a + b)[..|a + b| - 1] == a + b[..|b| - 1];
      ItemsNodesAppend(a, b[..|b| - 1]);
    } else {
      assert a + b == a;
    }
  }

  /** Items convert in source order: each item's nodes sit between those of the
      items before it and those of the items after it. */
  lemma {:induction false} ItemsInSourceOrder(items: seq<YNode>, i: nat)
    requires i < |items|
    ensures ItemsNodes(items) == ItemsNodes(items[..i]) + SingleItem(items[i]) + ItemsNodes(items[i + 1..])
  {
    var before, after := items[..i], items[i + 1..];
    assert items[..i + 1] == before + [items[i]];
    assert items == items[..i + 1] + after;
    ItemsNodesAppend(items[..i + 1], after);
    ItemsNodesAppend(before, [items[i]]);
    SingleItemList(items[i]);
  }

  lemma {:induction false} SingleItemList(m: YNode)
    ensures ItemsNodes([m]) == SingleItem(m)
  {
    assert [m][..0] == [];
  }

  /** `convertYamlItems` converts the items of a mapping or sequence, and any
      other node as a list of one item. */
  lemma {:induction false} YamlItemsOverItemsOf(n: YNode)
    ensures YamlItems(n) == ItemsNodes(ItemsOf(n))
  {
    if !(n.YMap? || n.YSeq?) {
      SingleItemList(n);
    }
  }

  /** The one node that is not a comment among an item's nodes: the value,
      named by the key for a pair, unnamed otherwise. */
  function ItemValue(m: YNode): Node
  {
    if m.YPair? then ValueIR(m.val, Some(m.key.text)) else ValueIR(m, None)
  }

  /** The value nodes of a list of items, one per item and in order. */
  function ItemValues(items: seq<YNode>): (r: seq<Node>)
    ensures |r| == |items|
    ensures forall i | 0 <= i < |items| :: r[i] == ItemValue(items[i])
  {
    if items == [] then [] else ItemValues(items[..|items| - 1]) + [ItemValue(items[|items| - 1])]
  }

  lemma {:induction false} NoNonComments(ns: seq<Node>)
    requires forall i | 0 <= i < |ns| :: ns[i].Comment?
    ensures NonComments(ns) == []
    decreases |ns|
  {
    if ns != [] {
      NoNonComments(ns[..|ns| - 1]);
    }
  }

  /** A value converts to its comments around exactly one node that is not a
      comment. */
  lemma {:induction false} ValueNodesOneNode(n: YNode, keyName: Option<string>)
    ensures NonComments(ValueNodes(n, keyName)) == [ValueIR(n, keyName)]
  {
    var b, t := BeforeComment(CommentsOf(n)), TrailingComment(CommentsOf(n));
    NoNonComments(b);
    NoNonComments(t);
    NonCommentsAppend(b + [ValueIR(n, keyName)], t);
    NonCommentsAppend(b, [ValueIR(n, keyName)]);
    assert [ValueIR(n, keyName)][..0] == [];
  }

  /** Each pair or item contributes exactly one node that is not a comment. */
  lemma {:induction false} SingleItemOneNode(m: YNode)
    ensures NonComments(SingleItem(m)) == [ItemValue(m)]
  {
    if m.YPair? {
      var b, t := BeforeComment(m.key.cm), TrailingComment(m.key.cm);
      var v := ValueNodes(m.val, Some(m.key.text));
      NoNonComments(b);
      NoNonComments(t);
      ValueNodesOneNode(m.val, Some(m.key.text));
      NonCommentsAppend(b + v, t);
      NonCommentsAppend(b, v);
    } else {
      ValueNodesOneNode(m, None);
    }
  }

  /** A list of items converts to its value nodes, one per item and in order,
      interleaved with comment nodes and nothing else. */
  lemma {:induction false} ItemsOneNodeEach(items: seq<YNode>)
    ensures NonComments(ItemsNodes(items)) == ItemValues(items)
    decreases |items|
  {
    if items != [] {
      var prefix, last := items[..|items| - 1], items[|items| - 1];
      ItemsOneNodeEach(prefix);
      SingleItemOneNode(last);
      NonCommentsAppend(ItemsNodes(prefix), SingleItem(last));
    }
  }

  /** A pair's value is named by the key's text, and has no name when that
      text is empty; anything else converted as an item has no name. */
  lemma {:induction false} ItemValueName(m: YNode)
    ensures m.YPair? && m.key.text != "" ==> ItemValue(m).name == Some(m.key.text)
    ensures m.YPair? && m.key.text == "" ==> ItemValue(m).name == None
    ensures !m.YPair? ==> ItemValue(m).name == None
  {
  }

  /** A pair converts as: the key's before-comment, the value's before-comment,
      the value node, the value's trailing comment, the key's trailing comment.
      A comment on a value mapping is thus a sibling of its object node. */
  lemma {:induction false} PairCommentOrder(key: YKey, val: YNode)
    ensures SingleItem(YPair(key, val))
         == BeforeComment(key.cm) + BeforeComment(CommentsOf(val)) + [ValueIR(val, Some(key.text))]
            + TrailingComment(CommentsOf(val)) + TrailingComment(key.cm)
  {
    var b, t := BeforeComment(key.cm), TrailingComment(key.cm);
    var vb, ir, vt := BeforeComment(CommentsOf(val)), ValueIR(val, Some(key.text)), TrailingComment(CommentsOf(val));
    assert SingleItem(YPair(key, val)) == PairNodes(key, val);
    assert ValueNodes(val, Some(key.text)) == vb + [ir] + vt;
    assert PairNodes(key, val) == b + (vb + [ir] + vt) + t;
    assert b + (vb + [ir] + vt) == b + vb + [ir] + vt;
  }

  // ---------------------------------------------------------------- shape

  /** The shape of every node the YAML adapter builds: no attrs anywhere, no
      text or cdata node, and trimmed comments. */
  predicate YamlShaped(n: Node)
  {
    match n
    case Object(_, attrs, children) => attrs.None? && forall i | 0 <= i < |children| :: YamlShaped(children[i])
    case Array(_, elements) => forall i | 0 <= i < |elements| :: YamlShaped(elements[i])
    case ScalarNode(_, attrs, _) => attrs.None?
    case Comment(v) => Trimmed(v)
    case Text(_) => false
    case CData(_) => false
  }

  predicate AllYamlShaped(ns: seq<Node>)
  {
    forall i | 0 <= i < |ns| :: YamlShaped(ns[i])
  }

  lemma {:induction false} ConcatShaped(a: seq<Node>, b: seq<Node>)
    requires AllYamlShaped(a) && AllYamlShaped(b)
    ensures AllYamlShaped(a + b)
  {
    forall i | 0 <= i < |a + b| ensures YamlShaped((a + b)[i]) {
      if i >= |a| { assert (a + b)[i] == b[i - |a|]; }
    }
  }

  lemma {:induction false} YamlItemsShaped(n: YNode)
    ensures AllYamlShaped(YamlItems(n))
    decreases n, if n.YScalar? then 3 else if n.YPair? then 1 else 3
  {
    match n
    case YMap(items, _) => ItemsNodesShaped(items);
    case YSeq(items, _) => ItemsNodesShaped(items);
    case YPair(key, val) => PairNodesShaped(key, val);
    case YScalar(_, _) => ValueNodesShaped(n, None);
  }

  lemma {:induction false} ItemsNodesShaped(items: seq<YNode>)
    ensures AllYamlShaped(ItemsNodes(items))
    decreases items, 0
  {
    if items != [] {
      ItemsNodesShaped(items[..|items| - 1]);
      SingleItemShaped(items[|items| - 1]);
      ConcatShaped(ItemsNodes(items[..|items| - 1]), SingleItem(items[|items| - 1]));
    }
  }

  lemma {:induction false} SingleItemShaped(m: YNode)
    ensures AllYamlShaped(SingleItem(m))
    decreases m, if m.YScalar? then 2 else if m.YPair? then 0 else 6
  {
    if m.YPair? {
      PairNodesShaped(m.key, m.val);
    } else {
      ValueNodesShaped(m, None);
    }
  }

  lemma {:induction false} PairNodesShaped(key: YKey, val: YNode)
    ensures AllYamlShaped(PairNodes(key, val))
    decreases val, 7
  {
    ValueNodesShaped(val, Some(key.text));
    ConcatShaped(BeforeComment(key.cm), ValueNodes(val, Some(key.text)));
    ConcatShaped(BeforeComment(key.cm) + ValueNodes(val, Some(key.text)), TrailingComment(key.cm));
  }

  /** Every node `convertValueNode` returns has the YAML shape, at every depth. */
  lemma {:induction false} ValueNodesShaped(n: YNode, keyName: Option<string>)
    ensures AllYamlShaped(ValueNodes(n, keyName))
    decreases n, if n.YScalar? then 1 else if n.YPair? then 3 else 5
  {
    if !n.YScalar? {
      YamlItemsShaped(n);
    }
    assert YamlShaped(ValueIR(n, keyName));
    ConcatShaped(BeforeComment(CommentsOf(n)), [ValueIR(n, keyName)]);
    ConcatShaped(BeforeComment(CommentsOf(n)) + [ValueIR(n, keyName)], TrailingComment(CommentsOf(n)));
  }

  /** Every root node of a converted document has the YAML shape. */
  lemma {:induction false} DocumentShaped(doc: YDocument)
    ensures AllYamlShaped(YamlDocument(doc).root)
  {
    if doc.contents.Some? {
      var c := doc.contents.value;
      YamlItemsShaped(c);
      ConcatShaped(YamlItems(c), TrailingComment(CommentsOf(c)));
    }
  }

  // ------------------------------------------------------------- comments

  /** A comment slot's text, trimmed, when it is present. */
  function Texts(c: Option<string>): (r: seq<string>)
    ensures |r| <= 1
  {
    if Present(c) then [Trim(c.value)] else []
  }

  /** The comments a value carries, at every depth, in the order the adapter
      emits them: its before-comment, those inside it, its trailing comment.
      Inside a pair this is not the order of the text: a key's trailing
      comment comes after every comment of its value (see `PairComments`). */
  function ValueComments(n: YNode): seq<string>
    decreases n, 2
  {
    Texts(CommentsOf(n).commentBefore) + InnerComments(n) + Texts(CommentsOf(n).comment)
  }

  function InnerComments(n: YNode): seq<string>
    decreases n, 1
  {
    match n
    case YMap(items, _) => ItemsComments(items)
    case YSeq(items, _) => ItemsComments(items)
    case YPair(key, val) => PairComments(key, val)
    case YScalar(_, _) => []
  }

  function ItemsComments(items: seq<YNode>): seq<string>
    decreases items, 0
  {
    if items == [] then []
    else ItemsComments(items[..|items| - 1]) + ItemComments(items[|items| - 1])
  }

  function ItemComments(m: YNode): seq<string>
    decreases m, 3
  {
    if m.YPair? then PairComments(m.key, m.val) else ValueComments(m)
  }

  /** A pair's comments: the key's before-comment, all of the value's, then the
      key's trailing one, even where the text puts the key's trailing comment
      before the value's comments. */
  function PairComments(key: YKey, val: YNode): seq<string>
    decreases val, 4
  {
    Texts(key.cm.commentBefore) + ValueComments(val) + Texts(key.cm.comment)
  }

  lemma {:induction false} BeforeCommentTexts(c: Comments)
    ensures TreeComments(BeforeComment(c)) == Texts(c.commentBefore)
  {
    var r := BeforeComment(c);
    if r != [] { assert r[..0] == []; }
  }

  lemma {:induction false} TrailingCommentTexts(c: Comments)
    ensures TreeComments(TrailingComment(c)) == Texts(c.comment)
  {
    var r := TrailingComment(c);
    if r != [] { assert r[..0] == []; }
  }

  lemma {:induction false} YamlItemsComments(n: YNode)
    ensures TreeComments(YamlItems(n)) == (if n.YScalar? then ValueComments(n) else InnerComments(n))
    decreases n, if n.YScalar? then 3 else if n.YPair? then 1 else 3
  {
    match n
    case YMap(items, _) => ItemsNodesComments(items);
    case YSeq(items, _) => ItemsNodesComments(items);
    case YPair(key, val) => PairNodesComments(key, val);
    case YScalar(_, _) => ValueNodesComments(n, None);
  }

  lemma {:induction false} ItemsNodesComments(items: seq<YNode>)
    ensures TreeComments(ItemsNodes(items)) == ItemsComments(items)
    decreases items, 0
  {
    if items != [] {
      var prefix, last := items[..|items| - 1], items[|items| - 1];
      ItemsNodesComments(prefix);
      SingleItemComments(last);
      TreeCommentsAppend(ItemsNodes(prefix), SingleItem(last));
    }
  }

  lemma {:induction false} SingleItemComments(m: YNode)
    ensures TreeComments(SingleItem(m)) == ItemComments(m)
    decreases m, if m.YScalar? then 2 else if m.YPair? then 0 else 6
  {
    if m.YPair? {
      PairNodesComments(m.key, m.val);
    } else {
      ValueNodesComments(m, None);
    }
  }

  lemma {:induction false} PairNodesComments(key: YKey, val: YNode)
    ensures TreeComments(PairNodes(key, val)) == PairComments(key, val)
    decreases val, 7
  {
    var b, v, t := BeforeComment(key.cm), ValueNodes(val, Some(key.text)), TrailingComment(key.cm);
    ValueNodesComments(val, Some(key.text));
    BeforeCommentTexts(key.cm);
    TrailingCommentTexts(key.cm);
    TreeCommentsAppend(b + v, t);
    TreeCommentsAppend(b, v);
  }

  /** Every comment of a value, at every depth, becomes exactly one comment
      node, trimmed, in the order `ValueComments` lists; no other comment node
      is made. */
  lemma {:induction false} ValueNodesComments(n: YNode, keyName: Option<string>)
    ensures TreeComments(ValueNodes(n, keyName)) == ValueComments(n)
    decreases n, if n.YScalar? then 1 else if n.YPair? then 3 else 5
  {
    var b, ir, t := BeforeComment(CommentsOf(n)), ValueIR(n, keyName), TrailingComment(CommentsOf(n));
    if !n.YScalar? {
      YamlItemsComments(n);
    }
    assert TreeComments([ir]) == InnerComments(n) by {
      assert [ir][..0] == [];
    }
    BeforeCommentTexts(CommentsOf(n));
    TrailingCommentTexts(CommentsOf(n));
    TreeCommentsAppend(b + [ir], t);
    TreeCommentsAppend(b, [ir]);
  }

  // ---------------------------------------------- independence of comments

  /** A node with every comment slot, keys' included, emptied. */
  function Erase(n: YNode): YNode
  {
    match n
    case YMap(items, _) => YMap(EraseAll(items), Comments(None, None))
    case YSeq(items, _) => YSeq(EraseAll(items), Comments(None, None))
    case YScalar(v, _) => YScalar(v, Comments(None, None))
    case YPair(key, val) => YPair(YKey(key.text, Comments(None, None)), Erase(val))
  }

  function EraseAll(items: seq<YNode>): (r: seq<YNode>)
    ensures |r| == |items|
  {
    if items == [] then [] else EraseAll(items[..|items| - 1]) + [Erase(items[|items| - 1])]
  }

  lemma {:induction false} EraseYamlItems(n: YNode)
    ensures Uncommented(YamlItems(n)) == YamlItems(Erase(n))
    decreases n, if n.YScalar? then 3 else if n.YPair? then 1 else 3
  {
    match n
    case YMap(items, _) => EraseItemsNodes(items);
    case YSeq(items, _) => EraseItemsNodes(items);
    case YPair(key, val) => ErasePairNodes(key, val);
    case YScalar(_, _) => EraseValueNodes(n, None);
  }

  lemma {:induction false} EraseItemsNodes(items: seq<YNode>)
    ensures Uncommented(ItemsNodes(items)) == ItemsNodes(EraseAll(items))
    decreases items, 0
  {
    if items != [] {
      var prefix, last := items[..|items| - 1], items[|items| - 1];
      EraseItemsNodes(prefix);
      EraseSingleItem(last);
      UncommentedAppend(ItemsNodes(prefix), SingleItem(last));
      var e := EraseAll(items);
      assert e[..|e| - 1] == EraseAll(prefix);
    }
  }

  lemma {:induction false} EraseSingleItem(m: YNode)
    ensures Uncommented(SingleItem(m)) == SingleItem(Erase(m))
    decreases m, if m.YScalar? then 2 else if m.YPair? then 0 else 6
  {
    if m.YPair? {
      ErasePairNodes(m.key, m.val);
    } else {
      EraseValueNodes(m, None);
    }
  }

  lemma {:induction false} UncommentedComments(ns: seq<Node>)
    requires forall i | 0 <= i < |ns| :: ns[i].Comment?
    ensures Uncommented(ns) == []
    decreases |ns|
  {
    if ns != [] {
      UncommentedComments(ns[..|ns| - 1]);
    }
  }

  lemma {:induction false} ErasePairNodes(key: YKey, val: YNode)
    ensures Uncommented(PairNodes(key, val)) == PairNodes(YKey(key.text, Comments(None, None)), Erase(val))
    decreases val, 7
  {
    var b, v, t := BeforeComment(key.cm), ValueNodes(val, Some(key.text)), TrailingComment(key.cm);
    assert PairNodes(key, val) == b + v + t;
    EraseValueNodes(val, Some(key.text));
    UncommentedComments(b);
    UncommentedComments(t);
    UncommentedAppend(b + v, t);
    UncommentedAppend(b, v);
    var erased := YKey(key.text, Comments(None, None));
    assert BeforeComment(erased.cm) == [] && TrailingComment(erased.cm) == [];
    assert PairNodes(erased, Erase(val)) == [] + ValueNodes(Erase(val), Some(key.text)) + [];
  }

  /** Dropping every comment node from the output gives what the same input
      with every comment removed converts to: comments never change the
      structure, names or values of what is built. */
  lemma {:induction false} EraseValueNodes(n: YNode, keyName: Option<string>)
    ensures Uncommented(ValueNodes(n, keyName)) == ValueNodes(Erase(n), keyName)
    decreases n, if n.YScalar? then 1 else if n.YPair? then 3 else 5
  {
    var b, ir, t := BeforeComment(CommentsOf(n)), ValueIR(n, keyName), TrailingComment(CommentsOf(n));
    assert ValueNodes(n, keyName) == b + [ir] + t;
    UncommentedBetweenComments(b, ir, t);
    EraseValueIR(n, keyName);
    ErasedValueNodes(n, keyName);
  }

  /** An erased value has no comments to splice in. */
  lemma {:induction false} ErasedValueNodes(n: YNode, keyName: Option<string>)
    ensures ValueNodes(Erase(n), keyName) == [ValueIR(Erase(n), keyName)]
  {
    assert CommentsOf(Erase(n)) == Comments(None, None);
    assert ValueNodes(Erase(n), keyName) == [] + [ValueIR(Erase(n), keyName)] + [];
  }

  lemma {:induction false} EraseValueIR(n: YNode, keyName: Option<string>)
    ensures UncommentedNode(ValueIR(n, keyName)) == [ValueIR(Erase(n), keyName)]
    decreases n, if n.YScalar? then 0 else if n.YPair? then 2 else 4
  {
    if !n.YScalar? {
      EraseYamlItems(n);
    }
  }

  /** A node between comment nodes is all that is left once comments go. */
  lemma {:induction false} UncommentedBetweenComments(b: seq<Node>, x: Node, t: seq<Node>)
    requires forall i | 0 <= i < |b| :: b[i].Comment?
    requires forall i | 0 <= i < |t| :: t[i].Comment?
    ensures Uncommented(b + [x] + t) == UncommentedNode(x)
  {
    assert Uncommented([x]) == UncommentedNode(x) by {
      assert [x][..0] == [];
    }
    UncommentedComments(b);
    UncommentedComments(t);
    UncommentedAppend(b + [x], t);
    UncommentedAppend(b, [x]);
  }

  // ------------------------------------------------------------- documents

  /** A mapping or sequence at the root is flattened: the root holds one value
      node per top-level item, in order, and comments; nothing wraps them. */
  lemma {:induction false} RootFlattened(contents: YNode)
    requires contents.YMap? || contents.YSeq?
    ensures NonComments(YamlDocument(YDocument(Some(contents))).root) == ItemValues(contents.items)
  {
    var t := TrailingComment(CommentsOf(contents));
    ItemsOneNodeEach(contents.items);
    NoNonComments(t);
    NonCommentsAppend(ItemsNodes(contents.items), t);
  }

  /** The root's comments are those inside the contents and then the contents'
      trailing comment: the contents' before-comment is lost when the contents
      is a mapping or sequence. */
  lemma {:induction false} RootComments(contents: YNode)
    requires contents.YMap? || contents.YSeq?
    ensures TreeComments(YamlDocument(YDocument(Some(contents))).root)
         == ItemsComments(contents.items) + Texts(contents.cm.comment)
  {
    ItemsNodesComments(contents.items);
    TrailingCommentTexts(contents.cm);
    TreeCommentsAppend(ItemsNodes(contents.items), TrailingComment(contents.cm));
  }

  /** A scalar at the root: its before-comment is kept, but its trailing
      comment is emitted twice. */
  lemma {:induction false} ScalarRootTrailingCommentTwice(v: Scalar, cm: Comments)
    ensures YamlDocument(YDocument(Some(YScalar(v, cm)))).root
         == BeforeComment(cm) + [ScalarNode(None, None, v)] + TrailingComment(cm) + TrailingComment(cm)
  {
    var n := YScalar(v, cm);
    assert YamlItems(n) == ValueNodes(n, None);
    assert ValueIR(n, None) == ScalarNode(None, None, v);
  }

  /** `? a # k` then `: # vb` then `1`: the key's trailing comment `k` precedes
      the value's comment `vb` in the text, but follows the value node in the
      output. */
  lemma KeyTrailingCommentAfterValue()
    ensures SingleItem(YPair(YKey("a", Comments(None, Some("k"))), YScalar(Num(1), Comments(Some("vb"), None))))
         == [Comment(Trim("vb")), ScalarNode(Some("a"), None, Num(1)), Comment(Trim("k"))]
  {
    var key, v := YKey("a", Comments(None, Some("k"))), YScalar(Num(1), Comments(Some("vb"), None));
    PairCommentOrder(key, v);
    assert ValueIR(v, Some("a")) == ScalarNode(Some("a"), None, Num(1));
    assert BeforeComment(CommentsOf(v)) == [Comment(Trim("vb"))] && TrailingComment(CommentsOf(v)) == [];
    assert BeforeComment(key.cm) == [] && TrailingComment(key.cm) == [Comment(Trim("k"))];
  }

  // ------------------------------------------- the repository's test cases

  /** A comment inside a mapping value, above its first key, is a sibling
      before the object node, not one of its children. */
  lemma {:induction false} CommentOnValueMapIsSibling(key: string, items: seq<YNode>, c: string)
    requires key != "" && Present(Some(c))
    ensures SingleItem(YPair(YKey(key, Comments(None, None)), YMap(items, Comments(Some(c), None))))
         == [Comment(Trim(c)), Object(Some(key), None, ItemsNodes(items))]
  {
    var k, val := YKey(key, Comments(None, None)), YMap(items, Comments(Some(c), None));
    assert SingleItem(YPair(k, val)) == PairNodes(k, val);
    assert PairNodes(k, val) == [] + ValueNodes(val, Some(key)) + [];
    assert ValueIR(val, Some(key)) == Object(Some(key), None, ItemsNodes(items));
    assert ValueNodes(val, Some(key)) == [Comment(Trim(c))] + [ValueIR(val, Some(key))] + [];
  }

  function Plain(v: Scalar): YNode
  {
    YScalar(v, Comments(None, None))
  }

  function Keyed(key: string, val: YNode): YNode
  {
    YPair(YKey(key, Comments(None, None)), val)
  }

  lemma {:induction false} TwoItems(a: YNode, b: YNode)
    ensures ItemsNodes([a, b]) == SingleItem(a) + SingleItem(b)
  {
    assert [a, b][..1] == [a];
    SingleItemList(a);
  }

  lemma {:induction false} PlainEntry(key: string, v: Scalar)
    requires key != ""
    ensures SingleItem(Keyed(key, Plain(v))) == [ScalarNode(Some(key), None, v)]
  {
    var k := YKey(key, Comments(None, None));
    assert SingleItem(Keyed(key, Plain(v))) == PairNodes(k, Plain(v));
    assert ValueIR(Plain(v), Some(key)) == ScalarNode(Some(key), None, v);
    assert ValueNodes(Plain(v), Some(key)) == [] + [ScalarNode(Some(key), None, v)] + [];
    assert PairNodes(k, Plain(v)) == [] + ValueNodes(Plain(v), Some(key)) + [];
  }

  lemma {:induction false} PlainItem(v: Scalar)
    ensures SingleItem(Plain(v)) == [ScalarNode(None, None, v)]
  {
    assert ValueNodes(Plain(v), None) == [] + [ScalarNode(None, None, v)] + [];
  }

  lemma {:induction false} PlainMapEntry(key: string, items: seq<YNode>)
    requires key != ""
    ensures SingleItem(Keyed(key, YMap(items, Comments(None, None)))) == [Object(Some(key), None, ItemsNodes(items))]
  {
    var k, val := YKey(key, Comments(None, None)), YMap(items, Comments(None, None));
    assert SingleItem(Keyed(key, val)) == PairNodes(k, val);
    assert ValueIR(val, Some(key)) == Object(Some(key), None, ItemsNodes(items));
    assert ValueNodes(val, Some(key)) == [] + [ValueIR(val, Some(key))] + [];
    assert PairNodes(k, val) == [] + ValueNodes(val, Some(key)) + [];
  }

  lemma {:induction false} PlainMapRoot(items: seq<YNode>)
    ensures YamlDocument(YDocument(Some(YMap(items, Comments(None, None))))).root == ItemsNodes(items)
  {
    assert YamlItems(YMap(items, Comments(None, None))) == ItemsNodes(items);
  }

  /** `inline_object: { a: 1, b: 2 }` gives one object named after its key,
      holding two named scalars without attrs. */
  lemma InlineObject()
    ensures YamlDocument(YDocument(Some(YMap([Keyed("inline_object", YMap([Keyed("a", Plain(Num(1))), Keyed("b", Plain(Num(2)))], Comments(None, None)))], Comments(None, None))))).root
         == [Object(Some("inline_object"), None, [ScalarNode(Some("a"), None, Num(1)), ScalarNode(Some("b"), None, Num(2))])]
  {
    var inner := [Keyed("a", Plain(Num(1))), Keyed("b", Plain(Num(2)))];
    TwoItems(Keyed("a", Plain(Num(1))), Keyed("b", Plain(Num(2))));
    PlainEntry("a", Num(1));
    PlainEntry("b", Num(2));
    assert ItemsNodes(inner) == [ScalarNode(Some("a"), None, Num(1)), ScalarNode(Some("b"), None, Num(2))];
    var top := Keyed("inline_object", YMap(inner, Comments(None, None)));
    PlainMapEntry("inline_object", inner);
    SingleItemList(top);
    assert ItemsNodes([top]) == [Object(Some("inline_object"), None, ItemsNodes(inner))];
    PlainMapRoot([top]);
  }

  /** `[10, 11]` inside a sequence gives an unnamed array of unnamed scalars. */
  lemma NestedSequence()
    ensures ItemsNodes([YSeq([Plain(Num(10)), Plain(Num(11))], Comments(None, None))])
         == [Array(None, [ScalarNode(None, None, Num(10)), ScalarNode(None, None, Num(11))])]
  {
    var row := YSeq([Plain(Num(10)), Plain(Num(11))], Comments(None, None));
    TwoItems(Plain(Num(10)), Plain(Num(11)));
    PlainItem(Num(10));
    PlainItem(Num(11));
    assert ItemsNodes([Plain(Num(10)), Plain(Num(11))]) == [ScalarNode(None, None, Num(10)), ScalarNode(None, None, Num(11))];
    assert ValueIR(row, None) == Array(None, ItemsNodes([Plain(Num(10)), Plain(Num(11))]));
    assert ValueNodes(row, None) == [] + [ValueIR(row, None)] + [];
    SingleItemList(row);
  }
}
