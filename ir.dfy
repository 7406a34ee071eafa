/** The intermediate representation (IR) that every format adapter produces
    (src/types.ts): a closed set of six node kinds, a four-way scalar and the
    document envelope, plus the list functions the adapters' properties use. */
module IR {

  datatype Option<+T> = None | Some(value: T)

  /** A primitive value: a string, a number, a boolean or null, and nothing else.
      Numbers are integers in this model. */
  datatype Scalar = Str(s: string) | Num(n: int) | Bool(b: bool) | Null

  /** JavaScript truthiness of a scalar: both adapters branch on it. */
  predicate Truthy(v: Scalar)
  {
    match v
    case Str(s) => s != ""
    case Num(n) => n != 0
    case Bool(b) => b
    case Null => false
  }

  /** A key-to-scalar record, listed in the order its keys were first set. */
  type Attrs = seq<(string, Scalar)>

  /** An IR node is exactly one of six tagged kinds. `scalar` holds the value of
      a scalar node and `elements` the value list of an array node. */
  datatype Node =
    | Object(name: Option<string>, attrs: Option<Attrs>, children: seq<Node>)
    | Comment(value: string)
    | ScalarNode(name: Option<string>, attrs: Option<Attrs>, scalar: Scalar)
    | Text(value: string)
    | CData(value: string)
    | Array(name: Option<string>, elements: seq<Node>)

  datatype SourceFormat = Xml | Json | Yaml | Toml

  /** A document: the top-level node list, the format it came from, and an
      unordered side-channel (XML processing instructions). */
  datatype Document = Document(root: seq<Node>, sourceFormat: SourceFormat, metadata: map<string, Attrs>)

  /** The values of the comment nodes of a list, in order (this level only). */
  function CommentValues(nodes: seq<Node>): seq<string>
  {
    if nodes == [] then []
    else CommentValues(nodes[..|nodes| - 1])
         + (var n := nodes[|nodes| - 1]; if n.Comment? then [n.value] else [])
  }

  /** The nodes of a list that are not comments, in order (this level only). */
  function NonComments(nodes: seq<Node>): seq<Node>
  {
    if nodes == [] then []
    else NonComments(nodes[..|nodes| - 1])
         + (var n := nodes[|nodes| - 1]; if n.Comment? then [] else [n])
  }

  lemma {:induction false} CommentValuesAppend(a: seq<Node>, b: seq<Node>)
    ensures CommentValues(a + b) == CommentValues(a) + CommentValues(b)
    decreases |b|
  {
    if b != [] {
      assert (a + b)[..|a + b| - 1] == a + b[..|b| - 1];
      CommentValuesAppend(a, b[..|b| - 1]);
    } else {
      assert a + b == a;
    }
  }

  lemma {:induction false} NonCommentsAppend(a: seq<Node>, b: seq<Node>)
    ensures NonComments(a + b) == NonComments(a) + NonComments(b)
    decreases |b|
  {
    if b != [] {
      assert (a + b)[..|a + b| - 1] == a + b[..|b| - 1];
      NonCommentsAppend(a, b[..|b| - 1]);
    } else {
      assert a + b == a;
    }
  }

  /** The comment values of a node list at every depth, in document order. */
  function TreeComments(nodes: seq<Node>): seq<string>
  {
    if nodes == [] then []
    else TreeComments(nodes[..|nodes| - 1]) + NodeComments(nodes[|nodes| - 1])
  }

  function NodeComments(n: Node): seq<string>
  {
    match n
    case Comment(v) => [v]
    case Object(_, _, children) => TreeComments(children)
    case Array(_, elements) => TreeComments(elements)
    case _ => []
  }

  lemma {:induction false} TreeCommentsAppend(a: seq<Node>, b: seq<Node>)
    ensures TreeComments(a + b) == TreeComments(a) + TreeComments(b)
    decreases |b|
  {
    if b != [] {
      assert (a + b)[..|a + b| - 1] == a + b[..|b| - 1];
      TreeCommentsAppend(a, b[..|b| - 1]);
    } else {
      assert a + b == a;
    }
  }

  /** A node list with its comment nodes removed at every depth. */
  function Uncommented(nodes: seq<Node>): seq<Node>
  {
    if nodes == [] then []
    else Uncommented(nodes[..|nodes| - 1]) + UncommentedNode(nodes[|nodes| - 1])
  }

  function UncommentedNode(n: Node): seq<Node>
  {
    match n
    case Comment(_) => []
    case Object(name, attrs, children) => [Object(name, attrs, Uncommented(children))]
    case Array(name, elements) => [Array(name, Uncommented(elements))]
    case _ => [n]
  }

  lemma {:induction false} UncommentedAppend(a: seq<Node>, b: seq<Node>)
    ensures Uncommented(a + b) == Uncommented(a) + Uncommented(b)
    decreases |b|
  {
    if b != [] {
      assert (a + b)[..|a + b| - 1] == a + b[..|b| - 1];
      UncommentedAppend(a, b[..|b| - 1]);
    } else {
      assert a + b == a;
    }
  }

  /** The number of nodes of a forest, counted at every depth. */
  function TreeSize(nodes: seq<Node>): nat
  {
    if nodes == [] then 0 else TreeSize(nodes[..|nodes| - 1]) + NodeSize(nodes[|nodes| - 1])
  }

  function NodeSize(n: Node): nat
  {
    match n
    case Object(_, _, children) => 1 + TreeSize(children)
    case Array(_, elements) => 1 + TreeSize(elements)
    case _ => 1
  }

  lemma {:induction false} TreeSizeAppend(a: seq<Node>, b: seq<Node>)
    ensures TreeSize(a + b) == TreeSize(a) + TreeSize(b)
    decreases |b|
  {
    if b != [] {
      assert (a + b)[..|a + b| - 1] == a + b[..|b| - 1];
      TreeSizeAppend(a, b[..|b| - 1]);
    } else {
      assert a + b == a;
    }
  }

  /** The keys a record holds. */
  function KeySet(attrs: Attrs): set<string>
  {
    if attrs == [] then {} else {attrs[0].0} + KeySet(attrs[1..])
  }

  /** No key is listed twice, as in a JavaScript object: the first key does not
      come back later, and so on down the list. */
  predicate DistinctKeys(attrs: Attrs)
  {
    attrs == [] || (attrs[0].0 !in KeySet(attrs[1..]) && DistinctKeys(attrs[1..]))
  }

  /** The value a record holds for a key, if any. */
  function Lookup(attrs: Attrs, k: string): Option<Scalar>
  {
    if attrs == [] then None
    else if attrs[0].0 == k then Some(attrs[0].1)
    else Lookup(attrs[1..], k)
  }
}
