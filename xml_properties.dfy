/** What the XML adapter guarantees about the IR it builds: source order,
    comments, the shape of every node, the one-node-per-entry bound, the
    handling of processing instructions and of attributes, and the code's
    quirks, stated for all inputs; then the repository's test cases. */
module XmlProperties {
  import opened IR
  import opened JsText
  import opened XmlAdapter

  // ---------------------------------------------------------------- order

  lemma {:induction false} ChildrenAppend(a: seq<Entry>, b: seq<Entry>)
    ensures Children(a + b) == Children(a) + Children(b)
    decreases |b|
  {
    if b != [] {
      assert (a + b)[..|a + b| - 1] == a + b[..|b| - 1];
      ChildrenAppend(a, b[..|b| - 1]);
    } else {
      assert a + b == a;
    }
  }

  /** Sibling order is source order: each entry's node (if any) sits between
      the nodes of the entries before it and those of the entries after it. */
  lemma {:induction false} ChildrenInSourceOrder(children: seq<Entry>, i: nat)
    requires i < |children|
    ensures Children(children) == Children(children[..i]) + ChildNodes(children[i]) + Children(children[i + 1..])
  {
    assert children == (children[..i] + [children[i]]) + children[i + 1..];
    ChildrenAppend(children[..i] + [children[i]], children[i + 1..]);
    ChildrenAppend(children[..i], [children[i]]);
    assert [children[i]][..0] == [];
  }

  lemma {:induction false} DocRootAppend(a: seq<Entry>, b: seq<Entry>)
    ensures DocRoot(a + b) == DocRoot(a) + DocRoot(b)
    decreases |b|
  {
    if b != [] {
      assert (a + b)[..|a + b| - 1] == a + b[..|b| - 1];
      DocRootAppend(a, b[..|b| - 1]);
    } else {
      assert a + b == a;
    }
  }

  /** Top-level order is source order too. */
  lemma {:induction false} DocRootInSourceOrder(parsed: seq<Entry>, i: nat)
    requires i < |parsed|
    ensures DocRoot(parsed) == DocRoot(parsed[..i]) + TopNodes(parsed[i]) + DocRoot(parsed[i + 1..])
  {
    assert parsed == (parsed[..i] + [parsed[i]]) + parsed[i + 1..];
    DocRootAppend(parsed[..i] + [parsed[i]], parsed[i + 1..]);
    DocRootAppend(parsed[..i], [parsed[i]]);
    assert [parsed[i]][..0] == [];
  }

  // ------------------------------------------------------------- comments

  /** The trimmed texts of the comment entries of a list, in order. */
  function EntryComments(entries: seq<Entry>): seq<string>
  {
    if entries == [] then []
    else
      var last := entries[|entries| - 1];
      EntryComments(entries[..|entries| - 1]) + (if last.CommentEntry? then [Trim(last.text)] else [])
  }

  /** Nested comments: the comment nodes `convertChildren` returns are exactly
      the comment entries of its input, trimmed, in the same order; no other
      entry yields a comment node. */
  lemma {:induction false} ChildrenComments(children: seq<Entry>)
    ensures CommentValues(Children(children)) == EntryComments(children)
    decreases |children|
  {
    if children != [] {
      var prefix, last := children[..|children| - 1], children[|children| - 1];
      ChildrenComments(prefix);
      CommentValuesAppend(Children(prefix), ChildNodes(last));
      assert CommentValues(ChildNodes(last)) == (if last.CommentEntry? then [Trim(last.text)] else []) by {
        var r := ChildNodes(last);
        if r != [] { assert r[..0] == []; }
      }
    }
  }

  /** Top-level comments likewise become trimmed comment nodes of the root, in
      source order. */
  lemma {:induction false} DocRootComments(parsed: seq<Entry>)
    ensures CommentValues(DocRoot(parsed)) == EntryComments(parsed)
    decreases |parsed|
  {
    if parsed != [] {
      var prefix, last := parsed[..|parsed| - 1], parsed[|parsed| - 1];
      DocRootComments(prefix);
      CommentValuesAppend(DocRoot(prefix), TopNodes(last));
      assert CommentValues(TopNodes(last)) == (if last.CommentEntry? then [Trim(last.text)] else []) by {
        var r := TopNodes(last);
        if r != [] { assert r[..0] == []; }
      }
    }
  }

  // ---------------------------------------------------------------- shape

  /** The shape of every node the XML adapter builds: never an array; object
      and scalar nodes carry a name and attributes with distinct keys; string
      scalars, text and comments are trimmed; CDATA is left as it was. */
  predicate XmlShaped(n: Node)
  {
    match n
    case Object(name, attrs, children) =>
      && name.Some? && attrs.Some? && DistinctKeys(attrs.value)
      && forall i | 0 <= i < |children| :: XmlShaped(children[i])
    case ScalarNode(name, attrs, v) =>
      name.Some? && attrs.Some? && DistinctKeys(attrs.value) && (v.Str? ==> Trimmed(v.s))
    case Comment(v) => Trimmed(v)
    case Text(v) => Trimmed(v)
    case CData(_) => true
    case Array(_, _) => false
  }

  lemma {:induction false} ChildNodesShaped(child: Entry)
    ensures forall i | 0 <= i < |ChildNodes(child)| :: XmlShaped(ChildNodes(child)[i])
    decreases child
  {
    match child
    case TagEntry(key, raw, kids) =>
      if !SkippedKey(key) && |kids| >= 2 {
        ChildrenShaped(kids);
      }
    case _ =>
  }

  /** Every node `convertChildren` returns has the XML shape, at every depth. */
  lemma {:induction false} ChildrenShaped(children: seq<Entry>)
    ensures forall i | 0 <= i < |Children(children)| :: XmlShaped(Children(children)[i])
    decreases children
  {
    if children != [] {
      var prefix, last := children[..|children| - 1], children[|children| - 1];
      ChildrenShaped(prefix);
      ChildNodesShaped(last);
      assert Children(children) == Children(prefix) + ChildNodes(last);
    }
  }

  /** Every root node is a trimmed comment or a named object of XML shape: a
      top-level element is an object whatever its content. */
  lemma {:induction false} DocRootShaped(parsed: seq<Entry>)
    ensures forall i | 0 <= i < |DocRoot(parsed)| ::
      && XmlShaped(DocRoot(parsed)[i])
      && (DocRoot(parsed)[i].Comment? || (DocRoot(parsed)[i].Object? && !SkippedKey(DocRoot(parsed)[i].name.value)))
    decreases |parsed|
  {
    if parsed != [] {
      var prefix, last := parsed[..|parsed| - 1], parsed[|parsed| - 1];
      DocRootShaped(prefix);
      if last.TagEntry? && !SkippedKey(last.key) {
        ChildrenShaped(last.kids);
      }
    }
  }

  // ----------------------------------------------------------------- size

  /** The number of entries of a list, counted at every depth. */
  function EntryCount(entries: seq<Entry>): nat
  {
    if entries == [] then 0 else EntryCount(entries[..|entries| - 1]) + EntrySize(entries[|entries| - 1])
  }

  function EntrySize(e: Entry): nat
  {
    match e
    case TagEntry(_, _, kids) => 1 + EntryCount(kids)
    case _ => 1
  }

  lemma {:induction false} ChildNodesSize(child: Entry)
    ensures TreeSize(ChildNodes(child)) <= EntrySize(child)
    decreases child
  {
    var r := ChildNodes(child);
    if r != [] {
      assert r[..0] == [];
      if child.TagEntry? && |child.kids| >= 2 {
        ChildrenSize(child.kids);
      }
    }
  }

  /** Each entry, at any depth, contributes at most one node anywhere in the
      output: the tree `convertChildren` builds is never larger than its input. */
  lemma {:induction false} ChildrenSize(children: seq<Entry>)
    ensures TreeSize(Children(children)) <= EntryCount(children)
    decreases children
  {
    if children != [] {
      var prefix, last := children[..|children| - 1], children[|children| - 1];
      ChildrenSize(prefix);
      ChildNodesSize(last);
      TreeSizeAppend(Children(prefix), ChildNodes(last));
    }
  }

  // ------------------------------------------------- processing instructions

  /** A processing instruction adds nothing to the root: removing it leaves the
      root unchanged. */
  lemma {:induction false} InstructionAddsNothingToRoot(parsed: seq<Entry>, i: nat)
    requires i < |parsed| && IsInstruction(parsed[i])
    ensures DocRoot(parsed) == DocRoot(parsed[..i] + parsed[i + 1..])
  {
    DocRootInSourceOrder(parsed, i);
    DocRootAppend(parsed[..i], parsed[i + 1..]);
  }

  /** The metadata keys are exactly the literal keys, '?' included, of the
      top-level processing instructions. */
  lemma {:induction false} MetadataKeys(parsed: seq<Entry>, k: string)
    ensures k in DocMetadata(parsed) <==> exists i | 0 <= i < |parsed| :: IsInstruction(parsed[i]) && parsed[i].key == k
    decreases |parsed|
  {
    if parsed != [] {
      var prefix, last := parsed[..|parsed| - 1], parsed[|parsed| - 1];
      MetadataKeys(prefix, k);
      if k in DocMetadata(parsed) {
        if !(IsInstruction(last) && last.key == k) {
          var i :| 0 <= i < |prefix| && IsInstruction(prefix[i]) && prefix[i].key == k;
          assert parsed[i] == prefix[i];
        }
      }
      if exists i | 0 <= i < |parsed| :: IsInstruction(parsed[i]) && parsed[i].key == k {
        var i :| 0 <= i < |parsed| && IsInstruction(parsed[i]) && parsed[i].key == k;
        if i < |prefix| {
          assert prefix[i] == parsed[i];
        }
      }
    }
  }

  /** An instruction's attributes are stored under its key unless a later
      instruction has the same key. */
  lemma {:induction false} MetadataValue(parsed: seq<Entry>, i: nat)
    requires i < |parsed| && IsInstruction(parsed[i])
    requires forall j | i < j < |parsed| :: !(IsInstruction(parsed[j]) && parsed[j].key == parsed[i].key)
    ensures parsed[i].key in DocMetadata(parsed)
    ensures DocMetadata(parsed)[parsed[i].key] == AttrsFromRaw(parsed[i].attrs)
    decreases |parsed|
  {
    if i < |parsed| - 1 {
      var prefix := parsed[..|parsed| - 1];
      assert prefix[i] == parsed[i];
      forall j | i < j < |prefix| ensures !(IsInstruction(prefix[j]) && prefix[j].key == prefix[i].key) {
        assert prefix[j] == parsed[j];
      }
      MetadataValue(prefix, i);
    }
  }

  // ----------------------------------------------------------- attributes

  /** The value of the last raw attribute whose key, stripped, is `k`. */
  function LastValue(raw: RawAttrs, k: string): Option<Scalar>
  {
    if raw == [] then None
    else if StripPrefix(raw[|raw| - 1].0) == k then Some(raw[|raw| - 1].1)
    else LastValue(raw[..|raw| - 1], k)
  }

  /** Each attribute keeps the value the tokenizer gave it, unchanged; when two
      keys collide after stripping, the later one wins. */
  lemma {:induction false} AttrsLookup(raw: RawAttrs, k: string)
    ensures Lookup(AttrsFromRaw(raw), k) == LastValue(raw, k)
    decreases |raw|
  {
    if raw != [] {
      AttrsLookup(raw[..|raw| - 1], k);
    }
  }

  /** No two raw keys coincide once the prefix is dropped. */
  predicate StrippedDistinct(raw: RawAttrs)
  {
    forall i, j | 0 <= i < j < |raw| :: StripPrefix(raw[i].0) != StripPrefix(raw[j].0)
  }

  /** Each raw attribute with its prefix dropped and its value untouched, in order. */
  function Stripped(raw: RawAttrs): seq<(string, Scalar)>
  {
    if raw == [] then []
    else Stripped(raw[..|raw| - 1]) + [(StripPrefix(raw[|raw| - 1].0), raw[|raw| - 1].1)]
  }

  lemma {:induction false} StrippedKeysMember(raw: RawAttrs, x: string)
    ensures x in StrippedKeys(raw) <==> exists i | 0 <= i < |raw| :: StripPrefix(raw[i].0) == x
    decreases |raw|
  {
    if raw != [] {
      var prefix := raw[..|raw| - 1];
      StrippedKeysMember(prefix, x);
      if exists i | 0 <= i < |raw| :: StripPrefix(raw[i].0) == x {
        var i :| 0 <= i < |raw| && StripPrefix(raw[i].0) == x;
        if i < |prefix| { assert prefix[i] == raw[i]; }
      }
      if exists i | 0 <= i < |prefix| :: StripPrefix(prefix[i].0) == x {
        var i :| 0 <= i < |prefix| && StripPrefix(prefix[i].0) == x;
        assert raw[i] == prefix[i];
      }
    }
  }

  /** `convertAttributes` keeps attribute order, drops the first two
      characters of each key and leaves every value as it was. */
  lemma {:induction false} AttrsKeepSourceOrder(raw: RawAttrs)
    requires StrippedDistinct(raw)
    ensures AttrsFromRaw(raw) == Stripped(raw)
    decreases |raw|
  {
    if raw != [] {
      var prefix, last := raw[..|raw| - 1], raw[|raw| - 1];
      assert StrippedDistinct(prefix) by {
        forall i, j | 0 <= i < j < |prefix| ensures StripPrefix(prefix[i].0) != StripPrefix(prefix[j].0) {
          assert prefix[i] == raw[i] && prefix[j] == raw[j];
        }
      }
      AttrsKeepSourceOrder(prefix);
      StrippedKeysMember(prefix, StripPrefix(last.0));
      assert StripPrefix(last.0) !in StrippedKeys(prefix);
    }
  }

  // --------------------------------------------------------------- quirks

  /** The text test is a truthiness test: a text entry whose inferred value is
      0, false, null or "" yields nothing, nested or as an element's only
      sub-entry. */
  lemma {:induction false} FalsyTextYieldsNothing(v: Scalar, key: string, raw: RawAttrs)
    requires !Truthy(v) && !SkippedKey(key)
    ensures ChildNodes(TextEntry(v)) == []
    ensures ChildNodes(TagEntry(key, raw, [TextEntry(v)])) == []
  {
  }

  /** An element whose only sub-entry is a comment or another element yields
      nothing at all. */
  lemma {:induction false} SoleNonTextChildYieldsNothing(key: string, raw: RawAttrs, only: Entry)
    requires !SkippedKey(key) && (only.CommentEntry? || only.TagEntry?)
    ensures ChildNodes(TagEntry(key, raw, [only])) == []
  {
  }

  /** An element whose only sub-entry is CDATA becomes a bare cdata node: its
      name and attributes are lost, and the text is kept raw, untrimmed. */
  lemma {:induction false} CDataElementLosesNameAndAttrs(key: string, raw: RawAttrs, data: string)
    requires !SkippedKey(key)
    ensures ChildNodes(TagEntry(key, raw, [CDataEntry(data)])) == [CData(data)]
  {
  }

  /** CDATA among other sub-entries is not converted at all, and neither is
      text or CDATA at the top level. */
  lemma {:induction false} StrayEntriesYieldNothing(data: string, v: Scalar)
    ensures ChildNodes(CDataEntry(data)) == []
    ensures TopNodes(TextEntry(v)) == [] && TopNodes(CDataEntry(data)) == []
  {
  }

  /** A top-level element is an object node whatever its content, where the
      same element nested would be a scalar. */
  lemma {:induction false} TopLevelElementIsObject(key: string, raw: RawAttrs, v: Scalar)
    requires !SkippedKey(key) && Truthy(v)
    ensures TopNodes(TagEntry(key, raw, [TextEntry(v)]))
         == [Object(Some(key), Some(AttrsFromRaw(raw)), [Text(ValueToString(v))])]
    ensures ChildNodes(TagEntry(key, raw, [TextEntry(v)]))
         == [ScalarNode(Some(key), Some(AttrsFromRaw(raw)), TrimScalar(v))]
  {
    ChildrenOfOne(TextEntry(v));
  }

  // ------------------------------------------- the repository's test cases

  /** An element name that starts with neither '?' nor '#' is converted. */
  lemma {:induction false} PlainKey(key: string)
    requires key != [] && key[0] != '?' && key[0] != '#' && key != ":@"
    ensures !SkippedKey(key)
  {
    assert key[..1][0] == key[0];
  }

  lemma {:induction false} ChildrenOfOne(e: Entry)
    ensures Children([e]) == ChildNodes(e)
  {
    assert [e][..0] == [];
  }

  lemma {:induction false} DocRootOfOne(e: Entry)
    ensures DocRoot([e]) == TopNodes(e)
  {
    assert [e][..0] == [];
  }

  /** `<root/>` and `<root2></root2>` give two empty named objects and no metadata. */
  lemma RootWithoutContent()
    ensures DocRoot([TagEntry("root", [], []), TagEntry("root2", [], [])])
         == [Object(Some("root"), Some([]), []), Object(Some("root2"), Some([]), [])]
    ensures DocMetadata([TagEntry("root", [], []), TagEntry("root2", [], [])]) == map[]
  {
    var a, b := TagEntry("root", [], []), TagEntry("root2", [], []);
    assert [a, b] == [a] + [b];
    DocRootAppend([a], [b]);
    DocRootOfOne(a);
    DocRootOfOne(b);
    PlainKey("root");
    PlainKey("root2");
    assert [a, b][..1] == [a];
    assert [a][..0] == [];
  }

  lemma {:induction false} DocRootOfTwo(a: Entry, b: Entry)
    ensures DocRoot([a, b]) == TopNodes(a) + TopNodes(b)
  {
    assert [a, b] == [a] + [b];
    DocRootAppend([a], [b]);
    DocRootOfOne(a);
    DocRootOfOne(b);
  }

  /** A string literal of the test cases, cut into its padding and its
      trimmed middle, trims to that middle. */
  lemma {:induction false} TrimLiteral(s: string, a: string, m: string, b: string)
    requires s == a + m + b && AllWhitespace(a) && AllWhitespace(b) && Trimmed(m)
    ensures Trim(s) == m
  {
    TrimOfPadded(a, m, b);
  }

  lemma StudentDetailsComment()
    ensures TopNodes(CommentEntry(" Student details   ")) == [Comment("Student details")]
  {
    TrimLiteral(" Student details   ", " ", "Student details", "   ");
  }

  lemma BlankComment()
    ensures TopNodes(CommentEntry("  ")) == [Comment("")]
  {
    TrimLiteral("  ", "  ", "", "");
  }

  /** `<!-- Student details   --><!--  -->` gives two trimmed comments, in order. */
  lemma RootComments()
    ensures DocRoot([CommentEntry(" Student details   "), CommentEntry("  ")])
         == [Comment("Student details"), Comment("")]
  {
    DocRootOfTwo(CommentEntry(" Student details   "), CommentEntry("  "));
    StudentDetailsComment();
    BlankComment();
  }

  /** `<?xml version="1.0"?>` is stored in the metadata under "?xml" with its
      converted attributes and adds nothing to the root. */
  lemma XmlDeclarationGoesToMetadata()
    ensures DocRoot([TagEntry("?xml", [("@_version", Num(1))], [])]) == []
    ensures DocMetadata([TagEntry("?xml", [("@_version", Num(1))], [])])
         == map["?xml" := [("version", Num(1))]]
  {
    var raw := [("@_version", Num(1))];
    assert raw[..0] == [];
    assert StripPrefix("@_version") == "version";
    assert [TagEntry("?xml", raw, [])][..0] == [];
  }

  lemma {:induction false} ChildrenOfThree(a: Entry, b: Entry, c: Entry)
    ensures Children([a, b, c]) == ChildNodes(a) + ChildNodes(b) + ChildNodes(c)
  {
    assert [a, b, c] == [a] + [b] + [c];
    ChildrenAppend([a] + [b], [c]);
    ChildrenAppend([a], [b]);
    ChildrenOfOne(a);
    ChildrenOfOne(b);
    ChildrenOfOne(c);
  }

  /** The number 23 read from text renders as "23". */
  lemma TwentyThreeText()
    ensures ChildNodes(TextEntry(Num(23))) == [Text("23")]
  {
    assert NatToDecimal(2) == "2";
    assert NumberToString(23) == "23";
    TrimOfTrimmed("23");
  }

  /** `id="22" id="name"`: the later duplicate wins. The tokenizer's ":@" is
      itself a JavaScript object, so there the later `id` has already replaced
      the earlier one and `convertAttributes` sees a single `@_id`; `RawAttrs`
      is the wider input of a list that may repeat a key, and on it the
      adapter's own assignment gives the same record. */
  lemma DuplicateAttribute()
    ensures AttrsFromRaw([("@_id", Num(22)), ("@_id", Str("name"))]) == [("id", Str("name"))]
  {
    var raw := [("@_id", Num(22)), ("@_id", Str("name"))];
    assert StripPrefix("@_id") == "id";
    assert raw[..1] == [("@_id", Num(22))];
    assert raw[..1][..0] == [];
  }

  lemma {:induction false} SoleText(key: string, raw: RawAttrs, attrs: Attrs, s: string, t: string)
    requires !SkippedKey(key) && s != "" && Trim(s) == t && AttrsFromRaw(raw) == attrs
    ensures ChildNodes(TagEntry(key, raw, [TextEntry(Str(s))])) == [ScalarNode(Some(key), Some(attrs), Str(t))]
  {
    TopLevelElementIsObject(key, raw, Str(s));
  }

  lemma {:induction false} SoleTrimmedText(key: string, raw: RawAttrs, attrs: Attrs, t: string)
    requires !SkippedKey(key) && t != "" && Trimmed(t) && AttrsFromRaw(raw) == attrs
    ensures ChildNodes(TagEntry(key, raw, [TextEntry(Str(t))])) == [ScalarNode(Some(key), Some(attrs), Str(t))]
  {
    TrimOfTrimmed(t);
    SoleText(key, raw, attrs, t, t);
  }

  lemma SubitemWithAttrs()
    ensures ChildNodes(TagEntry("subitem", [("@_id", Num(22)), ("@_id", Str("name"))], [TextEntry(Str("sub"))]))
         == [ScalarNode(Some("subitem"), Some([("id", Str("name"))]), Str("sub"))]
  {
    PlainKey("subitem");
    DuplicateAttribute();
    SoleTrimmedText("subitem", [("@_id", Num(22)), ("@_id", Str("name"))], [("id", Str("name"))], "sub");
  }

  lemma PaddedSubitem()
    ensures ChildNodes(TagEntry("subitem", [], [TextEntry(Str("   sub   "))]))
         == [ScalarNode(Some("subitem"), Some([]), Str("sub"))]
  {
    PlainKey("subitem");
    assert Trim("   sub   ") == "sub" by {
      TrimLiteral("   sub   ", "   ", "sub", "   ");
    }
    SoleText("subitem", [], [], "   sub   ", "sub");
  }

  /** The children of `<item id:a=" 1">` in the repository's "parse root node"
      case: the number 23 read from the text renders back as "23", the later of
      two `id` attributes wins, and a padded text value is trimmed. */
  lemma ParseRootNodeItem()
    ensures Children([TextEntry(Num(23)),
                      TagEntry("subitem", [("@_id", Num(22)), ("@_id", Str("name"))], [TextEntry(Str("sub"))]),
                      TagEntry("subitem", [], [TextEntry(Str("   sub   "))])])
         == [Text("23"),
             ScalarNode(Some("subitem"), Some([("id", Str("name"))]), Str("sub")),
             ScalarNode(Some("subitem"), Some([]), Str("sub"))]
  {
    ChildrenOfThree(TextEntry(Num(23)),
                    TagEntry("subitem", [("@_id", Num(22)), ("@_id", Str("name"))], [TextEntry(Str("sub"))]),
                    TagEntry("subitem", [], [TextEntry(Str("   sub   "))]));
    TwentyThreeText();
    SubitemWithAttrs();
    PaddedSubitem();
  }

  lemma HelloText()
    ensures ChildNodes(TextEntry(Str("Hello "))) == [Text("Hello")]
  {
    assert Trim("Hello ") == "Hello" by {
      TrimLiteral("Hello ", "", "Hello", " ");
    }
  }

  lemma BangsText()
    ensures ChildNodes(TextEntry(Str(" !!"))) == [Text("!!")]
  {
    assert Trim(" !!") == "!!" by {
      TrimLiteral(" !!", " ", "!!", "");
    }
  }

  lemma WorldElement()
    ensures ChildNodes(TagEntry("b", [], [TextEntry(Str("World"))])) == [ScalarNode(Some("b"), Some([]), Str("World"))]
  {
    PlainKey("b");
    SoleTrimmedText("b", [], [], "World");
  }

  /** `Hello <b>World</b> !!`: text and elements stay interleaved in source
      order, text trimmed. */
  lemma MixedContent()
    ensures Children([TextEntry(Str("Hello ")), TagEntry("b", [], [TextEntry(Str("World"))]), TextEntry(Str(" !!"))])
         == [Text("Hello"), ScalarNode(Some("b"), Some([]), Str("World")), Text("!!")]
  {
    ChildrenOfThree(TextEntry(Str("Hello ")), TagEntry("b", [], [TextEntry(Str("World"))]), TextEntry(Str(" !!")));
    HelloText();
    WorldElement();
    BangsText();
  }

  /** `<id:a><![CDATA[abc]]></id:a>` and `<a><![CDATA[abc]]></a>` both give a
      bare cdata node. */
  lemma CDataChildren()
    ensures Children([TagEntry("id:a", [], [CDataEntry("abc")]), TagEntry("a", [], [CDataEntry("abc")])])
         == [CData("abc"), CData("abc")]
  {
    var a, b := TagEntry("id:a", [], [CDataEntry("abc")]), TagEntry("a", [], [CDataEntry("abc")]);
    assert [a, b] == [a] + [b];
    ChildrenAppend([a], [b]);
    ChildrenOfOne(a);
    ChildrenOfOne(b);
    PlainKey("id:a");
    PlainKey("a");
  }
}
