/**
 * `serializeAST` (src/util/textWithEntitiesToAST.ts): a node forest is
 * flattened into message text and a list of entities.  The text and the
 * entities, in the order they are pushed (children before their container),
 * are the functions `SerializedText` and `Emitted`; the class `Serializer`
 * holds the two closure variables `resultText` and `entities` that the
 * recursive `processNodes` appends to.  The code never reads the `content`
 * of a Code node, so its methods compute these functions of the forest as
 * it is read (`ContentIgnored`); `Serialize` is the serializer that reads
 * the content, and `AsWrittenAgrees` relates the two.
 */
module Serializer {
  import opened Ast

  /** The text a node appends to `resultText`. */
  function NodeText(n: Node): (t: Utf16)
    ensures n.TextNode? || n.EmojiNode? || n.CustomEmojiNode? ==> t == LeafContent(n)
    decreases n, 1
  {
    match n
    case TextNode(c) => c
    case EmojiNode(c) => c
    case CustomEmojiNode(_, c) => c
    case CodeNode(CodeContent(raw)) => raw
    case CodeNode(CodeChildren(k)) => SerializedText(k)
    case PreNode(p, _, _) => p
    case FormattedNode(_, k) => SerializedText(k)
    case LinkNode(t, _, k) => if t == TextUrl then SerializedText(k) else []
    case MarkNode(_, _) => []
  }

  /** The text `processNodes(f)` appends. */
  function SerializedText(f: seq<Node>): Utf16
    decreases f, 0
  {
    if |f| == 0 then [] else NodeText(f[0]) + SerializedText(f[1..])
  }

  /** An entity with no `url`, `language` or `documentId`. */
  function Plain(kind: NodeType, offset: nat, length: nat): Entity
  {
    Entity(kind, offset, length, None, None, None)
  }

  /** The entities a node pushes, in push order, when its text starts at `start`. */
  function EmittedNode(n: Node, start: nat): seq<Entity>
    decreases n, 1
  {
    match n
    case TextNode(_) => []
    case EmojiNode(_) => []
    case CustomEmojiNode(d, c) => [Entity(CustomEmoji, start, |c|, None, None, d)]
    case CodeNode(CodeContent(raw)) => [Plain(Code, start, |raw|)]
    case CodeNode(CodeChildren(k)) => Emitted(k, start) + [Plain(Code, start, |SerializedText(k)|)]
    case PreNode(p, lang, _) => [Entity(Pre, start, |p|, None, lang, None)]
    case FormattedNode(t, k) => Emitted(k, start) + [Plain(t, start, |SerializedText(k)|)]
    case LinkNode(t, u, k) =>
      if t == TextUrl then
        Emitted(k, start) + [Entity(TextUrl, start, |SerializedText(k)|, Some(if u.Some? then u.value else ""), None, None)]
      else []
    case MarkNode(_, _) => []
  }

  /** The entities `processNodes(f)` pushes when `resultText` has length `start`. */
  function Emitted(f: seq<Node>, start: nat): seq<Entity>
    decreases f, 0
  {
    if |f| == 0 then [] else EmittedNode(f[0], start) + Emitted(f[1..], start + |NodeText(f[0])|)
  }

  lemma {:induction false} SerializedTextAppend(a: seq<Node>, b: seq<Node>)
    ensures SerializedText(a + b) == SerializedText(a) + SerializedText(b)
    decreases |a|
  {
    if |a| == 0 {
      assert a + b == b;
    } else {
      assert (a + b)[1..] == a[1..] + b;
      SerializedTextAppend(a[1..], b);
    }
  }

  lemma {:induction false} EmittedAppend(a: seq<Node>, b: seq<Node>, start: nat)
    ensures Emitted(a + b, start) == Emitted(a, start) + Emitted(b, start + |SerializedText(a)|)
    decreases |a|
  {
    if |a| == 0 {
      assert a + b == b;
    } else {
      assert (a + b)[1..] == a[1..] + b;
      EmittedAppend(a[1..], b, start + |NodeText(a[0])|);
    }
  }

  lemma ElementSize(f: seq<Node>, i: nat)
    requires i < |f|
    ensures NodeSize(f[i]) <= ForestSize(f)
  {
    assert f == f[..i] + [f[i]] + f[i + 1..];
    ForestSizeAppend(f[..i] + [f[i]], f[i + 1..]);
    ForestSizeAppend(f[..i], [f[i]]);
  }

  /** The text and entities of a suffix are those of its first node followed by the rest. */
  lemma SuffixStep(f: seq<Node>, i: nat, start: nat)
    requires i < |f|
    ensures SerializedText(f[i..]) == NodeText(f[i]) + SerializedText(f[i + 1..])
    ensures Emitted(f[i..], start) == EmittedNode(f[i], start) + Emitted(f[i + 1..], start + |NodeText(f[i])|)
  {
    assert f[i..][1..] == f[i + 1..];
  }

  /** Every entity `serializeAST` emits lies inside the text it emits. */
  lemma {:induction false} EmittedWithinText(f: seq<Node>, start: nat)
    ensures forall e :: e in Emitted(f, start) ==>
              start <= e.offset && e.offset + e.length <= start + |SerializedText(f)|
    decreases f, 0
  {
    if |f| > 0 {
      EmittedNodeWithinText(f[0], start);
      EmittedWithinText(f[1..], start + |NodeText(f[0])|);
    }
  }

  lemma {:induction false} EmittedNodeWithinText(n: Node, start: nat)
    ensures forall e :: e in EmittedNode(n, start) ==>
              start <= e.offset && e.offset + e.length <= start + |NodeText(n)|
    decreases n, 1
  {
    match n
    case CodeNode(CodeChildren(k)) => EmittedWithinText(k, start);
    case FormattedNode(_, k) => EmittedWithinText(k, start);
    case LinkNode(_, _, k) => EmittedWithinText(k, start);
    case _ =>
  }

  /** The closure state of `serializeAST`. */
  class Serializer {
    var resultText: Utf16
    var entities: seq<Entity>

    constructor ()
      ensures resultText == [] && entities == []
    {
      resultText := [];
      entities := [];
    }

    /**
     * `processNodes`: appends the text and the entities of `nodes` as the
     * code reads them, that is, with the content of Code nodes ignored.
     */
    method ProcessNodes(nodes: seq<Node>)
      modifies this
      ensures resultText == old(resultText) + SerializedText(ContentIgnored(nodes))
      ensures entities == old(entities) + Emitted(ContentIgnored(nodes), |old(resultText)|)
      decreases ForestSize(nodes), 1
    {
      ghost var t0, e0 := resultText, entities;
      ghost var read := ContentIgnored(nodes);
      var i := 0;
      while i < |nodes|
        invariant 0 <= i <= |nodes|
        invariant resultText + SerializedText(read[i..]) == t0 + SerializedText(read)
        invariant entities + Emitted(read[i..], |resultText|) == e0 + Emitted(read, |t0|)
      {
        ElementSize(nodes, i);
        ContentIgnoredAt(nodes, i);
        SuffixStep(read, i, |resultText|);
        ghost var t1, e1 := resultText, entities;
        ProcessNode(nodes[i]);
        Associative(t1, NodeText(read[i]), SerializedText(read[i + 1..]));
        Associative(e1, EmittedNode(read[i], |t1|), Emitted(read[i + 1..], |resultText|));
        i := i + 1;
      }
    }

    /**
     * One iteration of the loop of `processNodes`: the `switch` on the node
     * type.  A Code node processes `children || []`; its `content` is never read.
     */
    method ProcessNode(node: Node)
      modifies this
      ensures resultText == old(resultText) + NodeText(NodeContentIgnored(node))
      ensures entities == old(entities) + EmittedNode(NodeContentIgnored(node), |old(resultText)|)
      decreases NodeSize(node), 0
    {
      var start := |resultText|;
      KidsSmaller(node);
      match node {
        case TextNode(c) =>
          resultText := resultText + c;
        case EmojiNode(c) =>
          resultText := resultText + c;
        case CodeNode(body) =>
          var children := if body.CodeChildren? then body.nodes else [];
          ProcessNodes(children);
          entities := entities + [Plain(Code, start, |resultText| - start)];
        case PreNode(p, lang, _) =>
          resultText := resultText + p;
          entities := entities + [Entity(Pre, start, |p|, None, lang, None)];
        case LinkNode(t, u, k) =>
          if t == TextUrl {
            ProcessNodes(k);
            entities := entities + [Entity(TextUrl, start, |resultText| - start,
                                           Some(if u.Some? then u.value else ""), None, None)];
          }
        case CustomEmojiNode(d, c) =>
          resultText := resultText + c;
          entities := entities + [Entity(CustomEmoji, start, |c|, None, None, d)];
        case FormattedNode(t, k) =>
          ProcessNodes(k);
          entities := entities + [Plain(t, start, |resultText| - start)];
        case MarkNode(_, _) =>
      }
    }
  }

  /** Lexicographic order on sort keys. */
  predicate KeyLess(a: (int, int), b: (int, int))
  {
    a.0 < b.0 || (a.0 == b.0 && a.1 < b.1)
  }

  /** Inserts `x` after every element whose key is not greater than its own. */
  function Insert(s: seq<Entity>, x: Entity, key: Entity -> (int, int)): (r: seq<Entity>)
    ensures multiset(r) == multiset(s) + multiset{x}
    ensures |r| == |s| + 1
  {
    if |s| == 0 then [x]
    else if KeyLess(key(x), key(s[0])) then [x] + s
    else
      assert s == [s[0]] + s[1..];
      [s[0]] + Insert(s[1..], x, key)
  }

  /** An insertion sort by `key`, standing for `Array.prototype.sort` with a comparator. */
  function SortBy(s: seq<Entity>, key: Entity -> (int, int)): (r: seq<Entity>)
    ensures |r| == |s|
    decreases |s|
  {
    if |s| == 0 then [] else Insert(SortBy(s[..|s| - 1], key), s[|s| - 1], key)
  }

  predicate SortedBy(s: seq<Entity>, key: Entity -> (int, int))
  {
    forall i, j :: 0 <= i < j < |s| ==> !KeyLess(key(s[j]), key(s[i]))
  }

  lemma {:induction false} InsertSorted(s: seq<Entity>, x: Entity, key: Entity -> (int, int))
    requires SortedBy(s, key)
    ensures SortedBy(Insert(s, x, key), key)
    decreases |s|
  {
    if |s| > 0 && !KeyLess(key(x), key(s[0])) {
      InsertSorted(s[1..], x, key);
      var r := Insert(s, x, key);
      assert r == [s[0]] + Insert(s[1..], x, key);
      forall e | e in Insert(s[1..], x, key) ensures !KeyLess(key(e), key(s[0])) {
        assert e in multiset(Insert(s[1..], x, key));
        assert e == x || e in s[1..];
      }
      forall i, j | 0 <= i < j < |r| ensures !KeyLess(key(r[j]), key(r[i])) {
        if i == 0 {
          assert r[j] in Insert(s[1..], x, key);
        }
      }
    }
  }

  /** `SortBy` orders by `key` and keeps every element. */
  lemma {:induction false} SortByCorrect(s: seq<Entity>, key: Entity -> (int, int))
    ensures SortedBy(SortBy(s, key), key)
    ensures multiset(SortBy(s, key)) == multiset(s)
    decreases |s|
  {
    if |s| > 0 {
      SortByCorrect(s[..|s| - 1], key);
      InsertSorted(SortBy(s[..|s| - 1], key), s[|s| - 1], key);
      assert s == s[..|s| - 1] + [s[|s| - 1]];
    }
  }

  /** The comparator of `serializeAST`: offset ascending, then length descending. */
  function SerializeOrder(e: Entity): (int, int)
  {
    (e.offset, 0 - e.length)
  }

  /**
   * `serializeAST`: the text and sorted entities of the forest as the code
   * reads it; where no Code node holds raw content this is `Serialize`.
   */
  method SerializeAst(ast: seq<Node>) returns (r: FormattedText)
    ensures r == SerializeAsWritten(ast)
    ensures NoCodeContent(ast) ==> r == Serialize(ast)
  {
    var s := new Serializer();
    s.ProcessNodes(ast);
    assert s.resultText == SerializedText(ContentIgnored(ast)) && s.entities == Emitted(ContentIgnored(ast), 0);
    r := FormattedText(s.resultText, Some(SortBy(s.entities, SerializeOrder)));
    if NoCodeContent(ast) {
      AsWrittenAgrees(ast);
    }
  }

  /** The result of `serializeAST(ast)`. */
  function Serialize(ast: seq<Node>): FormattedText
  {
    FormattedText(SerializedText(ast), Some(SortBy(Emitted(ast, 0), SerializeOrder)))
  }

  lemma SerializeText(ast: seq<Node>)
    ensures Serialize(ast).text == SerializedText(ast)
  {
  }

  /**
   * The serialized entities are ordered by offset and, at one offset, the
   * longer first; they are the pushed entities, each lying within the text.
   */
  lemma SerializeProperties(ast: seq<Node>)
    ensures var r := Serialize(ast);
      r.entities.Some?
      && SortedBy(r.entities.value, SerializeOrder)
      && multiset(r.entities.value) == multiset(Emitted(ast, 0))
      && forall e :: e in r.entities.value ==> e.offset + e.length <= |r.text|
  {
    SortByCorrect(Emitted(ast, 0), SerializeOrder);
    EmittedWithinText(ast, 0);
    var es := SortBy(Emitted(ast, 0), SerializeOrder);
    forall e | e in es ensures e.offset + e.length <= |SerializedText(ast)| {
      assert e in multiset(es);
    }
  }

  /**
   * The forest as `serializeAST` as written reads it: for a `Code` node it
   * processes `children || []` and never reads `content`, so a Code node
   * that holds only content reads as one with no children.
   */
  function ContentIgnored(f: seq<Node>): (r: seq<Node>)
    ensures |r| == |f|
    decreases f, 0
  {
    if |f| == 0 then [] else [NodeContentIgnored(f[0])] + ContentIgnored(f[1..])
  }

  /** The forest read by `serializeAST` holds, at each position, the node read from there. */
  lemma {:induction false} ContentIgnoredAt(f: seq<Node>, i: nat)
    requires i < |f|
    ensures ContentIgnored(f)[i] == NodeContentIgnored(f[i])
    decreases i
  {
    if i > 0 {
      ContentIgnoredAt(f[1..], i - 1);
      assert f[1..][i - 1] == f[i];
    }
  }

  function NodeContentIgnored(n: Node): Node
    decreases n, 1
  {
    match n
    case CodeNode(CodeContent(_)) => CodeNode(CodeChildren([]))
    case CodeNode(CodeChildren(k)) => CodeNode(CodeChildren(ContentIgnored(k)))
    case PreNode(p, l, Present(k)) => PreNode(p, l, Present(ContentIgnored(k)))
    case FormattedNode(t, k) => FormattedNode(t, ContentIgnored(k))
    case LinkNode(t, u, k) => LinkNode(t, u, ContentIgnored(k))
    case MarkNode(m, Present(k)) => MarkNode(m, Present(ContentIgnored(k)))
    case _ => n
  }

  /** `serializeAST` as written. */
  function SerializeAsWritten(ast: seq<Node>): FormattedText
  {
    Serialize(ContentIgnored(ast))
  }

  /** No `Code` node of the forest holds raw content. */
  predicate NoCodeContent(f: seq<Node>)
    decreases f, 0
  {
    forall i :: 0 <= i < |f| ==> NodeNoCodeContent(f[i])
  }

  predicate NodeNoCodeContent(n: Node)
    decreases n, 1
  {
    match n
    case CodeNode(CodeContent(_)) => false
    case CodeNode(CodeChildren(k)) => NoCodeContent(k)
    case PreNode(_, _, Present(k)) => NoCodeContent(k)
    case FormattedNode(_, k) => NoCodeContent(k)
    case LinkNode(_, _, k) => NoCodeContent(k)
    case MarkNode(_, Present(k)) => NoCodeContent(k)
    case _ => true
  }

  /** Where no Code node holds raw content, the serializer as written and the corrected one agree. */
  lemma {:induction false} AsWrittenAgrees(f: seq<Node>)
    requires NoCodeContent(f)
    ensures ContentIgnored(f) == f
    ensures SerializeAsWritten(f) == Serialize(f)
    decreases f, 0
  {
    if |f| > 0 {
      NodeAsWrittenAgrees(f[0]);
      AsWrittenAgrees(f[1..]);
      assert f == [f[0]] + f[1..];
    }
  }

  lemma {:induction false} NodeAsWrittenAgrees(n: Node)
    requires NodeNoCodeContent(n)
    ensures NodeContentIgnored(n) == n
    decreases n, 1
  {
    match n
    case CodeNode(CodeChildren(k)) => AsWrittenAgrees(k);
    case PreNode(_, _, Present(k)) => AsWrittenAgrees(k);
    case FormattedNode(_, k) => AsWrittenAgrees(k);
    case LinkNode(_, _, k) => AsWrittenAgrees(k);
    case MarkNode(_, Present(k)) => AsWrittenAgrees(k);
    case _ =>
  }

  /**
   * A Code node as the builder creates it, `{type: Code, content: "ab"}`,
   * serializes to empty text and a zero-length Code entity as written, and
   * to `"ab"` with a Code entity over it when its content is read.
   */
  lemma CodeContentLost()
    ensures SerializeAsWritten([CodeNode(CodeContent([0x61, 0x62]))])
            == FormattedText([], Some([Plain(Code, 0, 0)]))
    ensures Serialize([CodeNode(CodeContent([0x61, 0x62]))])
            == FormattedText([0x61, 0x62], Some([Plain(Code, 0, 2)]))
  {
    var ast := [CodeNode(CodeContent([0x61, 0x62]))];
    assert ContentIgnored(ast) == [CodeNode(CodeChildren([]))];
    assert Emitted(ContentIgnored(ast), 0) == [Plain(Code, 0, 0)];
    assert Emitted(ast, 0) == [Plain(Code, 0, 2)];
  }
}
