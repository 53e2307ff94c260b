/**
 * `splitTree` (src/util/astEditor.ts): the forest is cut at a set of
 * positions into consecutive parts, each a copy of the forest restricted
 * to one window.  Positions are counted by `getTextLength`: text, code and
 * pre content by length, an emoji or custom emoji as 2, a container as the
 * sum over its children.
 *
 * `getTextLength` reads `content.length` on every code node, so a code node
 * that holds children instead of content makes it throw; the forest is then
 * not `Measurable`, and `splitTree` throws when it first measures the whole
 * forest.
 */
module SplitTree {
  import opened Ast
  import opened Serializer

  /** `getTextLength(n)` does not throw. */
  predicate Measurable(n: Node)
    decreases n, 1
  {
    match n
    case CodeNode(b) => b.CodeContent?
    case FormattedNode(_, k) => AllMeasurable(k)
    case LinkNode(_, _, k) => AllMeasurable(k)
    case MarkNode(_, Present(k)) => AllMeasurable(k)
    case _ => true
  }

  predicate AllMeasurable(f: seq<Node>)
    decreases f, 0
  {
    forall i :: 0 <= i < |f| ==> Measurable(f[i])
  }

  /** `getTextLength`. */
  function GetTextLength(n: Node): nat
    requires Measurable(n)
    decreases n, 1
  {
    match n
    case TextNode(c) => |c|
    case CustomEmojiNode(_, _) => 2
    case EmojiNode(_) => 2
    case CodeNode(b) => |b.raw|
    case PreNode(p, _, _) => |p|
    case FormattedNode(_, k) => SumLengths(k)
    case LinkNode(_, _, k) => SumLengths(k)
    case MarkNode(_, Present(k)) => SumLengths(k)
    case MarkNode(_, Absent) => 0
  }

  /** `nodes.reduce((sum, node) => sum + getTextLength(node), 0)`. */
  function SumLengths(f: seq<Node>): nat
    requires AllMeasurable(f)
    decreases f, 0
  {
    if |f| == 0 then 0 else GetTextLength(f[0]) + SumLengths(f[1..])
  }

  /** `Math.max(0, startIndex - runningIndex)`. */
  function StartCut(startIndex: nat, runningIndex: nat): nat
  {
    if startIndex > runningIndex then startIndex - runningIndex else 0
  }

  /** `Math.min(length, endIndex - runningIndex)`, where the node starts before `endIndex`. */
  function EndCut(length: nat, endIndex: nat, runningIndex: nat): nat
    requires runningIndex < endIndex
  {
    if endIndex - runningIndex < length then endIndex - runningIndex else length
  }

  /**
   * What `getTreeBetweenIndexes(nodes, s, e, run)` returns: the nodes that
   * end after `s`, up to the first that starts at or after `e`, each cut to
   * the window.
   */
  function Between(nodes: seq<Node>, s: nat, e: nat, run: nat): seq<Node>
    requires AllMeasurable(nodes)
    decreases nodes, 1
  {
    if |nodes| == 0 then []
    else
      var nodeEnd := run + GetTextLength(nodes[0]);
      if nodeEnd <= s then Between(nodes[1..], s, e, nodeEnd)
      else if run >= e then []
      else Piece(nodes[0], s, e, run) + Between(nodes[1..], s, e, nodeEnd)
  }

  /** The copy of one node that starts at `run` (before `e`) that goes into the window `[s, e)`. */
  function Piece(n: Node, s: nat, e: nat, run: nat): seq<Node>
    requires Measurable(n) && run < e
    decreases n, 0
  {
    match n
    case TextNode(c) => [TextNode(Slice(c, StartCut(s, run), EndCut(|c|, e, run)))]
    case CodeNode(b) => [CodeNode(CodeContent(Slice(b.raw, StartCut(s, run), EndCut(|b.raw|, e, run))))]
    case PreNode(p, l, c) => [PreNode(Slice(p, StartCut(s, run), EndCut(|p|, e, run)), l, c)]
    case EmojiNode(_) => if s <= run && e > run then [n] else []
    case CustomEmojiNode(_, _) => if s <= run && e > run then [n] else []
    case FormattedNode(f, k) =>
      var children := Between(k, s, e, run);
      if |children| > 0 then [FormattedNode(f, children)] else []
    case LinkNode(t, u, k) =>
      var children := Between(k, s, e, run);
      if |children| > 0 then [LinkNode(t, u, children)] else []
    case MarkNode(m, Present(k)) =>
      var children := Between(k, s, e, run);
      if |children| > 0 then [MarkNode(m, Present(children))] else []
    case MarkNode(_, Absent) => if s <= run && e > run then [n] else []
  }

  /** The loop of `getTreeBetweenIndexes` moves past one node. */
  lemma BetweenStep(nodes: seq<Node>, i: nat, s: nat, e: nat, run: nat)
    requires AllMeasurable(nodes) && i < |nodes|
    ensures var nodeEnd := run + GetTextLength(nodes[i]);
            Between(nodes[i..], s, e, run)
            == if nodeEnd <= s then Between(nodes[i + 1..], s, e, nodeEnd)
               else if run >= e then []
               else Piece(nodes[i], s, e, run) + Between(nodes[i + 1..], s, e, nodeEnd)
  {
    SuffixHead(nodes, i);
    BetweenUnfold(nodes[i..], nodes[i], nodes[i + 1..], s, e, run);
  }

  /** `Between` of a forest whose first node is `x` and whose other nodes are `tail`. */
  lemma BetweenUnfold(nodes: seq<Node>, x: Node, tail: seq<Node>, s: nat, e: nat, run: nat)
    requires AllMeasurable(nodes) && |nodes| > 0 && nodes[0] == x && nodes[1..] == tail
    ensures Measurable(x) && AllMeasurable(tail)
    ensures var nodeEnd := run + GetTextLength(x);
            Between(nodes, s, e, run)
            == if nodeEnd <= s then Between(tail, s, e, nodeEnd)
               else if run >= e then []
               else Piece(x, s, e, run) + Between(tail, s, e, nodeEnd)
  {
  }

  /** `getTreeBetweenIndexes`. */
  method GetTreeBetweenIndexes(nodes: seq<Node>, startIndex: nat, endIndex: nat, currentIndex: nat)
    returns (result: seq<Node>)
    requires AllMeasurable(nodes)
    ensures result == Between(nodes, startIndex, endIndex, currentIndex)
    decreases nodes, 1
  {
    result := [];
    var runningIndex: nat := currentIndex;
    var i := 0;
    while i < |nodes|
      invariant 0 <= i <= |nodes|
      invariant result + Between(nodes[i..], startIndex, endIndex, runningIndex)
                == Between(nodes, startIndex, endIndex, currentIndex)
    {
      var node := nodes[i];
      BetweenStep(nodes, i, startIndex, endIndex, runningIndex);
      var nodeLength := GetTextLength(node);
      var nodeEndIndex := runningIndex + nodeLength;
      if nodeEndIndex <= startIndex {
        runningIndex := nodeEndIndex;
        i := i + 1;
        continue;
      }
      if runningIndex >= endIndex {
        break;
      }
      var piece := CutNode(node, startIndex, endIndex, runningIndex);
      result := result + piece;
      runningIndex := nodeEndIndex;
      i := i + 1;
    }
    assert nodes[i..] == [] || Between(nodes[i..], startIndex, endIndex, runningIndex) == [];
  }

  /** The body of the loop of `getTreeBetweenIndexes` for a node that starts before `endIndex`. */
  method CutNode(node: Node, startIndex: nat, endIndex: nat, runningIndex: nat) returns (piece: seq<Node>)
    requires Measurable(node) && runningIndex < endIndex
    ensures piece == Piece(node, startIndex, endIndex, runningIndex)
    decreases node, 0
  {
    match node {
      case TextNode(c) =>
        piece := [TextNode(Slice(c, StartCut(startIndex, runningIndex), EndCut(|c|, endIndex, runningIndex)))];
      case CodeNode(b) =>
        piece := [CodeNode(CodeContent(Slice(b.raw, StartCut(startIndex, runningIndex), EndCut(|b.raw|, endIndex, runningIndex))))];
      case PreNode(p, l, c) =>
        piece := [PreNode(Slice(p, StartCut(startIndex, runningIndex), EndCut(|p|, endIndex, runningIndex)), l, c)];
      case EmojiNode(_) =>
        piece := if startIndex <= runningIndex && endIndex > runningIndex then [node] else [];
      case CustomEmojiNode(_, _) =>
        piece := if startIndex <= runningIndex && endIndex > runningIndex then [node] else [];
      case FormattedNode(f, k) =>
        var children := GetTreeBetweenIndexes(k, startIndex, endIndex, runningIndex);
        piece := if |children| > 0 then [FormattedNode(f, children)] else [];
      case LinkNode(t, u, k) =>
        var children := GetTreeBetweenIndexes(k, startIndex, endIndex, runningIndex);
        piece := if |children| > 0 then [LinkNode(t, u, children)] else [];
      case MarkNode(m, Present(k)) =>
        var children := GetTreeBetweenIndexes(k, startIndex, endIndex, runningIndex);
        piece := if |children| > 0 then [MarkNode(m, Present(children))] else [];
      case MarkNode(_, Absent) =>
        piece := if startIndex <= runningIndex && endIndex > runningIndex then [node] else [];
    }
  }

  /** `[0, ...uniqueSplits, totalLength]` for the two split indexes `a` and `b`. */
  function AllSplits(a: nat, b: nat, totalLength: nat): seq<nat>
  {
    var uniqueSplits := if a == b then [a] else if a < b then [a, b] else [b, a];
    [0] + uniqueSplits + [totalLength]
  }

  /** The non-empty windows between consecutive splits from `splits[i]` on. */
  function PartsFrom(tree: seq<Node>, splits: seq<nat>, i: nat): (r: seq<seq<Node>>)
    requires AllMeasurable(tree) && i < |splits|
    ensures forall j :: 0 <= j < |r| ==> |r[j]| > 0
    ensures |r| < |splits| - i
    decreases |splits| - i
  {
    if i + 1 == |splits| then []
    else
      var part := Between(tree, splits[i], splits[i + 1], 0);
      (if |part| > 0 then [part] else []) + PartsFrom(tree, splits, i + 1)
  }

  lemma PartsStep(tree: seq<Node>, splits: seq<nat>, i: nat)
    requires AllMeasurable(tree) && i + 1 < |splits|
    ensures var part := Between(tree, splits[i], splits[i + 1], 0);
            PartsFrom(tree, splits, i) == (if |part| > 0 then [part] else []) + PartsFrom(tree, splits, i + 1)
  {
  }

  /** What `splitTree(tree, [a, b])` returns. */
  function Split(tree: seq<Node>, a: nat, b: nat): Outcome<seq<seq<Node>>>
  {
    if !AllMeasurable(tree) then Throws
    else Returns(PartsFrom(tree, AllSplits(a, b, SumLengths(tree)), 0))
  }

  /**
   * `splitTree(tree, [a, b])`, the only form in which the editor calls it.
   * Measuring the whole forest comes first and is where it throws.
   */
  method SplitTree(tree: seq<Node>, a: nat, b: nat) returns (r: Outcome<seq<seq<Node>>>)
    ensures r == Split(tree, a, b)
  {
    if !AllMeasurable(tree) {
      return Throws;
    }
    var totalLength := SumLengths(tree);
    var allSplits := AllSplits(a, b, totalLength);
    var result: seq<seq<Node>> := [];
    var i := 0;
    while i < |allSplits| - 1
      invariant 0 <= i < |allSplits|
      invariant result + PartsFrom(tree, allSplits, i) == PartsFrom(tree, allSplits, 0)
    {
      PartsStep(tree, allSplits, i);
      var treePart := GetTreeBetweenIndexes(tree, allSplits[i], allSplits[i + 1], 0);
      var head := if |treePart| > 0 then [treePart] else [];
      Associative(result, head, PartsFrom(tree, allSplits, i + 1));
      result := result + head;
      i := i + 1;
    }
    assert PartsFrom(tree, allSplits, i) == [];
    assert result + [] == result;
    r := Returns(result);
  }

  // ---------------------------------------------------------------------
  // Size: a part is never larger than the forest it was cut from
  // ---------------------------------------------------------------------

  lemma {:induction false} BetweenSize(nodes: seq<Node>, s: nat, e: nat, run: nat)
    requires AllMeasurable(nodes)
    ensures ForestSize(Between(nodes, s, e, run)) <= ForestSize(nodes)
    decreases nodes, 1
  {
    if |nodes| > 0 {
      var nodeEnd := run + GetTextLength(nodes[0]);
      BetweenSize(nodes[1..], s, e, nodeEnd);
      if nodeEnd > s && run < e {
        PieceSize(nodes[0], s, e, run);
        ForestSizeAppend(Piece(nodes[0], s, e, run), Between(nodes[1..], s, e, nodeEnd));
      }
    }
  }

  lemma {:induction false} PieceSize(n: Node, s: nat, e: nat, run: nat)
    requires Measurable(n) && run < e
    ensures ForestSize(Piece(n, s, e, run)) <= NodeSize(n)
    decreases n, 0
  {
    match n
    case FormattedNode(_, k) => BetweenSize(k, s, e, run);
    case LinkNode(_, _, k) => BetweenSize(k, s, e, run);
    case MarkNode(_, Present(k)) => BetweenSize(k, s, e, run);
    case _ =>
  }

  /** Every part of a split is no larger than the forest. */
  lemma {:induction false} PartsSize(tree: seq<Node>, splits: seq<nat>, i: nat)
    requires AllMeasurable(tree) && i < |splits|
    ensures forall j :: 0 <= j < |PartsFrom(tree, splits, i)| ==> ForestSize(PartsFrom(tree, splits, i)[j]) <= ForestSize(tree)
    decreases |splits| - i
  {
    if i + 1 < |splits| {
      BetweenSize(tree, splits[i], splits[i + 1], 0);
      PartsSize(tree, splits, i + 1);
    }
  }

  // ---------------------------------------------------------------------
  // Text: the parts of a split spell out the text of the forest
  // ---------------------------------------------------------------------

  function Clamp(v: int, length: nat): nat
  {
    if v < 0 then 0 else if v > length then length else v
  }

  /** The code units of `x` at positions `[a, b)`, positions outside `x` ignored. */
  function Cut(x: Utf16, a: int, b: int): Utf16
  {
    var lo, hi := Clamp(a, |x|), Clamp(b, |x|);
    if lo <= hi then x[lo..hi] else []
  }

  /**
   * The serialized text of the forest `f`, laid out from position `r`, that
   * falls inside `[s, e)`: content is cut to the window, an emoji is kept
   * when it starts inside it.
   */
  function Window(f: seq<Node>, s: nat, e: nat, r: nat): Utf16
    requires AllMeasurable(f)
    decreases f, 1
  {
    if |f| == 0 then [] else NodeWindow(f[0], s, e, r) + Window(f[1..], s, e, r + GetTextLength(f[0]))
  }

  function NodeWindow(n: Node, s: nat, e: nat, r: nat): Utf16
    requires Measurable(n)
    decreases n, 0
  {
    match n
    case TextNode(c) => Cut(c, s - r, e - r)
    case EmojiNode(c) => if s <= r < e then c else []
    case CustomEmojiNode(_, c) => if s <= r < e then c else []
    case CodeNode(b) => Cut(b.raw, s - r, e - r)
    case PreNode(p, _, _) => Cut(p, s - r, e - r)
    case FormattedNode(_, k) => Window(k, s, e, r)
    case LinkNode(t, _, k) => if t == TextUrl then Window(k, s, e, r) else []
    case MarkNode(_, _) => []
  }

  /** A node that ends by `s` or starts at or after `e` has no text in the window. */
  lemma {:induction false} NodeWindowOutside(n: Node, s: nat, e: nat, r: nat)
    requires Measurable(n) && (r + GetTextLength(n) <= s || r >= e)
    ensures NodeWindow(n, s, e, r) == []
    decreases n, 0
  {
    match n
    case FormattedNode(_, k) => WindowOutside(k, s, e, r);
    case LinkNode(_, _, k) => WindowOutside(k, s, e, r);
    case _ =>
  }

  lemma {:induction false} WindowOutside(f: seq<Node>, s: nat, e: nat, r: nat)
    requires AllMeasurable(f) && (r + SumLengths(f) <= s || r >= e)
    ensures Window(f, s, e, r) == []
    decreases f, 1
  {
    if |f| > 0 {
      NodeWindowOutside(f[0], s, e, r);
      WindowOutside(f[1..], s, e, r + GetTextLength(f[0]));
    }
  }

  /** The cut text of a window is its window text. */
  lemma {:induction false} BetweenWindow(nodes: seq<Node>, s: nat, e: nat, run: nat)
    requires AllMeasurable(nodes)
    ensures SerializedText(Between(nodes, s, e, run)) == Window(nodes, s, e, run)
    decreases nodes, 1
  {
    if |nodes| > 0 {
      var n := nodes[0];
      var nodeEnd := run + GetTextLength(n);
      if nodeEnd <= s {
        NodeWindowOutside(n, s, e, run);
        BetweenWindow(nodes[1..], s, e, nodeEnd);
      } else if run >= e {
        NodeWindowOutside(n, s, e, run);
        WindowOutside(nodes[1..], s, e, nodeEnd);
      } else {
        PieceWindow(n, s, e, run);
        BetweenWindow(nodes[1..], s, e, nodeEnd);
        SerializedTextAppend(Piece(n, s, e, run), Between(nodes[1..], s, e, nodeEnd));
      }
    }
  }

  lemma SliceIsCut(x: Utf16, s: nat, e: nat, run: nat)
    requires run < e && s < run + |x|
    ensures Slice(x, StartCut(s, run), EndCut(|x|, e, run)) == Cut(x, s - run, e - run)
  {
  }

  lemma {:induction false} PieceWindow(n: Node, s: nat, e: nat, run: nat)
    requires Measurable(n) && run < e && s < run + GetTextLength(n)
    ensures SerializedText(Piece(n, s, e, run)) == NodeWindow(n, s, e, run)
    decreases n, 0
  {
    match n
    case TextNode(c) => SliceIsCut(c, s, e, run); SingleText(Piece(n, s, e, run)[0]);
    case CodeNode(b) => SliceIsCut(b.raw, s, e, run); SingleText(Piece(n, s, e, run)[0]);
    case PreNode(p, _, _) => SliceIsCut(p, s, e, run); SingleText(Piece(n, s, e, run)[0]);
    case EmojiNode(_) => if s <= run { SingleText(n); }
    case CustomEmojiNode(_, _) => if s <= run { SingleText(n); }
    case FormattedNode(f, k) =>
      BetweenWindow(k, s, e, run);
      if |Between(k, s, e, run)| > 0 { SingleText(FormattedNode(f, Between(k, s, e, run))); }
    case LinkNode(t, u, k) =>
      BetweenWindow(k, s, e, run);
      if |Between(k, s, e, run)| > 0 { SingleText(LinkNode(t, u, Between(k, s, e, run))); }
    case MarkNode(m, Present(k)) =>
      if |Between(k, s, e, run)| > 0 { SingleText(MarkNode(m, Present(Between(k, s, e, run)))); }
    case MarkNode(_, Absent) => if s <= run { SingleText(n); }
  }

  lemma SingleText(n: Node)
    ensures SerializedText([n]) == NodeText(n)
  {
    assert [n][1..] == [];
  }

  lemma CutJoin(x: Utf16, a: int, b: int, c: int)
    requires a <= b <= c
    ensures Cut(x, a, b) + Cut(x, b, c) == Cut(x, a, c)
  {
    var lo, mid, hi := Clamp(a, |x|), Clamp(b, |x|), Clamp(c, |x|);
    assert x[lo..hi] == x[lo..mid] + x[mid..hi];
  }

  /** Two adjacent windows together hold the text of the window they make up. */
  lemma {:induction false} WindowJoin(f: seq<Node>, a: nat, b: nat, c: nat, r: nat)
    requires AllMeasurable(f) && a <= b <= c
    ensures Window(f, a, b, r) + Window(f, b, c, r) == Window(f, a, c, r)
    decreases f, 1
  {
    if |f| > 0 {
      var n := f[0];
      var r1 := r + GetTextLength(n);
      NodeWindowJoin(n, a, b, c, r);
      WindowJoin(f[1..], a, b, c, r1);
      if r1 <= b {
        NodeWindowOutside(n, b, c, r);
      } else {
        WindowOutside(f[1..], a, b, r1);
      }
      Interleave(NodeWindow(n, a, b, r), Window(f[1..], a, b, r1), NodeWindow(n, b, c, r), Window(f[1..], b, c, r1));
    }
  }

  /** Text of the first node in the second window can only follow text of the rest in the first when one is empty. */
  lemma Interleave<T>(p: seq<T>, q: seq<T>, u: seq<T>, v: seq<T>)
    requires q == [] || u == []
    ensures (p + q) + (u + v) == (p + u) + (q + v)
  {
    if q == [] {
      assert (p + q) + (u + v) == p + u + v;
    } else {
      assert (p + q) + (u + v) == p + q + v;
    }
  }

  lemma {:induction false} NodeWindowJoin(n: Node, a: nat, b: nat, c: nat, r: nat)
    requires Measurable(n) && a <= b <= c
    ensures NodeWindow(n, a, b, r) + NodeWindow(n, b, c, r) == NodeWindow(n, a, c, r)
    decreases n, 0
  {
    match n
    case TextNode(x) => CutWindowJoin(n, x, a, b, c, r);
    case CodeNode(body) => CutWindowJoin(n, body.raw, a, b, c, r);
    case PreNode(p, _, _) => CutWindowJoin(n, p, a, b, c, r);
    case EmojiNode(x) => PointJoin(x, a, b, c, r);
    case CustomEmojiNode(_, x) => PointJoin(x, a, b, c, r);
    case FormattedNode(_, k) =>
      WindowJoin(k, a, b, c, r);
      ChildrenWindow(n, k, a, b, r);
      ChildrenWindow(n, k, b, c, r);
      ChildrenWindow(n, k, a, c, r);
    case LinkNode(t, _, k) =>
      if t == TextUrl {
        WindowJoin(k, a, b, c, r);
        ChildrenWindow(n, k, a, b, r);
        ChildrenWindow(n, k, b, c, r);
        ChildrenWindow(n, k, a, c, r);
      }
    case MarkNode(_, _) =>
  }

  /** The window of a node holding content is that content cut to the window. */
  lemma CutWindowJoin(n: Node, x: Utf16, a: nat, b: nat, c: nat, r: nat)
    requires n.TextNode? || (n.CodeNode? && n.body.CodeContent?) || n.PreNode?
    requires x == (if n.TextNode? then n.text else if n.CodeNode? then n.body.raw else n.pre)
    requires a <= b <= c
    ensures NodeWindow(n, a, b, r) + NodeWindow(n, b, c, r) == NodeWindow(n, a, c, r)
  {
    assert NodeWindow(n, a, b, r) == Cut(x, a - r, b - r);
    assert NodeWindow(n, b, c, r) == Cut(x, b - r, c - r);
    assert NodeWindow(n, a, c, r) == Cut(x, a - r, c - r);
    CutJoin(x, a - r, b - r, c - r);
  }

  /** The window of a formatting container or a text link is the window of its children. */
  lemma ChildrenWindow(n: Node, k: seq<Node>, s: nat, e: nat, r: nat)
    requires (n.FormattedNode? && n.children == k) || (n.LinkNode? && n.link == TextUrl && n.linkChildren == k)
    requires AllMeasurable(k)
    ensures Measurable(n) && NodeWindow(n, s, e, r) == Window(k, s, e, r)
  {
  }

  /** An emoji at position `r` falls in exactly one of two adjacent windows, or in neither. */
  lemma PointJoin(x: Utf16, a: nat, b: nat, c: nat, r: nat)
    requires a <= b <= c
    ensures (if a <= r < b then x else []) + (if b <= r < c then x else []) == (if a <= r < c then x else [])
  {
    if a <= r < b {
      assert x + [] == x;
    } else {
      assert [] + (if b <= r < c then x else []) == (if b <= r < c then x else []);
    }
  }

  /** A window that covers the whole forest holds its whole text. */
  lemma {:induction false} WindowWhole(f: seq<Node>, s: nat, e: nat, r: nat)
    requires AllMeasurable(f) && s <= r && r + SumLengths(f) <= e
    ensures Window(f, s, e, r) == SerializedText(f)
    decreases f, 1
  {
    if |f| > 0 {
      NodeWindowWhole(f[0], s, e, r);
      WindowWhole(f[1..], s, e, r + GetTextLength(f[0]));
    }
  }

  lemma {:induction false} NodeWindowWhole(n: Node, s: nat, e: nat, r: nat)
    requires Measurable(n) && s <= r && r + GetTextLength(n) <= e
    ensures NodeWindow(n, s, e, r) == NodeText(n)
    decreases n, 0
  {
    match n
    case TextNode(x) => assert x[0..|x|] == x;
    case CodeNode(body) => assert body.raw[0..|body.raw|] == body.raw;
    case PreNode(p, _, _) => assert p[0..|p|] == p;
    case FormattedNode(_, k) => WindowWhole(k, s, e, r);
    case LinkNode(t, _, k) => if t == TextUrl { WindowWhole(k, s, e, r); }
    case _ =>
  }

  /** All parts, one after the other. */
  function Flatten(parts: seq<seq<Node>>): seq<Node>
  {
    if |parts| == 0 then [] else parts[0] + Flatten(parts[1..])
  }

  lemma {:induction false} FlattenAppend(p: seq<seq<Node>>, q: seq<seq<Node>>)
    ensures Flatten(p + q) == Flatten(p) + Flatten(q)
    decreases |p|
  {
    if |p| == 0 {
      assert p + q == q;
    } else {
      assert (p + q)[1..] == p[1..] + q;
      FlattenAppend(p[1..], q);
    }
  }

  /** The text of the parts from `splits[i]` on: the windows between consecutive splits. */
  function WindowsFrom(tree: seq<Node>, splits: seq<nat>, i: nat): Utf16
    requires AllMeasurable(tree) && i < |splits|
    decreases |splits| - i
  {
    if i + 1 == |splits| then []
    else Window(tree, splits[i], splits[i + 1], 0) + WindowsFrom(tree, splits, i + 1)
  }

  lemma {:induction false} PartsText(tree: seq<Node>, splits: seq<nat>, i: nat)
    requires AllMeasurable(tree) && i < |splits|
    ensures SerializedText(Flatten(PartsFrom(tree, splits, i))) == WindowsFrom(tree, splits, i)
    decreases |splits| - i
  {
    if i + 1 < |splits| {
      var part := Between(tree, splits[i], splits[i + 1], 0);
      var head := if |part| > 0 then [part] else [];
      var rest := PartsFrom(tree, splits, i + 1);
      assert PartsFrom(tree, splits, i) == head + rest;
      PartsText(tree, splits, i + 1);
      BetweenWindow(tree, splits[i], splits[i + 1], 0);
      FlattenAppend(head, rest);
      assert Flatten(head) == part by {
        if |part| > 0 {
          assert head[1..] == [];
        }
      }
      SerializedTextAppend(part, Flatten(rest));
    }
  }

  /**
   * The parts of `splitTree(tree, [a, b])` with `a <= b`, put back together,
   * serialize to the text of the forest: nothing is lost or repeated.
   */
  lemma SplitKeepsText(tree: seq<Node>, a: nat, b: nat)
    requires a <= b
    ensures Split(tree, a, b).Returns? ==>
              SerializedText(Flatten(Split(tree, a, b).value)) == SerializedText(tree)
  {
    if AllMeasurable(tree) {
      var t := SumLengths(tree);
      PartsText(tree, AllSplits(a, b, t), 0);
      if a == b {
        assert AllSplits(a, b, t) == [0, a, t];
        OneSplitText(tree, a);
      } else {
        assert AllSplits(a, b, t) == [0, a, b, t];
        TwoSplitsText(tree, a, b);
      }
    }
  }

  lemma OneSplitText(tree: seq<Node>, a: nat)
    requires AllMeasurable(tree)
    ensures WindowsFrom(tree, [0, a, SumLengths(tree)], 0) == SerializedText(tree)
  {
    var t := SumLengths(tree);
    var splits := [0, a, t];
    assert WindowsFrom(tree, splits, 2) == [];
    assert WindowsFrom(tree, splits, 0) == Window(tree, 0, a, 0) + Window(tree, a, t, 0);
    if a <= t {
      WindowJoin(tree, 0, a, t, 0);
      WindowWhole(tree, 0, t, 0);
    } else {
      WindowWhole(tree, 0, a, 0);
      WindowOutside(tree, a, t, 0);
    }
  }

  lemma TwoSplitsText(tree: seq<Node>, a: nat, b: nat)
    requires AllMeasurable(tree) && a < b
    ensures WindowsFrom(tree, [0, a, b, SumLengths(tree)], 0) == SerializedText(tree)
  {
    var t := SumLengths(tree);
    var splits := [0, a, b, t];
    assert WindowsFrom(tree, splits, 3) == [];
    assert WindowsFrom(tree, splits, 2) == Window(tree, b, t, 0);
    assert WindowsFrom(tree, splits, 1) == Window(tree, a, b, 0) + Window(tree, b, t, 0);
    assert WindowsFrom(tree, splits, 0) == Window(tree, 0, a, 0) + (Window(tree, a, b, 0) + Window(tree, b, t, 0));
    if b <= t {
      WindowJoin(tree, a, b, t, 0);
      WindowJoin(tree, 0, a, t, 0);
      WindowWhole(tree, 0, t, 0);
    } else if a <= t {
      WindowOutside(tree, b, t, 0);
      WindowJoin(tree, 0, a, b, 0);
      WindowWhole(tree, 0, b, 0);
    } else {
      WindowOutside(tree, b, t, 0);
      WindowWhole(tree, 0, a, 0);
      WindowOutside(tree, a, b, 0);
    }
  }

  /**
   * The parts of a split at `a < b`: the non-empty ones among the windows
   * before `a`, from `a` to `b` and from `b` to the end, in that order.
   */
  lemma SplitParts(tree: seq<Node>, a: nat, b: nat)
    requires AllMeasurable(tree) && a < b
    ensures var t := SumLengths(tree);
            var p0, p1, p2 := Between(tree, 0, a, 0), Between(tree, a, b, 0), Between(tree, b, t, 0);
            Split(tree, a, b).value
            == (if |p0| > 0 then [p0] else []) + (if |p1| > 0 then [p1] else []) + (if |p2| > 0 then [p2] else [])
  {
    var t := SumLengths(tree);
    var splits := AllSplits(a, b, t);
    assert splits == [0, a, b, t];
    var p0, p1, p2 := Between(tree, 0, a, 0), Between(tree, a, b, 0), Between(tree, b, t, 0);
    var h0, h1, h2 := (if |p0| > 0 then [p0] else []), (if |p1| > 0 then [p1] else []), (if |p2| > 0 then [p2] else []);
    PartsStep(tree, splits, 0);
    PartsStep(tree, splits, 1);
    PartsStep(tree, splits, 2);
    assert PartsFrom(tree, splits, 3) == [];
    assert PartsFrom(tree, splits, 2) == h2;
    Associative(h0, h1, h2);
  }

  /** No part of a split is larger than the forest. */
  lemma SplitSize(tree: seq<Node>, a: nat, b: nat)
    ensures Split(tree, a, b).Returns? ==>
              forall j :: 0 <= j < |Split(tree, a, b).value| ==> ForestSize(Split(tree, a, b).value[j]) <= ForestSize(tree)
  {
    if AllMeasurable(tree) {
      PartsSize(tree, AllSplits(a, b, SumLengths(tree)), 0);
    }
  }

  /** Two split indexes cut a forest into at most three parts, none of them empty. */
  lemma SplitCount(tree: seq<Node>, a: nat, b: nat)
    ensures Split(tree, a, b).Returns? ==> |Split(tree, a, b).value| <= 3
    ensures Split(tree, a, b).Returns? ==> forall j :: 0 <= j < |Split(tree, a, b).value| ==> |Split(tree, a, b).value[j]| > 0
  {
  }
}
