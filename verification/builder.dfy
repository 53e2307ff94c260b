/**
 * `formatTextToAST` (src/util/textWithEntitiesToAST.ts): the flat
 * `{text, entities}` form becomes a node forest.  The text is cut at every
 * entity boundary, each piece learns which entities cover it, neighbouring
 * pieces with the same covering entities are fused, each fused piece is
 * built by wrapping it in its longest covering entity first, and the forest
 * is normalised by `mergeNodes`.
 *
 * `AstOf` is what the builder returns; the methods are the loops of the
 * builder, each proved to compute its specification function.
 */
module Builder {
  import opened Ast
  import opened Serializer
  import opened EmojiSplit

  /** `TextSegment`: the text range `[start, end)` and the entities covering it. */
  datatype Segment = Segment(start: nat, end: nat, active: seq<Entity>)

  function EndOf(e: Entity): nat
  {
    e.offset + e.length
  }

  /** The entity spans the whole range `[start, end)`. */
  predicate Covers(e: Entity, start: nat, end: nat)
  {
    e.offset <= start && EndOf(e) >= end
  }

  // ---------------------------------------------------------------------
  // Break points and segments
  // ---------------------------------------------------------------------

  /** The break points: 0, the text length, and the start and end of every entity. */
  function BreakPointSet(textLength: nat, entities: seq<Entity>): set<nat>
  {
    {0, textLength} + (set e | e in entities :: e.offset) + (set e | e in entities :: EndOf(e))
  }

  /** The loop that fills `breakPoints`. */
  method CollectBreakPoints(textLength: nat, entities: seq<Entity>) returns (points: set<nat>)
    ensures points == BreakPointSet(textLength, entities)
  {
    points := {0, textLength};
    for k := 0 to |entities|
      invariant points == BreakPointSet(textLength, entities[..k])
    {
      assert entities[..k + 1] == entities[..k] + [entities[k]];
      points := points + {entities[k].offset, EndOf(entities[k])};
    }
    assert entities[..|entities|] == entities;
  }

  predicate StrictlyIncreasing(s: seq<nat>)
  {
    forall i, j :: 0 <= i < j < |s| ==> s[i] < s[j]
  }

  /** The members of `s` in `[x, bound]`, ascending. */
  function Ascending(s: set<nat>, x: nat, bound: nat): (r: seq<nat>)
    ensures StrictlyIncreasing(r)
    ensures forall y :: y in r <==> y in s && x <= y <= bound
    decreases bound + 1 - x
  {
    if x > bound then []
    else
      var rest := Ascending(s, x + 1, bound);
      assert forall y :: y in rest ==> x < y;
      assert forall i :: 0 <= i < |rest| ==> rest[i] in rest;
      (if x in s then [x] else []) + rest
  }

  /** The largest member of a non-empty set. */
  function SetMax(s: set<nat>): (m: nat)
    requires s != {}
    ensures m in s && forall y :: y in s ==> y <= m
  {
    MaxExists(s);
    var m :| m in s && forall y :: y in s ==> y <= m;
    m
  }

  lemma MaxExists(s: set<nat>)
    requires s != {}
    ensures exists m :: m in s && forall y :: y in s ==> y <= m
    decreases |s|
  {
    var x :| x in s;
    if s != {x} {
      MaxExists(s - {x});
      var m :| m in s - {x} && forall y :: y in s - {x} ==> y <= m;
      var top := if m < x then x else m;
      forall y | y in s ensures y <= top {
        if y != x {
          assert y in s - {x};
        }
      }
      assert top in s;
    } else {
      assert forall y :: y in s ==> y <= x;
    }
  }

  /** `Array.from(breakPoints).sort((a, b) => a - b)`: the set, ascending, each point once. */
  function SortedPoints(points: set<nat>): (r: seq<nat>)
    ensures StrictlyIncreasing(r)
    ensures forall y :: y in r <==> y in points
  {
    if points == {} then [] else Ascending(points, 0, SetMax(points))
  }

  /** `entities.filter((ent) => ent.offset <= start && ent.offset + ent.length >= end)`. */
  function Active(entities: seq<Entity>, start: nat, end: nat): (r: seq<Entity>)
    ensures forall e :: e in r <==> e in entities && Covers(e, start, end)
    decreases |entities|
  {
    if |entities| == 0 then []
    else
      var rest := Active(entities[1..], start, end);
      if Covers(entities[0], start, end) then [entities[0]] + rest else rest
  }

  /** One segment for each pair of consecutive points. */
  function Segments(points: seq<nat>, entities: seq<Entity>): seq<Segment>
    decreases |points|
  {
    if |points| < 2 then []
    else [Segment(points[0], points[1], Active(entities, points[0], points[1]))] + Segments(points[1..], entities)
  }

  /** The loop that fills `segments`. */
  method BuildSegments(points: seq<nat>, entities: seq<Entity>) returns (segments: seq<Segment>)
    ensures segments == Segments(points, entities)
  {
    segments := [];
    var i := 0;
    while i + 1 < |points|
      invariant i <= |points|
      invariant segments + Segments(points[i..], entities) == Segments(points, entities)
    {
      assert points[i..][1..] == points[i + 1..];
      segments := segments + [Segment(points[i], points[i + 1], Active(entities, points[i], points[i + 1]))];
      i := i + 1;
    }
  }

  lemma {:induction false} SegmentsLength(points: seq<nat>, entities: seq<Entity>)
    ensures |Segments(points, entities)| == if |points| == 0 then 0 else |points| - 1
    decreases |points|
  {
    if |points| >= 2 {
      SegmentsLength(points[1..], entities);
    }
  }

  /** Segment `m` runs from point `m` to point `m + 1` and holds the entities covering that range. */
  lemma {:induction false} SegmentAt(points: seq<nat>, entities: seq<Entity>, m: nat)
    requires m + 1 < |points|
    ensures |Segments(points, entities)| == |points| - 1
    ensures Segments(points, entities)[m] == Segment(points[m], points[m + 1], Active(entities, points[m], points[m + 1]))
    decreases |points|
  {
    if m > 0 {
      SegmentAt(points[1..], entities, m - 1);
    } else if |points| > 2 {
      SegmentAt(points[1..], entities, 0);
    }
  }

  /**
   * The sorted points start at 0 and, when no entity reaches past the text,
   * end at the text length.
   */
  lemma SortedPointsBounds(textLength: nat, entities: seq<Entity>)
    ensures var p := SortedPoints(BreakPointSet(textLength, entities));
      |p| >= 1 && p[0] == 0
      && ((forall e :: e in entities ==> EndOf(e) <= textLength) ==> p[|p| - 1] == textLength)
  {
    var ps := BreakPointSet(textLength, entities);
    var p := SortedPoints(ps);
    assert 0 in ps && textLength in ps;
    assert 0 in p;
    var k :| 0 <= k < |p| && p[k] == 0;
    if forall e :: e in entities ==> EndOf(e) <= textLength {
      assert textLength in p;
      var t :| 0 <= t < |p| && p[t] == textLength;
      assert p[|p| - 1] in ps;
      if t < |p| - 1 {
        assert p[t] < p[|p| - 1];
      }
    }
  }

  /**
   * Over ascending points the segments are consecutive and non-empty, and
   * each holds exactly the entities that cover it.
   */
  lemma SegmentsProperties(points: seq<nat>, entities: seq<Entity>)
    requires StrictlyIncreasing(points)
    ensures var segs := Segments(points, entities);
      |segs| == (if |points| == 0 then 0 else |points| - 1)
      && (forall i :: 0 <= i < |segs| ==>
            segs[i].start == points[i] && segs[i].end == points[i + 1] && segs[i].start < segs[i].end)
      && (forall i :: 0 <= i < |segs| ==>
            forall e :: e in segs[i].active <==> e in entities && Covers(e, segs[i].start, segs[i].end))
  {
    var segs := Segments(points, entities);
    if |points| >= 2 {
      SegmentAt(points, entities, 0);
    }
    forall i | 0 <= i < |segs|
      ensures segs[i].start == points[i] && segs[i].end == points[i + 1] && segs[i].start < segs[i].end
      ensures forall e :: e in segs[i].active <==> e in entities && Covers(e, segs[i].start, segs[i].end)
    {
      SegmentAt(points, entities, i);
    }
  }

  // ---------------------------------------------------------------------
  // compareEntityArrays
  // ---------------------------------------------------------------------

  /** The comparator `(e1, e2) => e1.offset - e2.offset`. */
  function ByOffset(e: Entity): (int, int)
  {
    (e.offset, 0)
  }

  /** What `compareEntityArrays` compares: type, offset and length. */
  predicate SameShape(a: Entity, b: Entity)
  {
    a.kind == b.kind && a.offset == b.offset && a.length == b.length
  }

  /** `compareEntityArrays`: same size, and equal shapes pairwise after a stable sort by offset. */
  predicate CompareEntityArrays(a: seq<Entity>, b: seq<Entity>)
  {
    |a| == |b|
    && var sa, sb := SortBy(a, ByOffset), SortBy(b, ByOffset);
    forall i :: 0 <= i < |sa| ==> SameShape(sa[i], sb[i])
  }

  /** Two arrays that compare equal hold the same shapes: each entity of one has a same-shaped partner in the other. */
  lemma CompareEntityArraysShapes(a: seq<Entity>, b: seq<Entity>)
    requires CompareEntityArrays(a, b)
    ensures CompareEntityArrays(b, a)
    ensures forall x :: x in a ==> exists y :: y in b && SameShape(x, y)
    ensures forall y :: y in b ==> exists x :: x in a && SameShape(x, y)
  {
    var sa, sb := SortBy(a, ByOffset), SortBy(b, ByOffset);
    SortByCorrect(a, ByOffset);
    SortByCorrect(b, ByOffset);
    forall x | x in a ensures exists y :: y in b && SameShape(x, y) {
      assert x in multiset(sa);
      var i :| 0 <= i < |sa| && sa[i] == x;
      assert sb[i] in multiset(b);
      assert SameShape(x, sb[i]);
    }
    forall y | y in b ensures exists x :: x in a && SameShape(x, y) {
      assert y in multiset(sb);
      var i :| 0 <= i < |sb| && sb[i] == y;
      assert sa[i] in multiset(a);
      assert SameShape(sa[i], y);
    }
  }

  /** An array compares equal to itself, so segments with the same covering entities are fused. */
  lemma CompareEntityArraysReflexive(a: seq<Entity>)
    ensures CompareEntityArrays(a, a)
  {
  }

  /** The comparison depends on the order of entities that share an offset. */
  lemma CompareEntityArraysOrderSensitive()
    ensures var bold, italic := Plain(Bold, 0, 1), Plain(Italic, 0, 1);
      !CompareEntityArrays([bold, italic], [italic, bold])
  {
    var bold, italic := Plain(Bold, 0, 1), Plain(Italic, 0, 1);
    assert SortBy([bold, italic], ByOffset) == [bold, italic] by {
      assert [bold, italic][..1] == [bold];
      assert SortBy([bold], ByOffset) == [bold] by {
        assert [bold][..0] == [];
      }
      assert Insert([bold], italic, ByOffset) == [bold, italic] by {
        assert [bold][1..] == [];
      }
    }
    assert SortBy([italic, bold], ByOffset) == [italic, bold] by {
      assert [italic, bold][..1] == [italic];
      assert SortBy([italic], ByOffset) == [italic] by {
        assert [italic][..0] == [];
      }
      assert Insert([italic], bold, ByOffset) == [italic, bold] by {
        assert [italic][1..] == [];
      }
    }
  }

  // ---------------------------------------------------------------------
  // buildNodeForSegment
  // ---------------------------------------------------------------------

  /**
   * Index of `sortedActive[0]` after the stable sort by length descending:
   * the first entity of maximal length.
   */
  function OuterIndex(active: seq<Entity>): (k: nat)
    requires |active| > 0
    ensures k < |active|
    ensures forall j :: 0 <= j < |active| ==> active[j].length <= active[k].length
    ensures forall j :: 0 <= j < k ==> active[j].length < active[k].length
    decreases |active|
  {
    if |active| == 1 then 0
    else
      var k := OuterIndex(active[..|active| - 1]);
      if active[|active| - 1].length > active[k].length then |active| - 1 else k
  }

  /** The entity types that wrap the nodes built inside them. */
  predicate IsWrapKind(t: NodeType)
  {
    IsFormatKind(t) || t == TextUrl
  }

  /** `buildNodeForSegment`; `isEmoji` stands for `\p{Emoji_Presentation}`. */
  function BuildNodeForSegment(text: Utf16, segment: Segment, isEmoji: int -> bool): (r: seq<Node>)
    decreases |segment.active|
  {
    var active := segment.active;
    if |active| == 0 then EmojiTokens(Slice(text, segment.start, segment.end), isEmoji)
    else
      var k := OuterIndex(active);
      var outer := active[k];
      var innerStart := if segment.start < outer.offset then outer.offset else segment.start;
      var innerEnd := if segment.end < EndOf(outer) then segment.end else EndOf(outer);
      var innerNodes := BuildNodeForSegment(text, Segment(innerStart, innerEnd, active[..k] + active[k + 1..]), isEmoji);
      [OuterNode(text, outer, innerNodes, isEmoji)]
  }

  /** The node built for the outer entity around the nodes built for the rest. */
  function OuterNode(text: Utf16, outer: Entity, innerNodes: seq<Node>, isEmoji: int -> bool): Node
  {
    var span := Slice(text, outer.offset, EndOf(outer));
    var children := if |innerNodes| > 0 then innerNodes else EmojiTokens(span, isEmoji);
    if outer.kind == CustomEmoji then CustomEmojiNode(outer.documentId, span)
    else if outer.kind == Code then CodeNode(CodeContent(span))
    else if outer.kind == Pre then PreNode(span, outer.language, Absent)
    else if outer.kind == TextUrl then LinkNode(TextUrl, outer.url, children)
    else if IsFormatKind(outer.kind) then FormattedNode(outer.kind, children)
    else TextNode(span)
  }

  /**
   * Under an outer entity of a non-wrapping type (custom emoji, code, pre
   * and every other type) the node is a leaf holding the raw text of the
   * entity's whole span, whatever was built inside; a wrapping type gives
   * a container of that type around the inner nodes, or around the span's
   * own tokens when nothing was built inside.
   */
  lemma OuterLeaf(text: Utf16, outer: Entity, innerNodes: seq<Node>, isEmoji: int -> bool)
    ensures var n := OuterNode(text, outer, innerNodes, isEmoji);
      var span := Slice(text, outer.offset, EndOf(outer));
      (!IsWrapKind(outer.kind) ==> !HasChildren(n) && NodeText(n) == span)
      && (IsWrapKind(outer.kind) ==>
            TypeOf(n) == outer.kind && Kids(n) == (if |innerNodes| > 0 then innerNodes else EmojiTokens(span, isEmoji)))
  {
  }

  /**
   * Inside text whose covering entities all wrap and all span it, a segment
   * is built into nodes whose text is exactly the segment's text.
   */
  lemma {:induction false} BuildText(text: Utf16, segment: Segment, isEmoji: int -> bool)
    requires segment.start < segment.end <= |text|
    requires forall e :: e in segment.active ==> IsWrapKind(e.kind) && Covers(e, segment.start, segment.end)
    ensures |BuildNodeForSegment(text, segment, isEmoji)| > 0
    ensures SerializedText(BuildNodeForSegment(text, segment, isEmoji)) == text[segment.start..segment.end]
    decreases |segment.active|
  {
    var active := segment.active;
    if |active| == 0 {
      assert BuildNodeForSegment(text, segment, isEmoji) == EmojiTokens(text[segment.start..segment.end], isEmoji);
      EmojiTokensProperties(text[segment.start..segment.end], isEmoji);
    } else {
      var k := OuterIndex(active);
      var outer := active[k];
      var rest := active[..k] + active[k + 1..];
      RemovedSubset(active, k);
      var inner := Segment(segment.start, segment.end, rest);
      BuildText(text, inner, isEmoji);
      var innerNodes := BuildNodeForSegment(text, inner, isEmoji);
      BuildCovered(text, segment, isEmoji);
      WrapText(text, outer, innerNodes, isEmoji);
      OneNodeText(OuterNode(text, outer, innerNodes, isEmoji));
    }
  }

  /** When the outer entity spans the whole segment, the rest are built over the same range. */
  lemma BuildCovered(text: Utf16, segment: Segment, isEmoji: int -> bool)
    requires |segment.active| > 0
    requires Covers(segment.active[OuterIndex(segment.active)], segment.start, segment.end)
    ensures var active, k := segment.active, OuterIndex(segment.active);
      var inner := Segment(segment.start, segment.end, active[..k] + active[k + 1..]);
      BuildNodeForSegment(text, segment, isEmoji)
      == [OuterNode(text, active[k], BuildNodeForSegment(text, inner, isEmoji), isEmoji)]
  {
  }

  lemma RemovedSubset(active: seq<Entity>, k: nat)
    requires k < |active|
    ensures forall e :: e in active[..k] + active[k + 1..] ==> e in active
  {
    var rest := active[..k] + active[k + 1..];
    forall e | e in rest ensures e in active {
      var j :| 0 <= j < |rest| && rest[j] == e;
      if j < k {
        assert e == active[j];
      } else {
        assert e == active[j + 1];
      }
    }
  }

  lemma WrapText(text: Utf16, outer: Entity, innerNodes: seq<Node>, isEmoji: int -> bool)
    requires IsWrapKind(outer.kind) && |innerNodes| > 0
    ensures NodeText(OuterNode(text, outer, innerNodes, isEmoji)) == SerializedText(innerNodes)
  {
    var n := OuterNode(text, outer, innerNodes, isEmoji);
    if outer.kind == TextUrl {
      assert n == LinkNode(TextUrl, outer.url, innerNodes);
    } else {
      assert n == FormattedNode(outer.kind, innerNodes);
    }
  }

  // ---------------------------------------------------------------------
  // Fusing segments
  // ---------------------------------------------------------------------

  /**
   * The last index of the run that starts at segment `i` when the segments
   * up to `j` already belong to it: the run goes on while the next
   * segment's entities compare equal to segment `i`'s.
   */
  function RunEnd(segments: seq<Segment>, i: nat, j: nat): (r: nat)
    requires i <= j < |segments|
    ensures j <= r < |segments|
    decreases |segments| - j
  {
    if j + 1 < |segments| && CompareEntityArrays(segments[j + 1].active, segments[i].active)
    then RunEnd(segments, i, j + 1)
    else j
  }

  /** The run takes in every following segment that compares equal to segment `i`, and stops at the first one that does not. */
  lemma {:induction false} RunEndMaximal(segments: seq<Segment>, i: nat, j: nat)
    requires i <= j < |segments|
    ensures var r := RunEnd(segments, i, j);
      (forall m :: j < m <= r ==> CompareEntityArrays(segments[m].active, segments[i].active))
      && (r + 1 < |segments| ==> !CompareEntityArrays(segments[r + 1].active, segments[i].active))
    decreases |segments| - j
  {
    if j + 1 < |segments| && CompareEntityArrays(segments[j + 1].active, segments[i].active) {
      RunEndMaximal(segments, i, j + 1);
    }
  }

  /** The combined segments from index `i` on. */
  function Fuse(segments: seq<Segment>, i: nat): seq<Segment>
    decreases |segments| - i
  {
    if i >= |segments| then []
    else
      var j := RunEnd(segments, i, i);
      [Segment(segments[i].start, segments[j].end, segments[i].active)] + Fuse(segments, j + 1)
  }

  /** One step of the fusing loop: the run from `i`, then the runs after it. */
  lemma FuseStep(segments: seq<Segment>, i: nat)
    requires i < |segments|
    ensures var j := RunEnd(segments, i, i);
      var f := Fuse(segments, i);
      |f| > 0 && f[0] == Segment(segments[i].start, segments[j].end, segments[i].active)
      && f[1..] == Fuse(segments, j + 1)
  {
    var j := RunEnd(segments, i, i);
    var combined := Segment(segments[i].start, segments[j].end, segments[i].active);
    assert Fuse(segments, i) == [combined] + Fuse(segments, j + 1);
  }

  lemma BuildAllCons(text: Utf16, segments: seq<Segment>, isEmoji: int -> bool)
    requires |segments| > 0
    ensures BuildAll(text, segments, isEmoji)
            == BuildNodeForSegment(text, segments[0], isEmoji) + BuildAll(text, segments[1..], isEmoji)
  {
  }

  /** `astParts`: the nodes of every combined segment, in order. */
  function BuildAll(text: Utf16, segments: seq<Segment>, isEmoji: int -> bool): seq<Node>
    decreases |segments|
  {
    if |segments| == 0 then []
    else BuildNodeForSegment(text, segments[0], isEmoji) + BuildAll(text, segments[1..], isEmoji)
  }

  // ---------------------------------------------------------------------
  // mergeNodes
  // ---------------------------------------------------------------------

  /** `isStyledNode`: Bold, Italic, Underline, Strike and Blockquote, but not Spoiler. */
  predicate IsStyled(n: Node)
  {
    n.FormattedNode? && n.format != Spoiler
  }

  /** `areNodesMergeable`. */
  predicate Mergeable(a: Node, b: Node)
  {
    (a.TextNode? && b.TextNode?) || (IsStyled(a) && IsStyled(b) && a.format == b.format)
  }

  lemma SnocSize(a: seq<Node>, x: Node)
    ensures ForestSize(a + [x]) == ForestSize(a) + NodeSize(x)
  {
    ForestSizeAppend(a, [x]);
    assert [x][1..] == [];
  }

  /** A node as the loop of `mergeNodes` pushes it: a styled node has its children merged first. */
  function Normalise(n: Node): (r: Node)
    ensures NodeSize(r) <= NodeSize(n)
    decreases NodeSize(n), 0, 0
  {
    if IsStyled(n) then
      KidsSmaller(n);
      FormattedNode(n.format, Merge(n.children))
    else n
  }

  /**
   * One iteration of the loop of `mergeNodes`: `node` goes on top of
   * `merged`, fused with the last node kept when the two are mergeable.
   */
  function Push(merged: seq<Node>, node: Node): (r: seq<Node>)
    ensures ForestSize(r) <= ForestSize(merged) + NodeSize(node)
    decreases ForestSize(merged) + NodeSize(node), 1, 0
  {
    if |merged| > 0 && Mergeable(merged[|merged| - 1], node) then
      var front, prev := merged[..|merged| - 1], merged[|merged| - 1];
      assert merged == front + [prev];
      SnocSize(front, prev);
      if IsStyled(prev) then
        ForestSizeAppend(prev.children, node.children);
        var fused := FormattedNode(prev.format, Merge(prev.children + node.children));
        SnocSize(front, fused);
        front + [fused]
      else
        SnocSize(front, TextNode(prev.text + node.text));
        front + [TextNode(prev.text + node.text)]
    else
      SnocSize(merged, node);
      merged + [node]
  }

  /** `mergeNodes`: every node, normalised, is pushed in turn. */
  function Merge(nodes: seq<Node>): (r: seq<Node>)
    ensures ForestSize(r) <= ForestSize(nodes)
    decreases ForestSize(nodes), 2, |nodes|
  {
    if |nodes| == 0 then []
    else
      var init, last := nodes[..|nodes| - 1], nodes[|nodes| - 1];
      assert nodes == init + [last];
      SnocSize(init, last);
      Push(Merge(init), Normalise(last))
  }

  /** The loop of `mergeNodes`. */
  method MergeNodes(nodes: seq<Node>) returns (merged: seq<Node>)
    ensures merged == Merge(nodes)
    decreases ForestSize(nodes), 1
  {
    merged := [];
    for i := 0 to |nodes|
      invariant merged == Merge(nodes[..i])
    {
      assert nodes[..i + 1] == nodes[..i] + [nodes[i]];
      PrefixSize(nodes, i);
      SnocSize(nodes[..i], nodes[i]);
      var node := nodes[i];
      if IsStyled(node) {
        KidsSmaller(node);
        var kids := MergeNodes(node.children);
        node := FormattedNode(node.format, kids);
      }
      merged := PushNode(merged, node);
    }
    assert nodes[..|nodes|] == nodes;
  }

  /** The body of the loop of `mergeNodes` after the node's own children are merged: pop, fuse and push. */
  method PushNode(merged: seq<Node>, node: Node) returns (r: seq<Node>)
    ensures r == Push(merged, node)
    decreases ForestSize(merged) + NodeSize(node), 0
  {
    r := merged;
    if |r| > 0 && Mergeable(r[|r| - 1], node) {
      var prev := r[|r| - 1];
      assert r == r[..|r| - 1] + [prev];
      SnocSize(r[..|r| - 1], prev);
      r := r[..|r| - 1];
      if IsStyled(prev) {
        ForestSizeAppend(prev.children, node.children);
        var kids := MergeNodes(prev.children + node.children);
        r := r + [FormattedNode(prev.format, kids)];
      } else {
        r := r + [TextNode(prev.text + node.text)];
      }
    } else {
      r := r + [node];
    }
  }

  lemma PrefixSize(f: seq<Node>, i: nat)
    requires i < |f|
    ensures ForestSize(f[..i + 1]) <= ForestSize(f)
  {
    assert f == f[..i + 1] + f[i + 1..];
    ForestSizeAppend(f[..i + 1], f[i + 1..]);
  }

  /** `mergeNodes` keeps the text. */
  lemma {:induction false} MergeText(nodes: seq<Node>)
    ensures SerializedText(Merge(nodes)) == SerializedText(nodes)
    decreases ForestSize(nodes), 2, |nodes|
  {
    if |nodes| > 0 {
      var init, last := nodes[..|nodes| - 1], nodes[|nodes| - 1];
      assert nodes == init + [last];
      SnocSize(init, last);
      MergeText(init);
      NormaliseText(last);
      PushText(Merge(init), Normalise(last));
      SerializedTextAppend(init, [last]);
      OneNodeText(last);
    }
  }

  /** Normalising a node keeps its text. */
  lemma {:induction false} NormaliseText(n: Node)
    ensures NodeText(Normalise(n)) == NodeText(n)
    decreases NodeSize(n), 0, 0
  {
    if IsStyled(n) {
      KidsSmaller(n);
      MergeText(n.children);
    }
  }

  /** Pushing a node appends its text. */
  lemma {:induction false} PushText(merged: seq<Node>, node: Node)
    ensures SerializedText(Push(merged, node)) == SerializedText(merged) + NodeText(node)
    decreases ForestSize(merged) + NodeSize(node), 1, 0
  {
    if |merged| > 0 && Mergeable(merged[|merged| - 1], node) {
      var front, prev := merged[..|merged| - 1], merged[|merged| - 1];
      assert merged == front + [prev];
      SnocSize(front, prev);
      if IsStyled(prev) {
        ForestSizeAppend(prev.children, node.children);
        var kids := Merge(prev.children + node.children);
        MergeText(prev.children + node.children);
        FusedStyledText(front, prev, node, kids);
        assert Push(merged, node) == front + [FormattedNode(prev.format, kids)];
      } else {
        FusedTextText(front, prev, node);
        assert Push(merged, node) == front + [TextNode(prev.text + node.text)];
      }
    } else {
      SerializedTextAppend(merged, [node]);
      OneNodeText(node);
    }
  }

  /** Two styled nodes fused into one around `kids`, which have the text of both children lists. */
  lemma FusedStyledText(front: seq<Node>, prev: Node, node: Node, kids: seq<Node>)
    requires prev.FormattedNode? && node.FormattedNode?
    requires SerializedText(kids) == SerializedText(prev.children + node.children)
    ensures SerializedText(front + [FormattedNode(prev.format, kids)]) == SerializedText(front + [prev]) + NodeText(node)
  {
    var fused := FormattedNode(prev.format, kids);
    SerializedTextAppend(front, [fused]);
    SerializedTextAppend(front, [prev]);
    SerializedTextAppend(prev.children, node.children);
    OneNodeText(fused);
    OneNodeText(prev);
  }

  /** Two text nodes fused into one. */
  lemma FusedTextText(front: seq<Node>, prev: Node, node: Node)
    requires prev.TextNode? && node.TextNode?
    ensures SerializedText(front + [TextNode(prev.text + node.text)]) == SerializedText(front + [prev]) + NodeText(node)
  {
    SerializedTextAppend(front, [TextNode(prev.text + node.text)]);
    SerializedTextAppend(front, [prev]);
    OneNodeText(TextNode(prev.text + node.text));
    OneNodeText(prev);
  }

  lemma OneNodeText(n: Node)
    ensures SerializedText([n]) == NodeText(n)
  {
    assert [n][1..] == [];
  }

  /** Mergeability depends only on whether a node is text and, for a styled node, its type. */
  predicate SameMergeClass(a: Node, b: Node)
  {
    (a.TextNode? <==> b.TextNode?) && (IsStyled(a) <==> IsStyled(b)) && (IsStyled(a) ==> a.format == b.format)
  }

  /**
   * The normal form `mergeNodes` produces: no two neighbours are mergeable,
   * and the children of every styled node are in normal form.
   */
  predicate Normalised(f: seq<Node>)
  {
    (forall i :: 0 <= i < |f| - 1 ==> !Mergeable(f[i], f[i + 1]))
    && forall i :: 0 <= i < |f| ==> IsStyled(f[i]) ==> Normalised(f[i].children)
  }

  /** After `mergeNodes` no two neighbours are text or same-type styled nodes, at every styled level. */
  lemma {:induction false} MergeNormalised(nodes: seq<Node>)
    ensures Normalised(Merge(nodes))
    decreases ForestSize(nodes), 2, |nodes|
  {
    if |nodes| > 0 {
      var init, last := nodes[..|nodes| - 1], nodes[|nodes| - 1];
      assert nodes == init + [last];
      SnocSize(init, last);
      MergeNormalised(init);
      if IsStyled(last) {
        KidsSmaller(last);
        MergeNormalised(last.children);
      }
      PushNormalised(Merge(init), Normalise(last));
    }
  }

  /** Pushing a node whose children are in normal form keeps a forest in normal form. */
  lemma {:induction false} PushNormalised(merged: seq<Node>, node: Node)
    requires Normalised(merged) && (IsStyled(node) ==> Normalised(node.children))
    ensures Normalised(Push(merged, node))
    decreases ForestSize(merged) + NodeSize(node), 1, 0
  {
    if |merged| > 0 && Mergeable(merged[|merged| - 1], node) {
      var front, prev := merged[..|merged| - 1], merged[|merged| - 1];
      assert merged == front + [prev];
      SnocSize(front, prev);
      var fused: Node;
      if IsStyled(prev) {
        ForestSizeAppend(prev.children, node.children);
        fused := FormattedNode(prev.format, Merge(prev.children + node.children));
        MergeNormalised(prev.children + node.children);
      } else {
        fused := TextNode(prev.text + node.text);
      }
      assert Push(merged, node) == front + [fused];
      assert SameMergeClass(prev, fused);
      NormalisedReplaceLast(merged, fused);
    } else {
      NormalisedSnoc(merged, node);
    }
  }

  lemma NormalisedReplaceLast(f: seq<Node>, x: Node)
    requires |f| > 0 && Normalised(f) && SameMergeClass(f[|f| - 1], x)
    requires IsStyled(x) ==> Normalised(x.children)
    ensures Normalised(f[..|f| - 1] + [x])
  {
    var g := f[..|f| - 1] + [x];
    forall i | 0 <= i < |g| - 1 ensures !Mergeable(g[i], g[i + 1]) {
      assert g[i] == f[i];
      if i + 1 < |f| - 1 {
        assert g[i + 1] == f[i + 1];
      }
    }
    forall i | 0 <= i < |g| && IsStyled(g[i]) ensures Normalised(g[i].children) {
      if i < |f| - 1 {
        assert g[i] == f[i];
      }
    }
  }

  lemma NormalisedSnoc(f: seq<Node>, x: Node)
    requires Normalised(f) && (IsStyled(x) ==> Normalised(x.children))
    requires |f| > 0 ==> !Mergeable(f[|f| - 1], x)
    ensures Normalised(f + [x])
  {
    var g := f + [x];
    forall i | 0 <= i < |g| - 1 ensures !Mergeable(g[i], g[i + 1]) {
      assert g[i] == f[i];
    }
    forall i | 0 <= i < |g| && IsStyled(g[i]) ensures Normalised(g[i].children) {
      if i < |f| {
        assert g[i] == f[i];
      }
    }
  }

  /** Nodes that are neither text nor styled (Spoiler and TextUrl among them) pass through `mergeNodes` unchanged. */
  lemma {:induction false} MergeKeepsOthers(nodes: seq<Node>)
    ensures forall n :: n in Merge(nodes) && !n.TextNode? && !IsStyled(n) ==> n in nodes
    decreases |nodes|
  {
    if |nodes| > 0 {
      var init, last := nodes[..|nodes| - 1], nodes[|nodes| - 1];
      assert nodes == init + [last];
      MergeKeepsOthers(init);
      PushKeepsOthers(Merge(init), Normalise(last));
    }
  }

  /** A push adds only the pushed node or a text or styled node made by fusing. */
  lemma PushKeepsOthers(merged: seq<Node>, node: Node)
    ensures forall n :: n in Push(merged, node) ==> n in merged || n == node || n.TextNode? || IsStyled(n)
  {
    if |merged| > 0 && Mergeable(merged[|merged| - 1], node) {
      var front := merged[..|merged| - 1];
      assert forall n :: n in front ==> n in merged;
    }
  }

  // ---------------------------------------------------------------------
  // formatTextToAST
  // ---------------------------------------------------------------------

  /** `entities = []` when the entities are missing. */
  function EntitiesOf(t: FormattedText): seq<Entity>
  {
    if t.entities.Some? then t.entities.value else []
  }

  /** The segments of a formatted text. */
  function SegmentsOf(t: FormattedText): seq<Segment>
  {
    Segments(SortedPoints(BreakPointSet(|t.text|, EntitiesOf(t))), EntitiesOf(t))
  }

  /** What `formatTextToAST` returns. */
  function AstOf(formattedText: Option<FormattedText>, isEmoji: int -> bool): seq<Node>
  {
    if formattedText.None? then []
    else
      var t := formattedText.value;
      Merge(BuildAll(t.text, Fuse(SegmentsOf(t), 0), isEmoji))
  }

  /** The loop of `formatTextToAST` that fuses runs of segments and builds each run. */
  method BuildParts(text: Utf16, segments: seq<Segment>, isEmoji: int -> bool) returns (astParts: seq<Node>)
    ensures astParts == BuildAll(text, Fuse(segments, 0), isEmoji)
  {
    astParts := [];
    var i := 0;
    while i < |segments|
      invariant 0 <= i <= |segments|
      invariant astParts + BuildAll(text, Fuse(segments, i), isEmoji) == BuildAll(text, Fuse(segments, 0), isEmoji)
      decreases |segments| - i
    {
      var j, nodes := BuildRun(text, segments, i, isEmoji);
      ghost var before := astParts;
      astParts := astParts + nodes;
      Associative(before, nodes, BuildAll(text, Fuse(segments, j + 1), isEmoji));
      i := j + 1;
    }
    assert Fuse(segments, i) == [];
    assert astParts + BuildAll(text, [], isEmoji) == astParts;
  }

  /** One pass of the outer loop: the run from segment `i` is combined into one segment and built. */
  method BuildRun(text: Utf16, segments: seq<Segment>, i: nat, isEmoji: int -> bool) returns (j: nat, nodes: seq<Node>)
    requires i < |segments|
    ensures i <= j < |segments|
    ensures nodes + BuildAll(text, Fuse(segments, j + 1), isEmoji) == BuildAll(text, Fuse(segments, i), isEmoji)
  {
    var currentEntities := segments[i].active;
    var combinedStart := segments[i].start;
    var combinedEnd;
    j, combinedEnd := ExtendRun(segments, i);
    var combined := Segment(combinedStart, combinedEnd, currentEntities);
    FuseStep(segments, i);
    BuildAllStep(text, Fuse(segments, i), combined, Fuse(segments, j + 1), [], isEmoji);
    nodes := BuildNodeForSegment(text, combined, isEmoji);
    assert [] + nodes == nodes;
    assert [] + BuildAll(text, Fuse(segments, i), isEmoji) == BuildAll(text, Fuse(segments, i), isEmoji);
  }

  /** The inner loop of `formatTextToAST`: the run of segments whose entities compare equal to segment `i`'s. */
  method ExtendRun(segments: seq<Segment>, i: nat) returns (j: nat, combinedEnd: nat)
    requires i < |segments|
    ensures j == RunEnd(segments, i, i) && combinedEnd == segments[j].end
  {
    var currentEntities := segments[i].active;
    j := i;
    combinedEnd := segments[i].end;
    while j + 1 < |segments| && CompareEntityArrays(segments[j + 1].active, currentEntities)
      invariant i <= j < |segments|
      invariant RunEnd(segments, i, j) == RunEnd(segments, i, i)
      invariant combinedEnd == segments[j].end
      decreases |segments| - j
    {
      combinedEnd := segments[j + 1].end;
      j := j + 1;
    }
  }

  /** Building a list of segments is building its first one, then the rest. */
  lemma BuildAllStep(text: Utf16, f: seq<Segment>, first: Segment, tail: seq<Segment>, astParts: seq<Node>, isEmoji: int -> bool)
    requires |f| > 0 && f[0] == first && f[1..] == tail
    ensures astParts + BuildNodeForSegment(text, first, isEmoji) + BuildAll(text, tail, isEmoji)
            == astParts + BuildAll(text, f, isEmoji)
  {
    BuildAllCons(text, f, isEmoji);
    Associative(astParts, BuildNodeForSegment(text, first, isEmoji), BuildAll(text, tail, isEmoji));
  }

  /** `formatTextToAST`. */
  method FormatTextToAst(formattedText: Option<FormattedText>, isEmoji: int -> bool) returns (r: seq<Node>)
    ensures r == AstOf(formattedText, isEmoji)
  {
    if formattedText.None? {
      return [];
    }
    var text := formattedText.value.text;
    var entities := EntitiesOf(formattedText.value);
    var breakPoints := CollectBreakPoints(|text|, entities);
    var sortedPoints := SortedPoints(breakPoints);
    var segments := BuildSegments(sortedPoints, entities);
    var astParts := BuildParts(text, segments, isEmoji);
    assert segments == SegmentsOf(formattedText.value);
    r := MergeNodes(astParts);
  }

  /** `formatTextToAST(undefined)` is the empty forest. */
  lemma MissingTextIsEmpty(isEmoji: int -> bool)
    ensures AstOf(None, isEmoji) == []
  {
  }

  // ---------------------------------------------------------------------
  // Round trip of the text
  // ---------------------------------------------------------------------

  /**
   * The run that starts at segment `i` spans from point `i` to a later point
   * inside the text, and every entity of segment `i` covers all of it: the
   * last segment of the run holds an entity of the same offset and length.
   */
  lemma RunCovered(text: Utf16, points: seq<nat>, entities: seq<Entity>, i: nat)
    requires StrictlyIncreasing(points) && |points| >= 1 && points[|points| - 1] <= |text|
    requires forall e :: e in entities ==> IsWrapKind(e.kind)
    requires i + 1 < |points|
    ensures |Segments(points, entities)| == |points| - 1
    ensures var segs := Segments(points, entities);
      var j := RunEnd(segs, i, i);
      points[i] < points[j + 1] <= points[|points| - 1]
      && segs[i].start == points[i] && segs[j].end == points[j + 1]
      && forall e :: e in segs[i].active ==> IsWrapKind(e.kind) && Covers(e, points[i], points[j + 1])
  {
    var segs := Segments(points, entities);
    SegmentsLength(points, entities);
    var j := RunEnd(segs, i, i);
    SegmentAt(points, entities, i);
    SegmentAt(points, entities, j);
    var si, sj := segs[i], segs[j];
    RunEndMaximal(segs, i, i);
    forall e | e in si.active ensures IsWrapKind(e.kind) && Covers(e, points[i], points[j + 1]) {
      if j > i {
        CompareEntityArraysShapes(sj.active, si.active);
        var x :| x in sj.active && SameShape(x, e);
      }
    }
    Between(points, i, j);
  }

  lemma Between(p: seq<nat>, i: nat, j: nat)
    requires StrictlyIncreasing(p) && i <= j < |p| - 1
    ensures p[i] < p[j + 1] <= p[|p| - 1]
  {
    if j + 1 < |p| - 1 {
      assert p[j + 1] < p[|p| - 1];
    }
  }

  /**
   * Over ascending points inside the text, with wrapping entities only, the
   * runs from segment `i` on build nodes whose text is the text from
   * point `i` to the last point.
   */
  lemma {:induction false} FuseText(text: Utf16, points: seq<nat>, entities: seq<Entity>, i: nat, isEmoji: int -> bool)
    requires StrictlyIncreasing(points) && |points| >= 1 && points[|points| - 1] <= |text|
    requires forall e :: e in entities ==> IsWrapKind(e.kind)
    requires i + 1 < |points|
    ensures SerializedText(BuildAll(text, Fuse(Segments(points, entities), i), isEmoji))
            == text[points[i]..points[|points| - 1]]
    decreases |points| - i
  {
    var segs := Segments(points, entities);
    SegmentsLength(points, entities);
    var j := RunEnd(segs, i, i);
    var combined := Segment(segs[i].start, segs[j].end, segs[i].active);
    RunCovered(text, points, entities, i);
    BuildText(text, combined, isEmoji);
    FuseStep(segs, i);
    BuildAllCons(text, Fuse(segs, i), isEmoji);
    var built := BuildNodeForSegment(text, combined, isEmoji);
    var later := BuildAll(text, Fuse(segs, j + 1), isEmoji);
    if j + 1 < |segs| {
      FuseText(text, points, entities, j + 1, isEmoji);
    } else {
      assert Fuse(segs, j + 1) == [];
      assert later == [];
    }
    JoinText(built, later, text, points[i], points[j + 1], points[|points| - 1]);
  }

  lemma JoinText(built: seq<Node>, later: seq<Node>, text: Utf16, a: nat, b: nat, c: nat)
    requires a <= b <= c <= |text|
    requires SerializedText(built) == text[a..b] && SerializedText(later) == text[b..c]
    ensures SerializedText(built + later) == text[a..c]
  {
    SerializedTextAppend(built, later);
    SliceConcat(text, a, b, c);
  }

  /**
   * For entities of the wrapping types (Bold, Italic, Underline, Strike,
   * Blockquote, Spoiler and TextUrl) that lie inside the text, serializing
   * the built forest gives back the text.
   */
  lemma RoundTripText(t: FormattedText, isEmoji: int -> bool)
    requires forall e :: e in EntitiesOf(t) ==> IsWrapKind(e.kind) && EndOf(e) <= |t.text|
    ensures Serialize(AstOf(Some(t), isEmoji)).text == t.text
  {
    var es := EntitiesOf(t);
    var points := SortedPoints(BreakPointSet(|t.text|, es));
    SortedPointsBounds(|t.text|, es);
    SegmentsProperties(points, es);
    var segs := Segments(points, es);
    var parts := BuildAll(t.text, Fuse(segs, 0), isEmoji);
    if |segs| == 0 {
      assert Fuse(segs, 0) == [];
    } else {
      FuseText(t.text, points, es, 0, isEmoji);
      assert t.text[0..|t.text|] == t.text;
    }
    MergeText(parts);
  }

  /** For entities of the wrapping types, `serializeAST` as written gives back the text as well. */
  lemma RoundTripAsWritten(t: FormattedText, isEmoji: int -> bool)
    requires forall e :: e in EntitiesOf(t) ==> IsWrapKind(e.kind) && EndOf(e) <= |t.text|
    ensures NoCodeContent(AstOf(Some(t), isEmoji))
    ensures SerializeAsWritten(AstOf(Some(t), isEmoji)).text == t.text
  {
    RoundTripText(t, isEmoji);
    AstNoCode(t, isEmoji);
    AsWrittenAgrees(AstOf(Some(t), isEmoji));
  }

  // ---------------------------------------------------------------------
  // Code nodes with raw content come only from Code entities
  // ---------------------------------------------------------------------

  /** Every entity active in every segment is of a wrapping type. */
  predicate WrapOnly(segments: seq<Segment>)
  {
    forall i :: 0 <= i < |segments| ==> forall e :: e in segments[i].active ==> IsWrapKind(e.kind)
  }

  /** Without Code entities, the built forest holds no Code node with raw content. */
  lemma AstNoCode(t: FormattedText, isEmoji: int -> bool)
    requires forall e :: e in EntitiesOf(t) ==> IsWrapKind(e.kind)
    ensures NoCodeContent(AstOf(Some(t), isEmoji))
  {
    var es := EntitiesOf(t);
    var points := SortedPoints(BreakPointSet(|t.text|, es));
    SegmentsProperties(points, es);
    var segs := Segments(points, es);
    assert WrapOnly(segs);
    FuseWrapOnly(segs, 0);
    BuildAllNoCode(t.text, Fuse(segs, 0), isEmoji);
    MergeNoCode(BuildAll(t.text, Fuse(segs, 0), isEmoji));
  }

  lemma NoCodeAppend(a: seq<Node>, b: seq<Node>)
    requires NoCodeContent(a) && NoCodeContent(b)
    ensures NoCodeContent(a + b)
  {
    forall i | 0 <= i < |a + b| ensures NodeNoCodeContent((a + b)[i]) {
      if i < |a| {
        assert (a + b)[i] == a[i];
      } else {
        assert (a + b)[i] == b[i - |a|];
      }
    }
  }

  lemma TokensNoCode(input: Utf16, isEmoji: int -> bool)
    ensures NoCodeContent(EmojiTokens(input, isEmoji))
  {
    EmojiTokensProperties(input, isEmoji);
  }

  /** A segment whose active entities all wrap builds no Code node with raw content. */
  lemma {:induction false} BuildNoCode(text: Utf16, segment: Segment, isEmoji: int -> bool)
    requires forall e :: e in segment.active ==> IsWrapKind(e.kind)
    ensures NoCodeContent(BuildNodeForSegment(text, segment, isEmoji))
    decreases |segment.active|
  {
    var active := segment.active;
    if |active| == 0 {
      TokensNoCode(Slice(text, segment.start, segment.end), isEmoji);
    } else {
      var k := OuterIndex(active);
      var outer := active[k];
      var innerStart := if segment.start < outer.offset then outer.offset else segment.start;
      var innerEnd := if segment.end < EndOf(outer) then segment.end else EndOf(outer);
      var inner := Segment(innerStart, innerEnd, active[..k] + active[k + 1..]);
      RemovedSubset(active, k);
      BuildNoCode(text, inner, isEmoji);
      OuterNoCode(text, outer, BuildNodeForSegment(text, inner, isEmoji), isEmoji);
    }
  }

  lemma OuterNoCode(text: Utf16, outer: Entity, innerNodes: seq<Node>, isEmoji: int -> bool)
    requires IsWrapKind(outer.kind) && NoCodeContent(innerNodes)
    ensures NoCodeContent([OuterNode(text, outer, innerNodes, isEmoji)])
  {
    TokensNoCode(Slice(text, outer.offset, EndOf(outer)), isEmoji);
    assert NodeNoCodeContent(OuterNode(text, outer, innerNodes, isEmoji));
  }

  lemma {:induction false} BuildAllNoCode(text: Utf16, segments: seq<Segment>, isEmoji: int -> bool)
    requires WrapOnly(segments)
    ensures NoCodeContent(BuildAll(text, segments, isEmoji))
    decreases |segments|
  {
    if |segments| > 0 {
      BuildNoCode(text, segments[0], isEmoji);
      assert WrapOnly(segments[1..]) by {
        forall i | 0 <= i < |segments[1..]| ensures segments[1..][i] == segments[i + 1] { }
      }
      BuildAllNoCode(text, segments[1..], isEmoji);
      NoCodeAppend(BuildNodeForSegment(text, segments[0], isEmoji), BuildAll(text, segments[1..], isEmoji));
    }
  }

  /** Fusing keeps the active entities of the segments that start the runs. */
  lemma {:induction false} FuseWrapOnly(segments: seq<Segment>, i: nat)
    requires WrapOnly(segments)
    ensures WrapOnly(Fuse(segments, i))
    decreases |segments| - i
  {
    if i < |segments| {
      var j := RunEnd(segments, i, i);
      FuseWrapOnly(segments, j + 1);
      FuseStep(segments, i);
      var f := Fuse(segments, i);
      forall m | 0 <= m < |f| ensures forall e :: e in f[m].active ==> IsWrapKind(e.kind) {
        if m > 0 {
          assert f[m] == f[1..][m - 1];
        }
      }
    }
  }

  /** `mergeNodes` fuses only text and styled nodes, so it makes no Code node with raw content. */
  lemma {:induction false} MergeNoCode(nodes: seq<Node>)
    requires NoCodeContent(nodes)
    ensures NoCodeContent(Merge(nodes))
    decreases ForestSize(nodes), 2, |nodes|
  {
    if |nodes| > 0 {
      var init, last := nodes[..|nodes| - 1], nodes[|nodes| - 1];
      assert nodes == init + [last];
      SnocSize(init, last);
      assert NoCodeContent(init) by {
        forall i | 0 <= i < |init| ensures init[i] == nodes[i] { }
      }
      MergeNoCode(init);
      NormaliseNoCode(last);
      PushNoCode(Merge(init), Normalise(last));
    }
  }

  lemma {:induction false} NormaliseNoCode(n: Node)
    requires NodeNoCodeContent(n)
    ensures NodeNoCodeContent(Normalise(n))
    decreases NodeSize(n), 0, 0
  {
    if IsStyled(n) {
      KidsSmaller(n);
      MergeNoCode(n.children);
    }
  }

  lemma {:induction false} PushNoCode(merged: seq<Node>, node: Node)
    requires NoCodeContent(merged) && NodeNoCodeContent(node)
    ensures NoCodeContent(Push(merged, node))
    decreases ForestSize(merged) + NodeSize(node), 1, 0
  {
    if |merged| > 0 && Mergeable(merged[|merged| - 1], node) {
      var front, prev := merged[..|merged| - 1], merged[|merged| - 1];
      assert merged == front + [prev];
      SnocSize(front, prev);
      assert NoCodeContent(front) by {
        forall i | 0 <= i < |front| ensures front[i] == merged[i] { }
      }
      var fused: Node;
      if IsStyled(prev) {
        ForestSizeAppend(prev.children, node.children);
        NoCodeAppend(prev.children, node.children);
        MergeNoCode(prev.children + node.children);
        fused := FormattedNode(prev.format, Merge(prev.children + node.children));
      } else {
        fused := TextNode(prev.text + node.text);
      }
      assert Push(merged, node) == front + [fused];
      NoCodeAppend(front, [fused]);
    } else {
      NoCodeAppend(merged, [node]);
    }
  }

  lemma CodePoints(code: Entity)
    requires code == Plain(Code, 0, 2)
    ensures SortedPoints(BreakPointSet(2, [code])) == [0, 2]
  {
    var ps := BreakPointSet(2, [code]);
    assert ps == {0, 2};
    TwoPoints(SortedPoints(ps), 0, 2);
  }

  /** An ascending sequence holding exactly two values is those two, in order. */
  lemma TwoPoints(r: seq<nat>, a: nat, b: nat)
    requires a < b && StrictlyIncreasing(r) && forall y :: y in r <==> y == a || y == b
    ensures r == [a, b]
  {
    FirstThreeIn(r);
    assert a in r && b in r;
    if |r| < 2 {
      assert false;
    }
    if |r| > 2 {
      assert false;
    }
    assert r[0] < r[1];
  }

  /** The first elements of a long enough sequence are members of it. */
  lemma FirstThreeIn(r: seq<nat>)
    ensures |r| >= 2 ==> r[0] in r && r[1] in r
    ensures |r| > 2 ==> r[2] in r
  {
  }

  lemma CodeParts(code: Entity, isEmoji: int -> bool)
    requires code == Plain(Code, 0, 2)
    ensures BuildAll([0x61, 0x62], Fuse(Segments([0, 2], [code]), 0), isEmoji) == [CodeNode(CodeContent([0x61, 0x62]))]
  {
    var ab: Utf16 := [0x61, 0x62];
    var segs := Segments([0, 2], [code]);
    assert Active([code], 0, 2) == [code] by {
      assert [code][1..] == [];
    }
    assert segs == [Segment(0, 2, [code])];
    assert Fuse(segs, 0) == [Segment(0, 2, [code])];
    var node := CodeNode(CodeContent(ab));
    assert BuildNodeForSegment(ab, Segment(0, 2, [code]), isEmoji) == [node] by {
      assert OuterIndex([code]) == 0;
      assert [code][..0] + [code][1..] == [];
      var inner := BuildNodeForSegment(ab, Segment(0, 2, []), isEmoji);
      assert Slice(ab, 0, 2) == ab;
      assert OuterNode(ab, code, inner, isEmoji) == node;
    }
    assert Fuse(segs, 0)[1..] == [];
  }

  /**
   * A Code entity becomes a Code node holding its text as `content`; the
   * serializer as written, which reads only `children`, loses that text.
   */
  lemma CodeEntityBuildsContent(isEmoji: int -> bool)
    ensures var ab: Utf16 := [0x61, 0x62];
      var t := FormattedText(ab, Some([Plain(Code, 0, 2)]));
      AstOf(Some(t), isEmoji) == [CodeNode(CodeContent(ab))]
      && Serialize(AstOf(Some(t), isEmoji)).text == ab
      && SerializeAsWritten(AstOf(Some(t), isEmoji)).text == []
  {
    CodeAst(isEmoji);
    CodeSerialized();
  }

  lemma CodeAst(isEmoji: int -> bool)
    ensures var ab: Utf16 := [0x61, 0x62];
      AstOf(Some(FormattedText(ab, Some([Plain(Code, 0, 2)]))), isEmoji) == [CodeNode(CodeContent(ab))]
  {
    var ab: Utf16 := [0x61, 0x62];
    var code := Plain(Code, 0, 2);
    var t := FormattedText(ab, Some([code]));
    assert EntitiesOf(t) == [code];
    CodePoints(code);
    assert SegmentsOf(t) == Segments([0, 2], [code]);
    var node := CodeNode(CodeContent(ab));
    CodeParts(code, isEmoji);
    assert AstOf(Some(t), isEmoji) == Merge([node]);
    MergeSingle(node);
  }

  /** A single node that is not styled is left as it is. */
  lemma MergeSingle(n: Node)
    requires !IsStyled(n)
    ensures Merge([n]) == [n]
  {
    assert [n][..0] == [];
    assert Merge([n]) == Push([], n);
  }

  lemma CodeSerialized()
    ensures var node := CodeNode(CodeContent([0x61, 0x62]));
      Serialize([node]).text == [0x61, 0x62] && SerializeAsWritten([node]).text == []
  {
    var ab: Utf16 := [0x61, 0x62];
    var node := CodeNode(CodeContent(ab));
    SerializeText([node]);
    SerializeText(ContentIgnored([node]));
    OneNodeText(node);
    assert ContentIgnored([node]) == [CodeNode(CodeChildren([]))];
    OneNodeText(CodeNode(CodeChildren([])));
  }
}
