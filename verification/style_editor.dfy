/**
 * The editing half of src/util/astEditor.ts: `applyStyles`, its deep form
 * `deepApplyStyles`, `removeStyle` and the entry point `applyStylesToAst`.
 *
 * Each walker first records the nodes it will change, then splices a
 * replacement for each into its parent array, found with `indexOf`.  Here a
 * recorded node is named by its visit number (see module Walk) and all the
 * splices of one call become a single `Walk.Replace`.  The functions of the
 * first part say what each operation returns; the methods of the second part
 * follow the source's loops and are proved to return exactly that.
 */
module StyleEditor {
  import opened Ast
  import opened Serializer
  import opened StyleMap
  import Walk
  import SplitTree
  import Selection

  /** The two types that `applyStyles` hands to `deepApplyStyles`. */
  predicate IsDeep(t: NodeType)
  {
    t == Spoiler || t == TextUrl
  }

  /** `{ type: nodeType, children }` for a type applied in place. */
  function Wrap(t: NodeType, kids: seq<Node>): (r: Node)
    requires IsStyleType(t) && !IsDeep(t)
    ensures TypeOf(r) == t && HasChildren(r) && Kids(r) == kids
    ensures NodeText(r) == SerializedText(kids)
  {
    if t == Code then CodeNode(CodeChildren(kids)) else FormattedNode(t, kids)
  }

  /** `href || ''`. */
  function OrEmpty(href: Option<string>): string
  {
    if href.Some? then href.value else ""
  }

  // ---------------------------------------------------------------------
  // applyStyles for the types applied in place
  // ---------------------------------------------------------------------

  /** An entry of `nodesToStyle`: the visit number and content of a text node, and the window to style in it. */
  datatype Cut = Cut(index: nat, content: Utf16, start: nat, end: nat)

  /** The cut names a text node among the visits numbered from `k`, and its window lies inside the content. */
  predicate CutPlaced(cut: Cut, vs: seq<Node>, k: nat)
  {
    k <= cut.index < k + |vs| && vs[cut.index - k] == TextNode(cut.content)
    && cut.start <= cut.end <= |cut.content|
  }

  /** The cut the walk of `applyStyles` records for the node `n`, visit number `k`, reached after `total` code units. */
  function CutAt(n: Node, k: nat, total: nat, offset: nat, end: nat): seq<Cut>
  {
    if n.TextNode? && total < end && total + |n.text| > offset
    then [Cut(k, n.text, SplitTree.StartCut(offset, total), SplitTree.EndCut(|n.text|, end, total))]
    else []
  }

  /** The walk of `applyStyles` stops after a text node that reaches `end`. */
  predicate CutStops(n: Node, total: nat, end: nat)
  {
    n.TextNode? && total + |n.text| >= end
  }

  /**
   * The cuts the walk of `applyStyles` records from the stack `stack`, whose
   * top has visit number `k`, `total` code units having been passed: every
   * text node that overlaps `[offset, end)`, up to the first text node
   * reaching `end`, where the walk stops.  Emoji and custom emoji only
   * advance the count; containers push their children.
   */
  function TextCuts(stack: seq<Node>, k: nat, total: nat, offset: nat, end: nat): seq<Cut>
    decreases ForestSize(stack)
  {
    if |stack| == 0 then []
    else
      Walk.InnerSmaller(stack, None);
      CutAt(stack[0], k, total, offset, end)
      + if CutStops(stack[0], total, end) then []
        else TextCuts(Walk.Inner(stack[0], None) + stack[1..], k + 1, total + |LeafContent(stack[0])|, offset, end)
  }

  /** Every cut names a text node the walk visits, with its window inside the node's content. */
  lemma {:induction false} CutsPlaced(stack: seq<Node>, k: nat, total: nat, offset: nat, end: nat)
    requires offset <= end
    ensures forall i :: 0 <= i < |TextCuts(stack, k, total, offset, end)| ==>
              CutPlaced(TextCuts(stack, k, total, offset, end)[i], Walk.Visits(stack, None), k)
    decreases ForestSize(stack)
  {
    if |stack| > 0 {
      var next := Walk.Inner(stack[0], None) + stack[1..];
      Walk.InnerSmaller(stack, None);
      TextCutsUnfold(stack, k, total, offset, end);
      if CutStops(stack[0], total, end) {
        PlacedBoth(stack, k, total, offset, end, []);
      } else {
        CutsPlaced(next, k + 1, total + |LeafContent(stack[0])|, offset, end);
        PlacedBoth(stack, k, total, offset, end, TextCuts(next, k + 1, total + |LeafContent(stack[0])|, offset, end));
      }
    }
  }

  /** The cut of the top of the stack followed by cuts placed after the first pop are all placed. */
  lemma PlacedBoth(stack: seq<Node>, k: nat, total: nat, offset: nat, end: nat, later: seq<Cut>)
    requires |stack| > 0 && offset <= end
    requires forall i :: 0 <= i < |later| ==>
               CutPlaced(later[i], Walk.Visits(Walk.Inner(stack[0], None) + stack[1..], None), k + 1)
    ensures var all := CutAt(stack[0], k, total, offset, end) + later;
            forall i :: 0 <= i < |all| ==> CutPlaced(all[i], Walk.Visits(stack, None), k)
  {
    var head := CutAt(stack[0], k, total, offset, end);
    HeadPlaced(stack, k, total, offset, end);
    Walk.VisitsStep(stack, None);
    PlacedConcat(head, later, Walk.Visits(stack, None), k);
  }

  /** Cuts placed in `vs` from `k`, then cuts placed in `vs` after its first node, are placed in `vs`. */
  lemma PlacedConcat(head: seq<Cut>, later: seq<Cut>, vs: seq<Node>, k: nat)
    requires |vs| > 0
    requires forall c :: c in head ==> CutPlaced(c, vs, k)
    requires forall i :: 0 <= i < |later| ==> CutPlaced(later[i], vs[1..], k + 1)
    ensures forall i :: 0 <= i < |head + later| ==> CutPlaced((head + later)[i], vs, k)
  {
    forall i | 0 <= i < |head + later|
      ensures CutPlaced((head + later)[i], vs, k)
    {
      if i < |head| {
        assert (head + later)[i] == head[i] && head[i] in head;
      } else {
        var c := later[i - |head|];
        assert (head + later)[i] == c;
        assert vs[1..][c.index - (k + 1)] == vs[c.index - k];
      }
    }
  }

  /** The cut of the top of the stack names the first visit. */
  lemma HeadPlaced(stack: seq<Node>, k: nat, total: nat, offset: nat, end: nat)
    requires |stack| > 0 && offset <= end
    ensures forall c :: c in CutAt(stack[0], k, total, offset, end) ==> CutPlaced(c, Walk.Visits(stack, None), k)
  {
    Walk.VisitsStep(stack, None);
  }

  /** `part1`, the styled `part2` and `part3`, the empty outer parts dropped. */
  function Pieces(cut: Cut, t: NodeType): seq<Node>
    requires IsStyleType(t) && !IsDeep(t)
  {
    var c := cut.content;
    var part1, part2, part3 := Slice(c, 0, cut.start), Slice(c, cut.start, cut.end), Slice(c, cut.end, |c|);
    (if |part1| > 0 then [TextNode(part1)] else [])
    + [Wrap(t, [TextNode(part2)])]
    + (if |part3| > 0 then [TextNode(part3)] else [])
  }

  /** The splices of `nodesToStyle.forEach`, in order, added to `acc`. */
  function CutMap(cuts: seq<Cut>, t: NodeType, acc: map<nat, seq<Node>>): map<nat, seq<Node>>
    requires IsStyleType(t) && !IsDeep(t)
    decreases |cuts|
  {
    if |cuts| == 0 then acc else CutMap(cuts[1..], t, acc[cuts[0].index := Pieces(cuts[0], t)])
  }

  /** What `applyStyles` returns for a type applied in place. */
  function ShallowApplied(ast: seq<Node>, offset: nat, length: nat, t: NodeType): seq<Node>
    requires IsStyleType(t) && !IsDeep(t)
  {
    var cuts := TextCuts(ast, 0, 0, offset, offset + length);
    Walk.Replace(ast, None, 0, CutMap(cuts, t, map[]))
  }

  // ---------------------------------------------------------------------
  // removeStyle: the walk
  // ---------------------------------------------------------------------

  /** An entry of `stylesToRemove`, with the url of the node (used only by the corrected href choice). */
  datatype Removal = Removal(index: nat, kids: seq<Node>, url: Option<string>, nodeLength: nat, start: nat, end: nat)

  /** `stylesToRemove` and `hrefs` when the walk ends. */
  datatype RemovalScan = RemovalScan(records: seq<Removal>, hrefs: seq<Option<string>>)

  /** The record names a node of type `t` among the visits numbered from `k`, with that node's children. */
  predicate RemovalPlaced(r: Removal, vs: seq<Node>, k: nat, offset: nat, t: NodeType)
  {
    k <= r.index < k + |vs|
    && TypeOf(vs[r.index - k]) == t && HasChildren(vs[r.index - k])
    && r.kids == Kids(vs[r.index - k]) && r.url == Selection.UrlOf(vs[r.index - k])
    && r.nodeLength == Walk.TextLength(r.kids)
    && r.start <= r.end <= r.nodeLength
    && (r.start > 0 ==> offset > 0)
  }

  function Prepend(records: seq<Removal>, hrefs: seq<Option<string>>, rest: Outcome<RemovalScan>): Outcome<RemovalScan>
  {
    match rest
    case Throws => Throws
    case Returns(s) => Returns(RemovalScan(records + s.records, hrefs + s.hrefs))
  }

  /** The record the walk of `removeStyle` makes of the node `n`, visit number `k`, reached after `total` code units. */
  function RecordAt(n: Node, k: nat, total: nat, offset: nat, end: nat, t: NodeType): seq<Removal>
  {
    if TypeOf(n) == t && HasChildren(n) && total < end && total + Walk.TextLength(Kids(n)) > offset
    then
      var nodeLength := Walk.TextLength(Kids(n));
      [Removal(k, Kids(n), Selection.UrlOf(n), nodeLength,
               SplitTree.StartCut(offset, total), SplitTree.EndCut(nodeLength, end, total))]
    else []
  }

  /** The url the walk of `removeStyle` queues for `n`: every link of type `t` is queued. */
  function HrefAt(n: Node, t: NodeType): seq<Option<string>>
  {
    if TypeOf(n) == t && t == TextUrl then [n.url] else []
  }

  /** The code units the walk of `removeStyle` counts for `n`: a leaf's content, the text under a node of type `t`. */
  function RemovalAdvance(n: Node, total: nat, t: NodeType): nat
  {
    if IsLeaf(n) then total + |LeafContent(n)|
    else if TypeOf(n) == t then total + Walk.TextLength(Kids(n))
    else total
  }

  /** The walk of `removeStyle` stops at a leaf that reaches `end`. */
  predicate RemovalStops(n: Node, total: nat, end: nat)
  {
    IsLeaf(n) && total + |LeafContent(n)| >= end
  }

  /**
   * The walk of `removeStyle` from the visit numbered `k` on, `total` code
   * units having been passed.  Text, emoji and custom emoji advance the
   * count and stop the walk once it reaches `end`.  A node of type `t` is
   * measured by `calcNodeLength` of its children, which throws when it has
   * none (a code node with content); it is recorded when it overlaps
   * `[offset, end)`, and a link's url is queued whether or not it overlaps.
   */
  function Removals(vs: seq<Node>, k: nat, total: nat, offset: nat, end: nat, t: NodeType): Outcome<RemovalScan>
    decreases |vs|
  {
    if |vs| == 0 || RemovalStops(vs[0], total, end) then Returns(RemovalScan([], []))
    else if TypeOf(vs[0]) == t && !HasChildren(vs[0]) then Throws
    else
      Prepend(RecordAt(vs[0], k, total, offset, end, t), HrefAt(vs[0], t),
              Removals(vs[1..], k + 1, RemovalAdvance(vs[0], total, t), offset, end, t))
  }

  lemma RemovalsPop(vs: seq<Node>, k: nat, total: nat, offset: nat, end: nat, t: NodeType)
    requires |vs| > 0
    ensures Removals(vs, k, total, offset, end, t)
            == if RemovalStops(vs[0], total, end) then Returns(RemovalScan([], []))
               else if TypeOf(vs[0]) == t && !HasChildren(vs[0]) then Throws
               else Prepend(RecordAt(vs[0], k, total, offset, end, t), HrefAt(vs[0], t),
                            Removals(vs[1..], k + 1, RemovalAdvance(vs[0], total, t), offset, end, t))
  {
  }

  /** Every record names a node of type `t` the walk visits, with that node's children and url. */
  lemma {:induction false} RemovalsPlaced(vs: seq<Node>, k: nat, total: nat, offset: nat, end: nat, t: NodeType)
    requires offset <= end
    ensures var r := Removals(vs, k, total, offset, end, t);
            r.Returns? ==> forall i :: 0 <= i < |r.value.records| ==> RemovalPlaced(r.value.records[i], vs, k, offset, t)
    decreases |vs|
  {
    if |vs| > 0 && !RemovalStops(vs[0], total, end) && !(TypeOf(vs[0]) == t && !HasChildren(vs[0])) {
      var later := Removals(vs[1..], k + 1, RemovalAdvance(vs[0], total, t), offset, end, t);
      RemovalsPlaced(vs[1..], k + 1, RemovalAdvance(vs[0], total, t), offset, end, t);
      if later.Returns? {
        forall i | 0 <= i < |later.value.records|
          ensures RemovalPlaced(later.value.records[i], vs, k, offset, t)
        {
          RemovalShift(later.value.records[i], vs, k, offset, t);
        }
      }
    }
  }

  /** A record placed among the visits after the first is placed among all of them, one number later. */
  lemma RemovalShift(r: Removal, vs: seq<Node>, k: nat, offset: nat, t: NodeType)
    requires |vs| > 0 && RemovalPlaced(r, vs[1..], k + 1, offset, t)
    ensures RemovalPlaced(r, vs, k, offset, t)
  {
    assert vs[1..][r.index - (k + 1)] == vs[r.index - k];
  }

  /** Each record with no more than the forest's size and its parent's position in it. */
  lemma RecordsSmaller(ast: seq<Node>, records: seq<Removal>, offset: nat, t: NodeType)
    requires forall i :: 0 <= i < |records| ==> RemovalPlaced(records[i], Walk.Visits(ast, Some(t)), 0, offset, t)
    ensures forall i :: 0 <= i < |records| ==> ForestSize(records[i].kids) < ForestSize(ast)
  {
    var vs := Walk.Visits(ast, Some(t));
    Walk.VisitedSize(ast, Some(t));
    forall i | 0 <= i < |records|
      ensures ForestSize(records[i].kids) < ForestSize(ast)
    {
      KidsSmaller(vs[records[i].index]);
    }
  }

  // ---------------------------------------------------------------------
  // removeStyle: which href each remnant gets
  // ---------------------------------------------------------------------

  /** The urls given to the part before and the part after the removed window of one record. */
  datatype RemnantHrefs = RemnantHrefs(before: Option<string>, after: Option<string>)

  /** Which href the remnants get: the source's shared queue, or the corrected choice of the node's own url. */
  datatype HrefPolicy = SharedQueue | OwnUrl

  /** `hrefs.pop()` after `hrefs.reverse()`: the oldest entry, or `undefined` once the queue is empty. */
  function Pop(queue: seq<Option<string>>): (Option<string>, seq<Option<string>>)
  {
    if |queue| == 0 then (None, []) else (queue[0], queue[1..])
  }

  /**
   * As written: every remnant takes the next url from one queue shared by
   * all records, which holds the url of every link the walk passed.
   */
  function QueuedHrefs(records: seq<Removal>, queue: seq<Option<string>>): (r: seq<RemnantHrefs>)
    ensures |r| == |records|
  {
    if |records| == 0 then []
    else
      var (hrefs, rest) := TakeHrefs(records[0], queue);
      [hrefs] + QueuedHrefs(records[1..], rest)
  }

  /** The pops made for one record: one for the part before its window, one for the part after it. */
  function TakeHrefs(record: Removal, queue: seq<Option<string>>): (RemnantHrefs, seq<Option<string>>)
  {
    var (before, q1) := if record.start > 0 then Pop(queue) else (None, queue);
    var (after, q2) := if record.end < record.nodeLength then Pop(q1) else (None, q1);
    (RemnantHrefs(before, after), q2)
  }

  /** Corrected: both remnants of a link keep that link's own url. */
  function OwnHrefs(records: seq<Removal>): (r: seq<RemnantHrefs>)
    ensures |r| == |records|
    ensures forall i :: 0 <= i < |r| ==> r[i] == RemnantHrefs(records[i].url, records[i].url)
  {
    seq(|records|, i requires 0 <= i < |records| => RemnantHrefs(records[i].url, records[i].url))
  }

  function RemnantHrefsFor(p: HrefPolicy, scan: RemovalScan): (r: seq<RemnantHrefs>)
    ensures |r| == |scan.records|
  {
    match p
    case SharedQueue => QueuedHrefs(scan.records, scan.hrefs)
    case OwnUrl => OwnHrefs(scan.records)
  }

  /** The `href` argument of the nested `applyStyles`: `href || ''` for links, none otherwise. */
  function HrefArgument(t: NodeType, href: Option<string>): Option<string>
  {
    if t == TextUrl then Some(OrEmpty(href)) else None
  }

  // ---------------------------------------------------------------------
  // The mutually recursive operations
  // ---------------------------------------------------------------------

  /** 1 when `offset` is positive: only then can a record re-apply the style before its window. */
  function Rank(offset: nat): nat
  {
    if offset > 0 then 1 else 0
  }

  /** What `applyStyles(ast, offset, length, t, href)` returns. */
  function Applied(ast: seq<Node>, offset: nat, length: nat, t: NodeType, href: Option<string>, p: HrefPolicy): Outcome<seq<Node>>
    requires IsStyleType(t)
    decreases 0, 3 * ForestSize(ast) + 2, 0, 0
  {
    if IsDeep(t) then DeepApplied(ast, offset, length, t, href, p)
    else Returns(ShallowApplied(ast, offset, length, t))
  }

  /** What `pushStyledPart(part)` pushes: the part, with the style removed inside, under one new node. */
  function Styled(part: seq<Node>, length: nat, t: NodeType, href: Option<string>, p: HrefPolicy): Outcome<Node>
    requires IsDeep(t)
    decreases 0, 3 * ForestSize(part), 2, 0
  {
    match Removed(part, 0, length, t, p)
    case Throws => Throws
    case Returns(kids) =>
      if t == Spoiler then Returns(FormattedNode(Spoiler, kids))
      else Returns(LinkNode(TextUrl, Some(OrEmpty(href)), kids))
  }

  /** `before`, the styled node and `after`, in a row. */
  function Around(before: seq<Node>, styled: Outcome<Node>, after: seq<Node>): Outcome<seq<Node>>
  {
    match styled
    case Throws => Throws
    case Returns(n) => Returns(before + [n] + after)
  }

  /** What `deepApplyStyles(ast, offset, length, t, href)` returns. */
  function DeepApplied(ast: seq<Node>, offset: nat, length: nat, t: NodeType, href: Option<string>, p: HrefPolicy): Outcome<seq<Node>>
    requires IsDeep(t)
    decreases 0, 3 * ForestSize(ast) + 1, 0, 0
  {
    SplitTree.SplitSize(ast, offset, offset + length);
    match SplitTree.Split(ast, offset, offset + length)
    case Throws => Throws
    case Returns(parts) =>
      if |parts| == 0 then Throws
      else if |parts| == 3 then Around(parts[0], Styled(parts[1], length, t, href, p), parts[2])
      else if |parts| == 2 then
        if offset == 0 then Around([], Styled(parts[0], length, t, href, p), parts[1])
        else Around(parts[0], Styled(parts[1], length, t, href, p), [])
      else Around([], Styled(parts[0], length, t, href, p), [])
  }

  /** What `removeStyle(ast, offset, length, t)` returns. */
  function Removed(ast: seq<Node>, offset: nat, length: nat, t: NodeType, p: HrefPolicy): Outcome<seq<Node>>
    requires IsStyleType(t)
    decreases Rank(offset), 3 * ForestSize(ast), 1, 0
  {
    match Removals(Walk.Visits(ast, Some(t)), 0, 0, offset, offset + length, t)
    case Throws => Throws
    case Returns(scan) =>
      RemovalsPlaced(Walk.Visits(ast, Some(t)), 0, 0, offset, offset + length, t);
      RecordsSmaller(ast, scan.records, offset, t);
      match Restyled(scan.records, RemnantHrefsFor(p, scan), t, p, map[], ast, offset)
      case Throws => Throws
      case Returns(repl) => Returns(Walk.Replace(ast, Some(t), 0, repl))
  }

  /**
   * The splices of `stylesToRemove.forEach`, in order, added to `acc`.
   * `ast` and `offset` are those of the enclosing `removeStyle`.
   */
  function Restyled(records: seq<Removal>, hrefs: seq<RemnantHrefs>, t: NodeType, p: HrefPolicy,
                    acc: map<nat, seq<Node>>, ast: seq<Node>, offset: nat): Outcome<map<nat, seq<Node>>>
    requires IsStyleType(t) && |hrefs| == |records|
    requires forall i :: 0 <= i < |records| ==> ForestSize(records[i].kids) < ForestSize(ast)
    requires forall i :: 0 <= i < |records| ==> records[i].start > 0 ==> offset > 0
    decreases Rank(offset), 3 * ForestSize(ast), 0, |records| + 1
  {
    if |records| == 0 then Returns(acc)
    else
      match RestyledRecord(records[0], hrefs[0], t, p, ast, offset)
      case Throws => Throws
      case Returns(updated) => Restyled(records[1..], hrefs[1..], t, p, acc[records[0].index := updated], ast, offset)
  }

  /** The children of one recorded node, with the style applied again before and after the removed window. */
  function RestyledRecord(r: Removal, hrefs: RemnantHrefs, t: NodeType, p: HrefPolicy, ast: seq<Node>, offset: nat): Outcome<seq<Node>>
    requires IsStyleType(t)
    requires ForestSize(r.kids) < ForestSize(ast) && (r.start > 0 ==> offset > 0)
    decreases Rank(offset), 3 * ForestSize(ast), 0, 0
  {
    var first := if r.start > 0 then Applied(r.kids, 0, r.start, t, HrefArgument(t, hrefs.before), p)
                 else Returns(r.kids);
    if first.Throws? || r.end >= r.nodeLength then first
    else Applied(first.value, r.end, r.nodeLength - r.end, t, HrefArgument(t, hrefs.after), p)
  }

  /** What `applyStylesToAst` returns; `getNodeTypeFromStyle` never yields `undefined`. */
  function StylesApplied(ast: seq<Node>, offset: nat, length: nat, style: AstStyle, remove: bool,
                         href: Option<string>, p: HrefPolicy): Outcome<seq<Node>>
  {
    var t := NodeTypeFromStyle(style).value;
    if remove then Removed(ast, offset, length, t, p) else Applied(ast, offset, length, t, href, p)
  }

  // ---------------------------------------------------------------------
  // The operations as the source performs them
  // ---------------------------------------------------------------------

  /** One pop of a walk's stack: the popped node, then the visits from what is left and what it pushes. */
  lemma PopVisit(stack: seq<Node>, skip: Option<NodeType>)
    requires |stack| > 0
    ensures ForestSize(Walk.Inner(stack[0], skip) + stack[1..]) < ForestSize(stack)
    ensures Walk.Visits(stack, skip) == [stack[0]] + Walk.Visits(Walk.Inner(stack[0], skip) + stack[1..], skip)
    ensures !HasChildren(stack[0]) ==> Walk.Inner(stack[0], skip) + stack[1..] == stack[1..]
  {
    Walk.InnerSmaller(stack, skip);
  }

  /** One pass of the loop of `applyStyles` keeps the entries collected so far followed by those still to come. */
  lemma CollectStep(acc: seq<Cut>, stack: seq<Node>, k: nat, total: nat, offset: nat, end: nat,
                    cut: seq<Cut>, stop: bool, next: seq<Node>, total': nat)
    requires |stack| > 0
    requires cut == CutAt(stack[0], k, total, offset, end) && stop == CutStops(stack[0], total, end)
    requires next == Walk.Inner(stack[0], None) + stack[1..] && total' == total + |LeafContent(stack[0])|
    ensures stop ==> acc + TextCuts(stack, k, total, offset, end) == acc + cut
    ensures !stop ==> acc + TextCuts(stack, k, total, offset, end)
                      == (acc + cut) + TextCuts(next, k + 1, total', offset, end)
  {
    TextCutsUnfold(stack, k, total, offset, end);
    if stop {
      assert cut + [] == cut;
    } else {
      Associative(acc, cut, TextCuts(next, k + 1, total', offset, end));
    }
  }

  /** The cuts of a walk: those of the popped node, then, unless it stops the walk, those of the rest. */
  lemma TextCutsUnfold(stack: seq<Node>, k: nat, total: nat, offset: nat, end: nat)
    requires |stack| > 0
    ensures TextCuts(stack, k, total, offset, end)
            == CutAt(stack[0], k, total, offset, end)
               + if CutStops(stack[0], total, end) then []
                 else TextCuts(Walk.Inner(stack[0], None) + stack[1..], k + 1, total + |LeafContent(stack[0])|, offset, end)
  {
  }

  /** The walk of `applyStyles`: the entries of `nodesToStyle`. */
  method CollectTextCuts(ast: seq<Node>, offset: nat, end: nat) returns (nodesToStyle: seq<Cut>)
    requires offset <= end
    ensures nodesToStyle == TextCuts(ast, 0, 0, offset, end)
  {
    var totalLength: nat := 0;
    var stack := ast;
    var index: nat := 0;
    nodesToStyle := [];
    ghost var goal := TextCuts(ast, 0, 0, offset, end);
    assert [] + goal == goal;
    while |stack| > 0
      invariant nodesToStyle + TextCuts(stack, index, totalLength, offset, end) == goal
      decreases ForestSize(stack)
    {
      var node := stack[0];
      Walk.InnerSmaller(stack, None);
      var cut, total, stop, pushed := VisitForCut(node, index, totalLength, offset, end);
      CollectStep(nodesToStyle, stack, index, totalLength, offset, end, cut, stop, pushed + stack[1..], total);
      nodesToStyle := nodesToStyle + cut;
      if stop {
        return;
      }
      stack := pushed + stack[1..];
      totalLength := total;
      index := index + 1;
    }
    assert nodesToStyle + [] == nodesToStyle;
  }

  /**
   * The body of the loop of `applyStyles` for the popped node: the entry
   * it adds to `nodesToStyle`, the new `totalLength`, whether the loop
   * breaks, and the children it pushes.
   */
  method VisitForCut(node: Node, index: nat, totalLength: nat, offset: nat, end: nat)
    returns (cut: seq<Cut>, total: nat, stop: bool, pushed: seq<Node>)
    ensures cut == CutAt(node, index, totalLength, offset, end)
    ensures stop == CutStops(node, totalLength, end)
    ensures total == totalLength + |LeafContent(node)|
    ensures pushed == Walk.Inner(node, None)
  {
    cut, total, stop, pushed := [], totalLength, false, [];
    if node.TextNode? {
      var nodeContent := node.text;
      var nodeStart := totalLength;
      total := totalLength + |nodeContent|;
      if nodeStart < end && total > offset {
        cut := [Cut(index, nodeContent, SplitTree.StartCut(offset, nodeStart), SplitTree.EndCut(|nodeContent|, end, nodeStart))];
      }
      stop := total >= end;
    } else if node.EmojiNode? || node.CustomEmojiNode? {
      total := totalLength + |LeafContent(node)|;
    } else if HasChildren(node) {
      pushed := Kids(node);
    }
  }

  /** `applyStyles`. */
  method ApplyStyles(ast: seq<Node>, offset: nat, length: nat, nodeType: NodeType, href: Option<string>)
    returns (r: Outcome<seq<Node>>)
    requires IsStyleType(nodeType)
    ensures r == Applied(ast, offset, length, nodeType, href, SharedQueue)
    decreases 0, 3 * ForestSize(ast) + 2, 0, 0
  {
    if IsDeep(nodeType) {
      r := DeepApplyStyles(ast, offset, length, nodeType, href);
      AppliedDeeply(ast, offset, length, nodeType, href, SharedQueue);
      return;
    }
    var result := ShallowApplyStyles(ast, offset, length, nodeType);
    AppliedInPlace(ast, offset, length, nodeType, href, SharedQueue);
    r := Returns(result);
  }

  /** `applyStyles` for a type applied in place: collect the text nodes in the range, then style them. */
  method ShallowApplyStyles(ast: seq<Node>, offset: nat, length: nat, nodeType: NodeType) returns (result: seq<Node>)
    requires IsStyleType(nodeType) && !IsDeep(nodeType)
    ensures result == Walk.Replace(ast, None, 0, CutMap(TextCuts(ast, 0, 0, offset, offset + length), nodeType, map[]))
  {
    var nodesToStyle := CollectTextCuts(ast, offset, offset + length);
    result := StyleTextNodes(ast, nodesToStyle, nodeType);
  }

  /** `applyStyles` for a type that wraps whole parts: the deep application. */
  lemma AppliedDeeply(ast: seq<Node>, offset: nat, length: nat, t: NodeType, href: Option<string>, p: HrefPolicy)
    requires IsStyleType(t) && IsDeep(t)
    ensures Applied(ast, offset, length, t, href, p) == DeepApplied(ast, offset, length, t, href, p)
  {
  }

  /** `applyStyles` for a type applied in place: the splices of the cuts the walk records. */
  lemma AppliedInPlace(ast: seq<Node>, offset: nat, length: nat, t: NodeType, href: Option<string>, p: HrefPolicy)
    requires IsStyleType(t) && !IsDeep(t)
    ensures Applied(ast, offset, length, t, href, p)
            == Returns(Walk.Replace(ast, None, 0, CutMap(TextCuts(ast, 0, 0, offset, offset + length), t, map[])))
  {
  }

  /** `nodesToStyle.forEach`: every recorded text node is replaced by its pieces. */
  method StyleTextNodes(ast: seq<Node>, nodesToStyle: seq<Cut>, nodeType: NodeType) returns (result: seq<Node>)
    requires IsStyleType(nodeType) && !IsDeep(nodeType)
    ensures result == Walk.Replace(ast, None, 0, CutMap(nodesToStyle, nodeType, map[]))
  {
    var repl: map<nat, seq<Node>> := map[];
    var i := 0;
    while i < |nodesToStyle|
      invariant 0 <= i <= |nodesToStyle|
      invariant CutMap(nodesToStyle[i..], nodeType, repl) == CutMap(nodesToStyle, nodeType, map[])
    {
      var updatedChilds := StyleTextNode(nodesToStyle[i], nodeType);
      assert nodesToStyle[i..][1..] == nodesToStyle[i + 1..];
      repl := repl[nodesToStyle[i].index := updatedChilds];
      i := i + 1;
    }
    result := Walk.Replace(ast, None, 0, repl);
  }

  /** The body of `nodesToStyle.forEach`: the nodes spliced in place of one text node. */
  method StyleTextNode(info: Cut, nodeType: NodeType) returns (updatedChilds: seq<Node>)
    requires IsStyleType(nodeType) && !IsDeep(nodeType)
    ensures updatedChilds == Pieces(info, nodeType)
  {
    var content := info.content;
    var part1 := Slice(content, 0, info.start);
    var part2 := Slice(content, info.start, info.end);
    var part3 := Slice(content, info.end, |content|);
    updatedChilds := [];
    if |part1| > 0 {
      updatedChilds := updatedChilds + [TextNode(part1)];
    }
    updatedChilds := updatedChilds + [Wrap(nodeType, [TextNode(part2)])];
    if |part3| > 0 {
      updatedChilds := updatedChilds + [TextNode(part3)];
    }
  }

  /** `pushStyledPart`: the node it pushes. */
  method PushStyledPart(part: seq<Node>, length: nat, nodeType: NodeType, href: Option<string>) returns (r: Outcome<Node>)
    requires IsDeep(nodeType)
    ensures r == Styled(part, length, nodeType, href, SharedQueue)
    decreases 0, 3 * ForestSize(part), 2, 0
  {
    var children := RemoveStyle(part, 0, length, nodeType);
    if children.Throws? {
      return Throws;
    }
    if nodeType == Spoiler {
      r := Returns(FormattedNode(Spoiler, children.value));
    } else {
      r := Returns(LinkNode(TextUrl, Some(OrEmpty(href)), children.value));
    }
  }

  /** `deepApplyStyles`. */
  method DeepApplyStyles(ast: seq<Node>, offset: nat, length: nat, nodeType: NodeType, href: Option<string>)
    returns (r: Outcome<seq<Node>>)
    requires IsDeep(nodeType)
    ensures r == DeepApplied(ast, offset, length, nodeType, href, SharedQueue)
    decreases 0, 3 * ForestSize(ast) + 1, 0, 0
  {
    var end := offset + length;
    var split := SplitTree.SplitTree(ast, offset, end);
    if split.Throws? {
      return Throws;
    }
    var parts := split.value;
    SplitTree.SplitSize(ast, offset, end);
    if |parts| == 0 {
      // `pushStyledPart(parts[0])` hands `undefined` to `removeStyle`
      return Throws;
    }
    var styled: Outcome<Node>;
    if |parts| == 3 {
      styled := PushStyledPart(parts[1], length, nodeType, href);
      r := Around(parts[0], styled, parts[2]);
    } else if |parts| == 2 {
      if offset == 0 {
        styled := PushStyledPart(parts[0], length, nodeType, href);
        r := Around([], styled, parts[1]);
      } else {
        styled := PushStyledPart(parts[1], length, nodeType, href);
        r := Around(parts[0], styled, []);
      }
    } else {
      styled := PushStyledPart(parts[0], length, nodeType, href);
      r := Around([], styled, []);
    }
  }

  /** Only a walk removing links queues urls. */
  lemma {:induction false} HrefsOnlyForLinks(vs: seq<Node>, k: nat, total: nat, offset: nat, end: nat, t: NodeType)
    ensures var r := Removals(vs, k, total, offset, end, t);
            r.Returns? && t != TextUrl ==> r.value.hrefs == []
    decreases |vs|
  {
    if |vs| > 0 && !RemovalStops(vs[0], total, end) && !(TypeOf(vs[0]) == t && !HasChildren(vs[0])) {
      HrefsOnlyForLinks(vs[1..], k + 1, RemovalAdvance(vs[0], total, t), offset, end, t);
    }
  }

  lemma PrependTwice(a: seq<Removal>, b: seq<Option<string>>, c: seq<Removal>, d: seq<Option<string>>, rest: Outcome<RemovalScan>)
    ensures Prepend(a, b, Prepend(c, d, rest)) == Prepend(a + c, b + d, rest)
  {
    if rest.Returns? {
      Associative(a, c, rest.value.records);
      Associative(b, d, rest.value.hrefs);
    }
  }

  /** The walk of `removeStyle`: `stylesToRemove` and `hrefs`, or the throw of `calcNodeLength`. */
  method CollectRemovals(ast: seq<Node>, offset: nat, end: nat, nodeType: NodeType) returns (r: Outcome<RemovalScan>)
    requires offset <= end && IsStyleType(nodeType)
    ensures r == Removals(Walk.Visits(ast, Some(nodeType)), 0, 0, offset, end, nodeType)
  {
    var totalLength: nat := 0;
    var stack := ast;
    var index: nat := 0;
    var stylesToRemove: seq<Removal> := [];
    var hrefs: seq<Option<string>> := [];
    ghost var goal := Removals(Walk.Visits(ast, Some(nodeType)), 0, 0, offset, end, nodeType);
    assert goal.Returns? ==> [] + goal.value.records == goal.value.records && [] + goal.value.hrefs == goal.value.hrefs;
    while |stack| > 0
      invariant Prepend(stylesToRemove, hrefs, Removals(Walk.Visits(stack, Some(nodeType)), index, totalLength, offset, end, nodeType)) == goal
      decreases ForestSize(stack)
    {
      var node := stack[0];
      ghost var rest := Walk.Inner(node, Some(nodeType)) + stack[1..];
      ghost var recordsBefore, hrefsBefore := stylesToRemove, hrefs;
      ghost var record, href := RecordAt(node, index, totalLength, offset, end, nodeType), HrefAt(node, nodeType);
      ghost var later := Removals(Walk.Visits(rest, Some(nodeType)), index + 1,
                                  RemovalAdvance(node, totalLength, nodeType), offset, end, nodeType);
      PopVisit(stack, Some(nodeType));
      RemovalsPop(Walk.Visits(stack, Some(nodeType)), index, totalLength, offset, end, nodeType);
      stack := stack[1..];
      var stop, throws, recorded, queued, totalAfter := VisitForRemoval(node, index, totalLength, offset, end, nodeType);
      if stop {
        assert stylesToRemove + [] == stylesToRemove && hrefs + [] == hrefs;
        return Returns(RemovalScan(stylesToRemove, hrefs));
      }
      if throws {
        return Throws;
      }
      stylesToRemove := stylesToRemove + recorded;
      hrefs := hrefs + queued;
      totalLength := totalAfter;
      if TypeOf(node) != nodeType && HasChildren(node) {
        stack := Kids(node) + stack;
      }
      assert stack == rest;
      assert stylesToRemove == recordsBefore + record && hrefs == hrefsBefore + href;
      PrependTwice(recordsBefore, hrefsBefore, record, href, later);
      index := index + 1;
    }
    assert stylesToRemove + [] == stylesToRemove && hrefs + [] == hrefs;
    r := Returns(RemovalScan(stylesToRemove, hrefs));
  }

  /**
   * One turn of the walk of `removeStyle`: whether it stops at `node` or
   * throws there, and otherwise the record and url it adds and the count
   * after the node.
   */
  method VisitForRemoval(node: Node, index: nat, totalLength: nat, offset: nat, end: nat, nodeType: NodeType)
    returns (stop: bool, throws: bool, record: seq<Removal>, href: seq<Option<string>>, totalAfter: nat)
    requires IsStyleType(nodeType)
    ensures stop == RemovalStops(node, totalLength, end)
    ensures !stop ==> throws == (TypeOf(node) == nodeType && !HasChildren(node))
    ensures !stop && !throws ==> record == RecordAt(node, index, totalLength, offset, end, nodeType)
    ensures !stop && !throws ==> href == HrefAt(node, nodeType)
    ensures !stop && !throws ==> totalAfter == RemovalAdvance(node, totalLength, nodeType)
  {
    stop, throws, record, href, totalAfter := false, false, [], [], totalLength;
    if IsLeaf(node) {
      totalAfter := totalAfter + |LeafContent(node)|;
      if totalAfter >= end {
        stop := true;
        return;
      }
    }
    if TypeOf(node) == nodeType {
      if nodeType == TextUrl {
        href := [node.url];
      }
      if !HasChildren(node) {
        // `calcNodeLength(node.children!)` reads the length of `undefined`
        throws := true;
        return;
      }
      var nodeLength := Walk.CalcNodeLength(Kids(node));
      var nodeStart := totalAfter;
      totalAfter := totalAfter + nodeLength;
      if nodeStart < end && totalAfter > offset {
        record := [Removal(index, Kids(node), Selection.UrlOf(node), nodeLength,
                           SplitTree.StartCut(offset, nodeStart), SplitTree.EndCut(nodeLength, end, nodeStart))];
      }
    }
  }

  /**
   * What the walk of `removeStyle` returns: every record's children are
   * smaller than the forest, a record cut after its start comes from a
   * selection after the start, and only links queue urls.
   */
  lemma ScanFacts(ast: seq<Node>, offset: nat, length: nat, t: NodeType, scan: RemovalScan)
    requires Removals(Walk.Visits(ast, Some(t)), 0, 0, offset, offset + length, t) == Returns(scan)
    ensures forall i :: 0 <= i < |scan.records| ==> ForestSize(scan.records[i].kids) < ForestSize(ast)
    ensures forall i :: 0 <= i < |scan.records| ==> scan.records[i].start > 0 ==> offset > 0
    ensures t != TextUrl ==> scan.hrefs == []
  {
    RemovalsPlaced(Walk.Visits(ast, Some(t)), 0, 0, offset, offset + length, t);
    RecordsSmaller(ast, scan.records, offset, t);
    HrefsOnlyForLinks(Walk.Visits(ast, Some(t)), 0, 0, offset, offset + length, t);
  }

  /** `removeStyle` once its walk has returned `scan`: the result of the nested calls. */
  lemma RemovedUnfold(ast: seq<Node>, offset: nat, length: nat, t: NodeType, scan: RemovalScan)
    requires IsStyleType(t)
    requires Removals(Walk.Visits(ast, Some(t)), 0, 0, offset, offset + length, t) == Returns(scan)
    requires forall i :: 0 <= i < |scan.records| ==> ForestSize(scan.records[i].kids) < ForestSize(ast)
    requires forall i :: 0 <= i < |scan.records| ==> scan.records[i].start > 0 ==> offset > 0
    ensures Removed(ast, offset, length, t, SharedQueue)
            == match Restyled(scan.records, QueuedHrefs(scan.records, scan.hrefs), t, SharedQueue, map[], ast, offset)
               case Throws => Throws
               case Returns(repl) => Returns(Walk.Replace(ast, Some(t), 0, repl))
  {
  }

  /** `removeStyle`. */
  method RemoveStyle(ast: seq<Node>, offset: nat, length: nat, nodeType: NodeType) returns (r: Outcome<seq<Node>>)
    requires IsStyleType(nodeType)
    ensures r == Removed(ast, offset, length, nodeType, SharedQueue)
    decreases Rank(offset), 3 * ForestSize(ast), 1, 0
  {
    var scan := CollectRemovals(ast, offset, offset + length, nodeType);
    if scan.Throws? {
      assert Removed(ast, offset, length, nodeType, SharedQueue) == Throws;
      return Throws;
    }
    var stylesToRemove := scan.value.records;
    ScanFacts(ast, offset, length, nodeType, scan.value);
    RemovedUnfold(ast, offset, length, nodeType, scan.value);
    var repl := RestyleRecords(stylesToRemove, scan.value.hrefs, nodeType, ast, offset);
    if repl.Throws? {
      return Throws;
    }
    r := Returns(Walk.Replace(ast, Some(nodeType), 0, repl.value));
  }

  /** `stylesToRemove.forEach` with the queue of urls: what to splice in place of each recorded node. */
  method RestyleRecords(stylesToRemove: seq<Removal>, hrefs: seq<Option<string>>, nodeType: NodeType,
                        ghost ast: seq<Node>, ghost offset: nat)
    returns (r: Outcome<map<nat, seq<Node>>>)
    requires IsStyleType(nodeType) && (nodeType != TextUrl ==> hrefs == [])
    requires forall i :: 0 <= i < |stylesToRemove| ==> ForestSize(stylesToRemove[i].kids) < ForestSize(ast)
    requires forall i :: 0 <= i < |stylesToRemove| ==> stylesToRemove[i].start > 0 ==> offset > 0
    ensures r == Restyled(stylesToRemove, QueuedHrefs(stylesToRemove, hrefs), nodeType, SharedQueue, map[], ast, offset)
    decreases Rank(offset), 3 * ForestSize(ast), 0, |stylesToRemove| + 2
  {
    ghost var remnantHrefs := QueuedHrefs(stylesToRemove, hrefs);
    ghost var goal := Restyled(stylesToRemove, remnantHrefs, nodeType, SharedQueue, map[], ast, offset);
    var queue := hrefs;
    var repl: map<nat, seq<Node>> := map[];
    var i := 0;
    while i < |stylesToRemove|
      invariant 0 <= i <= |stylesToRemove|
      invariant nodeType != TextUrl ==> queue == []
      invariant QueuedHrefs(stylesToRemove[i..], queue) == remnantHrefs[i..]
      invariant Restyled(stylesToRemove[i..], remnantHrefs[i..], nodeType, SharedQueue, repl, ast, offset) == goal
    {
      var styleToRemove := stylesToRemove[i];
      assert stylesToRemove[i..][1..] == stylesToRemove[i + 1..] && remnantHrefs[i..][1..] == remnantHrefs[i + 1..];
      var updatedChilds;
      updatedChilds, queue := RestyleRecord(styleToRemove, queue, nodeType, ast, offset);
      if updatedChilds.Throws? {
        return Throws;
      }
      repl := repl[styleToRemove.index := updatedChilds.value];
      i := i + 1;
    }
    r := Returns(repl);
  }

  /**
   * The body of `stylesToRemove.forEach`: the children that replace one
   * recorded node, and the queue of urls after the pops for it.
   */
  method RestyleRecord(styleToRemove: Removal, queue: seq<Option<string>>, nodeType: NodeType, ghost ast: seq<Node>, ghost offset: nat)
    returns (r: Outcome<seq<Node>>, queueAfter: seq<Option<string>>)
    requires IsStyleType(nodeType) && (nodeType != TextUrl ==> queue == [])
    requires ForestSize(styleToRemove.kids) < ForestSize(ast) && (styleToRemove.start > 0 ==> offset > 0)
    ensures r.Returns? ==> queueAfter == TakeHrefs(styleToRemove, queue).1
    ensures nodeType != TextUrl ==> queueAfter == []
    ensures r == RestyledRecord(styleToRemove, TakeHrefs(styleToRemove, queue).0, nodeType, SharedQueue, ast, offset)
    decreases Rank(offset), 3 * ForestSize(ast), 0, 0
  {
    var hrefs := TakeHrefs(styleToRemove, queue).0;
    ghost var first := if styleToRemove.start > 0
                       then Applied(styleToRemove.kids, 0, styleToRemove.start, nodeType, HrefArgument(nodeType, hrefs.before), SharedQueue)
                       else Returns(styleToRemove.kids);
    assert RestyledRecord(styleToRemove, hrefs, nodeType, SharedQueue, ast, offset)
           == if first.Throws? || styleToRemove.end >= styleToRemove.nodeLength then first
              else Applied(first.value, styleToRemove.end, styleToRemove.nodeLength - styleToRemove.end,
                           nodeType, HrefArgument(nodeType, hrefs.after), SharedQueue);
    queueAfter := queue;
    var updatedChilds := styleToRemove.kids;
    if styleToRemove.start > 0 {
      var href: Option<string> := None;
      if nodeType == TextUrl && |queueAfter| > 0 {
        href := queueAfter[0];
        queueAfter := queueAfter[1..];
      }
      assert href == hrefs.before;
      var applied := ApplyStyles(updatedChilds, 0, styleToRemove.start, nodeType, HrefArgument(nodeType, href));
      assert applied == first;
      if applied.Throws? {
        return Throws, queueAfter;
      }
      updatedChilds := applied.value;
    }
    assert first == Returns(updatedChilds);
    if styleToRemove.end < styleToRemove.nodeLength {
      var href: Option<string> := None;
      if nodeType == TextUrl && |queueAfter| > 0 {
        href := queueAfter[0];
        queueAfter := queueAfter[1..];
      }
      assert href == hrefs.after;
      r := ApplyStyles(updatedChilds, styleToRemove.end, styleToRemove.nodeLength - styleToRemove.end,
                       nodeType, HrefArgument(nodeType, href));
    } else {
      r := Returns(updatedChilds);
    }
  }

  /** `applyStylesToAst`. */
  method ApplyStylesToAst(ast: seq<Node>, offset: nat, length: nat, style: AstStyle, remove: bool, href: Option<string>)
    returns (r: Outcome<seq<Node>>)
    ensures r == StylesApplied(ast, offset, length, style, remove, href, SharedQueue)
  {
    // every style has a node type, so the early `return ast` is never taken
    var nodeType := NodeTypeFromStyle(style).value;
    if remove {
      r := RemoveStyle(ast, offset, length, nodeType);
    } else {
      r := ApplyStyles(ast, offset, length, nodeType, href);
    }
  }
}
