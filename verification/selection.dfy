/**
 * `getAstStylesForSelection` (src/util/astEditor.ts): which toolbar styles
 * are active on the characters `[offset, offset + length)` of the composer.
 *
 * The walk keeps, with every stacked node, the styles of the containers
 * above it and the first truthy link URL above it.  It counts the length of
 * text, emoji and custom emoji content as it goes; every text node whose
 * span meets the selection contributes its styles, and the first of them
 * under a link contributes that link's URL.  The walk stops at the first
 * text node that starts at or after the end of the selection.
 */
module Selection {
  import opened Ast
  import opened StyleMap

  /** A stack entry: a node, the styles above it and the link URL above it. */
  datatype Frame = Frame(node: Node, styles: seq<AstStyle>, href: Option<string>)

  /** `ISelectedTextFormats`; `quote` is left undefined unless a blockquote is found. */
  datatype SelectedTextFormats = SelectedTextFormats(
    bold: bool,
    italic: bool,
    underline: bool,
    strikethrough: bool,
    monospace: bool,
    spoiler: bool,
    quote: Option<bool>,
    textlinkhref: Option<string>)

  /** JavaScript truthiness of an optional string. */
  predicate Truthy(s: Option<string>)
  {
    s.Some? && s.value != ""
  }

  /** `a || b`. */
  function OrElse(a: Option<string>, b: Option<string>): Option<string>
  {
    if Truthy(a) then a else b
  }

  /** `(node as LinkNode).url`, undefined on every other node. */
  function UrlOf(n: Node): Option<string>
  {
    if n.LinkNode? then n.url else None
  }

  /** The styles handed to the children: the node's own style, if it has one, is appended. */
  function ChildStyles(fr: Frame): seq<AstStyle>
  {
    var s := StyleFromNodeType(TypeOf(fr.node));
    if s.Some? then fr.styles + [s.value] else fr.styles
  }

  /** The frames pushed for the children of a popped frame. */
  function ChildFrames(fr: Frame): (r: seq<Frame>)
    ensures |r| == |Kids(fr.node)|
    ensures forall i :: 0 <= i < |r| ==>
              r[i] == Frame(Kids(fr.node)[i], ChildStyles(fr), OrElse(fr.href, UrlOf(fr.node)))
  {
    var k := Kids(fr.node);
    seq(|k|, i requires 0 <= i < |k| => Frame(k[i], ChildStyles(fr), OrElse(fr.href, UrlOf(fr.node))))
  }

  /** The first stack: every root with no styles and no URL. */
  function Roots(ast: seq<Node>): (r: seq<Frame>)
    ensures |r| == |ast| && forall i :: 0 <= i < |r| ==> r[i] == Frame(ast[i], [], None)
  {
    seq(|ast|, i requires 0 <= i < |ast| => Frame(ast[i], [], None))
  }

  function FramesSize(st: seq<Frame>): nat
  {
    if |st| == 0 then 0 else NodeSize(st[0].node) + FramesSize(st[1..])
  }

  lemma {:induction false} FramesSizeAppend(a: seq<Frame>, b: seq<Frame>)
    ensures FramesSize(a + b) == FramesSize(a) + FramesSize(b)
    decreases |a|
  {
    if |a| == 0 {
      assert a + b == b;
    } else {
      assert (a + b)[1..] == a[1..] + b;
      FramesSizeAppend(a[1..], b);
    }
  }

  lemma {:induction false} FramesSizeOfNodes(st: seq<Frame>, f: seq<Node>)
    requires |st| == |f| && forall i :: 0 <= i < |f| ==> st[i].node == f[i]
    ensures FramesSize(st) == ForestSize(f)
    decreases |f|
  {
    if |f| > 0 {
      FramesSizeOfNodes(st[1..], f[1..]);
    }
  }

  lemma PopSmaller(st: seq<Frame>)
    requires |st| > 0
    ensures FramesSize(ChildFrames(st[0]) + st[1..]) < FramesSize(st)
  {
    FramesSizeAppend(ChildFrames(st[0]), st[1..]);
    FramesSizeOfNodes(ChildFrames(st[0]), Kids(st[0].node));
    KidsSmaller(st[0].node);
  }

  /** The frames in the order the walk pops them, were it never to stop. */
  function FrameVisits(st: seq<Frame>): seq<Frame>
    decreases FramesSize(st)
  {
    if |st| == 0 then []
    else
      PopSmaller(st);
      [st[0]] + FrameVisits(ChildFrames(st[0]) + st[1..])
  }

  /** The walk's variables: `resultSet`, `totalLength` and `firstHref`. */
  datatype ScanState = ScanState(found: set<AstStyle>, total: nat, firstHref: Option<string>)

  /** The length a popped frame adds to `totalLength`. */
  function Advance(n: Node): nat
  {
    if IsLeaf(n) then |LeafContent(n)| else 0
  }

  /** The state after the frame `fr` is popped. */
  function Step(fr: Frame, st: ScanState, offset: nat, end: nat): (r: ScanState)
    ensures r.total == st.total + Advance(fr.node)
  {
    if fr.node.TextNode? then
      var nodeStart := st.total;
      var nodeEnd := st.total + |fr.node.text|;
      var hit := nodeStart < end && nodeEnd > offset;
      var found := if hit then st.found + (set s | s in fr.styles) else st.found;
      var href := if hit && Truthy(fr.href) && !Truthy(st.firstHref) then fr.href else st.firstHref;
      ScanState(found, nodeEnd, href)
    else st.(total := st.total + Advance(fr.node))
  }

  /** The walk stops after a text node that starts at or after the end of the selection. */
  predicate Stops(fr: Frame, st: ScanState, end: nat)
  {
    fr.node.TextNode? && st.total >= end
  }

  /** What the loop makes of the state when the frames `vs` are popped in turn. */
  function ScanVisits(vs: seq<Frame>, st: ScanState, offset: nat, end: nat): ScanState
    decreases |vs|
  {
    if |vs| == 0 then st
    else if Stops(vs[0], st, end) then Step(vs[0], st, offset, end)
    else ScanVisits(vs[1..], Step(vs[0], st, offset, end), offset, end)
  }

  /** The result object built from the collected styles. */
  function Formats(found: set<AstStyle>, firstHref: Option<string>): SelectedTextFormats
  {
    SelectedTextFormats(
      BoldStyle in found, ItalicStyle in found, UnderlineStyle in found, StrikeStyle in found,
      CodeStyle in found, SpoilerStyle in found,
      if BlockquoteStyle in found then Some(true) else None,
      firstHref)
  }

  /** What `getAstStylesForSelection(ast, offset, length)` returns. */
  function SelectionOf(ast: seq<Node>, offset: nat, length: nat): SelectedTextFormats
  {
    var st := ScanVisits(FrameVisits(Roots(ast)), ScanState({}, 0, None), offset, offset + length);
    Formats(st.found, st.firstHref)
  }

  lemma Pop(stack: seq<Frame>)
    requires |stack| > 0
    ensures FramesSize(ChildFrames(stack[0]) + stack[1..]) < FramesSize(stack)
    ensures FrameVisits(stack) == [stack[0]] + FrameVisits(ChildFrames(stack[0]) + stack[1..])
  {
    PopSmaller(stack);
  }

  /** A popped leaf pushes nothing. */
  lemma PopLeaf(fr: Frame, rest: seq<Frame>)
    requires !HasChildren(fr.node)
    ensures ChildFrames(fr) + rest == rest
  {
    assert ChildFrames(fr) == [];
  }

  /** The stack walk of `getAstStylesForSelection`: the collected styles and the first URL. */
  method CollectStyles(ast: seq<Node>, offset: nat, end: nat) returns (resultSet: set<AstStyle>, firstHref: Option<string>)
    ensures var st := ScanVisits(FrameVisits(Roots(ast)), ScanState({}, 0, None), offset, end);
            st.found == resultSet && st.firstHref == firstHref
  {
    resultSet, firstHref := {}, None;
    var totalLength: nat := 0;
    var stack := Roots(ast);
    ghost var goal := ScanVisits(FrameVisits(Roots(ast)), ScanState({}, 0, None), offset, end);
    while |stack| > 0
      invariant ScanVisits(FrameVisits(stack), ScanState(resultSet, totalLength, firstHref), offset, end) == goal
      decreases FramesSize(stack)
    {
      var fr := stack[0];
      Pop(stack);
      if !HasChildren(fr.node) {
        PopLeaf(fr, stack[1..]);
      }
      ghost var st := ScanState(resultSet, totalLength, firstHref);
      stack := stack[1..];
      var node := fr.node;
      if node.TextNode? {
        var nodeStart := totalLength;
        var nodeEnd := totalLength + |node.text|;
        totalLength := nodeEnd;
        if nodeStart < end && nodeEnd > offset {
          resultSet := resultSet + (set s | s in fr.styles);
          if Truthy(fr.href) && !Truthy(firstHref) {
            firstHref := fr.href;
          }
        }
        assert ScanState(resultSet, totalLength, firstHref) == Step(fr, st, offset, end);
        if nodeStart >= end {
          break;
        }
      } else if node.EmojiNode? || node.CustomEmojiNode? {
        totalLength := totalLength + |LeafContent(node)|;
      } else if HasChildren(node) {
        stack := ChildFrames(fr) + stack;
      }
    }
  }
  /** Marking one more style in the result object sets exactly that style's field. */
  lemma FormatsAdd(found: set<AstStyle>, item: AstStyle, firstHref: Option<string>)
    ensures var r := Formats(found, firstHref);
            Formats(found + {item}, firstHref)
            == match item
               case SpoilerStyle => r.(spoiler := true)
               case BoldStyle => r.(bold := true)
               case ItalicStyle => r.(italic := true)
               case UnderlineStyle => r.(underline := true)
               case StrikeStyle => r.(strikethrough := true)
               case CodeStyle => r.(monospace := true)
               case BlockquoteStyle => r.(quote := Some(true))
               case TextUrlStyle => r
  {
  }

  /** `getAstStylesForSelection`. */
  method GetAstStylesForSelection(ast: seq<Node>, offset: nat, length: nat) returns (r: SelectedTextFormats)
    ensures r == SelectionOf(ast, offset, length)
  {
    var resultSet, firstHref := CollectStyles(ast, offset, offset + length);
    r := SelectedTextFormats(false, false, false, false, false, false, None, firstHref);
    var remaining := resultSet;
    while remaining != {}
      invariant remaining <= resultSet
      invariant r == Formats(resultSet - remaining, firstHref)
      decreases |remaining|
    {
      var item :| item in remaining;
      FormatsAdd(resultSet - remaining, item, firstHref);
      assert (resultSet - remaining) + {item} == resultSet - (remaining - {item});
      match item {
        case SpoilerStyle => r := r.(spoiler := true);
        case BoldStyle => r := r.(bold := true);
        case ItalicStyle => r := r.(italic := true);
        case UnderlineStyle => r := r.(underline := true);
        case StrikeStyle => r := r.(strikethrough := true);
        case CodeStyle => r := r.(monospace := true);
        case BlockquoteStyle => r := r.(quote := Some(true));
        case TextUrlStyle =>
      }
      remaining := remaining - {item};
    }
    assert resultSet - remaining == resultSet;
  }

  // ---------------------------------------------------------------------
  // What the scan finds
  // ---------------------------------------------------------------------

  /** `totalLength` when the frame `vs[k]` is popped, if the walk started at `t0`. */
  function Pos(vs: seq<Frame>, k: nat, t0: nat): nat
    requires k <= |vs|
    decreases k
  {
    if k == 0 then t0 else Pos(vs[1..], k - 1, t0 + Advance(vs[0].node))
  }

  lemma {:induction false} PosAtLeast(vs: seq<Frame>, k: nat, t0: nat)
    requires k <= |vs|
    ensures Pos(vs, k, t0) >= t0
    decreases k
  {
    if k > 0 {
      PosAtLeast(vs[1..], k - 1, t0 + Advance(vs[0].node));
    }
  }

  /** The frame `vs[k]` is a text node whose span meets `[offset, end)`. */
  predicate Hit(vs: seq<Frame>, k: nat, t0: nat, offset: nat, end: nat)
    requires k < |vs|
  {
    vs[k].node.TextNode? && Pos(vs, k, t0) < end && Pos(vs, k, t0) + |vs[k].node.text| > offset
  }

  /** Some text node meeting `[offset, end)` has the style `s` above it. */
  predicate StyleHit(vs: seq<Frame>, t0: nat, offset: nat, end: nat, s: AstStyle)
  {
    exists k :: 0 <= k < |vs| && Hit(vs, k, t0, offset, end) && s in vs[k].styles
  }

  /** A hit of the rest of the visits is a hit of the whole, one later. */
  lemma StyleHitCons(vs: seq<Frame>, t0: nat, offset: nat, end: nat, s: AstStyle)
    requires |vs| > 0
    ensures StyleHit(vs, t0, offset, end, s) <==>
              (Hit(vs, 0, t0, offset, end) && s in vs[0].styles)
              || StyleHit(vs[1..], t0 + Advance(vs[0].node), offset, end, s)
  {
    var t1 := t0 + Advance(vs[0].node);
    if StyleHit(vs, t0, offset, end, s) {
      var k :| 0 <= k < |vs| && Hit(vs, k, t0, offset, end) && s in vs[k].styles;
      if k > 0 {
        assert Hit(vs[1..], k - 1, t1, offset, end) && s in vs[1..][k - 1].styles;
      }
    }
    if StyleHit(vs[1..], t1, offset, end, s) {
      var k :| 0 <= k < |vs[1..]| && Hit(vs[1..], k, t1, offset, end) && s in vs[1..][k].styles;
      assert Hit(vs, k + 1, t0, offset, end) && s in vs[k + 1].styles;
    }
  }

  /** Nothing starting at or after the end of the selection is hit. */
  lemma NoStyleHit(vs: seq<Frame>, t0: nat, offset: nat, end: nat, s: AstStyle)
    requires t0 >= end
    ensures !StyleHit(vs, t0, offset, end, s)
  {
    forall k | 0 <= k < |vs| ensures !Hit(vs, k, t0, offset, end) {
      PosAtLeast(vs, k, t0);
    }
  }

  /**
   * The scan adds a style exactly when some text node meeting the
   * selection has it among the styles above it; stopping early loses
   * nothing, because no later text node can meet the selection.
   */
  lemma {:induction false} ScanFound(vs: seq<Frame>, st: ScanState, offset: nat, end: nat, s: AstStyle)
    ensures s in ScanVisits(vs, st, offset, end).found <==> s in st.found || StyleHit(vs, st.total, offset, end, s)
    decreases |vs|
  {
    if |vs| > 0 {
      StyleHitCons(vs, st.total, offset, end, s);
      var next := Step(vs[0], st, offset, end);
      if Stops(vs[0], st, end) {
        NoStyleHit(vs[1..], next.total, offset, end, s);
      } else {
        ScanFound(vs[1..], next, offset, end, s);
      }
    }
  }

  /** The URL of the first text node meeting the selection under a link, if any. */
  function FirstLinkedHit(vs: seq<Frame>, t0: nat, offset: nat, end: nat): Option<string>
    decreases |vs|
  {
    if |vs| == 0 then None
    else if Hit(vs, 0, t0, offset, end) && Truthy(vs[0].href) then vs[0].href
    else FirstLinkedHit(vs[1..], t0 + Advance(vs[0].node), offset, end)
  }

  /** `textlinkhref` is the URL above the first text node meeting the selection that lies under a link. */
  lemma {:induction false} ScanFirstHref(vs: seq<Frame>, st: ScanState, offset: nat, end: nat)
    requires st.firstHref == None
    ensures ScanVisits(vs, st, offset, end).firstHref == FirstLinkedHit(vs, st.total, offset, end)
    decreases |vs|
  {
    if |vs| > 0 {
      var next := Step(vs[0], st, offset, end);
      if Stops(vs[0], st, end) {
        NoLinkedHit(vs[1..], next.total, offset, end);
      } else if Hit(vs, 0, st.total, offset, end) && Truthy(vs[0].href) {
        LinkedHitKept(vs[1..], next, offset, end);
      } else {
        ScanFirstHref(vs[1..], next, offset, end);
      }
    }
  }

  /** Once a URL is taken it is kept. */
  lemma {:induction false} LinkedHitKept(vs: seq<Frame>, st: ScanState, offset: nat, end: nat)
    requires Truthy(st.firstHref)
    ensures ScanVisits(vs, st, offset, end).firstHref == st.firstHref
    decreases |vs|
  {
    if |vs| > 0 && !Stops(vs[0], st, end) {
      LinkedHitKept(vs[1..], Step(vs[0], st, offset, end), offset, end);
    }
  }

  /** Past the end of the selection nothing is hit. */
  lemma {:induction false} NoLinkedHit(vs: seq<Frame>, t0: nat, offset: nat, end: nat)
    requires t0 >= end
    ensures FirstLinkedHit(vs, t0, offset, end) == None
    decreases |vs|
  {
    if |vs| > 0 {
      NoLinkedHit(vs[1..], t0 + Advance(vs[0].node), offset, end);
    }
  }

  /**
   * The result of `getAstStylesForSelection`: each flag is set exactly when
   * a text node meeting the selection has that style above it (`quote` is
   * then `true`, and otherwise left undefined), and `textlinkhref` is the
   * URL above the first such text node that lies under a link.
   */
  lemma SelectionMeaning(ast: seq<Node>, offset: nat, length: nat)
    ensures var vs := FrameVisits(Roots(ast));
            var r := SelectionOf(ast, offset, length);
            var end := offset + length;
            (r.bold <==> StyleHit(vs, 0, offset, end, BoldStyle))
            && (r.italic <==> StyleHit(vs, 0, offset, end, ItalicStyle))
            && (r.underline <==> StyleHit(vs, 0, offset, end, UnderlineStyle))
            && (r.strikethrough <==> StyleHit(vs, 0, offset, end, StrikeStyle))
            && (r.monospace <==> StyleHit(vs, 0, offset, end, CodeStyle))
            && (r.spoiler <==> StyleHit(vs, 0, offset, end, SpoilerStyle))
            && (r.quote == Some(true) <==> StyleHit(vs, 0, offset, end, BlockquoteStyle))
            && r.quote != Some(false)
            && r.textlinkhref == FirstLinkedHit(vs, 0, offset, end)
  {
    var vs := FrameVisits(Roots(ast));
    var st := ScanState({}, 0, None);
    var end := offset + length;
    ScanFound(vs, st, offset, end, BoldStyle);
    ScanFound(vs, st, offset, end, ItalicStyle);
    ScanFound(vs, st, offset, end, UnderlineStyle);
    ScanFound(vs, st, offset, end, StrikeStyle);
    ScanFound(vs, st, offset, end, CodeStyle);
    ScanFound(vs, st, offset, end, SpoilerStyle);
    ScanFound(vs, st, offset, end, BlockquoteStyle);
    ScanFirstHref(vs, st, offset, end);
  }

  // ---------------------------------------------------------------------
  // Where the styles of a frame come from
  // ---------------------------------------------------------------------

  /**
   * A child frame carries its parent's styles followed by the parent's own
   * style, and the parent's URL, or else the parent's own link URL.
   */
  lemma ChildFrameContext(fr: Frame, i: nat)
    requires i < |Kids(fr.node)|
    ensures var c := ChildFrames(fr)[i];
            c.node == Kids(fr.node)[i]
            && (StyleFromNodeType(TypeOf(fr.node)).Some? ==> c.styles == fr.styles + [StyleFromNodeType(TypeOf(fr.node)).value])
            && (StyleFromNodeType(TypeOf(fr.node)).None? ==> c.styles == fr.styles)
            && (Truthy(fr.href) ==> c.href == fr.href)
            && (!Truthy(fr.href) && fr.node.LinkNode? ==> c.href == fr.node.url)
  {
  }

  /** The text inside a bold container at the head of the forest is visited second, with the bold style. */
  lemma BoldTextVisited(t: Utf16, rest: seq<Node>)
    ensures var vs := FrameVisits(Roots([FormattedNode(Bold, [TextNode(t)])] + rest));
            |vs| >= 2 && vs[1] == Frame(TextNode(t), [BoldStyle], None)
  {
    var ast := [FormattedNode(Bold, [TextNode(t)])] + rest;
    var roots := Roots(ast);
    var fr := roots[0];
    assert fr == Frame(FormattedNode(Bold, [TextNode(t)]), [], None);
    assert ChildStyles(fr) == [BoldStyle];
    assert Kids(fr.node) == [TextNode(t)];
    var kids := ChildFrames(fr);
    assert kids == [Frame(TextNode(t), [BoldStyle], None)];
    Pop(roots);
    var second := kids + roots[1..];
    Pop(second);
    assert second[0] == kids[0];
  }
}
