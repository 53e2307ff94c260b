/**
 * What the style editor of src/util/astEditor.ts does to a selection:
 * applying a style wraps exactly the selected code units, removing a style
 * from a whole styled node unwraps its children, removing a style that the
 * forest does not carry changes nothing, and applying a style to a text and
 * removing it again gives the text back.
 */
module EditorBehaviour {
  import opened Ast
  import opened Serializer
  import opened StyleMap
  import opened StyleEditor
  import Walk
  import SplitTree

  /** A lone text node is the only node a walk of it visits. */
  lemma VisitsText(c: Utf16, skip: Option<NodeType>)
    ensures Walk.Visits([TextNode(c)], skip) == [TextNode(c)]
  {
    Walk.VisitsOne(TextNode(c), skip);
  }

  /** Replacing the first visit of a one-tree forest replaces the whole forest. */
  lemma ReplaceRoot(n: Node, skip: Option<NodeType>, m: seq<Node>)
    ensures Walk.Replace([n], skip, 0, map[0 := m]) == m
  {
    assert [n][1..] == [];
  }

  // ---------------------------------------------------------------------
  // Applying a style
  // ---------------------------------------------------------------------

  /**
   * Applying a style that is applied in place (bold, italic, underline,
   * strike, code, blockquote) to the window `[s, e)` of a text node wraps
   * exactly the code units of the window and leaves the units before and
   * after it as plain text.
   */
  lemma ApplyWrapsWindow(c: Utf16, s: nat, e: nat, t: NodeType, href: Option<string>, p: HrefPolicy)
    requires IsStyleType(t) && !IsDeep(t) && s < e <= |c|
    ensures Applied([TextNode(c)], s, e - s, t, href, p)
            == Returns((if s > 0 then [TextNode(c[..s])] else []) + [Wrap(t, [TextNode(c[s..e])])]
                       + (if e < |c| then [TextNode(c[e..])] else []))
  {
    ShallowOnText(c, s, e, t);
    WindowPieces(c, s, e, t);
  }

  /** `applyStyles` in place on one text node replaces it with the pieces of the single cut it records. */
  lemma ShallowOnText(c: Utf16, s: nat, e: nat, t: NodeType)
    requires IsStyleType(t) && !IsDeep(t) && s < e <= |c|
    ensures ShallowApplied([TextNode(c)], s, e - s, t) == Pieces(Cut(0, c, s, e), t)
  {
    VisitsText(c, None);
    var cut := Cut(0, c, s, e);
    assert s + (e - s) == e;
    assert TextCuts([TextNode(c)], 0, 0, s, e) == [cut];
    assert CutMap([cut], t, map[]) == map[0 := Pieces(cut, t)];
    ReplaceRoot(TextNode(c), None, Pieces(cut, t));
  }

  /** The pieces of a window of a text node: the text before it, the wrapped window, the text after it. */
  lemma WindowPieces(c: Utf16, s: nat, e: nat, t: NodeType)
    requires IsStyleType(t) && !IsDeep(t) && s < e <= |c|
    ensures Pieces(Cut(0, c, s, e), t)
            == (if s > 0 then [TextNode(c[..s])] else []) + [Wrap(t, [TextNode(c[s..e])])]
               + (if e < |c| then [TextNode(c[e..])] else [])
  {
    assert Slice(c, 0, s) == c[..s] && Slice(c, s, e) == c[s..e] && Slice(c, e, |c|) == c[e..];
  }

  /** Removing a style that no visited node carries returns the forest unchanged. */
  lemma RemoveAbsent(ast: seq<Node>, offset: nat, length: nat, t: NodeType, p: HrefPolicy)
    requires IsStyleType(t)
    requires forall n :: n in Walk.Visits(ast, Some(t)) ==> TypeOf(n) != t
    ensures Removed(ast, offset, length, t, p) == Returns(ast)
  {
    var vs := Walk.Visits(ast, Some(t));
    NothingToRemove(vs, 0, 0, offset, offset + length, t);
    Walk.ReplaceNothing(ast, Some(t), 0);
  }

  /** The walk of `removeStyle` over nodes none of which has the type records nothing and queues no url. */
  lemma {:induction false} NothingToRemove(vs: seq<Node>, k: nat, total: nat, offset: nat, end: nat, t: NodeType)
    requires forall i :: 0 <= i < |vs| ==> TypeOf(vs[i]) != t
    ensures Removals(vs, k, total, offset, end, t) == Returns(RemovalScan([], []))
    decreases |vs|
  {
    if |vs| > 0 {
      RemovalsPop(vs, k, total, offset, end, t);
      if !RemovalStops(vs[0], total, end) {
        assert forall i :: 0 <= i < |vs[1..]| ==> vs[1..][i] == vs[i + 1];
        NothingToRemove(vs[1..], k + 1, RemovalAdvance(vs[0], total, t), offset, end, t);
        assert RecordAt(vs[0], k, total, offset, end, t) == [] && HrefAt(vs[0], t) == [];
        var empty: seq<Removal>, none: seq<Option<string>> := [], [];
        assert empty + empty == empty && none + none == none;
      }
    }
  }

  /** `splitTree(tree, [0, n])` of one text node of length `n` is that text node, whole. */
  lemma SplitWhole(c: Utf16)
    requires |c| > 0
    ensures SplitTree.Split([TextNode(c)], 0, |c|) == Returns([[TextNode(c)]])
  {
    var tree := [TextNode(c)];
    assert SplitTree.SumLengths(tree) == |c| by {
      assert tree[1..] == [];
    }
    SplitTree.SplitParts(tree, 0, |c|);
    assert tree[1..] == [];
    assert SplitTree.GetTextLength(tree[0]) == |c|;
    assert SplitTree.Between(tree, 0, 0, 0) == [];
    assert Slice(c, 0, |c|) == c;
    assert SplitTree.StartCut(0, 0) == 0 && SplitTree.EndCut(|c|, |c|, 0) == |c|;
    assert SplitTree.Piece(tree[0], 0, |c|, 0) == [TextNode(c)];
    assert SplitTree.Between(tree, 0, |c|, 0) == [TextNode(c)] + SplitTree.Between([], 0, |c|, |c|);
    assert SplitTree.Between(tree, |c|, |c|, 0) == SplitTree.Between([], |c|, |c|, |c|);
    var p0, p1, p2 := SplitTree.Between(tree, 0, 0, 0), SplitTree.Between(tree, 0, |c|, 0), SplitTree.Between(tree, |c|, |c|, 0);
    assert p0 == [] && p1 == [TextNode(c)] && p2 == [];
    var parts: seq<seq<Node>> := (if |p0| > 0 then [p0] else []) + (if |p1| > 0 then [p1] else []) + (if |p2| > 0 then [p2] else []);
    assert parts == [[TextNode(c)]];
  }

  /**
   * Applying any style to the whole of a text node wraps it in one node of
   * that style; a link gets the url `href || ''`.
   */
  lemma ApplyWrapsText(c: Utf16, t: NodeType, href: Option<string>, p: HrefPolicy)
    requires IsStyleType(t) && |c| > 0
    ensures Applied([TextNode(c)], 0, |c|, t, href, p)
            == Returns([if t == Spoiler then FormattedNode(Spoiler, [TextNode(c)])
                        else if t == TextUrl then LinkNode(TextUrl, Some(OrEmpty(href)), [TextNode(c)])
                        else Wrap(t, [TextNode(c)])])
  {
    if IsDeep(t) {
      DeepWrapsText(c, t, href, p);
    } else {
      ApplyWrapsWindow(c, 0, |c|, t, href, p);
      assert c[0..|c|] == c;
      var wrapped: seq<Node> := [Wrap(t, [TextNode(c)])];
      assert [] + wrapped + [] == wrapped;
    }
  }

  /** `deepApplyStyles` over the whole of a text node: one spoiler or link around it. */
  lemma DeepWrapsText(c: Utf16, t: NodeType, href: Option<string>, p: HrefPolicy)
    requires IsDeep(t) && |c| > 0
    ensures DeepApplied([TextNode(c)], 0, |c|, t, href, p)
            == Returns([if t == Spoiler then FormattedNode(Spoiler, [TextNode(c)])
                        else LinkNode(TextUrl, Some(OrEmpty(href)), [TextNode(c)])])
  {
    SplitTree.SplitSize([TextNode(c)], 0, |c|);
    SplitWhole(c);
    VisitsText(c, Some(t));
    RemoveAbsent([TextNode(c)], 0, |c|, t, p);
    var wrapper := if t == Spoiler then FormattedNode(Spoiler, [TextNode(c)])
                   else LinkNode(TextUrl, Some(OrEmpty(href)), [TextNode(c)]);
    assert Styled([TextNode(c)], |c|, t, href, p) == Returns(wrapper);
    assert [] + [wrapper] + [] == [wrapper];
  }

  // ---------------------------------------------------------------------
  // Removing a style
  // ---------------------------------------------------------------------

  /**
   * Removing a node's own style over at least its whole text unwraps it:
   * the node is replaced by its children, whatever url it had.
   */
  lemma RemoveUnwraps(n: Node, length: nat, p: HrefPolicy)
    requires IsStyleType(TypeOf(n)) && HasChildren(n)
    requires 0 < Walk.TextLength(Kids(n)) <= length
    ensures Removed([n], 0, length, TypeOf(n), p) == Returns(Kids(n))
  {
    var t, kids := TypeOf(n), Kids(n);
    var nodeLength := Walk.TextLength(kids);
    Walk.VisitsOne(n, Some(t));
    assert Walk.Visits([n], Some(t)) == [n];
    var record := Removal(0, kids, Selection.UrlOf(n), nodeLength, 0, nodeLength);
    RemovalsPop([n], 0, 0, 0, length, t);
    assert [n][1..] == [];
    assert RecordAt(n, 0, 0, 0, length, t) == [record];
    var scan := Removals([n], 0, 0, 0, length, t);
    assert scan.Returns? && scan.value.records == [record];
    KidsSmaller(n);
    assert ForestSize([n]) == NodeSize(n) by {
      assert [n][1..] == [];
    }
    var hrefs := RemnantHrefsFor(p, scan.value);
    assert RestyledRecord(record, hrefs[0], t, p, [n], 0) == Returns(kids);
    assert Restyled([record], hrefs, t, p, map[], [n], 0) == Returns(map[0 := kids]) by {
      assert [record][1..] == [] && hrefs[1..] == [];
    }
    ReplaceRoot(n, Some(t), kids);
  }

  /** Applying a style to a whole text and removing it again gives the text back. */
  lemma StyleRoundTrip(c: Utf16, t: NodeType, href: Option<string>, p: HrefPolicy)
    requires IsStyleType(t) && |c| > 0
    ensures Applied([TextNode(c)], 0, |c|, t, href, p).Returns?
    ensures Removed(Applied([TextNode(c)], 0, |c|, t, href, p).value, 0, |c|, t, p) == Returns([TextNode(c)])
  {
    ApplyWrapsText(c, t, href, p);
    var styled := Applied([TextNode(c)], 0, |c|, t, href, p).value[0];
    assert Walk.TextLength([TextNode(c)]) == |c| by {
      Walk.TextLengthOfTexts([TextNode(c)]);
      Walk.SingleText(TextNode(c));
    }
    RemoveUnwraps(styled, |c|, p);
  }

  // ---------------------------------------------------------------------
  // Which url the remnants of a partly unlinked link get
  // ---------------------------------------------------------------------

  /**
   * Corrected href choice: the remnants of every node the walk records
   * are styled again with that node's own url.
   */
  lemma OwnUrlRemnants(ast: seq<Node>, offset: nat, length: nat, t: NodeType)
    ensures var vs := Walk.Visits(ast, Some(t));
            var scan := Removals(vs, 0, 0, offset, offset + length, t);
            scan.Returns? ==>
              forall i :: 0 <= i < |scan.value.records| ==>
                scan.value.records[i].index < |vs|
                && RemnantHrefsFor(OwnUrl, scan.value)[i].before == Selection.UrlOf(vs[scan.value.records[i].index])
                && RemnantHrefsFor(OwnUrl, scan.value)[i].after == Selection.UrlOf(vs[scan.value.records[i].index])
  {
    RemovalsPlaced(Walk.Visits(ast, Some(t)), 0, 0, offset, offset + length, t);
  }

  /** A link of url `u` over the three code units `x`, `y`, `z`. */
  function LinkOverThree(u: string, x: CodeUnit, y: CodeUnit, z: CodeUnit): seq<Node>
  {
    [LinkNode(TextUrl, Some(u), [TextNode([x, y, z])])]
  }

  /** `x` linked to `before`, `y` plain, `z` linked to `after`. */
  function MiddleUnlinked(before: string, after: string, x: CodeUnit, y: CodeUnit, z: CodeUnit): seq<Node>
  {
    [LinkNode(TextUrl, Some(before), [TextNode([x])]), TextNode([y]), LinkNode(TextUrl, Some(after), [TextNode([z])])]
  }

  /** The entry of `stylesToRemove` for unlinking the middle code unit of `LinkOverThree`. */
  function MiddleRecord(u: string, x: CodeUnit, y: CodeUnit, z: CodeUnit): Removal
  {
    Removal(0, [TextNode([x, y, z])], Some(u), 3, 1, 2)
  }

  /** Unlinking `[1, 2)`: the walk records the link with window `[1, 2)` and queues its url once. */
  lemma MiddleScan(u: string, x: CodeUnit, y: CodeUnit, z: CodeUnit)
    ensures Removals(Walk.Visits(LinkOverThree(u, x, y, z), Some(TextUrl)), 0, 0, 1, 2, TextUrl)
            == Returns(RemovalScan([MiddleRecord(u, x, y, z)], [Some(u)]))
  {
    var link := LinkOverThree(u, x, y, z)[0];
    Walk.VisitsOne(link, Some(TextUrl));
    assert Walk.Visits(LinkOverThree(u, x, y, z), Some(TextUrl)) == [link];
    assert Walk.TextLength([TextNode([x, y, z])]) == 3 by {
      Walk.TextLengthOfTexts([TextNode([x, y, z])]);
      Walk.SingleText(TextNode([x, y, z]));
    }
    RemovalsPop([link], 0, 0, 1, 2, TextUrl);
    assert [link][1..] == [];
    assert RecordAt(link, 0, 0, 1, 2, TextUrl) == [MiddleRecord(u, x, y, z)];
    assert HrefAt(link, TextUrl) == [Some(u)] && !RemovalStops(link, 0, 2);
    assert Removals([], 1, 3, 1, 2, TextUrl) == Returns(RemovalScan([], []));
    assert [MiddleRecord(u, x, y, z)] + [] == [MiddleRecord(u, x, y, z)] && [Some(u)] + [] == [Some(u)];
  }

  /** Linking the first code unit of `xyz` to `h`. */
  lemma RelinkHead(x: CodeUnit, y: CodeUnit, z: CodeUnit, h: string, p: HrefPolicy)
    ensures Applied([TextNode([x, y, z])], 0, 1, TextUrl, Some(h), p)
            == Returns([LinkNode(TextUrl, Some(h), [TextNode([x])]), TextNode([y, z])])
  {
    var tree := [TextNode([x, y, z])];
    assert tree[1..] == [];
    assert SplitTree.SumLengths(tree) == 3;
    SplitTree.SplitSize(tree, 0, 1);
    SplitTree.SplitParts(tree, 0, 1);
    assert Slice([x, y, z], 0, 1) == [x] && Slice([x, y, z], 1, 3) == [y, z];
    var p0, p1, p2 := SplitTree.Between(tree, 0, 0, 0), SplitTree.Between(tree, 0, 1, 0), SplitTree.Between(tree, 1, 3, 0);
    assert p0 == [];
    assert p1 == [TextNode([x])] + SplitTree.Between([], 0, 1, 3);
    assert p2 == [TextNode([y, z])] + SplitTree.Between([], 1, 3, 3);
    assert p1 == [TextNode([x])] && p2 == [TextNode([y, z])];
    var parts: seq<seq<Node>> := (if |p0| > 0 then [p0] else []) + (if |p1| > 0 then [p1] else []) + (if |p2| > 0 then [p2] else []);
    assert parts == [[TextNode([x])], [TextNode([y, z])]];
    VisitsText([x], Some(TextUrl));
    RemoveAbsent([TextNode([x])], 0, 1, TextUrl, p);
    var link := LinkNode(TextUrl, Some(h), [TextNode([x])]);
    assert Styled([TextNode([x])], 1, TextUrl, Some(h), p) == Returns(link);
    assert [] + [link] + [TextNode([y, z])] == [link, TextNode([y, z])];
  }

  /** Linking the last code unit of `MiddleUnlinked`'s text to `b`, after `x` was linked to `a`. */
  lemma RelinkTail(a: string, b: string, x: CodeUnit, y: CodeUnit, z: CodeUnit, p: HrefPolicy)
    ensures Applied([LinkNode(TextUrl, Some(a), [TextNode([x])]), TextNode([y, z])], 2, 1, TextUrl, Some(b), p)
            == Returns(MiddleUnlinked(a, b, x, y, z))
  {
    var head := LinkNode(TextUrl, Some(a), [TextNode([x])]);
    var tree := [head, TextNode([y, z])];
    assert tree[1..] == [TextNode([y, z])] && tree[1..][1..] == [];
    assert [TextNode([x])][1..] == [];
    assert SplitTree.AllMeasurable([TextNode([x])]);
    assert SplitTree.Measurable(head);
    assert SplitTree.SumLengths([TextNode([x])]) == 1;
    assert SplitTree.GetTextLength(head) == 1;
    assert SplitTree.AllMeasurable(tree);
    assert SplitTree.SumLengths(tree[1..]) == 2;
    assert SplitTree.SumLengths(tree) == 3;
    SplitTree.SplitSize(tree, 2, 3);
    SplitTree.SplitParts(tree, 2, 3);
    assert Slice([x], 0, 1) == [x] && Slice([y, z], 0, 1) == [y] && Slice([y, z], 1, 2) == [z];
    assert SplitTree.Between([TextNode([x])], 0, 2, 0) == [TextNode([x])];
    assert SplitTree.Piece(head, 0, 2, 0) == [head];
    assert SplitTree.Between([TextNode([y, z])], 0, 2, 1) == [TextNode([y])];
    var p0, p1, p2 := SplitTree.Between(tree, 0, 2, 0), SplitTree.Between(tree, 2, 3, 0), SplitTree.Between(tree, 3, 3, 0);
    assert p0 == [head, TextNode([y])];
    assert SplitTree.Between([TextNode([y, z])], 2, 3, 1) == [TextNode([z])];
    assert p1 == [TextNode([z])];
    assert SplitTree.Between([TextNode([y, z])], 3, 3, 1) == [];
    assert p2 == [];
    var parts: seq<seq<Node>> := (if |p0| > 0 then [p0] else []) + (if |p1| > 0 then [p1] else []) + (if |p2| > 0 then [p2] else []);
    assert parts == [[head, TextNode([y])], [TextNode([z])]];
    VisitsText([z], Some(TextUrl));
    RemoveAbsent([TextNode([z])], 0, 1, TextUrl, p);
    var link := LinkNode(TextUrl, Some(b), [TextNode([z])]);
    assert Styled([TextNode([z])], 1, TextUrl, Some(b), p) == Returns(link);
    assert [head, TextNode([y])] + [link] + [] == MiddleUnlinked(a, b, x, y, z);
  }

  /** The record's children after the link is applied again before and after the window. */
  lemma UnlinkMiddle(u: string, x: CodeUnit, y: CodeUnit, z: CodeUnit, hrefs: RemnantHrefs, p: HrefPolicy)
    ensures ForestSize(MiddleRecord(u, x, y, z).kids) < ForestSize(LinkOverThree(u, x, y, z))
    ensures RestyledRecord(MiddleRecord(u, x, y, z), hrefs, TextUrl, p, LinkOverThree(u, x, y, z), 1)
            == Returns(MiddleUnlinked(OrEmpty(hrefs.before), OrEmpty(hrefs.after), x, y, z))
  {
    var link := LinkOverThree(u, x, y, z)[0];
    KidsSmaller(link);
    assert [link][1..] == [];
    RelinkHead(x, y, z, OrEmpty(hrefs.before), p);
    RelinkTail(OrEmpty(hrefs.before), OrEmpty(hrefs.after), x, y, z, p);
  }

  /** Unlinking the middle code unit of a link: each remnant is linked to the url the policy picks for it. */
  lemma RemoveMiddle(u: string, x: CodeUnit, y: CodeUnit, z: CodeUnit, p: HrefPolicy)
    ensures var hrefs := RemnantHrefsFor(p, RemovalScan([MiddleRecord(u, x, y, z)], [Some(u)]))[0];
            Removed(LinkOverThree(u, x, y, z), 1, 1, TextUrl, p)
            == Returns(MiddleUnlinked(OrEmpty(hrefs.before), OrEmpty(hrefs.after), x, y, z))
  {
    var scan := RemovalScan([MiddleRecord(u, x, y, z)], [Some(u)]);
    var hrefs := RemnantHrefsFor(p, scan);
    MiddleScan(u, x, y, z);
    UnlinkMiddle(u, x, y, z, hrefs[0], p);
    var result := MiddleUnlinked(OrEmpty(hrefs[0].before), OrEmpty(hrefs[0].after), x, y, z);
    assert Restyled(scan.records, hrefs, TextUrl, p, map[], LinkOverThree(u, x, y, z), 1) == Returns(map[0 := result]) by {
      assert scan.records[1..] == [] && hrefs[1..] == [];
    }
    ReplaceRoot(LinkOverThree(u, x, y, z)[0], Some(TextUrl), result);
  }

  /**
   * As written: unlinking the middle code unit of a link to `u` links the
   * part before it to `u` but the part after it to the empty url, because
   * the one queued url is used up by the first remnant.
   */
  lemma QueuedHrefDropsUrl(u: string, x: CodeUnit, y: CodeUnit, z: CodeUnit)
    ensures Removed(LinkOverThree(u, x, y, z), 1, 1, TextUrl, SharedQueue) == Returns(MiddleUnlinked(u, "", x, y, z))
  {
    RemoveMiddle(u, x, y, z, SharedQueue);
    assert QueuedHrefs([MiddleRecord(u, x, y, z)], [Some(u)]) == [RemnantHrefs(Some(u), None)];
  }

  /** Corrected: both remnants stay linked to `u`. */
  lemma OwnHrefKeepsUrl(u: string, x: CodeUnit, y: CodeUnit, z: CodeUnit)
    ensures Removed(LinkOverThree(u, x, y, z), 1, 1, TextUrl, OwnUrl) == Returns(MiddleUnlinked(u, u, x, y, z))
  {
    RemoveMiddle(u, x, y, z, OwnUrl);
  }
}
