/**
 * What the style editor of src/util/astEditor.ts keeps: applying or
 * removing a style changes how the message is formatted, never its text.
 * The serialized text of every forest the editor returns is the text of
 * the forest it was given, for every style, range and url.
 */
module EditorText {
  import opened Ast
  import opened Serializer
  import opened StyleMap
  import opened StyleEditor
  import Walk
  import SplitTree

  /** A node of a style's type that has children serializes to the text of its children. */
  lemma StyleCarrierText(n: Node)
    requires IsStyleType(TypeOf(n)) && HasChildren(n)
    ensures NodeText(n) == SerializedText(Kids(n))
  {
  }

  lemma ThreeText(a: seq<Node>, b: seq<Node>, c: seq<Node>)
    ensures SerializedText(a + b + c) == SerializedText(a) + SerializedText(b) + SerializedText(c)
  {
    SerializedTextAppend(a + b, c);
    SerializedTextAppend(a, b);
  }

  /** The pieces that replace a text node carry its content, in order. */
  lemma PiecesText(cut: Cut, t: NodeType)
    requires IsStyleType(t) && !IsDeep(t) && cut.start <= cut.end <= |cut.content|
    ensures SerializedText(Pieces(cut, t)) == cut.content
  {
    var c := cut.content;
    var part1, part2, part3 := c[..cut.start], c[cut.start..cut.end], c[cut.end..];
    assert Slice(c, 0, cut.start) == part1 && Slice(c, cut.start, cut.end) == part2 && Slice(c, cut.end, |c|) == part3;
    var wrapped := Wrap(t, [TextNode(part2)]);
    Walk.SingleText(TextNode(part2));
    assert NodeText(wrapped) == part2;
    OptionalTextsAround(part1, wrapped, part3);
    assert Pieces(cut, t) == (if |part1| > 0 then [TextNode(part1)] else []) + [wrapped]
                             + (if |part3| > 0 then [TextNode(part3)] else []);
    assert part1 + part2 + part3 == c;
  }

  /** A node between two optional text nodes serializes between their contents. */
  lemma OptionalTextsAround(part1: Utf16, middle: Node, part3: Utf16)
    ensures SerializedText((if |part1| > 0 then [TextNode(part1)] else []) + [middle]
                           + (if |part3| > 0 then [TextNode(part3)] else []))
            == part1 + NodeText(middle) + part3
  {
    var head := if |part1| > 0 then [TextNode(part1)] else [];
    var tail := if |part3| > 0 then [TextNode(part3)] else [];
    Walk.SingleText(TextNode(part1));
    Walk.SingleText(TextNode(part3));
    Walk.SingleText(middle);
    ThreeText(head, [middle], tail);
  }

  /** Adding the pieces of placed cuts to a text-keeping map keeps it text-keeping. */
  lemma {:induction false} CutMapKeepsText(cuts: seq<Cut>, t: NodeType, acc: map<nat, seq<Node>>, vs: seq<Node>)
    requires IsStyleType(t) && !IsDeep(t)
    requires forall i :: 0 <= i < |cuts| ==> CutPlaced(cuts[i], vs, 0)
    requires Walk.TextKeeping(vs, 0, acc)
    ensures Walk.TextKeeping(vs, 0, CutMap(cuts, t, acc))
    decreases |cuts|
  {
    if |cuts| > 0 {
      var cut := cuts[0];
      PiecesText(cut, t);
      var next := acc[cut.index := Pieces(cut, t)];
      assert Walk.TextKeeping(vs, 0, next);
      assert forall i :: 0 <= i < |cuts[1..]| ==> CutPlaced(cuts[1..][i], vs, 0) by {
        forall i | 0 <= i < |cuts[1..]|
          ensures CutPlaced(cuts[1..][i], vs, 0)
        {
          assert cuts[1..][i] == cuts[i + 1];
        }
      }
      CutMapKeepsText(cuts[1..], t, next, vs);
    }
  }

  /** `applyStyles` for a type applied in place keeps the text. */
  lemma ShallowKeepsText(ast: seq<Node>, offset: nat, length: nat, t: NodeType)
    requires IsStyleType(t) && !IsDeep(t)
    ensures SerializedText(ShallowApplied(ast, offset, length, t)) == SerializedText(ast)
  {
    var vs := Walk.Visits(ast, None);
    var cuts := TextCuts(ast, 0, 0, offset, offset + length);
    CutsPlaced(ast, 0, 0, offset, offset + length);
    CutMapKeepsText(cuts, t, map[], vs);
    Walk.ReplaceText(ast, None, 0, CutMap(cuts, t, map[]));
  }

  /** A styled node between two forests serializes like the part it styles between them. */
  lemma AroundText(before: seq<Node>, styled: Outcome<Node>, part: seq<Node>, after: seq<Node>)
    requires styled.Returns? ==> NodeText(styled.value) == SerializedText(part)
    ensures Around(before, styled, after).Returns? ==>
              SerializedText(Around(before, styled, after).value) == SerializedText(before + part + after)
  {
    if styled.Returns? {
      ThreeText(before, [styled.value], after);
      ThreeText(before, part, after);
      Walk.SingleText(styled.value);
    }
  }

  lemma FlattenSmall(parts: seq<seq<Node>>)
    requires 1 <= |parts| <= 3
    ensures |parts| == 1 ==> SplitTree.Flatten(parts) == parts[0]
    ensures |parts| == 2 ==> SplitTree.Flatten(parts) == parts[0] + parts[1]
    ensures |parts| == 3 ==> SplitTree.Flatten(parts) == parts[0] + parts[1] + parts[2]
  {
    assert parts[|parts|..] == [];
    if |parts| >= 2 {
      assert parts[1..][1..] == parts[2..];
    }
    if |parts| == 3 {
      assert parts[2..][1..] == parts[3..];
    }
  }

  /** `applyStyles` keeps the text. */
  lemma AppliedKeepsText(ast: seq<Node>, offset: nat, length: nat, t: NodeType, href: Option<string>, p: HrefPolicy)
    requires IsStyleType(t)
    ensures Applied(ast, offset, length, t, href, p).Returns? ==>
              SerializedText(Applied(ast, offset, length, t, href, p).value) == SerializedText(ast)
    decreases 0, 3 * ForestSize(ast) + 2, 0, 0
  {
    if IsDeep(t) {
      DeepKeepsText(ast, offset, length, t, href, p);
    } else {
      ShallowKeepsText(ast, offset, length, t);
    }
  }

  /** The node `pushStyledPart` pushes serializes to the text of the part. */
  lemma StyledKeepsText(part: seq<Node>, length: nat, t: NodeType, href: Option<string>, p: HrefPolicy)
    requires IsDeep(t)
    ensures Styled(part, length, t, href, p).Returns? ==>
              NodeText(Styled(part, length, t, href, p).value) == SerializedText(part)
    decreases 0, 3 * ForestSize(part), 2, 0
  {
    RemovedKeepsText(part, 0, length, t, p);
    StyledUnfold(part, length, t, href, p);
  }

  /** The styled part is a Spoiler or TextUrl container around what removing the style left. */
  lemma StyledUnfold(part: seq<Node>, length: nat, t: NodeType, href: Option<string>, p: HrefPolicy)
    requires IsDeep(t)
    ensures var s := Styled(part, length, t, href, p);
            s.Returns? <==> Removed(part, 0, length, t, p).Returns?
    ensures var s := Styled(part, length, t, href, p);
            s.Returns? ==> NodeText(s.value) == SerializedText(Removed(part, 0, length, t, p).value)
  {
  }

  /** `deepApplyStyles` keeps the text. */
  lemma DeepKeepsText(ast: seq<Node>, offset: nat, length: nat, t: NodeType, href: Option<string>, p: HrefPolicy)
    requires IsDeep(t)
    ensures DeepApplied(ast, offset, length, t, href, p).Returns? ==>
              SerializedText(DeepApplied(ast, offset, length, t, href, p).value) == SerializedText(ast)
    decreases 0, 3 * ForestSize(ast) + 1, 1, 0
  {
    var split := SplitTree.Split(ast, offset, offset + length);
    if split.Returns? && |split.value| > 0 {
      var parts := split.value;
      SplitTree.SplitSize(ast, offset, offset + length);
      SplitTree.SplitCount(ast, offset, offset + length);
      PartsKeepText(parts, ast, offset, length, t, href, p);
    } else {
      DeepAppliedThrows(ast, offset, length, t, href, p);
    }
  }

  /** The part `deepApplyStyles` styles: the middle one, or the only one not before `offset`. */
  function StyledIndex(parts: seq<seq<Node>>, offset: nat): nat
  {
    if |parts| == 3 || (|parts| == 2 && offset != 0) then 1 else 0
  }

  /** The part left in front of the styled one, or nothing. */
  function Before(parts: seq<seq<Node>>, offset: nat): seq<Node>
  {
    if StyledIndex(parts, offset) == 1 then parts[0] else []
  }

  /** The part left behind the styled one, or nothing. */
  function After(parts: seq<seq<Node>>, offset: nat): seq<Node>
  {
    if StyledIndex(parts, offset) + 1 < |parts| then parts[StyledIndex(parts, offset) + 1] else []
  }

  /** `deepApplyStyles` on a forest that splits: the part it styles, between the parts it keeps. */
  lemma DeepAppliedParts(ast: seq<Node>, offset: nat, length: nat, t: NodeType, href: Option<string>, p: HrefPolicy,
                         parts: seq<seq<Node>>)
    requires IsDeep(t) && SplitTree.Split(ast, offset, offset + length) == Returns(parts) && 1 <= |parts| <= 3
    ensures StyledIndex(parts, offset) < |parts|
    ensures DeepApplied(ast, offset, length, t, href, p) ==
              Around(Before(parts, offset), Styled(parts[StyledIndex(parts, offset)], length, t, href, p), After(parts, offset))
  {
    var d := DeepApplied(ast, offset, length, t, href, p);
    if |parts| == 3 {
      assert d == Around(parts[0], Styled(parts[1], length, t, href, p), parts[2]);
    } else if |parts| == 2 && offset == 0 {
      assert d == Around([], Styled(parts[0], length, t, href, p), parts[1]);
    } else if |parts| == 2 {
      assert d == Around(parts[0], Styled(parts[1], length, t, href, p), []);
    } else {
      assert d == Around([], Styled(parts[0], length, t, href, p), []);
    }
  }

  /** The kept parts around the styled one make up the whole split. */
  lemma AroundFlatten(parts: seq<seq<Node>>, offset: nat)
    requires 1 <= |parts| <= 3 && StyledIndex(parts, offset) < |parts|
    ensures Before(parts, offset) + parts[StyledIndex(parts, offset)] + After(parts, offset) == SplitTree.Flatten(parts)
  {
    FlattenSmall(parts);
    var i := StyledIndex(parts, offset);
    if |parts| == 3 {
    } else if |parts| == 2 && i == 0 {
      assert [] + parts[0] + parts[1] == parts[0] + parts[1];
    } else if |parts| == 2 {
      assert parts[0] + parts[1] + [] == parts[0] + parts[1];
    } else {
      assert [] + parts[0] + [] == parts[0];
    }
  }

  /** `deepApplyStyles` throws when the forest does not split. */
  lemma DeepAppliedThrows(ast: seq<Node>, offset: nat, length: nat, t: NodeType, href: Option<string>, p: HrefPolicy)
    requires IsDeep(t)
    requires SplitTree.Split(ast, offset, offset + length).Throws? || |SplitTree.Split(ast, offset, offset + length).value| == 0
    ensures DeepApplied(ast, offset, length, t, href, p).Throws?
  {
  }

  /** The case analysis of `deepApplyStyles` on the parts of the split keeps the text of the forest it split. */
  lemma PartsKeepText(parts: seq<seq<Node>>, ast: seq<Node>, offset: nat, length: nat, t: NodeType,
                      href: Option<string>, p: HrefPolicy)
    requires IsDeep(t) && SplitTree.Split(ast, offset, offset + length) == Returns(parts) && 1 <= |parts| <= 3
    requires forall j :: 0 <= j < |parts| ==> ForestSize(parts[j]) <= ForestSize(ast)
    ensures DeepApplied(ast, offset, length, t, href, p).Returns? ==>
              SerializedText(DeepApplied(ast, offset, length, t, href, p).value) == SerializedText(ast)
    decreases 0, 3 * ForestSize(ast) + 1, 0, 0
  {
    SplitTree.SplitKeepsText(ast, offset, offset + length);
    DeepAppliedParts(ast, offset, length, t, href, p, parts);
    AroundFlatten(parts, offset);
    var i := StyledIndex(parts, offset);
    StyledAroundText(Before(parts, offset), parts[i], After(parts, offset), length, t, href, p);
  }

  /** A styled part between two forests serializes like the unstyled part between them. */
  lemma StyledAroundText(before: seq<Node>, part: seq<Node>, after: seq<Node>, length: nat, t: NodeType,
                         href: Option<string>, p: HrefPolicy)
    requires IsDeep(t)
    ensures var r := Around(before, Styled(part, length, t, href, p), after);
            r.Returns? ==> SerializedText(r.value) == SerializedText(before + part + after)
    decreases 0, 3 * ForestSize(part), 3, 0
  {
    StyledKeepsText(part, length, t, href, p);
    AroundText(before, Styled(part, length, t, href, p), part, after);
  }

  /** `removeStyle` keeps the text. */
  lemma RemovedKeepsText(ast: seq<Node>, offset: nat, length: nat, t: NodeType, p: HrefPolicy)
    requires IsStyleType(t)
    ensures Removed(ast, offset, length, t, p).Returns? ==>
              SerializedText(Removed(ast, offset, length, t, p).value) == SerializedText(ast)
    decreases Rank(offset), 3 * ForestSize(ast), 1, 0
  {
    var vs := Walk.Visits(ast, Some(t));
    var scan := Removals(vs, 0, 0, offset, offset + length, t);
    if scan.Returns? {
      RemovalsPlaced(vs, 0, 0, offset, offset + length, t);
      RecordsSmaller(ast, scan.value.records, offset, t);
      var hrefs := RemnantHrefsFor(p, scan.value);
      RestyledKeepsText(scan.value.records, hrefs, t, p, map[], ast, offset, vs);
      var repl := Restyled(scan.value.records, hrefs, t, p, map[], ast, offset);
      if repl.Returns? {
        Walk.ReplaceText(ast, Some(t), 0, repl.value);
      }
    }
  }

  /** The map `stylesToRemove.forEach` builds replaces each recorded node with children of the same text. */
  lemma {:induction false} RestyledKeepsText(records: seq<Removal>, hrefs: seq<RemnantHrefs>, t: NodeType, p: HrefPolicy,
                                             acc: map<nat, seq<Node>>, ast: seq<Node>, offset: nat, vs: seq<Node>)
    requires IsStyleType(t) && |hrefs| == |records|
    requires forall i :: 0 <= i < |records| ==> ForestSize(records[i].kids) < ForestSize(ast)
    requires forall i :: 0 <= i < |records| ==> records[i].start > 0 ==> offset > 0
    requires forall i :: 0 <= i < |records| ==> RemovalPlaced(records[i], vs, 0, offset, t)
    requires Walk.TextKeeping(vs, 0, acc)
    ensures Restyled(records, hrefs, t, p, acc, ast, offset).Returns? ==>
              Walk.TextKeeping(vs, 0, Restyled(records, hrefs, t, p, acc, ast, offset).value)
    decreases Rank(offset), 3 * ForestSize(ast), 0, |records| + 2
  {
    if |records| > 0 {
      var r := records[0];
      RestyledRecordKeepsText(r, hrefs[0], t, p, ast, offset);
      var updated := RestyledRecord(r, hrefs[0], t, p, ast, offset);
      if updated.Returns? {
        StyleCarrierText(vs[r.index]);
        var next := acc[r.index := updated.value];
        assert Walk.TextKeeping(vs, 0, next);
        assert forall i :: 0 <= i < |records[1..]| ==> records[1..][i] == records[i + 1];
        RestyledKeepsText(records[1..], hrefs[1..], t, p, next, ast, offset, vs);
      }
    }
  }

  /** The children that replace one recorded node have the text of its old children. */
  lemma RestyledRecordKeepsText(r: Removal, hrefs: RemnantHrefs, t: NodeType, p: HrefPolicy, ast: seq<Node>, offset: nat)
    requires IsStyleType(t)
    requires ForestSize(r.kids) < ForestSize(ast) && (r.start > 0 ==> offset > 0)
    ensures RestyledRecord(r, hrefs, t, p, ast, offset).Returns? ==>
              SerializedText(RestyledRecord(r, hrefs, t, p, ast, offset).value) == SerializedText(r.kids)
    decreases Rank(offset), 3 * ForestSize(ast), 0, 2
  {
    if r.start > 0 {
      ReappliedBothKeepText(r, hrefs, t, p, ast, offset);
    } else {
      ReappliedAfterKeepsText(r, hrefs, t, p, ast, offset);
    }
  }

  /** A record whose window starts at its first character: the style is applied again after it only. */
  lemma ReappliedAfterKeepsText(r: Removal, hrefs: RemnantHrefs, t: NodeType, p: HrefPolicy, ast: seq<Node>, offset: nat)
    requires IsStyleType(t) && r.start == 0
    requires ForestSize(r.kids) < ForestSize(ast)
    ensures RestyledRecord(r, hrefs, t, p, ast, offset).Returns? ==>
              SerializedText(RestyledRecord(r, hrefs, t, p, ast, offset).value) == SerializedText(r.kids)
    decreases Rank(offset), 3 * ForestSize(ast), 0, 0
  {
    RestyledAfter(r, hrefs, t, p, ast, offset);
    if r.end < r.nodeLength {
      AppliedKeepsText(r.kids, r.end, r.nodeLength - r.end, t, HrefArgument(t, hrefs.after), p);
    }
  }

  /** With no part before the window, the record is restyled after it only, if anything follows. */
  lemma RestyledAfter(r: Removal, hrefs: RemnantHrefs, t: NodeType, p: HrefPolicy, ast: seq<Node>, offset: nat)
    requires IsStyleType(t) && r.start == 0
    requires ForestSize(r.kids) < ForestSize(ast)
    ensures RestyledRecord(r, hrefs, t, p, ast, offset) ==
            if r.end < r.nodeLength then Applied(r.kids, r.end, r.nodeLength - r.end, t, HrefArgument(t, hrefs.after), p)
            else Returns(r.kids)
  {
  }

  /** A record whose window does not start at its first character: the style is applied again before it, then after it. */
  lemma ReappliedBothKeepText(r: Removal, hrefs: RemnantHrefs, t: NodeType, p: HrefPolicy, ast: seq<Node>, offset: nat)
    requires IsStyleType(t) && r.start > 0 && offset > 0
    requires ForestSize(r.kids) < ForestSize(ast)
    ensures RestyledRecord(r, hrefs, t, p, ast, offset).Returns? ==>
              SerializedText(RestyledRecord(r, hrefs, t, p, ast, offset).value) == SerializedText(r.kids)
    decreases Rank(offset), 3 * ForestSize(ast), 0, 1
  {
    var first := Applied(r.kids, 0, r.start, t, HrefArgument(t, hrefs.before), p);
    AppliedKeepsText(r.kids, 0, r.start, t, HrefArgument(t, hrefs.before), p);
    RestyledBoth(r, hrefs, t, p, ast, offset);
    if first.Returns? && r.end < r.nodeLength {
      AppliedKeepsText(first.value, r.end, r.nodeLength - r.end, t, HrefArgument(t, hrefs.after), p);
    }
  }

  /** With a part before the window, the record is restyled before it, then after it if anything follows. */
  lemma RestyledBoth(r: Removal, hrefs: RemnantHrefs, t: NodeType, p: HrefPolicy, ast: seq<Node>, offset: nat)
    requires IsStyleType(t) && r.start > 0 && offset > 0
    requires ForestSize(r.kids) < ForestSize(ast)
    ensures var first := Applied(r.kids, 0, r.start, t, HrefArgument(t, hrefs.before), p);
            RestyledRecord(r, hrefs, t, p, ast, offset) ==
            if first.Throws? || r.end >= r.nodeLength then first
            else Applied(first.value, r.end, r.nodeLength - r.end, t, HrefArgument(t, hrefs.after), p)
  {
  }

  /**
   * `applyStylesToAst` never changes the text: whatever style is applied
   * or removed over whatever range, the result serializes to the same text.
   */
  lemma EditKeepsText(ast: seq<Node>, offset: nat, length: nat, style: AstStyle, remove: bool,
                      href: Option<string>, p: HrefPolicy)
    ensures StylesApplied(ast, offset, length, style, remove, href, p).Returns? ==>
              SerializedText(StylesApplied(ast, offset, length, style, remove, href, p).value) == SerializedText(ast)
  {
    var t := NodeTypeFromStyle(style).value;
    if remove {
      RemovedKeepsText(ast, offset, length, t, p);
    } else {
      AppliedKeepsText(ast, offset, length, t, href, p);
    }
  }
}
