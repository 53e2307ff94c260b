/**
 * `splitTextByEmoji` (src/util/textWithEntitiesToAST.ts): plain text is cut
 * into text nodes and one emoji node per code point that matches
 * `/\p{Emoji_Presentation}/gu`.  The Unicode property table is not part of
 * the model: `isEmoji` decides it for a code point.  With the `u` flag the
 * expression scans code points, so a surrogate pair is one step of two code
 * units.
 */
module EmojiSplit {
  import opened Ast
  import opened Serializer

  predicate IsHighSurrogate(u: CodeUnit)
  {
    0xD800 <= u as int <= 0xDBFF
  }

  predicate IsLowSurrogate(u: CodeUnit)
  {
    0xDC00 <= u as int <= 0xDFFF
  }

  /** Number of code units of the code point that starts at `i`. */
  function CodePointLength(s: Utf16, i: nat): (n: nat)
    requires i < |s|
    ensures 1 <= n <= 2 && i + n <= |s|
  {
    if IsHighSurrogate(s[i]) && i + 1 < |s| && IsLowSurrogate(s[i + 1]) then 2 else 1
  }

  /** The code point that starts at `i`; a lone surrogate stands for itself. */
  function CodePointAt(s: Utf16, i: nat): int
    requires i < |s|
  {
    if CodePointLength(s, i) == 2
    then 0x10000 + (s[i] as int - 0xD800) * 0x400 + (s[i + 1] as int - 0xDC00)
    else s[i] as int
  }

  /**
   * The nodes produced from the scan position `i` on, when the text not yet
   * pushed starts at `last`.
   */
  function Scan(s: Utf16, isEmoji: int -> bool, last: nat, i: nat): seq<Node>
    requires last <= i <= |s|
    decreases |s| - i
  {
    if i == |s| then
      if last < |s| then [TextNode(s[last..])] else []
    else
      var n := CodePointLength(s, i);
      if isEmoji(CodePointAt(s, i)) then
        (if last < i then [TextNode(s[last..i])] else []) + [EmojiNode(s[i..i + n])] + Scan(s, isEmoji, i + n, i + n)
      else Scan(s, isEmoji, last, i + n)
  }

  /** What `splitTextByEmoji(input)` returns. */
  function EmojiTokens(input: Utf16, isEmoji: int -> bool): seq<Node>
  {
    Scan(input, isEmoji, 0, 0)
  }

  /** `splitTextByEmoji`. */
  method SplitTextByEmoji(input: Utf16, isEmoji: int -> bool) returns (nodes: seq<Node>)
    ensures nodes == EmojiTokens(input, isEmoji)
  {
    nodes := [];
    var last: nat, i: nat := 0, 0;
    while i < |input|
      invariant last <= i <= |input|
      invariant nodes + Scan(input, isEmoji, last, i) == EmojiTokens(input, isEmoji)
      decreases |input| - i
    {
      var n := CodePointLength(input, i);
      ScanStep(input, isEmoji, last, i);
      if isEmoji(CodePointAt(input, i)) {
        ghost var before := nodes;
        ghost var pre := if last < i then [TextNode(input[last..i])] else [];
        if i > last {
          nodes := nodes + [TextNode(input[last..i])];
        }
        nodes := nodes + [EmojiNode(input[i..i + n])];
        ghost var chunk, rest := pre + [EmojiNode(input[i..i + n])], Scan(input, isEmoji, i + n, i + n);
        assert nodes == before + chunk;
        assert Scan(input, isEmoji, last, i) == chunk + rest;
        Associative(before, chunk, rest);
        assert nodes + rest == before + Scan(input, isEmoji, last, i);
        last := i + n;
      }
      i := i + n;
    }
    if last < |input| {
      nodes := nodes + [TextNode(input[last..])];
    }
  }

  /** One step of the scan: a matching code point ends the pending text. */
  lemma ScanStep(s: Utf16, isEmoji: int -> bool, last: nat, i: nat)
    requires last <= i < |s|
    ensures var n := CodePointLength(s, i);
      Scan(s, isEmoji, last, i)
      == if isEmoji(CodePointAt(s, i))
         then (if last < i then [TextNode(s[last..i])] else []) + [EmojiNode(s[i..i + n])] + Scan(s, isEmoji, i + n, i + n)
         else Scan(s, isEmoji, last, i + n)
  {
  }

  /** The node list holds only text and emoji nodes, no text node is empty and no two text nodes are adjacent. */
  predicate WellSplit(r: seq<Node>)
  {
    (forall k :: 0 <= k < |r| ==> r[k].TextNode? || r[k].EmojiNode?)
    && (forall k :: 0 <= k < |r| && r[k].TextNode? ==> |r[k].text| > 0)
    && (forall k :: 0 <= k < |r| - 1 ==> !(r[k].TextNode? && r[k + 1].TextNode?))
  }

  /** The scan reproduces the text from `last` on. */
  lemma {:induction false} ScanText(s: Utf16, isEmoji: int -> bool, last: nat, i: nat)
    requires last <= i <= |s|
    ensures SerializedText(Scan(s, isEmoji, last, i)) == s[last..]
    decreases |s| - i
  {
    var r := Scan(s, isEmoji, last, i);
    if i == |s| {
      if last < |s| {
        assert r[1..] == [];
      }
    } else {
      var n := CodePointLength(s, i);
      if isEmoji(CodePointAt(s, i)) {
        var rest := Scan(s, isEmoji, i + n, i + n);
        ScanText(s, isEmoji, i + n, i + n);
        var pre := if last < i then [TextNode(s[last..i])] else [];
        assert r == pre + [EmojiNode(s[i..i + n])] + rest;
        ThreeParts(pre, EmojiNode(s[i..i + n]), rest, s[last..i], s[i..i + n], s[i + n..]);
        assert s[last..] == s[last..i] + s[i..i + n] + s[i + n..];
      } else {
        ScanText(s, isEmoji, last, i + n);
      }
    }
  }

  lemma ThreeParts(pre: seq<Node>, e: Node, rest: seq<Node>, a: Utf16, b: Utf16, c: Utf16)
    requires |pre| <= 1 && (|pre| == 1 ==> pre[0] == TextNode(a)) && (|pre| == 0 ==> a == [])
    requires e.EmojiNode? && e.emoji == b && SerializedText(rest) == c
    ensures SerializedText(pre + [e] + rest) == a + b + c
  {
    SerializedTextAppend(pre + [e], rest);
    SerializedTextAppend(pre, [e]);
    assert [e][1..] == [];
    if |pre| == 1 {
      assert pre[1..] == [];
    }
  }

  /** The scan splits well. */
  lemma {:induction false} ScanWellSplit(s: Utf16, isEmoji: int -> bool, last: nat, i: nat)
    requires last <= i <= |s|
    ensures WellSplit(Scan(s, isEmoji, last, i))
    decreases |s| - i
  {
    if i < |s| {
      var n := CodePointLength(s, i);
      ScanStep(s, isEmoji, last, i);
      if isEmoji(CodePointAt(s, i)) {
        ScanWellSplit(s, isEmoji, i + n, i + n);
        var rest := Scan(s, isEmoji, i + n, i + n);
        var e := EmojiNode(s[i..i + n]);
        PrependWellSplit(e, rest);
        if last < i {
          PrependWellSplit(TextNode(s[last..i]), [e] + rest);
          Associative([TextNode(s[last..i])], [e], rest);
        } else {
          assert [] + [e] + rest == [e] + rest;
        }
      } else {
        ScanWellSplit(s, isEmoji, last, i + n);
      }
    } else if last < |s| {
      PrependWellSplit(TextNode(s[last..]), []);
      assert [TextNode(s[last..])] + [] == [TextNode(s[last..])];
    }
  }

  /** A node may go in front of a well-split list unless it is empty text or text before text. */
  lemma PrependWellSplit(x: Node, r: seq<Node>)
    requires WellSplit(r)
    requires x.EmojiNode? || (x.TextNode? && |x.text| > 0 && (|r| > 0 ==> !r[0].TextNode?))
    ensures WellSplit([x] + r)
  {
    var xr := [x] + r;
    assert forall k :: 1 <= k < |xr| ==> xr[k] == r[k - 1];
  }

  /** Every emoji node of the scan is one matching code point of the text. */
  lemma {:induction false} ScanEmoji(s: Utf16, isEmoji: int -> bool, last: nat, i: nat, k: nat)
    requires last <= i <= |s|
    requires k < |Scan(s, isEmoji, last, i)| && Scan(s, isEmoji, last, i)[k].EmojiNode?
    ensures exists j :: i <= j < |s| && Scan(s, isEmoji, last, i)[k] == EmojiNode(s[j..j + CodePointLength(s, j)])
                        && isEmoji(CodePointAt(s, j))
    decreases |s| - i
  {
    var n := CodePointLength(s, i);
    if isEmoji(CodePointAt(s, i)) {
      var rest := Scan(s, isEmoji, i + n, i + n);
      var e := EmojiNode(s[i..i + n]);
      var pre := if last < i then [TextNode(s[last..i])] else [];
      var r := pre + [e] + rest;
      assert Scan(s, isEmoji, last, i) == r;
      if k < |pre| + 1 {
        assert r[k] == e;
      } else {
        assert r[k] == rest[k - |pre| - 1];
        ScanEmoji(s, isEmoji, i + n, i + n, k - |pre| - 1);
      }
    } else {
      ScanEmoji(s, isEmoji, last, i + n, k);
    }
  }

  /**
   * `splitTextByEmoji` loses nothing (the node contents concatenate to the
   * input), emits no empty or adjacent text nodes, and each emoji node is a
   * single code point that matches.
   */
  lemma EmojiTokensProperties(input: Utf16, isEmoji: int -> bool)
    ensures SerializedText(EmojiTokens(input, isEmoji)) == input
    ensures WellSplit(EmojiTokens(input, isEmoji))
    ensures forall k :: 0 <= k < |EmojiTokens(input, isEmoji)| && EmojiTokens(input, isEmoji)[k].EmojiNode? ==>
              exists j :: 0 <= j < |input| && EmojiTokens(input, isEmoji)[k] == EmojiNode(input[j..j + CodePointLength(input, j)])
                          && isEmoji(CodePointAt(input, j))
  {
    ScanText(input, isEmoji, 0, 0);
    ScanWellSplit(input, isEmoji, 0, 0);
    forall k | 0 <= k < |EmojiTokens(input, isEmoji)| && EmojiTokens(input, isEmoji)[k].EmojiNode?
      ensures exists j :: 0 <= j < |input| && EmojiTokens(input, isEmoji)[k] == EmojiNode(input[j..j + CodePointLength(input, j)])
                          && isEmoji(CodePointAt(input, j))
    {
      ScanEmoji(input, isEmoji, 0, 0, k);
    }
  }

  /** Text with no matching code point stays one text node (none when it is empty). */
  lemma {:induction false} NoEmojiOneText(s: Utf16, isEmoji: int -> bool, last: nat, i: nat)
    requires last <= i <= |s|
    requires forall j :: i <= j < |s| ==> !isEmoji(CodePointAt(s, j))
    ensures Scan(s, isEmoji, last, i) == if last < |s| then [TextNode(s[last..])] else []
    decreases |s| - i
  {
    if i < |s| {
      NoEmojiOneText(s, isEmoji, last, i + CodePointLength(s, i));
    }
  }
}
