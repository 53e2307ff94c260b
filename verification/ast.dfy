/**
 * The node forest of the message composer (the `NodeType` enum and the node
 * interfaces of src/util/parseHtmlAsAST.ts) and the flat `{text, entities}`
 * form it is converted from and to.
 *
 * JavaScript strings are sequences of UTF-16 code units, and every `length`,
 * `offset` and `slice` in the engine counts code units, so message text is a
 * sequence of `CodeUnit`s here.  Strings that are only compared or copied
 * (URLs, languages, document ids) stay Dafny strings.
 */
module Ast {

  newtype CodeUnit = x: int | 0 <= x < 0x1_0000

  type Utf16 = seq<CodeUnit>

  datatype Option<T> = None | Some(value: T)

  /** The outcome of code that can stop with a TypeError (a property read on `undefined`). */
  datatype Outcome<T> = Returns(value: T) | Throws

  /** `NodeType`; the entity types share their string values, so entities reuse it. */
  datatype NodeType =
    | Text | Emoji
    | Bold | Blockquote | BotCommand | Cashtag | Code | Email | Hashtag | Italic
    | MentionName | Mention | Phone | Pre | Strike | TextUrl | Url | Underline
    | Spoiler | CustomEmoji | Unknown

  predicate IsFormatKind(t: NodeType)
  {
    t.Bold? || t.Italic? || t.Underline? || t.Strike? || t.Spoiler? || t.Blockquote?
  }

  predicate IsLinkKind(t: NodeType)
  {
    t.Url? || t.TextUrl?
  }

  predicate IsMarkKind(t: NodeType)
  {
    t.BotCommand? || t.Cashtag? || t.Email? || t.Hashtag? || t.MentionName?
    || t.Mention? || t.Phone? || t.Unknown?
  }

  /** Formatting containers: `FormattedNode` and `BlockquoteNode`. */
  type FormatKind = t: NodeType | IsFormatKind(t) witness Bold

  type LinkKind = t: NodeType | IsLinkKind(t) witness TextUrl

  /** Mention and string-entity nodes, which carry no content of their own. */
  type MarkKind = t: NodeType | IsMarkKind(t) witness Mention

  /** An optional `children` array: `Absent` is `undefined`, `Present([])` an empty array. */
  datatype Children = Absent | Present(nodes: seq<Node>)

  /**
   * A `Code` node holds either raw `content` (as the builder and the HTML
   * parser create it) or `children` (as the shallow style editor creates it).
   */
  datatype CodeBody = CodeContent(raw: Utf16) | CodeChildren(nodes: seq<Node>)

  datatype Node =
    | TextNode(text: Utf16)
    | EmojiNode(emoji: Utf16)
    | CustomEmojiNode(documentId: Option<string>, glyph: Utf16)
    | CodeNode(body: CodeBody)
    | PreNode(pre: Utf16, language: Option<string>, preChildren: Children)
    | FormattedNode(format: FormatKind, children: seq<Node>)
    | LinkNode(link: LinkKind, url: Option<string>, linkChildren: seq<Node>)
    | MarkNode(mark: MarkKind, markChildren: Children)

  function TypeOf(n: Node): (t: NodeType)
    ensures n.TextNode? <==> t.Text?
    ensures n.EmojiNode? <==> t.Emoji?
    ensures n.CustomEmojiNode? <==> t.CustomEmoji?
    ensures n.CodeNode? <==> t.Code?
    ensures n.PreNode? <==> t.Pre?
    ensures n.FormattedNode? <==> IsFormatKind(t)
    ensures n.LinkNode? <==> IsLinkKind(t)
    ensures n.MarkNode? <==> IsMarkKind(t)
  {
    match n
    case TextNode(_) => Text
    case EmojiNode(_) => Emoji
    case CustomEmojiNode(_, _) => CustomEmoji
    case CodeNode(_) => Code
    case PreNode(_, _, _) => Pre
    case FormattedNode(k, _) => k
    case LinkNode(k, _, _) => k
    case MarkNode(k, _) => k
  }

  /** JavaScript truthiness of `node.children`. */
  predicate HasChildren(n: Node)
  {
    match n
    case CodeNode(b) => b.CodeChildren?
    case PreNode(_, _, c) => c.Present?
    case FormattedNode(_, _) => true
    case LinkNode(_, _, _) => true
    case MarkNode(_, c) => c.Present?
    case _ => false
  }

  /** `node.children || []`. */
  function Kids(n: Node): seq<Node>
  {
    match n
    case CodeNode(CodeChildren(k)) => k
    case PreNode(_, _, Present(k)) => k
    case FormattedNode(_, k) => k
    case LinkNode(_, _, k) => k
    case MarkNode(_, Present(k)) => k
    case _ => []
  }

  /** The same node with its children array replaced (only meaningful when `HasChildren(n)`). */
  function WithKids(n: Node, k: seq<Node>): (r: Node)
    ensures TypeOf(r) == TypeOf(n)
  {
    match n
    case CodeNode(_) => CodeNode(CodeChildren(k))
    case PreNode(p, l, _) => PreNode(p, l, Present(k))
    case FormattedNode(f, _) => FormattedNode(f, k)
    case LinkNode(t, u, _) => LinkNode(t, u, k)
    case MarkNode(m, _) => MarkNode(m, Present(k))
    case _ => n
  }

  /** Text, emoji and custom emoji nodes: the leaves whose `content` the walkers count. */
  predicate IsLeaf(n: Node)
  {
    n.TextNode? || n.EmojiNode? || n.CustomEmojiNode?
  }

  function LeafContent(n: Node): Utf16
  {
    match n
    case TextNode(c) => c
    case EmojiNode(c) => c
    case CustomEmojiNode(_, c) => c
    case _ => []
  }

  function NodeSize(n: Node): nat
    decreases n, 1
  {
    1 + match n
      case CodeNode(CodeChildren(k)) => ForestSize(k)
      case PreNode(_, _, Present(k)) => ForestSize(k)
      case FormattedNode(_, k) => ForestSize(k)
      case LinkNode(_, _, k) => ForestSize(k)
      case MarkNode(_, Present(k)) => ForestSize(k)
      case _ => 0
  }

  /** Number of nodes in a forest; the termination measure of every tree walk. */
  function ForestSize(f: seq<Node>): nat
    decreases f, 0
  {
    if |f| == 0 then 0 else NodeSize(f[0]) + ForestSize(f[1..])
  }

  lemma KidsSmaller(n: Node)
    ensures ForestSize(Kids(n)) < NodeSize(n)
  {
  }

  lemma Shrink(f: seq<Node>)
    requires |f| > 0
    ensures ForestSize(Kids(f[0])) < ForestSize(f)
    ensures ForestSize(f[1..]) < ForestSize(f)
  {
    KidsSmaller(f[0]);
  }

  lemma {:induction false} ForestSizeAppend(a: seq<Node>, b: seq<Node>)
    ensures ForestSize(a + b) == ForestSize(a) + ForestSize(b)
    decreases |a|
  {
    if |a| == 0 {
      assert a + b == b;
    } else {
      assert (a + b)[1..] == a[1..] + b;
      ForestSizeAppend(a[1..], b);
    }
  }

  /**
   * ECMAScript white space and line terminators: the class `\s` of regular
   * expressions and what `parseInt` skips before a number.
   */
  predicate IsJsSpace(c: char)
  {
    c == '\t' || c == '\n' || c == '\U{000B}' || c == '\U{000C}' || c == '\r' || c == ' '
    || c == '\U{00A0}' || c == '\U{1680}' || ('\U{2000}' <= c <= '\U{200A}')
    || c == '\U{2028}' || c == '\U{2029}' || c == '\U{202F}' || c == '\U{205F}'
    || c == '\U{3000}' || c == '\U{FEFF}'
  }

  /** `s.slice(a, b)` for non-negative `a` and `b`: both are clamped to the length. */
  function Slice(s: Utf16, a: nat, b: nat): (r: Utf16)
    ensures a <= b <= |s| ==> r == s[a..b]
    ensures b <= a ==> r == []
  {
    var lo := if a < |s| then a else |s|;
    var hi := if b < |s| then b else |s|;
    if lo < hi then s[lo..hi] else []
  }

  function Min(a: int, b: int): int { if a < b then a else b }

  function Max(a: int, b: int): int { if a < b then b else a }

  /** `ApiMessageEntity`: `url`, `language` and `documentId` are present only on their types. */
  datatype Entity = Entity(
    kind: NodeType,
    offset: nat,
    length: nat,
    url: Option<string>,
    language: Option<string>,
    documentId: Option<string>)

  /** `ApiFormattedText`; `entities` may be missing. */
  datatype FormattedText = FormattedText(text: Utf16, entities: Option<seq<Entity>>)

  lemma Associative<T>(a: seq<T>, b: seq<T>, c: seq<T>)
    ensures a + b + c == a + (b + c)
  {
  }

  lemma SliceConcat<T>(s: seq<T>, a: nat, b: nat, c: nat)
    requires a <= b <= c <= |s|
    ensures s[a..b] + s[b..c] == s[a..c]
  {
  }

  /** The suffix from `i` starts with `s[i]` and continues with the suffix from `i + 1`. */
  lemma SuffixHead<T>(s: seq<T>, i: nat)
    requires i < |s|
    ensures s[i..][0] == s[i] && s[i..][1..] == s[i + 1..]
  {
  }
}
