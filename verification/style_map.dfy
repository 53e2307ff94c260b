/**
 * The eight styles of the formatting toolbar (`ASTStyles`) and the two
 * switch statements that translate between a style and the node type that
 * carries it (src/util/astEditor.ts).
 */
module StyleMap {
  import opened Ast

  datatype AstStyle = BoldStyle | ItalicStyle | UnderlineStyle | StrikeStyle
                    | CodeStyle | SpoilerStyle | BlockquoteStyle | TextUrlStyle

  /** `getNodeTypeFromStyle`; every member of the enum has a case, so `null` is never returned. */
  function NodeTypeFromStyle(s: AstStyle): (r: Option<NodeType>)
    ensures r.Some?
    ensures r.value.Bold? || r.value.Italic? || r.value.Underline? || r.value.Strike?
            || r.value.Spoiler? || r.value.TextUrl? || r.value.Code? || r.value.Blockquote?
  {
    match s
    case BoldStyle => Some(Bold)
    case ItalicStyle => Some(Italic)
    case UnderlineStyle => Some(Underline)
    case StrikeStyle => Some(Strike)
    case SpoilerStyle => Some(Spoiler)
    case TextUrlStyle => Some(TextUrl)
    case CodeStyle => Some(Code)
    case BlockquoteStyle => Some(Blockquote)
  }

  /** `getNodeStyleFromType`. */
  function StyleFromNodeType(t: NodeType): (r: Option<AstStyle>)
    ensures r.Some? <==> (t.Bold? || t.Italic? || t.Underline? || t.Strike?
                          || t.Spoiler? || t.TextUrl? || t.Code? || t.Blockquote?)
  {
    match t
    case Bold => Some(BoldStyle)
    case Italic => Some(ItalicStyle)
    case Underline => Some(UnderlineStyle)
    case Strike => Some(StrikeStyle)
    case Spoiler => Some(SpoilerStyle)
    case TextUrl => Some(TextUrlStyle)
    case Code => Some(CodeStyle)
    case Blockquote => Some(BlockquoteStyle)
    case _ => None
  }

  /** A node type is a style's carrier exactly when the style is that type's style. */
  lemma StyleTypeInverse(s: AstStyle, t: NodeType)
    ensures NodeTypeFromStyle(s) == Some(t) <==> StyleFromNodeType(t) == Some(s)
  {
  }

  /** Distinct styles are carried by distinct node types. */
  lemma NodeTypeFromStyleInjective(s1: AstStyle, s2: AstStyle)
    requires NodeTypeFromStyle(s1) == NodeTypeFromStyle(s2)
    ensures s1 == s2
  {
  }

  /** The carrier of a style is never a leaf, `Pre`, `Url` or a mark type. */
  predicate IsStyleType(t: NodeType)
  {
    t.Bold? || t.Italic? || t.Underline? || t.Strike? || t.Spoiler? || t.TextUrl? || t.Code? || t.Blockquote?
  }
}
