# Formatted-text engine of the message composer

This project models the engine that telegram-tt's message composer uses for formatted text. Two forms of a message are involved:

- **Flat form:** a UTF-16 text plus a list of entities. Each entity has a type, an offset, a length and optional `url`, `language` and `documentId` fields.
- **Node forest:** text, emoji and custom-emoji leaves, code and pre blocks, and formatting, link and mention containers.

The model covers these parts of the engine:

- Building the forest from the flat form: break points, segments, the "longest entity is outer" rule, emoji tokenising, fusing equal segments, and merging neighbours.
- Flattening the forest back to text and sorted entities.
- Comparing two formatted texts.
- The style editor of `astEditor.ts`:
  - reporting the styles under a selection;
  - applying a style (shallow wrapping of text leaves, or deep wrapping through a tree split);
  - removing a style (unwrapping the covered window and re-applying the style to the remnants).
- Four helpers:
  - splitting a folder title into title and icon, and merging them back;
  - the URL validator of the link dialog;
  - the folder icon name lookup;
  - hex colour parsing.

Text is a sequence of UTF-16 code units (`Ast.CodeUnit`), because every JavaScript `length`, `offset` and `slice` counts code units. A property read on `undefined` is a TypeError in the source. The model represents it as the `Throws` outcome of `Ast.Outcome`.

Code that walks the forest with an explicit stack becomes a Dafny `method` with a loop:
- `calcNodeLength`;
- `getAstStylesForSelection`;
- the collecting walks of `applyStyles` and `removeStyle`;
- `getTreeBetweenIndexes`;
- `splitTree`;
- `mergeNodes`;
- `serializeAST`.

Each such method is proved equal to a structural specification function, and the properties are proved about that function. `serializeAST` keeps its closure variables as the fields of the class `Serializer.Serializer`. The stack walks share `Walk.Visits`, the pre-order in which they meet nodes.

The source finds a node again with `indexOf` and replaces it with `splice`. The model does this by replacing the node with a given visit number (`Walk.Replace`).

## Model

| member | source | states |
|---|---|---|
| Ast.TypeOf | src/util/parseHtmlAsAST.ts:3-103 | each node shape has exactly the node types its interface allows (text, emoji, custom emoji, code, pre, formatting kinds, link kinds, mention and string-entity kinds) |
| Ast.WithKids | src/util/parseHtmlAsAST.ts:28-31 | replacing a node's `children` keeps its type |
| Ast.Slice | src/util/textWithEntitiesToAST.ts:53 | `String.prototype.slice` with in-range bounds is the sub-sequence between them, and empty when the end does not exceed the start |
| StyleMap.NodeTypeFromStyle | src/util/astEditor.ts:455-477 | every `ASTStyles` value maps to one of the eight styling node types, so the `null` branch is never reached |
| StyleMap.StyleFromNodeType | src/util/astEditor.ts:479-501 | a node type has a style exactly when it is one of the eight styling types |
| StyleMap.StyleTypeInverse | src/util/astEditor.ts:455-501 | the two switches are inverse to each other, in both directions |
| StyleMap.NodeTypeFromStyleInjective | src/util/astEditor.ts:455-477 | distinct styles give distinct node types |
| Walk.CalcNodeLength | src/util/astEditor.ts:124-145 | the stack loop returns the summed length of the text nodes of the forest, at any depth |
| Walk.TextLengthAppend | src/util/astEditor.ts:124-145 | the measured length of two forests side by side is the sum of their lengths |
| Walk.TextLengthOfTexts | src/util/astEditor.ts:134-136 | for a forest of text nodes, the measured length is the length of its serialized text |
| Walk.VisitsAppend | src/util/astEditor.ts:154-159 | the stack walk over two forests side by side visits the first forest completely, then the second |
| Walk.VisitedSize | src/util/astEditor.ts:158-159 | no node met on a walk is larger than the walked forest |
| Walk.ReplaceNothing | src/util/astEditor.ts:218 | splicing with no replacements leaves the forest unchanged |
| Walk.ReplaceText | src/util/astEditor.ts:218 | splicing nodes in place of visited nodes whose text they repeat keeps the forest's serialized text |
| Walk.HeadText | src/util/astEditor.ts:218 | the same, for a single node and its subtree |
| Selection.Roots | src/util/astEditor.ts:37-39 | the initial stack holds the top-level nodes in document order, with no styles and no href |
| Selection.ChildFrames | src/util/astEditor.ts:63-74 | a container pushes one frame per child, in document order |
| Selection.ChildFrameContext | src/util/astEditor.ts:63-74 | a child inherits the styles with the parent's own style added (if it has one), and the inherited href or else the parent link's url |
| Selection.CollectStyles | src/util/astEditor.ts:31-77 | the stack loop computes the style set and first href of the specification scan over the pre-order visits |
| Selection.GetAstStylesForSelection | src/util/astEditor.ts:30-122 | the returned formats are those of the specification scan |
| Selection.SelectionMeaning | src/util/astEditor.ts:30-122 | each flag is true exactly when a text leaf overlapping `[offset, offset+length)` lies under that style; `quote` is `true` or left unset, never `false`; `textlinkhref` is the url of the first overlapping linked leaf |
| Selection.ScanFound | src/util/astEditor.ts:41-60 | a style ends in the result set exactly when it was there already or a later overlapping text leaf carries it |
| Selection.ScanFirstHref | src/util/astEditor.ts:53-55 | starting without an href, the scan records the href of the first overlapping leaf that has one |
| Selection.LinkedHitKept | src/util/astEditor.ts:53-55 | once a non-empty href is recorded it is never replaced |
| Selection.NoLinkedHit | src/util/astEditor.ts:58-60 | leaves starting at or after the selection end contribute no href |
| Selection.NoStyleHit | src/util/astEditor.ts:58-60 | leaves starting at or after the selection end contribute no style |
| Selection.StyleHitCons | src/util/astEditor.ts:50-51 | a style is hit exactly when the first visited leaf hits with it or a later leaf does |
| Selection.BoldTextVisited | src/util/astEditor.ts:37-74 | the text inside a bold node is visited second, carrying exactly the bold style |
| Serializer.NodeText | src/util/textWithEntitiesToAST.ts:230-238 | text, emoji and custom-emoji nodes append exactly their content |
| Serializer.SerializedTextAppend | src/util/textWithEntitiesToAST.ts:225-302 | serializing two forests in a row appends their texts |
| Serializer.EmittedAppend | src/util/textWithEntitiesToAST.ts:225-302 | the entities of the second forest are those it emits alone, shifted by the first forest's text length |
| Serializer.EmittedWithinText | src/util/textWithEntitiesToAST.ts:242-295 | every emitted entity lies within the text produced from its start |
| Serializer.Serializer.constructor | src/util/textWithEntitiesToAST.ts:222-223 | the text and the entity list start empty |
| Serializer.Serializer.ProcessNodes | src/util/textWithEntitiesToAST.ts:225-302 | as written, the loop appends the text and the entities of the forest as the code reads it (code content ignored), offset from the old text length |
| Serializer.Serializer.ProcessNode | src/util/textWithEntitiesToAST.ts:227-300 | as written, one node appends its text (a code node only that of its `children`, none for `content`), then pushes its own entity after those of its children |
| Serializer.ContentIgnoredAt | src/util/textWithEntitiesToAST.ts:240-247 | reading the forest as the code does treats each node on its own |
| Serializer.Insert | src/util/textWithEntitiesToAST.ts:306-311 | an insertion adds exactly one entity and loses none |
| Serializer.InsertSorted | src/util/textWithEntitiesToAST.ts:306-311 | inserting into a sorted list keeps it sorted |
| Serializer.SortByCorrect | src/util/textWithEntitiesToAST.ts:306-311 | the sort yields a permutation ordered by offset ascending, then length descending |
| Serializer.SerializeAst | src/util/textWithEntitiesToAST.ts:221-314 | the result is the serializer as written (`SerializeAsWritten`), and equals the corrected `Serialize` on forests without content-carrying code nodes |
| Serializer.SerializeProperties | src/util/textWithEntitiesToAST.ts:221-314 | the entities are sorted (outer before inner at equal offset), are a permutation of the emitted ones, and lie within the text |
| Serializer.ContentIgnored | src/util/textWithEntitiesToAST.ts:240-247 | reading `children` instead of `content` keeps the shape of the forest |
| Serializer.AsWrittenAgrees | src/util/textWithEntitiesToAST.ts:240-247 | on forests without content-carrying code nodes, the serializer as written and the corrected one agree |
| Serializer.CodeContentLost | src/util/textWithEntitiesToAST.ts:240-247 | a code node with content serializes to empty text as written, and to its content when corrected |
| Builder.CollectBreakPoints | src/util/textWithEntitiesToAST.ts:35-41 | the loop collects 0, the text length and both ends of every entity |
| Builder.SortedPoints | src/util/textWithEntitiesToAST.ts:42 | the break points in strictly increasing order, none lost or added |
| Builder.SortedPointsBounds | src/util/textWithEntitiesToAST.ts:35-42 | the first point is 0, and when no entity overruns the text, the last is the text length |
| Builder.Active | src/util/textWithEntitiesToAST.ts:48 | the active entities of a segment are exactly those covering it |
| Builder.BuildSegments | src/util/textWithEntitiesToAST.ts:44-50 | the loop builds one segment per pair of consecutive points |
| Builder.SegmentsProperties | src/util/textWithEntitiesToAST.ts:44-50 | there is one segment fewer than there are points; segment i spans points i to i+1 and carries exactly the entities that cover it |
| Builder.CompareEntityArraysShapes | src/util/textWithEntitiesToAST.ts:210-219 | the comparison is symmetric, and every entity of one array has one of the same type, offset and length in the other |
| Builder.CompareEntityArraysReflexive | src/util/textWithEntitiesToAST.ts:210-219 | every entity array compares equal to itself |
| Builder.CompareEntityArraysOrderSensitive | src/util/textWithEntitiesToAST.ts:210-219 | the stable sort by offset alone leaves bold-then-italic and italic-then-bold at one offset unequal |
| Builder.OuterIndex | src/util/textWithEntitiesToAST.ts:57-58 | the outer entity is a longest active entity, and no earlier one is as long (the stable sort's tie-break) |
| Builder.OuterLeaf | src/util/textWithEntitiesToAST.ts:68-113 | a non-wrapping outer entity gives a leaf holding its whole span; a wrapping one gives a container around the inner nodes, or around the span's tokens when there are none |
| Builder.WrapText | src/util/textWithEntitiesToAST.ts:87-108 | a wrapping node's text is the text of the inner nodes |
| Builder.BuildText | src/util/textWithEntitiesToAST.ts:52-115 | a non-empty segment under wrapping entities builds at least one node, and the built nodes serialize to the segment's text |
| Builder.RunEndMaximal | src/util/textWithEntitiesToAST.ts:139-146 | the run extends over exactly the following segments whose entities compare equal to the first segment's |
| Builder.ExtendRun | src/util/textWithEntitiesToAST.ts:140-146 | the inner loop stops at the end of the run and carries that segment's end as the combined end |
| Builder.FuseStep | src/util/textWithEntitiesToAST.ts:136-150 | one pass of the outer loop takes the run from segment `i` as one combined segment from its start to the end of the run, then goes on after it |
| Builder.BuildRun | src/util/textWithEntitiesToAST.ts:139-149 | one pass of the outer loop builds the combined segment of the run from segment `i`: those nodes, then the nodes of the later runs, are the nodes of all runs from `i` |
| Builder.BuildParts | src/util/textWithEntitiesToAST.ts:136-150 | the nested loops build the nodes of the fused segments, in order |
| Builder.FuseText | src/util/textWithEntitiesToAST.ts:136-150 | the fused segments from point i on build nodes whose text is the text from point i to the end |
| Builder.MergeNodes | src/util/textWithEntitiesToAST.ts:152-180 | the push/pop loop computes the merge specification |
| Builder.Merge | src/util/textWithEntitiesToAST.ts:152-180 | merging never enlarges the forest |
| Builder.MergeText | src/util/textWithEntitiesToAST.ts:152-180 | merging keeps the serialized text |
| Builder.MergeNormalised | src/util/textWithEntitiesToAST.ts:152-205 | after merging, no two neighbours are both text or both styled nodes of one kind, at any depth |
| Builder.MergeKeepsOthers | src/util/textWithEntitiesToAST.ts:160-177 | every merged node other than text and bold/italic/underline/strike/quote containers is one of the input nodes |
| Builder.PushNode | src/util/textWithEntitiesToAST.ts:160-177 | popping the last kept node, fusing it with a mergeable node and pushing the result computes one push of the specification |
| Builder.NormaliseText | src/util/textWithEntitiesToAST.ts:157-159 | merging a styled node's children first keeps the node's text |
| Builder.PushText | src/util/textWithEntitiesToAST.ts:160-177 | one push, fused or not, appends exactly the pushed node's text |
| Builder.PushNormalised | src/util/textWithEntitiesToAST.ts:160-177 | a push keeps the kept nodes free of mergeable neighbours |
| Builder.PushKeepsOthers | src/util/textWithEntitiesToAST.ts:160-177 | a push adds only the pushed node or a fused text or styled node |
| Builder.FormatTextToAst | src/util/textWithEntitiesToAST.ts:31-208 | the method computes the build specification `AstOf` |
| Builder.MissingTextIsEmpty | src/util/textWithEntitiesToAST.ts:32 | a missing formatted text builds the empty forest |
| Builder.RoundTripText | src/util/textWithEntitiesToAST.ts:31-314 | for in-range wrapping entities, serializing the built forest gives back the original text |
| Builder.RoundTripAsWritten | src/util/textWithEntitiesToAST.ts:31-314 | for in-range wrapping entities, the built forest holds no content-carrying code node, so the serializer as written also gives back the original text |
| Builder.AstNoCode | src/util/textWithEntitiesToAST.ts:31-205 | without Code entities the builder makes no code node with raw content |
| Builder.BuildNoCode | src/util/textWithEntitiesToAST.ts:57-113 | a segment whose active entities all wrap builds no code node with raw content |
| Builder.FuseWrapOnly | src/util/textWithEntitiesToAST.ts:136-150 | fusing takes each run's active entities from its first segment, so segments whose active entities all wrap fuse to such segments |
| Builder.MergeNoCode | src/util/textWithEntitiesToAST.ts:152-205 | merging neighbours makes no code node with raw content |
| Builder.CodeEntityBuildsContent | src/util/textWithEntitiesToAST.ts:77-78 | a code entity over "ab" builds one code node with content "ab", which the corrected serializer turns back into "ab" and the serializer as written into "" |
| EmojiSplit.CodePointLength | src/util/textWithEntitiesToAST.ts:119 | with the `u` flag, a match takes one code unit, or two for a surrogate pair |
| EmojiSplit.SplitTextByEmoji | src/util/textWithEntitiesToAST.ts:117-134 | the loop yields the tokens of the specification scan |
| EmojiSplit.ScanText | src/util/textWithEntitiesToAST.ts:117-134 | the tokens from the last cut on spell out the rest of the input |
| EmojiSplit.ScanWellSplit | src/util/textWithEntitiesToAST.ts:124-131 | no token text is empty, and no two text tokens are adjacent |
| EmojiSplit.ScanEmoji | src/util/textWithEntitiesToAST.ts:123-128 | every emoji token is one matching code point of the input |
| EmojiSplit.EmojiTokensProperties | src/util/textWithEntitiesToAST.ts:117-134 | the tokens concatenate to the input, are well split, and every emoji token is a matching code point |
| EmojiSplit.NoEmojiOneText | src/util/textWithEntitiesToAST.ts:130-132 | without a match the rest of the input is one text token, or nothing if empty |
| EntityEquality.EntitiesEqualIffSameKey | src/util/textWithEntitiesToAST.ts:357-375 | two entities are equal exactly when type, offset, length and the type's own field (url, language or documentId) agree |
| EntityEquality.Keys | src/util/textWithEntitiesToAST.ts:357-375 | each entity's comparison key, position by position |
| EntityEquality.FindEqual | src/util/textWithEntitiesToAST.ts:346 | `findIndex` returns the first equal entity, and -1 exactly when there is none |
| EntityEquality.AreEntityArraysEqual | src/util/textWithEntitiesToAST.ts:340-355 | the splice loop succeeds exactly when the keys of `a` form a sub-multiset of those of `b` |
| EntityEquality.NotSubMultiset | src/util/textWithEntitiesToAST.ts:348-350 | a failed search proves the keys are not a sub-multiset |
| EntityEquality.IsEqualFormattedText | src/util/textWithEntitiesToAST.ts:316-338 | the method decides the equality specification: same text, both entity lists missing, or equally long lists with equal multisets of keys |
| EntityEquality.EqualFormattedTextEquivalence | src/util/textWithEntitiesToAST.ts:316-375 | the equality is reflexive on present texts, symmetric and transitive |
| EntityEquality.ReorderedEntitiesEqual | src/util/textWithEntitiesToAST.ts:340-355 | reordering the entities does not change equality |
| EntityEquality.PermutedKeys | src/util/textWithEntitiesToAST.ts:357-375 | permuted entity lists have the same multiset of keys |
| EntityEquality.MissingAndEmptyEntitiesDiffer | src/util/textWithEntitiesToAST.ts:325-331 | a missing entity list and an empty one are not equal |
| SplitTree.GetTreeBetweenIndexes | src/util/astEditor.ts:373-433 | the loop computes the window specification `Between` |
| SplitTree.CutNode | src/util/astEditor.ts:395-427 | one node's piece: clipped text or code content, an atom kept only when it starts inside, a container cut recursively and dropped when empty |
| SplitTree.SplitTree | src/util/astEditor.ts:352-453 | the method returns the split specification, throwing exactly when a code node without content is measured |
| SplitTree.PartsFrom | src/util/astEditor.ts:440-450 | every kept part is non-empty, and there are fewer parts than split points |
| SplitTree.BetweenWindow | src/util/astEditor.ts:373-433 | a window's nodes serialize to the text between the two indexes |
| SplitTree.PieceWindow | src/util/astEditor.ts:395-427 | a node's piece serializes to that node's text inside the window |
| SplitTree.WindowJoin | src/util/astEditor.ts:373-433 | adjacent windows join into one |
| SplitTree.BetweenSize | src/util/astEditor.ts:373-433 | a window is never larger than the forest |
| SplitTree.PartsSize | src/util/astEditor.ts:440-450 | no part is larger than the forest |
| SplitTree.PartsText | src/util/astEditor.ts:440-450 | the parts together serialize to the windows between consecutive splits |
| SplitTree.SplitKeepsText | src/util/astEditor.ts:352-453 | the parts, put back together, serialize to the forest's text |
| SplitTree.SplitParts | src/util/astEditor.ts:435-452 | the parts are the non-empty ones of the windows before `a`, from `a` to `b`, and after `b`, in order |
| SplitTree.SplitSize | src/util/astEditor.ts:352-453 | no part of a split is larger than the forest |
| SplitTree.SplitCount | src/util/astEditor.ts:435-452 | two split indexes give at most three parts, none of them empty |
| StyleEditor.Wrap | src/util/astEditor.ts:302 | the new container has the style's type and exactly the given children, so it has their text |
| StyleEditor.CollectTextCuts | src/util/astEditor.ts:247-283 | the stack loop collects the cuts of the specification walk |
| StyleEditor.CutsPlaced | src/util/astEditor.ts:257-283 | every cut names a visited text node with that node's content, and start ≤ end ≤ content length |
| StyleEditor.StyleTextNodes | src/util/astEditor.ts:284-308 | the splices replace each cut text node with its pieces |
| StyleEditor.StyleTextNode | src/util/astEditor.ts:289-307 | a cut becomes optional text before, the wrapped middle, and optional text after |
| StyleEditor.ApplyStyles | src/util/astEditor.ts:240-310 | the method returns the `Applied` specification under the shared href queue |
| StyleEditor.ShallowApplyStyles | src/util/astEditor.ts:247-308 | for a type applied in place, every text node the walk records up to the one reaching the range's end is replaced by its pieces, the middle piece wrapped in the style |
| StyleEditor.PushStyledPart | src/util/astEditor.ts:317-332 | the pushed node is a spoiler or a link (url `href || ''`) around the part with the style removed inside |
| StyleEditor.DeepApplyStyles | src/util/astEditor.ts:312-350 | the method returns the `DeepApplied` specification, including the three-, two- and one-part cases |
| StyleEditor.CollectRemovals | src/util/astEditor.ts:148-191 | the stack loop returns the records and queued urls of the specification walk, or throws where `calcNodeLength` reads missing children |
| StyleEditor.VisitForRemoval | src/util/astEditor.ts:159-190 | one visit stops, throws or records exactly as the specification says |
| StyleEditor.RemovalsPlaced | src/util/astEditor.ts:158-191 | every record names a visited node of the style with its children, url and measured length, and start ≤ end ≤ length |
| StyleEditor.HrefsOnlyForLinks | src/util/astEditor.ts:169-172 | urls are queued only when removing links |
| StyleEditor.PrependTwice | src/util/astEditor.ts:178-184 | collecting in two steps equals collecting at once |
| StyleEditor.RecordsSmaller | src/util/astEditor.ts:199 | the children of a recorded node are smaller than the forest |
| StyleEditor.QueuedHrefs | src/util/astEditor.ts:192-216 | as written, each record takes its urls from one queue shared by all records: one per remnant |
| StyleEditor.OwnHrefs | src/util/astEditor.ts:201-216 | corrected, both remnants of each record get that record's own link url |
| StyleEditor.RemnantHrefsFor | src/util/astEditor.ts:192-216 | either policy gives one pair of urls per record |
| StyleEditor.RemoveStyle | src/util/astEditor.ts:147-221 | the method returns the `Removed` specification under the shared href queue |
| StyleEditor.RestyleRecords | src/util/astEditor.ts:192-219 | the loop applies every record's re-styling in order |
| StyleEditor.RestyleRecord | src/util/astEditor.ts:194-218 | the style is re-applied before the window when start > 0 and after it when end < length, popping a url for each of those when the style is a link |
| StyleEditor.ApplyStylesToAst | src/util/astEditor.ts:223-238 | the method removes or applies the style as the `StylesApplied` specification says |
| EditorText.EditKeepsText | src/util/astEditor.ts:223-238 | whenever applying or removing a style returns, under either href policy, the message text is unchanged |
| EditorText.AppliedKeepsText | src/util/astEditor.ts:240-310 | applying a style keeps the text |
| EditorText.ShallowKeepsText | src/util/astEditor.ts:284-308 | the shallow splices keep the text |
| EditorText.PiecesText | src/util/astEditor.ts:292-306 | the three pieces of a cut spell out the node's content |
| EditorText.CutMapKeepsText | src/util/astEditor.ts:284-308 | every replacement made from the cuts repeats its node's text |
| EditorText.DeepKeepsText | src/util/astEditor.ts:312-350 | deep application keeps the text |
| EditorText.PartsKeepText | src/util/astEditor.ts:334-348 | each of the three assembly cases has the text of the concatenated parts |
| EditorText.StyledAroundText | src/util/astEditor.ts:334-348 | the parts before and after, around the styled middle, have the text of all three |
| EditorText.StyledKeepsText | src/util/astEditor.ts:317-332 | the pushed styled node has the text of its part |
| EditorText.AroundText | src/util/astEditor.ts:334-348 | a styled node with its part's text keeps the text of the row |
| EditorText.RemovedKeepsText | src/util/astEditor.ts:147-221 | removing a style keeps the text |
| EditorText.RestyledKeepsText | src/util/astEditor.ts:192-219 | every replacement the re-styling makes repeats its node's text |
| EditorText.RestyledRecordKeepsText | src/util/astEditor.ts:194-218 | the re-styled children of a record have the text of the record's node |
| EditorText.StyleCarrierText | src/util/textWithEntitiesToAST.ts:240-296 | a styling node with children has the text of its children |
| EditorBehaviour.ApplyWrapsWindow | src/util/astEditor.ts:284-308 | applying a shallow style to a window of a text node gives optional text before, the wrapped window, and optional text after |
| EditorBehaviour.ApplyWrapsText | src/util/astEditor.ts:240-350 | applying any style to the whole of a text node wraps it: a spoiler, a link with `href \|\| ''`, or the shallow container |
| EditorBehaviour.DeepWrapsText | src/util/astEditor.ts:312-350 | the deep case of the same |
| EditorBehaviour.SplitWhole | src/util/astEditor.ts:435-452 | splitting a text node at 0 and its length gives one part holding that node |
| EditorBehaviour.RemoveAbsent | src/util/astEditor.ts:147-221 | removing a style no visited node has returns the forest unchanged |
| EditorBehaviour.NothingToRemove | src/util/astEditor.ts:158-191 | the walk makes no record and queues no url when no node has the style |
| EditorBehaviour.RemoveUnwraps | src/util/astEditor.ts:193-219 | removing a style over the whole of a styled node replaces the node with its children |
| EditorBehaviour.StyleRoundTrip | src/util/astEditor.ts:223-238 | removing a style just applied to a whole text node gives back the text node |
| EditorBehaviour.OwnUrlRemnants | src/util/astEditor.ts:201-216 | under the corrected policy each remnant gets the url of the node its record names |
| EditorBehaviour.MiddleScan | src/util/astEditor.ts:158-191 | removing a link from the middle code unit of a three-unit link makes one record, start 1 and end 2, and queues the url once |
| EditorBehaviour.RelinkHead | src/util/astEditor.ts:312-350 | linking the first code unit of a three-unit text splits it into a link and the rest |
| EditorBehaviour.RelinkTail | src/util/astEditor.ts:312-350 | linking the last unit then gives link, text, link |
| EditorBehaviour.UnlinkMiddle | src/util/astEditor.ts:194-218 | re-styling the record gives the two remnant links around the unlinked middle, with the urls given to it |
| EditorBehaviour.RemoveMiddle | src/util/astEditor.ts:147-221 | the removal gives link, plain middle, link, with the policy's urls |
| EditorBehaviour.QueuedHrefDropsUrl | src/util/astEditor.ts:192-216 | as written, the remnant after the window gets url `''` instead of the link's own url |
| EditorBehaviour.OwnHrefKeepsUrl | src/util/astEditor.ts:201-216 | corrected, both remnants keep the link's url |
| FolderIcons.PropertyOf | src/util/folderIcons.ts:29 | an own key of the mapping reads its icon; an inherited `Object.prototype` key reads that member |
| FolderIcons.GetFolderIconNameAsWritten | src/util/folderIcons.ts:17-36 | as written, the result is an icon from the mapping, except that an inherited key yields a prototype member |
| FolderIcons.InheritedKeyIsNotAnIcon | src/util/folderIcons.ts:29-33 | the emoticon "constructor" returns `Object`, not an icon name |
| FolderIcons.GetFolderIconName | src/util/folderIcons.ts:17-36 | the main folder gets "chats"; no emoticon or an unmapped one gets "folder-1"; a mapped one gets its icon; the result is always an icon name |
| FolderIcons.AsWrittenAgreesOffPrototype | src/util/folderIcons.ts:29-33 | apart from inherited keys, the code as written and the corrected lookup agree |
| FolderTitle.SplitApiFolder | src/util/ApiFolderSplitAndMerge.ts:18-87 | without a trailing emoji run the title is kept and the icon is the emoticon, or none; with one, the run is cut off the text and becomes a custom-emoji icon (dropping the last entity), a preset icon (if it equals the emoticon) or an emoji icon |
| FolderTitle.MergeApiFolder | src/util/ApiFolderSplitAndMerge.ts:90-136 | no icon gives the bare text and an empty emoticon; otherwise the glyph is appended, the emoticon is a preset icon other than the glyph, and a custom emoji gets an entity; it throws exactly when a custom-emoji icon has no glyph |
| FolderTitle.MergedEmoticonDiffers | src/util/ApiFolderSplitAndMerge.ts:117-132 | for an emoji or custom-emoji icon, the stored emoticon differs from the glyph |
| FolderTitle.MergedEntityCoversGlyph | src/util/ApiFolderSplitAndMerge.ts:120-134 | the custom-emoji entity covers exactly the appended glyph, at the end of the text |
| FolderTitle.SplitMergeText | src/util/ApiFolderSplitAndMerge.ts:18-136 | splitting off a trailing emoji run and merging back restores the title text |
| FolderTitle.SplitMergeCustomEmoji | src/util/ApiFolderSplitAndMerge.ts:27-134 | a trailing custom emoji comes back as one custom-emoji entity over the run, with its document id |
| HexColor.DigitValue | src/util/hexToVec3.ts:8-10 | a hexadecimal digit's value is below 16 |
| HexColor.TrimStartSuffix | src/util/hexToVec3.ts:8-10 | what `parseInt` reads from is a suffix of the input that does not start with white space |
| HexColor.DigitRunLongest | src/util/hexToVec3.ts:8-10 | the digit run is the longest prefix of hexadecimal digits |
| HexColor.ParseHex | src/util/hexToVec3.ts:8-10 | `parseInt(s, 16)` is a number exactly when digits follow the optional sign and `0x` prefix; otherwise NaN |
| HexColor.ParseHexOfDigits | src/util/hexToVec3.ts:8-10 | on a string of digits, `parseInt` gives its base-16 value |
| HexColor.StripHash | src/util/hexToVec3.ts:4-6 | one leading `#` is dropped, and nothing else changes |
| HexColor.HashIsOptional | src/util/hexToVec3.ts:4-6 | a colour parses the same with or without its `#` |
| HexColor.TrailingTextIgnored | src/util/hexToVec3.ts:8-10 | anything after the sixth character is ignored |
| HexColor.PairValue | src/util/hexToVec3.ts:8-10 | two digits parse to 16·high + low, which is in 0..255 |
| HexColor.SixDigits | src/util/hexToVec3.ts:3-13 | six digits give the three channel values |
| HexColor.Byte | src/util/hexToVec3.ts:8-10 | a channel value below 256 is written as two digits whose values are its high and low nibbles |
| HexColor.RoundTrip | src/util/hexToVec3.ts:3-13 | writing three channels as `#rrggbb` and parsing the result gives them back |
| UrlValidate.DetectScheme | src/util/URLValidate.ts:1-25 | the detected protocol is a prefix of the url, and none is detected exactly when no supported protocol is a prefix |
| UrlValidate.UrlValidate | src/util/URLValidate.ts:17-53 | a url with `://` and no supported protocol is rejected; otherwise the url is accepted exactly when it matches the pattern of its protocol (https by default) |
| UrlValidate.HttpPatternUnprefixed | src/util/URLValidate.ts:2 | without an `http(s)://` prefix, the web pattern is the host-and-path pattern alone |
| UrlValidate.NoBodyAtScheme | src/util/URLValidate.ts:2 | the host-and-path pattern never matches at the scheme itself |
| UrlValidate.DefaultProtocol | src/util/URLValidate.ts:15-37 | a url without a protocol or `://` is judged as its `https://` form would be |
| UrlValidate.SeparatorWithoutScheme | src/util/URLValidate.ts:26-28 | `://` without a supported protocol is rejected |
| UrlValidate.UppercaseHostRejected | src/util/URLValidate.ts:2 | a host starting with a capital letter is rejected (the pattern has no `i` flag) |
| UrlValidate.LongTopLevelDomainAccepted | src/util/URLValidate.ts:2 | "a.abcdefghij" is accepted, because the path group also matches letters past the six-letter domain |
| UrlValidate.TelCharacterisation | src/util/URLValidate.ts:5-47 | a `tel:` url is accepted exactly when, after an optional `+`, it holds 5 to 17 digits and nothing else |
| UrlValidate.TelMatchDigits | src/util/URLValidate.ts:5 | a match of the phone pattern has 5 to 17 digits |
| UrlValidate.TelDigitsMatch | src/util/URLValidate.ts:5 | 5 to 17 digits always match the phone pattern |
| UrlValidate.MailtoSingleAt | src/util/URLValidate.ts:4 | an accepted `mailto:` url has exactly one `@`, after the scheme |

## Left out

- The DOM side of the composer is not part of this model. That covers `parseHtmlAsAST`, caret offsets, selection hooks and undo history. Only its node types are modelled.
- The `\p{Emoji_Presentation}` test and the twemoji pattern are Unicode property tables. They are parameters: `isEmoji`, and `run`, the length of the trailing emoji match in `SplitApiFolder`.
- `FOLDER_ICONS` is defined outside these files. Its first two entries are the parameters `icon0` and `icon1` of `FolderTitle.MergeApiFolder`.
- Object identity is not modelled. `indexOf` finds a node and `splice` replaces it; the model instead replaces the node with the same visit number, so aliasing between parent arrays is not captured. `JSON` cloning is a value copy.
- The order of in-place splices is not modelled. The source mutates the forest in place, and later records see the effect of earlier ones. The model collects all replacements first and applies them in one pass. The recorded nodes are distinct, and none lies inside another, because neither walk descends into a node it records.
- The explicit stacks are sequences with their top first.
- `hrefs.reverse()` followed by `pop()` is modelled as taking from the front of the queue.
- SplitTree.SplitTree: only the form with two split indexes, the only form the editor uses, is modelled.
- StyleEditor.ApplyStylesToAst: the early `return ast` for an unknown style is not modelled, because `getNodeTypeFromStyle` never returns `null` for an `ASTStyles` value (see `StyleMap.NodeTypeFromStyle`).
- StyleEditor.ApplyStyles, StyleEditor.RemoveStyle: the methods follow the href queue as written. The corrected policy exists only at the specification level (`HrefPolicy.OwnUrl`).
- A `Code` node holds either `content` or `children`, never both. The builder and the HTML parser set `content`; shallow styling sets `children`.
- Offsets and lengths are natural numbers; the negative values the editor never passes are not modelled. An offset beyond the text follows the code, and text preservation is the only property proved for it.
- StyleEditor.DeepApplyStyles: the method is proved equal to the `DeepApplied` specification, and `DeepApplied` is proved to keep the text, but the stronger promise that the whole range ends up under a single wrapper of the style's type with no node of that type nested inside is not proved. Stating it needs a characterisation of the middle part returned by `splitTree` and of `removeStyle`'s flattening of same-type nodes inside it, which this model does not carry.
- HexColor.HexToVec3: the input is a sequence of characters, so `slice` and `length` count code points. This agrees with the source only for input within the Basic Multilingual Plane, where each code point is one UTF-16 code unit; input with astral characters is not modelled.
- Floating-point numbers are not modelled. `parseInt` returns an integer or NaN, represented as `None`.

## Notes on the code

The model follows the code in these places where it departs from the behaviour the engine is meant to have:

- **Code content in the serializer.** `serializeAST` reads a code node's `children`, but the builder gives code nodes `content` (Finding 3). The methods of `Serializer.Serializer` and `Serializer.SerializeAst` follow the code: they compute `SerializeAsWritten`, which drops the content. `Serializer.Serialize` is the corrected serializer, and the round-trip and ordering lemmas are stated for it. `Serializer.AsWrittenAgrees` and `Builder.RoundTripAsWritten` carry the text round trip over to the code as written wherever no Code entity is involved.
- **Emoji length.** `splitTree` counts every emoji and custom emoji as length 2. `removeStyle` and `getAstStylesForSelection` count their content length. `calcNodeLength` counts text nodes only.
- **Spoiler merging.** `isStyledNode` leaves out Spoiler, so adjacent spoilers are not merged.
- **Remnant urls.** The url queue of `removeStyle` gives remnants the wrong url (Finding 1).

## Findings

| source | as written | input that shows it | evidently intended | confidence | as-written member | corrected member |
|---|---|---|---|---|---|---|
| src/util/astEditor.ts:170-216 | Removing a link style queues the url of every link the walk passes. It then pops one url per remnant from that single queue, so a second remnant of the same link finds the queue empty and gets `''`. | A link to `u` over three code units; remove TextUrl at offset 1, length 1. | Each remnant keeps the url of the link it was cut from. | not executed | EditorBehaviour.QueuedHrefDropsUrl | EditorBehaviour.OwnHrefKeepsUrl |
| src/util/folderIcons.ts:29-33 | The lookup is a plain object index, so inherited `Object.prototype` members are found too. | The emoticon `"constructor"` returns the `Object` function, which is not an icon name. | Only own keys of the mapping are icons; other emoticons fall back to the default folder icon. | not executed | FolderIcons.InheritedKeyIsNotAnIcon | FolderIcons.GetFolderIconName |
| src/util/textWithEntitiesToAST.ts:240-247 | The Code case serializes `children`, but the builder creates code nodes with `content` only (lines 77-78). | The text "ab" with one Code entity over it serializes to empty text. | A code node contributes its content, as the Pre case does. | not executed | Builder.CodeEntityBuildsContent | Serializer.SerializeProperties |
