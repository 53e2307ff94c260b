/**
 * `splitApiFolder` and `mergeApiFolder` (src/util/ApiFolderSplitAndMerge.ts):
 * a folder title whose text ends in emoji is split into the title proper and
 * an icon, and an edited title and icon are merged back into the flat
 * `{title, emoticon}` the server stores.
 *
 * The trailing-emoji regular expression is not part of the model: `run` is
 * the length, in code units, of its match `emojiMatch[0]` (0 when it does not
 * match; `(…)+` never matches the empty string).  `FOLDER_ICONS` is not
 * defined in the shown folderIcons.ts, so its first two entries are the
 * parameters `icon0` and `icon1`.
 */
module FolderTitle {
  import opened Ast

  /** `TFolderIcon`. */
  datatype FolderIcon =
    | IconIcon(emoticon: Utf16)
    | EmojiIcon(emoticon: Utf16)
    | CustomEmojiIcon(glyph: Option<Utf16>, documentId: Option<string>)

  /** `SplittedApiFolder`; `None` is the `null` icon. */
  datatype SplitFolder = SplitFolder(title: FormattedText, icon: Option<FolderIcon>)

  /** `MergedApiFolder`. */
  datatype MergedFolder = MergedFolder(title: FormattedText, emoticon: Utf16)

  /** `title.entities || []`. */
  function EntitiesOrEmpty(e: Option<seq<Entity>>): seq<Entity>
  {
    if e.Some? then e.value else []
  }

  /** The last entity is a custom emoji that ends exactly at the end of the text. */
  predicate EndsWithCustomEmoji(title: FormattedText)
  {
    title.entities.Some? && |title.entities.value| > 0
    && var last := title.entities.value[|title.entities.value| - 1];
       last.kind == CustomEmoji && last.offset + last.length == |title.text|
  }

  /** `splitApiFolder(title, emoticon)` when the trailing emoji run has length `run`. */
  function SplitApiFolder(title: FormattedText, emoticon: Option<Utf16>, run: nat): (r: SplitFolder)
    requires run <= |title.text|
    ensures run == 0 ==> r.title == title
    ensures run == 0 && emoticon.Some? && emoticon.value != [] ==> r.icon == Some(IconIcon(emoticon.value))
    ensures run == 0 && !(emoticon.Some? && emoticon.value != []) ==> r.icon.None?
    ensures run > 0 ==> r.icon.Some? && r.title.text + title.text[|title.text| - run..] == title.text
    ensures run > 0 && EndsWithCustomEmoji(title) ==>
              var es := title.entities.value;
              r.icon == Some(CustomEmojiIcon(Some(title.text[|title.text| - run..]), es[|es| - 1].documentId))
              && r.title.entities == Some(es[..|es| - 1])
    ensures run > 0 && !EndsWithCustomEmoji(title) ==>
              r.title.entities == Some(EntitiesOrEmpty(title.entities))
              && var last := title.text[|title.text| - run..];
                 r.icon == Some(if emoticon == Some(last) then IconIcon(last) else EmojiIcon(last))
  {
    if run > 0 then
      var lastEmoji := title.text[|title.text| - run..];
      var textWithoutEmoji := title.text[..|title.text| - run];
      assert textWithoutEmoji + lastEmoji == title.text;
      if EndsWithCustomEmoji(title) then
        var es := title.entities.value;
        SplitFolder(FormattedText(textWithoutEmoji, Some(es[..|es| - 1])),
                    Some(CustomEmojiIcon(Some(lastEmoji), es[|es| - 1].documentId)))
      else if emoticon == Some(lastEmoji) then
        SplitFolder(FormattedText(textWithoutEmoji, Some(EntitiesOrEmpty(title.entities))), Some(IconIcon(lastEmoji)))
      else
        SplitFolder(FormattedText(textWithoutEmoji, Some(EntitiesOrEmpty(title.entities))), Some(EmojiIcon(lastEmoji)))
    else if emoticon.Some? && emoticon.value != [] then
      SplitFolder(title, Some(IconIcon(emoticon.value)))
    else
      SplitFolder(title, None)
  }

  /** The server emoticon stored for an emoji icon: the first preset unless that is the emoji itself. */
  function PresetFor(glyph: Option<Utf16>, icon0: Utf16, icon1: Utf16): Utf16
  {
    if glyph == Some(icon0) then icon1 else icon0
  }

  /**
   * `mergeApiFolder`.  A custom-emoji icon without an emoticon reaches
   * `emoticon!.length` on `undefined` and throws.
   */
  function MergeApiFolder(s: SplitFolder, icon0: Utf16, icon1: Utf16): (r: Outcome<MergedFolder>)
    ensures s.icon.None? ==> r == Returns(MergedFolder(FormattedText(s.title.text, Some([])), []))
    ensures r.Throws? <==> (s.icon.Some? && s.icon.value.CustomEmojiIcon? && s.icon.value.glyph.None?)
    ensures r.Returns? && s.icon.Some? ==>
              r.value.title.text == s.title.text + IconGlyph(s.icon.value)
    ensures r.Returns? && s.icon.Some? && s.icon.value.IconIcon? ==>
              r.value.title.entities == Some([]) && r.value.emoticon == s.icon.value.emoticon
    ensures r.Returns? && s.icon.Some? && s.icon.value.EmojiIcon? ==>
              r.value.title.entities == Some([])
              && r.value.emoticon == (if icon0 == s.icon.value.emoticon then icon1 else icon0)
    ensures r.Returns? && s.icon.Some? && s.icon.value.CustomEmojiIcon? ==>
              r.value.title.entities == Some([Entity(CustomEmoji, |s.title.text|, |s.icon.value.glyph.value|,
                                                    None, None, s.icon.value.documentId)])
              && r.value.emoticon == (if icon0 == s.icon.value.glyph.value then icon1 else icon0)
  {
    match s.icon
    case None => Returns(MergedFolder(FormattedText(s.title.text, Some([])), []))
    case Some(IconIcon(e)) => Returns(MergedFolder(FormattedText(s.title.text + e, Some([])), e))
    case Some(EmojiIcon(e)) =>
      Returns(MergedFolder(FormattedText(s.title.text + e, Some([])), PresetFor(Some(e), icon0, icon1)))
    case Some(CustomEmojiIcon(g, d)) =>
      if g.None? then Throws
      else
        var entity := Entity(CustomEmoji, |s.title.text|, |g.value|, None, None, d);
        Returns(MergedFolder(FormattedText(s.title.text + g.value, Some([entity])), PresetFor(g, icon0, icon1)))
  }

  /** The text an icon contributes to the merged title. */
  function IconGlyph(i: FolderIcon): Utf16
  {
    match i
    case IconIcon(e) => e
    case EmojiIcon(e) => e
    case CustomEmojiIcon(g, _) => if g.Some? then g.value else []
  }

  /** When the two presets differ, an emoji icon is never stored as its own emoticon. */
  lemma MergedEmoticonDiffers(s: SplitFolder, icon0: Utf16, icon1: Utf16)
    requires icon0 != icon1
    requires s.icon.Some? && (s.icon.value.EmojiIcon? || s.icon.value.CustomEmojiIcon?)
    requires MergeApiFolder(s, icon0, icon1).Returns?
    ensures MergeApiFolder(s, icon0, icon1).value.emoticon != IconGlyph(s.icon.value)
  {
  }

  /** The custom-emoji entity of a merge covers exactly the appended glyph. */
  lemma MergedEntityCoversGlyph(s: SplitFolder, icon0: Utf16, icon1: Utf16)
    requires s.icon.Some? && s.icon.value.CustomEmojiIcon? && s.icon.value.glyph.Some?
    ensures var r := MergeApiFolder(s, icon0, icon1);
      r.Returns? && r.value.title.entities.Some? && |r.value.title.entities.value| == 1
      && var e := r.value.title.entities.value[0];
         e.kind == CustomEmoji
         && r.value.title.text[e.offset..e.offset + e.length] == s.icon.value.glyph.value
         && e.offset + e.length == |r.value.title.text|
  {
    var r := MergeApiFolder(s, icon0, icon1);
    var g := s.icon.value.glyph.value;
    assert r.value.title.text == s.title.text + g;
    assert r.value.title.text[|s.title.text|..|s.title.text| + |g|] == g;
  }

  /**
   * Splitting a title that ends in emoji and merging the parts again gives
   * back the title text.
   */
  lemma SplitMergeText(title: FormattedText, emoticon: Option<Utf16>, run: nat, icon0: Utf16, icon1: Utf16)
    requires 0 < run <= |title.text|
    ensures var m := MergeApiFolder(SplitApiFolder(title, emoticon, run), icon0, icon1);
      m.Returns? && m.value.title.text == title.text
  {
    var s := SplitApiFolder(title, emoticon, run);
    assert IconGlyph(s.icon.value) == title.text[|title.text| - run..];
  }

  /**
   * A split custom emoji is merged back into the same text with a single
   * custom-emoji entity that covers the run and keeps the document id.
   */
  lemma SplitMergeCustomEmoji(title: FormattedText, emoticon: Option<Utf16>, run: nat, icon0: Utf16, icon1: Utf16)
    requires 0 < run <= |title.text| && EndsWithCustomEmoji(title)
    ensures var m := MergeApiFolder(SplitApiFolder(title, emoticon, run), icon0, icon1);
      var es := title.entities.value;
      m.Returns?
      && m.value.title.entities == Some([Entity(CustomEmoji, |title.text| - run, run, None, None,
                                                es[|es| - 1].documentId)])
  {
  }
}
