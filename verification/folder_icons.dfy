/**
 * `getFolderIconName` (src/util/folderIcons.ts): the icon-font name shown
 * for a chat folder, looked up by the folder's emoticon in a constant
 * record with `folder-1` as the fallback.
 */
module FolderIcons {
  import opened Ast

  const DefaultIcon: string := "\U{1F5C2}"
  const MainIcon: string := "\U{1F4AC}"

  /** `FOLDER_ICONS_MAPPING`: eight emoticons and their icon names. */
  const FolderIconsMapping: map<string, string> := map[
    "\U{1F916}" := "bot",
    "\U{1F4E2}" := "channel-1",
    "\U{2611}\U{FE0F}" := "chat",
    "\U{1F4AC}" := "chats",
    "\U{1F5C2}" := "folder-1",
    "\U{1F465}" := "group-1",
    "\U{2B50}" := "star-1",
    "\U{1F464}" := "user-1"
  ]

  /** The names every plain object inherits from `Object.prototype`; each is truthy. */
  const ObjectPrototypeKeys: set<string> := {
    "constructor", "hasOwnProperty", "isPrototypeOf", "propertyIsEnumerable",
    "toLocaleString", "toString", "valueOf", "__proto__",
    "__defineGetter__", "__defineSetter__", "__lookupGetter__", "__lookupSetter__"
  }

  /** JavaScript truthiness of an optional string. */
  predicate Truthy(s: Option<string>)
  {
    s.Some? && s.value != ""
  }

  /** What `FOLDER_ICONS_MAPPING[key]` evaluates to on a plain object literal. */
  datatype Property = IconValue(name: string) | PrototypeMember(key: string) | Undefined

  function PropertyOf(key: string): (p: Property)
    ensures p.IconValue? <==> key in FolderIconsMapping
    ensures p.IconValue? ==> p.name == FolderIconsMapping[key]
    ensures p.PrototypeMember? <==> key !in FolderIconsMapping && key in ObjectPrototypeKeys
  {
    if key in FolderIconsMapping then IconValue(FolderIconsMapping[key])
    else if key in ObjectPrototypeKeys then PrototypeMember(key)
    else Undefined
  }

  /**
   * `getFolderIconName` as written: the bracket lookup also finds the members
   * every object inherits, so an emoticon such as `constructor` returns a
   * function instead of an icon name.
   */
  function GetFolderIconNameAsWritten(emoticon: Option<string>, isMainIcon: bool): (r: Property)
    ensures r.PrototypeMember? <==> !isMainIcon && Truthy(emoticon) && emoticon.value !in FolderIconsMapping
                                    && emoticon.value in ObjectPrototypeKeys
    ensures !r.PrototypeMember? ==> r.IconValue? && r.name in FolderIconsMapping.Values
  {
    if isMainIcon then IconValue(FolderIconsMapping[MainIcon])
    else if !Truthy(emoticon) then IconValue(FolderIconsMapping[DefaultIcon])
    else
      var path := PropertyOf(emoticon.value);
      if path.IconValue? || path.PrototypeMember? then path
      else IconValue(FolderIconsMapping[DefaultIcon])
  }

  /** The emoticon `constructor` makes the as-written lookup return an inherited member. */
  lemma InheritedKeyIsNotAnIcon()
    ensures GetFolderIconNameAsWritten(Some("constructor"), false) == PrototypeMember("constructor")
    ensures !GetFolderIconNameAsWritten(Some("constructor"), false).IconValue?
  {
  }

  /** `getFolderIconName` with an own-key lookup: the result is always an icon name of the record. */
  function GetFolderIconName(emoticon: Option<string>, isMainIcon: bool): (r: string)
    ensures r in FolderIconsMapping.Values
    ensures isMainIcon ==> r == "chats"
    ensures !isMainIcon && !Truthy(emoticon) ==> r == "folder-1"
    ensures !isMainIcon && Truthy(emoticon) && emoticon.value in FolderIconsMapping
            ==> r == FolderIconsMapping[emoticon.value]
    ensures !isMainIcon && Truthy(emoticon) && emoticon.value !in FolderIconsMapping ==> r == "folder-1"
  {
    if isMainIcon then FolderIconsMapping[MainIcon]
    else if !Truthy(emoticon) then FolderIconsMapping[DefaultIcon]
    else if emoticon.value in FolderIconsMapping then FolderIconsMapping[emoticon.value]
    else FolderIconsMapping[DefaultIcon]
  }

  /** The two versions agree on every emoticon that is not an inherited member name. */
  lemma AsWrittenAgreesOffPrototype(emoticon: Option<string>, isMainIcon: bool)
    requires !(emoticon.Some? && emoticon.value in ObjectPrototypeKeys)
    ensures GetFolderIconNameAsWritten(emoticon, isMainIcon) == IconValue(GetFolderIconName(emoticon, isMainIcon))
  {
  }
}
