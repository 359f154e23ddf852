/**
  The video disc item (`Disc` object): how a disc is made, and which items count
  as one. An item is abstracted to its material and its optional meta; of the
  meta, only the display name, the lore and the boolean entries of its
  persistent data container are kept, so a value of another type under the
  disc key, on which the source's strict check throws, cannot occur here.
*/
module Disc {
  import opened Wrappers

  datatype Material = MusicDiscBlocks | OtherMaterial(name: string)

  /** A namespaced key of a persistent data container. */
  datatype NamespacedKey = NamespacedKey(namespace: string, key: string)

  datatype ItemMeta = ItemMeta(displayName: Option<string>, lore: seq<string>, tags: map<NamespacedKey, bool>)

  datatype Item = Item(material: Material, meta: Option<ItemMeta>)

  /** The plugin namespace under which the disc key is registered; how the
      plugin derives it is not part of this model. */
  const PluginNamespace: string := "hologram"

  /** The key that marks an item as the video disc. */
  const DiscKey: NamespacedKey := NamespacedKey(PluginNamespace, "music_disc")

  /** The section sign that starts a Minecraft formatting code. */
  const SectionSign: char := '\U{00A7}'

  /** `s` starts with the formatting code `code` (`6` gold, `7` grey). */
  predicate FormattedWith(s: string, code: char) {
    |s| >= 2 && s[0] == SectionSign && s[1] == code
  }

  /** The name and lore literals as the source spells them: each starts with
      U+0E22 U+0E07, which is how the two bytes of a UTF-8 section sign read
      when decoded as TIS-620. */
  const DiscNameAsWritten: string := "\U{0E22}\U{0E07}6Video Music Disc"

  const DiscLoreAsWritten: seq<string> := [
    "\U{0E22}\U{0E07}7A mysterious music disc",
    "\U{0E22}\U{0E07}7that plays a custom video",
    "\U{0E22}\U{0E07}7when inserted into a jukebox."
  ]

  /** The intended name and lore: gold and grey formatting codes, spelled as
      the configuration's default disc name spells them. */
  const DiscName: string := [SectionSign] + "6Video Music Disc"

  const DiscLore: seq<string> := [
    [SectionSign] + "7A mysterious music disc",
    [SectionSign] + "7that plays a custom video",
    [SectionSign] + "7when inserted into a jukebox."
  ]

  /** `getDiscKey()`: the plugin's `music_disc` key, the one `createDisc`
      writes and `isDisc` reads (`DiscKeyDecides`). */
  function GetDiscKey(): (k: NamespacedKey)
    ensures k.namespace == PluginNamespace && k.key == "music_disc"
  {
    DiscKey
  }

  /** `createDisc()`. `freshMeta` is the meta the host hands out for a new
      `MUSIC_DISC_BLOCKS` stack (Kotlin's nullable `itemMeta`). */
  function CreateDisc(freshMeta: Option<ItemMeta>): (disc: Item)
    ensures disc.material == MusicDiscBlocks
    ensures disc.meta.Some? <==> freshMeta.Some?
    ensures disc.meta.Some? ==>
      && disc.meta.value.displayName == Some(DiscName)
      && disc.meta.value.lore == DiscLore
      && disc.meta.value.tags == freshMeta.value.tags[GetDiscKey() := true]
  {
    match freshMeta
    case None => Item(MusicDiscBlocks, None)
    case Some(m) =>
      Item(MusicDiscBlocks, Some(m.(displayName := Some(DiscName), lore := DiscLore, tags := m.tags[GetDiscKey() := true])))
  }

  /** `createDisc()` with the literals as the source spells them. */
  function CreateDiscAsWritten(freshMeta: Option<ItemMeta>): (disc: Item)
    ensures disc.material == MusicDiscBlocks
    ensures disc.meta.Some? <==> freshMeta.Some?
    ensures disc.meta.Some? ==>
      && disc.meta.value.displayName == Some(DiscNameAsWritten)
      && disc.meta.value.lore == DiscLoreAsWritten
      && disc.meta.value.tags == freshMeta.value.tags[GetDiscKey() := true]
  {
    match freshMeta
    case None => Item(MusicDiscBlocks, None)
    case Some(m) =>
      Item(MusicDiscBlocks, Some(m.(displayName := Some(DiscNameAsWritten), lore := DiscLoreAsWritten, tags := m.tags[GetDiscKey() := true])))
  }

  /** As written, the created disc's name and lore carry no formatting code:
      they show two stray letters instead of turning gold and grey. */
  lemma AsWrittenTextIsUnformatted(meta: ItemMeta)
    ensures var m := CreateDiscAsWritten(Some(meta)).meta.value;
            && m.displayName.Some? && !FormattedWith(m.displayName.value, '6')
            && m.displayName.value[..2] == "\U{0E22}\U{0E07}"
            && forall line :: line in m.lore ==> !FormattedWith(line, '7')
  {
    var m := CreateDiscAsWritten(Some(meta)).meta.value;
    assert m.displayName.value[0] == '\U{0E22}';
    forall line | line in m.lore
      ensures !FormattedWith(line, '7')
    {
      assert line[0] == '\U{0E22}';
    }
  }

  /** The intended created disc has a gold name and grey lore. */
  lemma CreatedDiscIsFormatted(meta: ItemMeta)
    ensures var m := CreateDisc(Some(meta)).meta.value;
            && m.displayName.Some? && FormattedWith(m.displayName.value, '6')
            && forall line :: line in m.lore ==> FormattedWith(line, '7')
  {
  }

  /** The two spellings differ in the text only: the item, its tags and
      whether it is accepted are the same. */
  lemma SpellingDoesNotAffectAcceptance(freshMeta: Option<ItemMeta>, acceptRegularDiscs: bool)
    ensures CreateDiscAsWritten(freshMeta).material == CreateDisc(freshMeta).material
    ensures IsDisc(CreateDiscAsWritten(freshMeta), acceptRegularDiscs) == IsDisc(CreateDisc(freshMeta), acceptRegularDiscs)
  {
  }

  /** `isDisc(item)` under the configured `acceptRegularDiscs`. */
  function IsDisc(item: Item, acceptRegularDiscs: bool): (accepted: bool)
    ensures item.material != MusicDiscBlocks ==> !accepted
    ensures item.material == MusicDiscBlocks && acceptRegularDiscs ==> accepted
    ensures !acceptRegularDiscs ==>
      (accepted <==> item.material == MusicDiscBlocks && item.meta.Some?
                     && GetDiscKey() in item.meta.value.tags && item.meta.value.tags[GetDiscKey()])
  {
    if item.material != MusicDiscBlocks then false
    else if acceptRegularDiscs then true
    else match item.meta
      case None => false
      case Some(m) => GetDiscKey() in m.tags && m.tags[GetDiscKey()] == true
  }

  /** A created disc is accepted whenever the host gave it meta, and always
      when regular discs are accepted. */
  lemma CreatedDiscIsAccepted(freshMeta: Option<ItemMeta>, acceptRegularDiscs: bool)
    ensures freshMeta.Some? ==> IsDisc(CreateDisc(freshMeta), acceptRegularDiscs)
    ensures acceptRegularDiscs ==> IsDisc(CreateDisc(freshMeta), acceptRegularDiscs)
    ensures freshMeta.None? && !acceptRegularDiscs ==> !IsDisc(CreateDisc(freshMeta), acceptRegularDiscs)
  {
  }

  /** Tagging and checking use one key: writing `b` under `getDiscKey()` into
      the meta of a `MUSIC_DISC_BLOCKS` item makes the strict check answer `b`,
      whatever else the container holds. */
  lemma DiscKeyDecides(meta: ItemMeta, b: bool)
    ensures IsDisc(Item(MusicDiscBlocks, Some(meta.(tags := meta.tags[GetDiscKey() := b]))), false) == b
  {
  }
}
