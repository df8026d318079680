/** The display's use of the image cache: `get_cached_image`, which picks
    one cached image of a species at random, and `get_offline_fallback_data`,
    which shows up to four randomly sampled species from the cache when the
    detection server cannot be reached (display/birdnet_display_enhanced.py
    lines 246-276; the same code is at display/birdnet_display.py lines
    161-191). The random choice and the random sample are nondeterministic
    choices. */
module CachedImages {
  import opened Wrappers
  import opened Text
  import opened FileStore
  import opened FolderNames
  import opened SpeciesCatalog
  import opened Attribution
  import opened WikimediaSearch
  import opened CacheBuilder

  /** Flask serves `static/` under this URL path. */
  const StaticUrlPath: string := "/static"
  /** The last segment of the cache directory, as a static file prefix. */
  const CacheUrlFolder: string := "bird_images_cache"
  const MaxOfflineCards: nat := 4

  /** What `get_cached_image` returns: a URL for the image and its credit line. */
  datatype CachedAsset = CachedAsset(imageUrl: string, copyright: string)

  /** A bird as the display page receives it. Offline cards carry no
      `is_pinned` key, which the page reads as `false`. */
  datatype Card = Card(name: string, timeDisplay: string, confidence: string, confidenceValue: int,
                       imageUrl: string, copyright: string, timeRaw: string,
                       isPinned: bool, isOffline: bool)

  /** The cache folder of a species, named as the cache builder names it. */
  function SpeciesFolder(speciesName: string): string {
    Join(CacheDirectory, SanitiseFolderName(speciesName))
  }

  /** `os.path.splitext(name)[0]`. */
  function Stem(name: string): (r: string)
    ensures r + SplitExt(name) == name
  {
    name[..|name| - |SplitExt(name)|]
  }

  /** The credit file beside an image: its stem with `.txt`. */
  function CreditFileOf(dir: string, chosen: string): string {
    Join(dir, Stem(chosen) + AttributionExtension)
  }

  /** The stripped text of a credit file, or `""` when there is none.
      Anything other than a text file at the path also gives `""`. */
  function ReadCredit(fs: FileSystem, path: string): string {
    if path in fs.files then
      match fs.files[path]
      case TextFile(text) => Strip(text)
      case Binary(_) => []
    else []
  }

  /** `url_for('static', filename=...)` for a cached image. */
  function CachedImageUrl(folderName: string, chosen: string): string {
    StaticUrlPath + "/" + Join(Join(CacheUrlFolder, folderName), chosen)
  }

  /** The asset returned when `chosen` is the image drawn for a species. */
  function AssetOf(fs: FileSystem, speciesName: string, chosen: string): CachedAsset {
    CachedAsset(CachedImageUrl(SanitiseFolderName(speciesName), chosen),
                ReadCredit(fs, CreditFileOf(SpeciesFolder(speciesName), chosen)))
  }

  /** The species folder exists and holds at least one image file. */
  predicate HasCachedImage(fs: FileSystem, speciesName: string) {
    var dir := SpeciesFolder(speciesName);
    dir in fs.dirs && ImageEntries(fs, dir) != {}
  }

  /** The results `get_cached_image` may return: nothing when the folder is
      missing or has no images, otherwise the asset of one of its images. */
  predicate IsCachedAssetChoice(fs: FileSystem, speciesName: string, asset: Option<CachedAsset>) {
    match asset
    case None => !HasCachedImage(fs, speciesName)
    case Some(a) =>
      && HasCachedImage(fs, speciesName)
      && exists chosen :: chosen in ImageEntries(fs, SpeciesFolder(speciesName)) && a == AssetOf(fs, speciesName, chosen)
  }

  /** `get_cached_image`. Which image `random.choice` draws from the sorted
      list is left open. */
  method GetCachedImage(fs: FileSystem, speciesName: string) returns (asset: Option<CachedAsset>)
    ensures IsCachedAssetChoice(fs, speciesName, asset)
  {
    var dir := SpeciesFolder(speciesName);
    if dir in fs.dirs {
      var images := ImageEntries(fs, dir);
      if images == {} {
        return None;
      }
      var chosen :| chosen in images;
      return Some(AssetOf(fs, speciesName, chosen));
    }
    return None;
  }

  /** A slot base of a sanitised folder name is a bare file name with a
      character other than `.`. */
  lemma SlotBaseIsBareName(folderName: string, i: nat)
    requires forall k :: 0 <= k < |folderName| ==> IsAlnum(folderName[k]) || folderName[k] == '_'
    ensures '/' !in SlotBase(folderName, i)
    ensures SlotBase(folderName, i)[|folderName|] == '_'
  {
    var base := SlotBase(folderName, i);
    var digits := NatToString(i);
    forall k | 0 <= k < |base| ensures base[k] != '/' {
      if k < |folderName| {
        assert base[k] == folderName[k];
      } else if k > |folderName| {
        assert base[k] == digits[k - |folderName| - 1];
      }
    }
  }

  /** An image the cache builder stored in slot `i` of a species, with an
      image extension, is among the images `get_cached_image` draws from. */
  lemma StoredSlotIsCandidate(fs: FileSystem, web: Web, info: ImageInfo, speciesName: string, i: nat)
    requires var folderName := SanitiseFolderName(speciesName);
             SlotStored(fs, web, info, SpeciesFolder(speciesName), SlotBase(folderName, i))
    requires IsImageName(SlotBase(SanitiseFolderName(speciesName), i) + FileExtension(info.url))
    ensures SlotBase(SanitiseFolderName(speciesName), i) + FileExtension(info.url)
              in ImageEntries(fs, SpeciesFolder(speciesName))
  {
    var folderName := SanitiseFolderName(speciesName);
    var dir := SpeciesFolder(speciesName);
    var base := SlotBase(folderName, i);
    var ext := FileExtension(info.url);
    SlotBaseIsBareName(folderName, i);
    assert ImagePath(dir, base, info.url) == Join(dir, base + ext);
    FileIsListed(fs, dir, base + ext);
  }

  /** The stem of a slot's image name is the slot base. */
  lemma SlotImageStem(folderName: string, i: nat, url: string)
    requires forall k :: 0 <= k < |folderName| ==> IsAlnum(folderName[k]) || folderName[k] == '_'
    ensures Stem(SlotBase(folderName, i) + FileExtension(url)) == SlotBase(folderName, i)
  {
    var base := SlotBase(folderName, i);
    var ext := FileExtension(url);
    SlotBaseIsBareName(folderName, i);
    FileExtensionHasOneDot(url);
    SplitExtOfBareName(base, ext);
  }

  /** The credit read beside a stored slot's image is its stored
      attribution, stripped. */
  lemma SlotCredit(fs: FileSystem, web: Web, info: ImageInfo, dir: string, folderName: string, i: nat)
    requires forall k :: 0 <= k < |folderName| ==> IsAlnum(folderName[k]) || folderName[k] == '_'
    requires SlotStored(fs, web, info, dir, SlotBase(folderName, i))
    ensures ReadCredit(fs, CreditFileOf(dir, SlotBase(folderName, i) + FileExtension(info.url))) == Strip(info.attribution)
  {
    var base := SlotBase(folderName, i);
    SlotImageStem(folderName, i, info.url);
    assert CreditFileOf(dir, base + FileExtension(info.url)) == AttributionPath(dir, base);
  }

  /** When `get_cached_image` draws an image the cache builder stored, the
      credit it returns is exactly the attribution the builder wrote. */
  lemma StoredSlotShowsItsAttribution(fs: FileSystem, web: Web, info: ImageInfo, authorCell: Option<string>,
                                      speciesName: string, i: nat)
    requires info.attribution == FinalAttribution(authorCell)
    requires var folderName := SanitiseFolderName(speciesName);
             SlotStored(fs, web, info, SpeciesFolder(speciesName), SlotBase(folderName, i))
    ensures var chosen := SlotBase(SanitiseFolderName(speciesName), i) + FileExtension(info.url);
            AssetOf(fs, speciesName, chosen).copyright == info.attribution
  {
    SlotCredit(fs, web, info, SpeciesFolder(speciesName), SanitiseFolderName(speciesName), i);
    FinalAttributionIsStripped(authorCell);
  }

  /** The card shown for a species with a cached image when offline. */
  function OfflineCard(name: string, asset: CachedAsset): Card {
    Card(name, "Offline", "0%", 0, asset.imageUrl, asset.copyright, "", false, true)
  }

  /** `card` is an offline card of `name` built from a possible draw of
      `get_cached_image(name)`. */
  predicate IsOfflineCardOf(fs: FileSystem, name: string, card: Card) {
    var asset := CachedAsset(card.imageUrl, card.copyright);
    card == OfflineCard(name, asset) && IsCachedAssetChoice(fs, name, Some(asset))
  }

  /** `picks` are distinct positions of a list of length `n`, as
      `random.sample` draws them. */
  predicate IsSample(picks: seq<nat>, n: nat) {
    && (forall k :: 0 <= k < |picks| ==> picks[k] < n)
    && (forall k, l :: 0 <= k < l < |picks| ==> picks[k] != picks[l])
  }

  function SampledNames(species: seq<Species>, picks: seq<nat>): (names: seq<string>)
    requires IsSample(picks, |species|)
    ensures |names| == |picks|
    ensures forall k :: 0 <= k < |picks| ==> names[k] == species[picks[k]].common
  {
    seq(|picks|, k requires 0 <= k < |picks| => species[picks[k]].common)
  }

  /** The cards a loop over `names` collects, in order: one card, meeting
      `isCard`, for each name meeting `wanted`; none for the others. */
  predicate Collected(wanted: string -> bool, isCard: (string, Card) -> bool, names: seq<string>, cards: seq<Card>)
    decreases |names|
  {
    if names == [] then cards == []
    else
      var name := names[|names| - 1];
      if wanted(name) then
        && cards != []
        && isCard(name, cards[|cards| - 1])
        && Collected(wanted, isCard, names[..|names| - 1], cards[..|cards| - 1])
      else Collected(wanted, isCard, names[..|names| - 1], cards)
  }

  /** The collected cards, read off: card k belongs to name `source[k]`,
      the sources are increasing, and exactly the wanted names have a card. */
  lemma {:induction false} CollectedSources(wanted: string -> bool, isCard: (string, Card) -> bool,
                                            names: seq<string>, cards: seq<Card>)
    returns (source: seq<nat>)
    requires Collected(wanted, isCard, names, cards)
    ensures |source| == |cards| <= |names|
    ensures forall k :: 0 <= k < |cards| ==>
              source[k] < |names| && wanted(names[source[k]]) && isCard(names[source[k]], cards[k])
    ensures forall k, l :: 0 <= k < l < |source| ==> source[k] < source[l]
    ensures forall j :: 0 <= j < |names| && wanted(names[j]) ==> j in source
  {
    if names == [] {
      return [];
    }
    var n := |names|;
    var init := names[..n - 1];
    if wanted(names[n - 1]) {
      var rest := cards[..|cards| - 1];
      var initSource := CollectedSources(wanted, isCard, init, rest);
      source := initSource + [n - 1];
      forall k | 0 <= k < |cards|
        ensures source[k] < n && wanted(names[source[k]]) && isCard(names[source[k]], cards[k])
      {
        if k < |cards| - 1 {
          assert cards[k] == rest[k];
          assert names[source[k]] == init[initSource[k]];
        }
      }
      forall j | 0 <= j < n && wanted(names[j]) ensures j in source {
        if j < n - 1 {
          assert init[j] == names[j];
        }
      }
    } else {
      source := CollectedSources(wanted, isCard, init, cards);
      forall k | 0 <= k < |cards| ensures names[source[k]] == init[source[k]] {
      }
      forall j | 0 <= j < n && wanted(names[j]) ensures j in source {
        assert init[j] == names[j];
      }
    }
  }

  /** The cards the fallback loop produces for `names`: an offline card for
      each name with a cached image. */
  predicate FallbackCards(fs: FileSystem, names: seq<string>, cards: seq<Card>) {
    Collected(HasImageIn(fs), IsOfflineCardIn(fs), names, cards)
  }

  function HasImageIn(fs: FileSystem): string -> bool {
    name => HasCachedImage(fs, name)
  }

  function IsOfflineCardIn(fs: FileSystem): (string, Card) -> bool {
    (name, card) => IsOfflineCardOf(fs, name, card)
  }

  /** Extending the loop by one name. */
  lemma CollectedStep(wanted: string -> bool, isCard: (string, Card) -> bool, names: seq<string>,
                      cards: seq<Card>, name: string, added: seq<Card>)
    requires Collected(wanted, isCard, names, cards)
    requires wanted(name) ==> |added| == 1 && isCard(name, added[0])
    requires !wanted(name) ==> added == []
    ensures Collected(wanted, isCard, names + [name], cards + added)
  {
    var more := names + [name];
    assert more[..|more| - 1] == names;
    if wanted(name) {
      assert (cards + added)[..|cards|] == cards;
    } else {
      assert cards + added == cards;
    }
  }

  /** One more sampled species: a card when `get_cached_image` found one. */
  lemma FallbackCardsStep(fs: FileSystem, names: seq<string>, cards: seq<Card>, name: string,
                          asset: Option<CachedAsset>)
    requires FallbackCards(fs, names, cards) && IsCachedAssetChoice(fs, name, asset)
    ensures FallbackCards(fs, names + [name], cards + if asset.Some? then [OfflineCard(name, asset.value)] else [])
  {
    var added := if asset.Some? then [OfflineCard(name, asset.value)] else [];
    assert HasImageIn(fs)(name) == HasCachedImage(fs, name);
    if asset.Some? {
      var card := OfflineCard(name, asset.value);
      assert CachedAsset(card.imageUrl, card.copyright) == asset.value;
      assert IsOfflineCardOf(fs, name, card);
      assert IsOfflineCardIn(fs)(name, added[0]);
    }
    CollectedStep(HasImageIn(fs), IsOfflineCardIn(fs), names, cards, name, added);
  }

  /** `get_offline_fallback_data`: `picks` are the positions `random.sample`
      draws from the species list, min(len, 4) distinct ones. */
  method GetOfflineFallbackData(fs: FileSystem, speciesFile: CsvFile, picks: seq<nat>) returns (cards: seq<Card>)
    requires |picks| == Min(|LoadedSpecies(speciesFile)|, MaxOfflineCards)
    requires IsSample(picks, |LoadedSpecies(speciesFile)|)
    ensures FallbackCards(fs, SampledNames(LoadedSpecies(speciesFile), picks), cards)
  {
    var species := LoadSpeciesFromFile(speciesFile);
    if species == [] {
      return [];
    }
    var count := Min(|species|, MaxOfflineCards);
    ghost var names := SampledNames(species, picks);
    cards := [];
    var i := 0;
    while i < count
      invariant 0 <= i <= count
      invariant FallbackCards(fs, names[..i], cards)
    {
      var name := species[picks[i]].common;
      assert names[..i + 1] == names[..i] + [name];
      var asset := GetCachedImage(fs, name);
      FallbackCardsStep(fs, names[..i], cards, name, asset);
      if asset.Some? {
        cards := cards + [OfflineCard(name, asset.value)];
      } else {
        assert cards + [] == cards;
      }
      i := i + 1;
    }
    assert names[..count] == names;
  }

  /** What the fallback promises: no cards for an empty species list; at
      most four cards, each an offline card of a distinct sampled position
      whose species has a cached image; every sampled species with a cached
      image is shown. */
  lemma OfflineFallbackSpec(fs: FileSystem, speciesFile: CsvFile, picks: seq<nat>, cards: seq<Card>)
    returns (source: seq<nat>)
    requires var species := LoadedSpecies(speciesFile);
             && |picks| == Min(|species|, MaxOfflineCards)
             && IsSample(picks, |species|)
             && FallbackCards(fs, SampledNames(species, picks), cards)
    ensures LoadedSpecies(speciesFile) == [] ==> cards == []
    ensures |cards| <= Min(|LoadedSpecies(speciesFile)|, MaxOfflineCards) && |source| == |cards|
    ensures forall k :: 0 <= k < |cards| ==>
              && source[k] < |picks|
              && cards[k].name == LoadedSpecies(speciesFile)[picks[source[k]]].common
              && cards[k].isOffline && cards[k].confidenceValue == 0 && cards[k].timeDisplay == "Offline"
              && HasCachedImage(fs, cards[k].name)
    ensures forall k, l :: 0 <= k < l < |cards| ==> picks[source[k]] != picks[source[l]]
    ensures forall j :: 0 <= j < |picks| && HasCachedImage(fs, LoadedSpecies(speciesFile)[picks[j]].common) ==>
              j in source
  {
    var names := SampledNames(LoadedSpecies(speciesFile), picks);
    source := CollectedSources(HasImageIn(fs), IsOfflineCardIn(fs), names, cards);
  }
}
