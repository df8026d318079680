/** The rest of `get_bird_data` (display/birdnet_display_enhanced.py lines
    278-360; the same code is at display/birdnet_display.py lines 193-275):
    new species are pinned, the selection is made, birds whose image cannot
    be reached get a cached one, the list is compared with the one shown
    last time through `DETECTION_CACHE`, and the cards are formatted. The
    image reachability check and the clock are parameters. */
module BirdData {
  import opened Wrappers
  import opened Text
  import opened FileStore
  import opened SpeciesCatalog
  import opened PinnedSpecies
  import opened TimeAgo
  import opened CachedImages
  import opened DetectionSelection
  import WikimediaSearch

  /** A bird needs a cached image when it has no image URL or the URL does
      not answer the quick check. */
  predicate NeedsCachedImage(reachable: string -> bool, bird: Bird) {
    bird.imageUrl == [] || !reachable(bird.imageUrl)
  }

  function WithAsset(bird: Bird, asset: CachedAsset): Bird {
    bird.(imageUrl := asset.imageUrl, copyright := asset.copyright)
  }

  /** `after` is a possible outcome of the image check of `before`: the
      bird is kept unless it needs a cached image and one exists, in which
      case it takes the URL and credit of one of its cached images. */
  predicate IsImageCheck(fs: FileSystem, reachable: string -> bool, before: Bird, after: Bird) {
    if NeedsCachedImage(reachable, before) && HasCachedImage(fs, before.name) then
      var asset := CachedAsset(after.imageUrl, after.copyright);
      after == WithAsset(before, asset) && IsCachedAssetChoice(fs, before.name, Some(asset))
    else after == before
  }

  /** A bird that needs a cached image takes the one drawn, if any. */
  lemma ImageCheckStep(fs: FileSystem, reachable: string -> bool, bird: Bird, asset: Option<CachedAsset>)
    requires NeedsCachedImage(reachable, bird) && IsCachedAssetChoice(fs, bird.name, asset)
    ensures IsImageCheck(fs, reachable, bird, if asset.Some? then WithAsset(bird, asset.value) else bird)
  {
    if asset.Some? {
      var after := WithAsset(bird, asset.value);
      assert CachedAsset(after.imageUrl, after.copyright) == asset.value;
    }
  }

  /** A bird whose image answers is left as it is. */
  lemma ReachableImageKept(fs: FileSystem, reachable: string -> bool, bird: Bird)
    requires !NeedsCachedImage(reachable, bird)
    ensures IsImageCheck(fs, reachable, bird, bird)
  {
  }

  /** One more checked bird extends the loop invariant of `CheckImages`. */
  lemma CheckedStep(fs: FileSystem, reachable: string -> bool, birds: seq<Bird>, checked: seq<Bird>, i: nat, after: Bird)
    requires i < |birds| && |checked| == i
    requires forall k :: 0 <= k < i ==> IsImageCheck(fs, reachable, birds[k], checked[k])
    requires IsImageCheck(fs, reachable, birds[i], after)
    ensures forall k :: 0 <= k < i + 1 ==> IsImageCheck(fs, reachable, birds[k], (checked + [after])[k])
  {
    forall k | 0 <= k < i + 1
      ensures IsImageCheck(fs, reachable, birds[k], (checked + [after])[k])
    {
      if k < i {
        assert (checked + [after])[k] == checked[k];
      } else {
        assert (checked + [after])[k] == after;
      }
    }
  }

  /** The image check loop over the final list. */
  method CheckImages(fs: FileSystem, reachable: string -> bool, birds: seq<Bird>) returns (checked: seq<Bird>)
    ensures |checked| == |birds|
    ensures forall k :: 0 <= k < |birds| ==> IsImageCheck(fs, reachable, birds[k], checked[k])
  {
    checked := [];
    for i := 0 to |birds|
      invariant |checked| == i
      invariant forall k :: 0 <= k < i ==> IsImageCheck(fs, reachable, birds[k], checked[k])
    {
      var bird := birds[i];
      var after := bird;
      if NeedsCachedImage(reachable, bird) {
        var asset := GetCachedImage(fs, bird.name);
        ImageCheckStep(fs, reachable, bird, asset);
        if asset.Some? {
          after := WithAsset(bird, asset.value);
        }
      } else {
        ReachableImageKept(fs, reachable, bird);
      }
      CheckedStep(fs, reachable, birds, checked, i, after);
      checked := checked + [after];
    }
  }

  /** The key of one bird in the list id: `{name}_{time_raw}`. */
  function BirdKey(bird: Bird): string {
    bird.name + "_" + bird.timeRaw
  }

  /** `"-".join(...)` of the keys of a list. */
  function DetectionId(birds: seq<Bird>): string {
    if birds == [] then []
    else if |birds| == 1 then BirdKey(birds[0])
    else DetectionId(birds[..|birds| - 1]) + "-" + BirdKey(birds[|birds| - 1])
  }

  /** The id depends on the names and detection times only. */
  lemma {:induction false} DetectionIdOfSameKeys(a: seq<Bird>, b: seq<Bird>)
    requires |a| == |b|
    requires forall k :: 0 <= k < |a| ==> a[k].name == b[k].name && a[k].timeRaw == b[k].timeRaw
    ensures DetectionId(a) == DetectionId(b)
  {
    if |a| > 1 {
      DetectionIdOfSameKeys(a[..|a| - 1], b[..|b| - 1]);
    }
  }

  /** The image check changes images and credits only, so the list id is
      that of the selection, whichever cached images were drawn. */
  lemma ImageCheckKeepsId(fs: FileSystem, reachable: string -> bool, birds: seq<Bird>, checked: seq<Bird>)
    requires |checked| == |birds|
    requires forall k :: 0 <= k < |birds| ==> IsImageCheck(fs, reachable, birds[k], checked[k])
    ensures forall k :: 0 <= k < |birds| ==>
              && checked[k].name == birds[k].name && checked[k].timeRaw == birds[k].timeRaw
              && checked[k].isPinned == birds[k].isPinned
              && checked[k].confidenceValue == birds[k].confidenceValue
    ensures DetectionId(checked) == DetectionId(birds)
  {
    DetectionIdOfSameKeys(checked, birds);
  }

  /** `DETECTION_CACHE`: the id of the list shown last and that list. */
  class DetectionCache {
    var id: Option<string>
    var rawData: seq<Bird>

    /** The id belongs to the stored list, which is a displayable one. */
    predicate Valid()
      reads this
    {
      id.Some? ==> id.value == DetectionId(rawData) && |rawData| <= MaxShown
    }

    constructor ()
      ensures id == None && rawData == [] && Valid()
    {
      id := None;
      rawData := [];
    }

    /** Lines 340-346: a list with the stored id is replaced by the stored
        list and the cache is untouched; any other list is stored with its
        id. */
    method Refresh(newId: string, final: seq<Bird>) returns (data: seq<Bird>)
      modifies this
      ensures old(id) == Some(newId) ==> data == old(rawData) && id == old(id) && rawData == old(rawData)
      ensures old(id) != Some(newId) ==> data == final && id == Some(newId) && rawData == final
      ensures old(Valid()) && newId == DetectionId(final) && |final| <= MaxShown ==>
                Valid() && DetectionId(data) == newId && |data| <= MaxShown
    {
      if id == Some(newId) {
        data := rawData;
      } else {
        rawData := final;
        id := Some(newId);
        data := final;
      }
    }
  }

  /** `f"{n}"` for an integer. */
  function IntToString(n: int): string {
    if n < 0 then "-" + NatToString(-n) else NatToString(n)
  }

  /** The card of a bird: its age label and its confidence as a percentage. */
  function CardOf(bird: Bird, secondsAgo: string -> nat): Card {
    Card(bird.name, FormatSecondsAgo(secondsAgo(bird.timeRaw)), IntToString(bird.confidenceValue) + "%",
         bird.confidenceValue, bird.imageUrl, bird.copyright, bird.timeRaw, bird.isPinned, false)
  }

  /** The formatting loop at the end of `get_bird_data`. `secondsAgo`
      stands for `parse_absolute_time_to_seconds_ago` at the current time. */
  method DisplayCards(data: seq<Bird>, secondsAgo: string -> nat) returns (cards: seq<Card>)
    ensures |cards| == |data|
    ensures forall k :: 0 <= k < |data| ==> cards[k] == CardOf(data[k], secondsAgo)
  {
    cards := [];
    for i := 0 to |data|
      invariant |cards| == i
      invariant forall k :: 0 <= k < i ==> cards[k] == CardOf(data[k], secondsAgo)
    {
      cards := cards + [CardOf(data[i], secondsAgo)];
    }
  }

  /** The detections endpoint: the request failed, or its JSON body, which
      is a list of items (`None` for an item the parser skips) or not a
      list at all. */
  datatype DetectionsResponse = RequestFailed | Body(items: Option<seq<Option<Bird>>>)

  /** The parsed birds, in order. */
  function Parsed(items: seq<Option<Bird>>): (birds: seq<Bird>)
    ensures |birds| <= |items|
  {
    if items == [] then []
    else
      var init := Parsed(items[..|items| - 1]);
      match items[|items| - 1]
      case None => init
      case Some(b) => init + [b.(isPinned := false)]
  }

  /** The display falls back to the cache when the request fails, when the
      body is not a non-empty list, or when no item parses. */
  predicate GoesOffline(response: DetectionsResponse) {
    match response
    case RequestFailed => true
    case Body(items) => items.None? || items.value == [] || Parsed(items.value) == []
  }

  /** The pinned store after `add_pinned_species` of every new species. */
  function PinnedNewSpecies(pins: Pins, birds: seq<Bird>, now: int): Pins
    decreases |birds|
  {
    if birds == [] then pins
    else
      var before := PinnedNewSpecies(pins, birds[..|birds| - 1], now);
      var b := birds[|birds| - 1];
      if b.isNewSpecies then Added(before, b.name, now) else before
  }

  /** A species reported new is pinned afterwards, and nothing unpinned. */
  lemma {:induction false} NewSpeciesArePinned(pins: Pins, birds: seq<Bird>, now: int)
    ensures pins.Keys <= PinnedNewSpecies(pins, birds, now).Keys
    ensures forall k :: 0 <= k < |birds| && birds[k].isNewSpecies ==> birds[k].name in PinnedNewSpecies(pins, birds, now)
    ensures forall n :: n in PinnedNewSpecies(pins, birds, now) ==>
              n in pins || exists k :: 0 <= k < |birds| && birds[k].isNewSpecies && birds[k].name == n
  {
    if birds != [] {
      var init := birds[..|birds| - 1];
      NewSpeciesArePinned(pins, init, now);
      forall n | n in PinnedNewSpecies(pins, birds, now)
        ensures n in pins || exists k :: 0 <= k < |birds| && birds[k].isNewSpecies && birds[k].name == n
      {
        if n in PinnedNewSpecies(pins, init, now) && n !in pins {
          var k :| 0 <= k < |init| && init[k].isNewSpecies && init[k].name == n;
          assert birds[k] == init[k];
        }
      }
    }
  }

  /** `get_bird_data`. When it goes online, the pinned store has every new
      species added and the expired entries deleted (by the corrected sweep
      `GetActivePinnedSpecies`, which always writes the swept store back),
      the shown list has the id of the fresh selection, and the cache holds
      the shown list. */
  method GetBirdData(response: DetectionsResponse, store: PinnedFile, cache: DetectionCache, fs: FileSystem,
                     speciesFile: CsvFile, picks: seq<nat>, reachable: string -> bool, secondsAgo: string -> nat,
                     now: int)
    returns (cards: seq<Card>, offline: bool)
    requires cache.Valid()
    requires |picks| == WikimediaSearch.Min(|LoadedSpecies(speciesFile)|, MaxOfflineCards)
    requires IsSample(picks, |LoadedSpecies(speciesFile)|)
    modifies store, cache
    ensures offline <==> GoesOffline(response)
    ensures offline ==> && store.pins == old(store.pins) && cache.id == old(cache.id) && cache.rawData == old(cache.rawData)
                        && FallbackCards(fs, SampledNames(LoadedSpecies(speciesFile), picks), cards)
    ensures !offline ==>
              var birds := Parsed(response.items.value);
              var pinned := PinnedNewSpecies(old(store.pins), birds, now);
              var shown := Selection(birds, Active(pinned, now).Keys);
              && store.pins == Unexpired(pinned, now)
              && cache.Valid()
              && cache.id == Some(DetectionId(shown))
              && (old(cache.id) == cache.id ==> cache.rawData == old(cache.rawData))
              && (old(cache.id) != cache.id ==>
                    && |cache.rawData| == |shown|
                    && forall k :: 0 <= k < |shown| ==> IsImageCheck(fs, reachable, shown[k], cache.rawData[k]))
              && |cards| == |cache.rawData| <= MaxShown
              && forall k :: 0 <= k < |cards| ==> cards[k] == CardOf(cache.rawData[k], secondsAgo)
  {
    if response.RequestFailed? || response.items.None? || response.items.value == [] {
      cards := GetOfflineFallbackData(fs, speciesFile, picks);
      return cards, true;
    }
    var birds := Parsed(response.items.value);
    if birds == [] {
      cards := GetOfflineFallbackData(fs, speciesFile, picks);
      return cards, true;
    }
    ghost var pins0 := store.pins;
    for i := 0 to |birds|
      invariant store.pins == PinnedNewSpecies(pins0, birds[..i], now)
      invariant unchanged(cache)
    {
      assert birds[..i + 1][..i] == birds[..i];
      if birds[i].isNewSpecies {
        store.AddPinnedSpecies(birds[i].name, now);
      }
    }
    assert birds[..|birds|] == birds;
    ghost var pinned := store.pins;
    var active := store.GetActivePinnedSpecies(now);
    var final := SelectBirds(birds, active.Keys);
    SelectionFlags(birds, active.Keys);
    assert |final| <= MaxShown;
    var checked := CheckImages(fs, reachable, final);
    ImageCheckKeepsId(fs, reachable, final, checked);
    var newId := DetectionId(checked);
    assert newId == DetectionId(Selection(birds, Active(pinned, now).Keys));
    var data := cache.Refresh(newId, checked);
    assert cache.id == Some(newId);
    cards := DisplayCards(data, secondsAgo);
    offline := false;
  }
}
