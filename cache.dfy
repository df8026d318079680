/** Building the offline image cache: one slot download
    (`download_image_and_attribution`, display/cache_builder.py lines
    265-282), one species (`process_species`, lines 285-309) and the whole
    species list (`ensure_cache_is_built`, lines 311-334, run one species
    after another). */
module CacheBuilder {
  import opened Wrappers
  import opened Text
  import opened FileStore
  import opened FolderNames
  import opened SpeciesCatalog
  import opened WikimediaSearch

  const CacheDirectory: string := "static/bird_images_cache"
  const ImagesPerSpecies: nat := 3
  const DefaultExtension: string := ".jpg"
  const AttributionExtension: string := ".txt"

  /** The image file's extension: that of the URL cut at its first `(`, or
      `.jpg` when it has none. */
  function FileExtension(url: string): (ext: string)
    ensures ext != [] && ext[0] == '.' && '/' !in ext
    ensures ext == DefaultExtension || EndsWith(BeforeFirst(url, "("), ext)
  {
    var ext := SplitExt(BeforeFirst(url, "("));
    if ext == [] then DefaultExtension else ext
  }

  /** The extension has no `.` after its first character. */
  lemma FileExtensionHasOneDot(url: string)
    ensures '.' !in FileExtension(url)[1..]
  {
    if SplitExt(BeforeFirst(url, "(")) == [] {
      assert FileExtension(url)[1..] == "jpg";
    }
  }

  /** `{base}{ext}` and `{base}.txt` inside `folder`. */
  function ImagePath(folder: string, base: string, url: string): string {
    Join(folder, base + FileExtension(url))
  }

  function AttributionPath(folder: string, base: string): string {
    Join(folder, base + AttributionExtension)
  }

  /** The file system after `download_image_and_attribution(info, folder, base)`:
      the folder is created if missing; when both slot files exist nothing
      else happens; otherwise a successful download writes the image, then
      the attribution, and a failed one writes nothing. */
  function DownloadEffect(fs: FileSystem, web: Web, info: ImageInfo, folder: string, base: string): FileSystem {
    SlotEffect(fs, folder, ImagePath(folder, base, info.url), AttributionPath(folder, base),
               web.download(info.url), info.attribution)
  }

  /** The same, for given slot paths and download outcome. */
  function SlotEffect(fs: FileSystem, folder: string, imagePath: string, attributionPath: string,
                      response: Option<seq<bv8>>, attribution: string): FileSystem {
    var made := if Exists(fs, folder) then fs else FileSystem(fs.files, fs.dirs + {folder});
    if Exists(made, imagePath) && Exists(made, attributionPath) then made
    else
      match response
      case None => made
      case Some(bytes) =>
        FileSystem(made.files[imagePath := Binary(bytes)][attributionPath := TextFile(attribution)], made.dirs)
  }

  lemma SlotEffectFills(fs: FileSystem, folder: string, imagePath: string, attributionPath: string,
                        bytes: seq<bv8>, attribution: string)
    requires imagePath != folder && attributionPath != folder
    requires !(Exists(fs, imagePath) && Exists(fs, attributionPath))
    ensures var after := SlotEffect(fs, folder, imagePath, attributionPath, Some(bytes), attribution);
            && attributionPath in after.files && after.files[attributionPath] == TextFile(attribution)
            && imagePath in after.files
            && (imagePath != attributionPath ==> after.files[imagePath] == Binary(bytes))
  {
  }

  /** A slot name `{base}{ext}` is relative and non-empty. */
  lemma SlotNameRelative(base: string, ext: string)
    requires !StartsWith(base, "/") && ext != [] && ext[0] == '.'
    ensures !StartsWith(base + ext, "/") && base + ext != []
  {
    assert (base + ext)[0] == (if base == [] then '.' else base[0]);
  }

  /** Two extensions give two different files of one slot, neither of them
      the folder itself. */
  lemma SlotFilesDiffer(folder: string, base: string, ext1: string, ext2: string)
    requires !StartsWith(base, "/")
    requires ext1 != [] && ext1[0] == '.' && ext2 != [] && ext2[0] == '.'
    ensures Join(folder, base + ext1) != folder && Join(folder, base + ext2) != folder
    ensures ext1 != ext2 ==> Join(folder, base + ext1) != Join(folder, base + ext2)
  {
    SlotNameRelative(base, ext1);
    SlotNameRelative(base, ext2);
    if Join(folder, base + ext1) == Join(folder, base + ext2) {
      JoinInjective(folder, base + ext1, base + ext2);
      assert (base + ext1)[|base|..] == ext1;
      assert (base + ext2)[|base|..] == ext2;
    }
  }

  /** A download touches no file but its slot's two, and creates no
      directory but `folder`. */
  lemma DownloadFrame(fs: FileSystem, web: Web, info: ImageInfo, folder: string, base: string, p: string)
    requires p != ImagePath(folder, base, info.url) && p != AttributionPath(folder, base)
    ensures p in DownloadEffect(fs, web, info, folder, base).files <==> p in fs.files
    ensures p in fs.files ==> DownloadEffect(fs, web, info, folder, base).files[p] == fs.files[p]
    ensures DownloadEffect(fs, web, info, folder, base).dirs - {folder} == fs.dirs - {folder}
    ensures folder in DownloadEffect(fs, web, info, folder, base).dirs || folder in DownloadEffect(fs, web, info, folder, base).files
  {
    SlotEffectFrame(fs, folder, ImagePath(folder, base, info.url), AttributionPath(folder, base),
                    web.download(info.url), info.attribution, p);
  }

  /** A slot write touches no file but the slot's two. */
  lemma SlotEffectFrame(fs: FileSystem, folder: string, imagePath: string, attributionPath: string,
                        response: Option<seq<bv8>>, attribution: string, p: string)
    requires p != imagePath && p != attributionPath
    ensures p in SlotEffect(fs, folder, imagePath, attributionPath, response, attribution).files <==> p in fs.files
    ensures p in fs.files ==> SlotEffect(fs, folder, imagePath, attributionPath, response, attribution).files[p] == fs.files[p]
    ensures SlotEffect(fs, folder, imagePath, attributionPath, response, attribution).dirs - {folder} == fs.dirs - {folder}
    ensures folder in SlotEffect(fs, folder, imagePath, attributionPath, response, attribution).dirs
            || folder in SlotEffect(fs, folder, imagePath, attributionPath, response, attribution).files
  {
  }

  /** A slot whose two files exist is not fetched again: no file changes. */
  lemma DownloadSkipsFilledSlot(fs: FileSystem, web: Web, info: ImageInfo, folder: string, base: string)
    requires Exists(fs, ImagePath(folder, base, info.url)) && Exists(fs, AttributionPath(folder, base))
    ensures DownloadEffect(fs, web, info, folder, base).files == fs.files
  {
  }

  /** A failed download writes nothing. */
  lemma DownloadFailureWritesNothing(fs: FileSystem, web: Web, info: ImageInfo, folder: string, base: string)
    requires web.download(info.url).None?
    ensures DownloadEffect(fs, web, info, folder, base).files == fs.files
  {
  }

  /** A successful download into a slot that is not filled leaves the
      attribution and, unless the URL's extension is `.txt`, the image bytes
      at the slot's paths. */
  lemma DownloadFillsSlot(fs: FileSystem, web: Web, info: ImageInfo, folder: string, base: string)
    requires !(Exists(fs, ImagePath(folder, base, info.url)) && Exists(fs, AttributionPath(folder, base)))
    requires web.download(info.url).Some?
    requires !StartsWith(base, "/")
    ensures var after := DownloadEffect(fs, web, info, folder, base);
            && AttributionPath(folder, base) in after.files
            && after.files[AttributionPath(folder, base)] == TextFile(info.attribution)
            && ImagePath(folder, base, info.url) in after.files
            && (FileExtension(info.url) != AttributionExtension ==>
                  after.files[ImagePath(folder, base, info.url)] == Binary(web.download(info.url).value))
  {
    SlotFilesDiffer(folder, base, FileExtension(info.url), AttributionExtension);
    SlotEffectFills(fs, folder, ImagePath(folder, base, info.url), AttributionPath(folder, base),
                    web.download(info.url).value, info.attribution);
  }

  /** Downloading a slot a second time changes nothing. */
  lemma DownloadIdempotent(fs: FileSystem, web: Web, info: ImageInfo, folder: string, base: string)
    ensures var once := DownloadEffect(fs, web, info, folder, base);
            DownloadEffect(once, web, info, folder, base) == once
  {
  }

  /** The file system as the cache builder sees it. */
  class Disk {
    var files: map<string, FileData>
    var dirs: set<string>

    function State(): FileSystem
      reads this
    {
      FileSystem(files, dirs)
    }

    constructor (initial: FileSystem)
      ensures State() == initial
    {
      files := initial.files;
      dirs := initial.dirs;
    }

    /** `download_image_and_attribution`. */
    method DownloadImageAndAttribution(web: Web, info: ImageInfo, folder: string, base: string)
      modifies this
      ensures State() == DownloadEffect(old(State()), web, info, folder, base)
    {
      if !(folder in files || folder in dirs) {
        dirs := dirs + {folder};
      }
      ghost var made := State();
      assert made == if Exists(old(State()), folder) then old(State())
                     else FileSystem(old(State()).files, old(State()).dirs + {folder});
      var ext := FileExtension(info.url);
      var imagePath := Join(folder, base + ext);
      var attributionPath := Join(folder, base + AttributionExtension);
      assert imagePath == ImagePath(folder, base, info.url) && attributionPath == AttributionPath(folder, base);
      ghost var target := SlotEffect(old(State()), folder, imagePath, attributionPath, web.download(info.url), info.attribution);
      assert target == DownloadEffect(old(State()), web, info, folder, base);
      if (imagePath in files || imagePath in dirs) && (attributionPath in files || attributionPath in dirs) {
        return;
      }
      var response := web.download(info.url);
      if response.Some? {
        files := files[imagePath := Binary(response.value)];
        files := files[attributionPath := TextFile(info.attribution)];
      }
    }

    /** `process_species`: skip a species whose folder already holds enough
        images; otherwise search, and download every image found into slots
        numbered from 1. */
    method ProcessSpecies(web: Web, species: Species) returns (name: string, success: bool)
      modifies this
      ensures name == species.common
      ensures State() == ProcessSpeciesEffect(old(State()), web, species).0
      ensures success == ProcessSpeciesEffect(old(State()), web, species).1
    {
      name := species.common;
      var folderName := SanitiseFolderName(species.common);
      var folderPath := Join(CacheDirectory, folderName);
      if folderPath in dirs {
        var found := |ImageEntries(State(), folderPath)|;
        if found >= ImagesPerSpecies {
          return name, true;
        }
      }
      var infos, _ := ScrapeWikimediaForImageData(web, species.common, species.scientific, ImagesPerSpecies);
      QueryOrder(species.common, species.scientific, web, ImagesPerSpecies);
      if infos == [] {
        return name, false;
      }
      DownloadAll(web, infos, folderPath, folderName);
      return name, true;
    }

    /** The download loop of `process_species`: image i goes to slot i + 1. */
    method DownloadAll(web: Web, infos: seq<ImageInfo>, folderPath: string, folderName: string)
      modifies this
      ensures State() == StoreAll(old(State()), web, infos, folderPath, folderName)
    {
      ghost var slots := Slots(folderPath, folderName, infos);
      for i := 0 to |infos|
        invariant State() == StoreSlots(old(State()), web, folderPath, slots[..i])
      {
        StoreNextSlot(old(State()), web, infos, folderPath, folderName, i);
        DownloadImageAndAttribution(web, infos[i], folderPath, SlotBase(folderName, i + 1));
      }
      assert slots[..|infos|] == slots;
    }

    /** `ensure_cache_is_built`, one species after another: `completed`
        ends at the number of species, and `outcomes` pairs each species'
        common name with its success flag. */
    method EnsureCacheIsBuilt(web: Web, speciesFile: CsvFile)
      returns (completed: nat, outcomes: seq<(string, bool)>)
      modifies this
      ensures completed == |LoadedSpecies(speciesFile)| == |outcomes|
      ensures forall i :: 0 <= i < |outcomes| ==> outcomes[i].0 == LoadedSpecies(speciesFile)[i].common
      ensures State() == BuildEffect(old(State()), web, LoadedSpecies(speciesFile))
    {
      var species := LoadSpeciesFromFile(speciesFile);
      if species == [] {
        return 0, [];
      }
      completed, outcomes := ProcessAll(web, species);
    }

    /** The loop of `ensure_cache_is_built`. */
    method ProcessAll(web: Web, species: seq<Species>) returns (completed: nat, outcomes: seq<(string, bool)>)
      modifies this
      ensures completed == |species| == |outcomes|
      ensures forall i :: 0 <= i < |outcomes| ==> outcomes[i].0 == species[i].common
      ensures State() == BuildEffect(old(State()), web, species)
    {
      completed := 0;
      outcomes := [];
      for i := 0 to |species|
        invariant completed == i == |outcomes|
        invariant forall k :: 0 <= k < i ==> outcomes[k].0 == species[k].common
        invariant State() == BuildEffect(old(State()), web, species[..i])
      {
        BuildEffectStep(old(State()), web, species, i);
        var name, success := ProcessSpecies(web, species[i]);
        OutcomesStep(outcomes, species, i, name, success);
        outcomes := outcomes + [(name, success)];
        completed := completed + 1;
      }
      assert species[..|species|] == species;
    }
  }

  /** One more outcome, named after the next species, keeps the outcomes
      named after the species in order. */
  lemma OutcomesStep(outcomes: seq<(string, bool)>, species: seq<Species>, i: nat, name: string, success: bool)
    requires i < |species| && |outcomes| == i && name == species[i].common
    requires forall k :: 0 <= k < i ==> outcomes[k].0 == species[k].common
    ensures forall k :: 0 <= k < i + 1 ==> (outcomes + [(name, success)])[k].0 == species[k].common
  {
  }

  /** The base name of slot `i` (counted from 1) of a species folder. */
  function SlotBase(folderName: string, i: nat): string {
    folderName + "_" + NatToString(i)
  }

  /** One slot as the download loop fills it: its image and credit paths,
      the URL fetched into it and the credit written beside it. */
  datatype Slot = Slot(imagePath: string, attributionPath: string, url: string, attribution: string)

  /** Image i of a search result goes to slot i + 1. */
  function SlotFor(folder: string, folderName: string, i: nat, info: ImageInfo): Slot {
    var base := SlotBase(folderName, i + 1);
    Slot(ImagePath(folder, base, info.url), AttributionPath(folder, base), info.url, info.attribution)
  }

  function Slots(folder: string, folderName: string, infos: seq<ImageInfo>): (slots: seq<Slot>)
    ensures |slots| == |infos|
  {
    seq(|infos|, i requires 0 <= i < |infos| => SlotFor(folder, folderName, i, infos[i]))
  }

  /** One download into a slot. */
  function FillSlot(fs: FileSystem, web: Web, folder: string, slot: Slot): FileSystem {
    SlotEffect(fs, folder, slot.imagePath, slot.attributionPath, web.download(slot.url), slot.attribution)
  }

  /** Downloads into the given slots, one after another. */
  function StoreSlots(fs: FileSystem, web: Web, folder: string, slots: seq<Slot>): FileSystem {
    if slots == [] then fs
    else FillSlot(StoreSlots(fs, web, folder, slots[..|slots| - 1]), web, folder, slots[|slots| - 1])
  }

  /** Image i is downloaded into slot i + 1 after the images before it. */
  lemma StoreNextSlot(fs: FileSystem, web: Web, infos: seq<ImageInfo>, folder: string, folderName: string, i: nat)
    requires i < |infos|
    ensures StoreSlots(fs, web, folder, Slots(folder, folderName, infos)[..i + 1])
            == DownloadEffect(StoreSlots(fs, web, folder, Slots(folder, folderName, infos)[..i]), web, infos[i],
                              folder, SlotBase(folderName, i + 1))
  {
    var slots := Slots(folder, folderName, infos);
    assert slots[..i + 1][..i] == slots[..i];
    assert slots[..i + 1][i] == SlotFor(folder, folderName, i, infos[i]);
  }

  /** The downloads of `infos` into consecutive slots, one after another. */
  function StoreAll(fs: FileSystem, web: Web, infos: seq<ImageInfo>, folder: string, folderName: string): FileSystem {
    StoreSlots(fs, web, folder, Slots(folder, folderName, infos))
  }

  /** A species folder holds enough images to be skipped. */
  predicate CacheComplete(fs: FileSystem, folderPath: string) {
    folderPath in fs.dirs && |ImageEntries(fs, folderPath)| >= ImagesPerSpecies
  }

  /** The file system after `process_species(species)`, and its success flag. */
  function ProcessSpeciesEffect(fs: FileSystem, web: Web, species: Species): (FileSystem, bool) {
    var folderName := SanitiseFolderName(species.common);
    var folderPath := Join(CacheDirectory, folderName);
    if CacheComplete(fs, folderPath) then (fs, true)
    else
      var infos := SpeciesImages(web, species.common, species.scientific, ImagesPerSpecies);
      if infos == [] then (fs, false)
      else (StoreAll(fs, web, infos, folderPath, folderName), true)
  }

  /** The file system after processing `species` in order. */
  function BuildEffect(fs: FileSystem, web: Web, species: seq<Species>): FileSystem {
    if species == [] then fs
    else ProcessSpeciesEffect(BuildEffect(fs, web, species[..|species| - 1]), web, species[|species| - 1]).0
  }

  /** Building over one more species processes that species last. */
  lemma BuildEffectStep(fs: FileSystem, web: Web, species: seq<Species>, i: nat)
    requires i < |species|
    ensures BuildEffect(fs, web, species[..i + 1])
            == ProcessSpeciesEffect(BuildEffect(fs, web, species[..i]), web, species[i]).0
  {
    assert species[..i + 1][..i] == species[..i];
  }

  /** What `process_species` promises: a complete folder means success with
      nothing searched or written; failure happens exactly when no query
      yields an image, and then nothing is written either. */
  lemma ProcessSpeciesSpec(fs: FileSystem, web: Web, species: Species)
    ensures var folderPath := Join(CacheDirectory, SanitiseFolderName(species.common));
            CacheComplete(fs, folderPath) ==> ProcessSpeciesEffect(fs, web, species) == (fs, true)
    ensures var folderPath := Join(CacheDirectory, SanitiseFolderName(species.common));
            !ProcessSpeciesEffect(fs, web, species).1 <==>
              && !CacheComplete(fs, folderPath)
              && forall k :: 0 <= k < 3 ==>
                   SearchImages(web, Queries(species.common, species.scientific)[k], ImagesPerSpecies) == []
    ensures !ProcessSpeciesEffect(fs, web, species).1 ==> ProcessSpeciesEffect(fs, web, species).0 == fs
  {
    FirstNonEmptySpec(web, Queries(species.common, species.scientific), ImagesPerSpecies);
    QueryOrder(species.common, species.scientific, web, ImagesPerSpecies);
  }

  /** Slot file names never collide: `{name}_{i}{ext}` and `{name}_{j}{ext'}`
      with extensions starting with `.` are equal only when `i == j`. */
  lemma SlotNamesDistinct(folderName: string, i: nat, j: nat, ext1: string, ext2: string)
    requires ext1 != [] && ext1[0] == '.' && ext2 != [] && ext2[0] == '.'
    requires SlotBase(folderName, i) + ext1 == SlotBase(folderName, j) + ext2
    ensures i == j
  {
    var d1, d2 := NatToString(i), NatToString(j);
    var s1 := SlotBase(folderName, i) + ext1;
    var s2 := SlotBase(folderName, j) + ext2;
    var start := |folderName| + 1;
    assert s1 == folderName + "_" + d1 + ext1;
    assert s2 == folderName + "_" + d2 + ext2;
    if |d1| == |d2| {
      assert d1 == s1[start..start + |d1|];
      assert d2 == s2[start..start + |d2|];
      NatToStringInjective(i, j);
    }
  }

  /** Files of two different slots never share a path. */
  lemma SlotPathsOfDifferentSlots(folder: string, folderName: string, i: nat, j: nat, ext1: string, ext2: string)
    requires i != j && !StartsWith(folderName, "/")
    requires ext1 != [] && ext1[0] == '.' && ext2 != [] && ext2[0] == '.'
    ensures Join(folder, SlotBase(folderName, i) + ext1) != Join(folder, SlotBase(folderName, j) + ext2)
  {
    SlotBaseRelative(folderName, i);
    SlotBaseRelative(folderName, j);
    SlotNameRelative(SlotBase(folderName, i), ext1);
    SlotNameRelative(SlotBase(folderName, j), ext2);
    if Join(folder, SlotBase(folderName, i) + ext1) == Join(folder, SlotBase(folderName, j) + ext2) {
      JoinInjective(folder, SlotBase(folderName, i) + ext1, SlotBase(folderName, j) + ext2);
      SlotNamesDistinct(folderName, i, j, ext1, ext2);
    }
  }

  lemma SlotBaseRelative(folderName: string, i: nat)
    requires !StartsWith(folderName, "/")
    ensures !StartsWith(SlotBase(folderName, i), "/")
  {
    var b := SlotBase(folderName, i);
    assert b[0] == (if folderName == [] then '_' else folderName[0]);
  }

  /** Filling slots changes no path outside them and the folder. */
  lemma {:induction false} StoreSlotsFrame(fs: FileSystem, web: Web, folder: string, slots: seq<Slot>, p: string)
    requires p != folder
    requires forall k :: 0 <= k < |slots| ==> p != slots[k].imagePath && p != slots[k].attributionPath
    ensures p in StoreSlots(fs, web, folder, slots).files <==> p in fs.files
    ensures p in fs.files ==> StoreSlots(fs, web, folder, slots).files[p] == fs.files[p]
    ensures p in StoreSlots(fs, web, folder, slots).dirs <==> p in fs.dirs
  {
    if slots != [] {
      var init := slots[..|slots| - 1];
      var last := slots[|slots| - 1];
      assert forall k :: 0 <= k < |init| ==> init[k] == slots[k];
      StoreSlotsFrame(fs, web, folder, init, p);
      SlotEffectFrame(StoreSlots(fs, web, folder, init), folder, last.imagePath, last.attributionPath,
                      web.download(last.url), last.attribution, p);
    }
  }

  /** Storing images into slots 1..n changes no path outside those slots
      and the folder. */
  lemma StoreAllFrame(fs: FileSystem, web: Web, infos: seq<ImageInfo>, folder: string, folderName: string, p: string)
    requires p != folder
    requires forall j :: 1 <= j <= |infos| ==>
               p != ImagePath(folder, SlotBase(folderName, j), infos[j - 1].url)
               && p != AttributionPath(folder, SlotBase(folderName, j))
    ensures p in StoreAll(fs, web, infos, folder, folderName).files <==> p in fs.files
    ensures p in fs.files ==> StoreAll(fs, web, infos, folder, folderName).files[p] == fs.files[p]
    ensures p in StoreAll(fs, web, infos, folder, folderName).dirs <==> p in fs.dirs
  {
    var slots := Slots(folder, folderName, infos);
    forall k | 0 <= k < |slots|
      ensures p != slots[k].imagePath && p != slots[k].attributionPath
    {
      assert slots[k] == SlotFor(folder, folderName, k, infos[k]);
      assert infos[(k + 1) - 1] == infos[k];
    }
    StoreSlotsFrame(fs, web, folder, slots, p);
  }

  /** Two different slots share no file. */
  lemma SlotsDisjoint(folder: string, folderName: string, i: nat, j: nat, url1: string, url2: string)
    requires i != j && !StartsWith(folderName, "/")
    ensures ImagePath(folder, SlotBase(folderName, i), url1) != ImagePath(folder, SlotBase(folderName, j), url2)
    ensures ImagePath(folder, SlotBase(folderName, i), url1) != AttributionPath(folder, SlotBase(folderName, j))
    ensures AttributionPath(folder, SlotBase(folderName, i)) != ImagePath(folder, SlotBase(folderName, j), url2)
    ensures AttributionPath(folder, SlotBase(folderName, i)) != AttributionPath(folder, SlotBase(folderName, j))
  {
    SlotPathsOfDifferentSlots(folder, folderName, i, j, FileExtension(url1), FileExtension(url2));
    SlotPathsOfDifferentSlots(folder, folderName, i, j, FileExtension(url1), AttributionExtension);
    SlotPathsOfDifferentSlots(folder, folderName, i, j, AttributionExtension, FileExtension(url2));
    SlotPathsOfDifferentSlots(folder, folderName, i, j, AttributionExtension, AttributionExtension);
  }

  /** A slot that a download will fill: the fetch succeeds and the two
      slot files are not both present. */
  predicate SlotPending(fs: FileSystem, web: Web, info: ImageInfo, folder: string, base: string) {
    web.download(info.url).Some?
    && !(Exists(fs, ImagePath(folder, base, info.url)) && Exists(fs, AttributionPath(folder, base)))
  }

  /** A slot holding an image's attribution and, when the extension is not
      `.txt`, its bytes. */
  predicate SlotStored(fs: FileSystem, web: Web, info: ImageInfo, folder: string, base: string) {
    && AttributionPath(folder, base) in fs.files
    && fs.files[AttributionPath(folder, base)] == TextFile(info.attribution)
    && ImagePath(folder, base, info.url) in fs.files
    && (FileExtension(info.url) != AttributionExtension && web.download(info.url).Some? ==>
          fs.files[ImagePath(folder, base, info.url)] == Binary(web.download(info.url).value))
  }

  /** No two slots share a file, and no slot file is the folder itself. */
  predicate SlotsApart(folder: string, slots: seq<Slot>) {
    && (forall k :: 0 <= k < |slots| ==> slots[k].imagePath != folder && slots[k].attributionPath != folder)
    && (forall k, l :: 0 <= k < |slots| && 0 <= l < |slots| && k != l ==>
          && slots[k].imagePath != slots[l].imagePath
          && slots[k].imagePath != slots[l].attributionPath
          && slots[k].attributionPath != slots[l].attributionPath)
  }

  /** A slot a download will fill: the fetch succeeds and its two files
      are not both present. */
  predicate SlotWaiting(fs: FileSystem, web: Web, slot: Slot) {
    web.download(slot.url).Some? && !(Exists(fs, slot.imagePath) && Exists(fs, slot.attributionPath))
  }

  /** A slot holding its credit and, when its two paths differ, its bytes. */
  predicate SlotFilled(fs: FileSystem, web: Web, slot: Slot) {
    && slot.attributionPath in fs.files
    && fs.files[slot.attributionPath] == TextFile(slot.attribution)
    && slot.imagePath in fs.files
    && (slot.imagePath != slot.attributionPath && web.download(slot.url).Some? ==>
          fs.files[slot.imagePath] == Binary(web.download(slot.url).value))
  }

  /** Filling one slot keeps another, disjoint, filled slot. */
  lemma FillKeepsOtherSlot(fs: FileSystem, web: Web, folder: string, last: Slot, slot: Slot)
    requires slot.imagePath != last.imagePath && slot.imagePath != last.attributionPath
    requires slot.attributionPath != last.imagePath && slot.attributionPath != last.attributionPath
    requires SlotFilled(fs, web, slot)
    ensures SlotFilled(FillSlot(fs, web, folder, last), web, slot)
  {
    SlotEffectFrame(fs, folder, last.imagePath, last.attributionPath, web.download(last.url), last.attribution, slot.imagePath);
    SlotEffectFrame(fs, folder, last.imagePath, last.attributionPath, web.download(last.url), last.attribution, slot.attributionPath);
  }

  /** The last of a run of slots apart is filled when it was waiting before the run. */
  lemma LastSlotFilled(fs: FileSystem, web: Web, folder: string, slots: seq<Slot>)
    requires slots != [] && SlotsApart(folder, slots)
    requires SlotWaiting(fs, web, slots[|slots| - 1])
    ensures SlotFilled(StoreSlots(fs, web, folder, slots), web, slots[|slots| - 1])
  {
    var init := slots[..|slots| - 1];
    var last := slots[|slots| - 1];
    forall k | 0 <= k < |init|
      ensures last.imagePath != init[k].imagePath && last.imagePath != init[k].attributionPath
      ensures last.attributionPath != init[k].imagePath && last.attributionPath != init[k].attributionPath
    {
      assert init[k] == slots[k];
    }
    StoreSlotsFrame(fs, web, folder, init, last.imagePath);
    StoreSlotsFrame(fs, web, folder, init, last.attributionPath);
    SlotEffectFills(StoreSlots(fs, web, folder, init), folder, last.imagePath, last.attributionPath,
                    web.download(last.url).value, last.attribution);
  }

  /** Every slot that was waiting before a run of slots apart is filled after it. */
  lemma {:induction false} StoreSlotsFills(fs: FileSystem, web: Web, folder: string, slots: seq<Slot>)
    requires SlotsApart(folder, slots)
    ensures forall k :: 0 <= k < |slots| && SlotWaiting(fs, web, slots[k]) ==>
              SlotFilled(StoreSlots(fs, web, folder, slots), web, slots[k])
  {
    if slots != [] {
      var init := slots[..|slots| - 1];
      var last := slots[|slots| - 1];
      assert forall k :: 0 <= k < |init| ==> init[k] == slots[k];
      StoreSlotsFills(fs, web, folder, init);
      forall k | 0 <= k < |slots| && SlotWaiting(fs, web, slots[k])
        ensures SlotFilled(StoreSlots(fs, web, folder, slots), web, slots[k])
      {
        if k < |slots| - 1 {
          FillKeepsOtherSlot(StoreSlots(fs, web, folder, init), web, folder, last, slots[k]);
        } else {
          LastSlotFilled(fs, web, folder, slots);
        }
      }
    }
  }

  /** No file of a slot is the folder itself. */
  lemma SlotFilesInsideFolder(folder: string, folderName: string, k: nat, info: ImageInfo)
    requires !StartsWith(folderName, "/")
    ensures SlotFor(folder, folderName, k, info).imagePath != folder
    ensures SlotFor(folder, folderName, k, info).attributionPath != folder
  {
    SlotBaseRelative(folderName, k + 1);
    SlotFilesDiffer(folder, SlotBase(folderName, k + 1), FileExtension(info.url), AttributionExtension);
  }

  /** The slots of two different images share no file. */
  lemma SlotsForDifferentImages(folder: string, folderName: string, k: nat, l: nat, info1: ImageInfo, info2: ImageInfo)
    requires !StartsWith(folderName, "/") && k != l
    ensures SlotFor(folder, folderName, k, info1).imagePath != SlotFor(folder, folderName, l, info2).imagePath
    ensures SlotFor(folder, folderName, k, info1).imagePath != SlotFor(folder, folderName, l, info2).attributionPath
    ensures SlotFor(folder, folderName, k, info1).attributionPath != SlotFor(folder, folderName, l, info2).attributionPath
  {
    SlotImagesApart(folder, folderName, k, l, info1, info2);
    SlotImageApartFromCredit(folder, folderName, k, l, info1, info2);
    SlotCreditsApart(folder, folderName, k, l, info1, info2);
  }

  lemma SlotImagesApart(folder: string, folderName: string, k: nat, l: nat, info1: ImageInfo, info2: ImageInfo)
    requires !StartsWith(folderName, "/") && k != l
    ensures SlotFor(folder, folderName, k, info1).imagePath != SlotFor(folder, folderName, l, info2).imagePath
  {
    SlotsDisjoint(folder, folderName, k + 1, l + 1, info1.url, info2.url);
  }

  lemma SlotImageApartFromCredit(folder: string, folderName: string, k: nat, l: nat, info1: ImageInfo, info2: ImageInfo)
    requires !StartsWith(folderName, "/") && k != l
    ensures SlotFor(folder, folderName, k, info1).imagePath != SlotFor(folder, folderName, l, info2).attributionPath
  {
    SlotsDisjoint(folder, folderName, k + 1, l + 1, info1.url, info2.url);
  }

  lemma SlotCreditsApart(folder: string, folderName: string, k: nat, l: nat, info1: ImageInfo, info2: ImageInfo)
    requires !StartsWith(folderName, "/") && k != l
    ensures SlotFor(folder, folderName, k, info1).attributionPath != SlotFor(folder, folderName, l, info2).attributionPath
  {
    SlotsDisjoint(folder, folderName, k + 1, l + 1, info1.url, info2.url);
  }

  /** The slots of a search result's images never share a file. */
  lemma SlotsOfImagesApart(folder: string, folderName: string, infos: seq<ImageInfo>)
    requires !StartsWith(folderName, "/")
    ensures SlotsApart(folder, Slots(folder, folderName, infos))
  {
    var slots := Slots(folder, folderName, infos);
    forall k | 0 <= k < |slots|
      ensures slots[k].imagePath != folder && slots[k].attributionPath != folder
    {
      assert slots[k] == SlotFor(folder, folderName, k, infos[k]);
      SlotFilesInsideFolder(folder, folderName, k, infos[k]);
    }
    forall k, l | 0 <= k < |slots| && 0 <= l < |slots| && k != l
      ensures slots[k].imagePath != slots[l].imagePath
      ensures slots[k].imagePath != slots[l].attributionPath
      ensures slots[k].attributionPath != slots[l].attributionPath
    {
      assert slots[k] == SlotFor(folder, folderName, k, infos[k]);
      assert slots[l] == SlotFor(folder, folderName, l, infos[l]);
      SlotsForDifferentImages(folder, folderName, k, l, infos[k], infos[l]);
    }
  }

  /** Image i of a search result is stored in slot `{folder}_{i+1}`: every
      slot that was pending in the original file system ends up holding its
      image's attribution and, unless the extension is `.txt`, its bytes. */
  lemma StoreAllFillsSlots(fs: FileSystem, web: Web, infos: seq<ImageInfo>, folder: string, folderName: string)
    requires !StartsWith(folderName, "/")
    ensures forall i :: 0 <= i < |infos| && SlotPending(fs, web, infos[i], folder, SlotBase(folderName, i + 1)) ==>
              SlotStored(StoreAll(fs, web, infos, folder, folderName), web, infos[i], folder, SlotBase(folderName, i + 1))
  {
    var slots := Slots(folder, folderName, infos);
    SlotsOfImagesApart(folder, folderName, infos);
    StoreSlotsFills(fs, web, folder, slots);
    forall i | 0 <= i < |infos| && SlotPending(fs, web, infos[i], folder, SlotBase(folderName, i + 1))
      ensures SlotStored(StoreAll(fs, web, infos, folder, folderName), web, infos[i], folder, SlotBase(folderName, i + 1))
    {
      assert slots[i] == SlotFor(folder, folderName, i, infos[i]);
      SlotBaseRelative(folderName, i + 1);
      SlotFilesDiffer(folder, SlotBase(folderName, i + 1), FileExtension(infos[i].url), AttributionExtension);
    }
  }

  /** The completeness check counts images only: writing an attribution
      file never makes a folder complete or incomplete, whereas the slot
      download treats a slot as filled only when its attribution file exists
      too. */
  lemma AttributionFilesNeverCount(fs: FileSystem, folder: string, base: string, text: string)
    requires !StartsWith(base, "/")
    ensures CacheComplete(FileSystem(fs.files[AttributionPath(folder, base) := TextFile(text)], fs.dirs), folder)
            == CacheComplete(fs, folder)
  {
    var path := AttributionPath(folder, base);
    SlotNameRelative(base, AttributionExtension);
    JoinRelative(folder, base + AttributionExtension);
    assert path[|DirPrefix(folder)|..] == base + AttributionExtension;
    TxtIsNotImage(base);
    ImageEntriesIgnoreOtherFiles(fs, folder, path, TextFile(text));
  }
}
