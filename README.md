# BirdNET display: offline image cache and detection display, modelled in Dafny

This project models the offline image cache of the BirdNET-Go display and the
parts of the two display apps that decide what is shown.

The cache builder (`display/cache_builder.py`) reads the species list. It
searches Wikimedia Commons for each species with three queries in a fixed
order, picks the smallest rendition of at least 800×600 pixels on each file
page, and formats an author credit. It then stores up to three images per
species as `{folder}_{n}{ext}`, each with a `{folder}_{n}.txt` credit file,
under a folder named after the sanitised common name.

The display apps (`display/birdnet_display_enhanced.py` and
`display/birdnet_display.py`) keep a store of pinned species that expires
after 24 hours. They select at most four detections to show, pinned species
first. They fall back to cached images when an image URL is unreachable or
the detection server is down. The enhanced app also merges posted MediaMTX
settings into its YAML configuration. Lines 34-275 of `birdnet_display.py`
are the same code as lines 119-360 of `birdnet_display_enhanced.py`, so each
of these functions is modelled once. The table cites whichever file is
clearer for that member.

Modules, one per component:

| file | module | models |
|---|---|---|
| `wrappers.dfy` | `Wrappers` | `Option` and `Result` for Python's `None` and raised errors |
| `text.dfy` | `Text` | `str.strip`, `split(sep)[0]`, `rfind`, `replace`, `rsplit`, `lower`, `int()` and `f"{n}"` |
| `folder_names.dfy` | `FolderNames` | the folder-name sanitiser |
| `attribution.dfy` | `Attribution` | `format_author_name` and the stored credit line |
| `catalog.dfy` | `SpeciesCatalog` | reading and writing the species file, the API filter, the location check |
| `filesystem.dfy` | `FileStore` | the file system as a map from path to contents, `os.path.join`, `splitext`, `listdir` |
| `resolutions.dfy` | `Resolutions` | `find_optimal_image_size`, including the dimension regular expression |
| `search.dfy` | `WikimediaSearch` | one search query, URL normalisation, the three-query fallback chain |
| `cache.dfy` | `CacheBuilder` | slot download, `process_species`, `ensure_cache_is_built` (class `Disk`) |
| `resize.dfy` | `CacheResize` | the size arithmetic of `resize_cached_images` |
| `pinned.dfy` | `PinnedSpecies` | the pinned-species store (class `PinnedFile`) |
| `time_ago.dfy` | `TimeAgo` | `format_seconds_ago` |
| `cached_images.dfy` | `CachedImages` | `get_cached_image` and `get_offline_fallback_data` |
| `selection.dfy` | `DetectionSelection` | the pinned-first, de-duplicated, capped selection of `get_bird_data` |
| `bird_data.dfy` | `BirdData` | the rest of `get_bird_data`, including `DETECTION_CACHE` (class `DetectionCache`) |
| `mediamtx.dfy` | `MediaMtxConfig` | `update_mediamtx_config_api` |

The outside world is passed in as values:
- The network and the HTML parser are the oracle `WikimediaSearch.Web`. For a query it gives the parsed result links, or `None` when the request fails. For a link it gives the parsed file page (the author cell and the "Other resolutions" links), or `None`. For a URL it gives the downloaded bytes, or `None`.
- The file system is `FileStore.FileSystem`: a map from path to contents, plus a set of directories.
- Time is an integer number of seconds.
- The quick reachability check of an image URL and `parse_absolute_time_to_seconds_ago` are function parameters.
- `random.choice` is a nondeterministic choice (`:|`), and its contracts hold for every possible draw. The positions `random.sample` draws are an input: any min(len, 4) distinct positions of the species list.
- The species CSV file is already split into rows of fields. The API answers are already decoded from JSON.

Two quirks of the code, kept and stated:
- A species counts as fully cached when its folder holds three files with an image extension. The credit files are not counted, and neither is whether each image has one. A single slot, by contrast, counts as filled only when both its image and its credit file exist (`CacheBuilder.AttributionFilesNeverCount`, `CacheBuilder.DownloadSkipsFilledSlot`).
- Only the literal marker `[a]` is cut from an author name. Other bracketed markers are kept (`Attribution.MarkerFreeAuthorIsOnlyStripped`).

## Model

| member | source | states |
|---|---|---|
| `FolderNames.SanitiseFolderName` | display/cache_builder.py:288 | the folder name holds only ASCII letters, digits and underscores, and is no longer than the common name |
| `FolderNames.SanitiseIdempotent` | display/cache_builder.py:288 | sanitising a sanitised name changes nothing |
| `FolderNames.SanitiseUnderscores` | display/cache_builder.py:288 | each underscore stands for a kept space or underscore; every other kept character stays in place; only trailing spaces are dropped, so no trailing underscore comes from a trailing space |
| `Attribution.FormatAuthorNameSpec` | display/cache_builder.py:44-50 | empty input gives ""; a cleaned text of at most 20 characters is returned unchanged; a longer one is cut at its last space before index 20 (or at 20 when there is none) and gets " ..."; the result is at most 24 characters |
| `Attribution.MarkerFreeAuthorIsOnlyStripped` | display/cache_builder.py:46 | an author text without the literal `[a]` is only stripped, whatever other bracketed markers it holds |
| `Attribution.TextAfterMarkerIsDropped` | display/cache_builder.py:46 | everything from the first `[a]` on is dropped before stripping |
| `Attribution.FinalAttribution` | display/cache_builder.py:228-234 | the stored credit is "© " plus the formatted author text taken before the first `(`, or "© Wikimedia Commons" when that is empty or the page has no author cell; it is at most 26 characters |
| `Attribution.FinalAttributionIsStripped` | display/cache_builder.py:232-234 | the stored credit has no whitespace at either end, so reading it back with `strip()` returns it whole |
| `Attribution.ParenthesisedCellGivesPlaceholder` | display/cache_builder.py:232-234 | an author cell that starts with `(` gives the placeholder credit |
| `SpeciesCatalog.LoadSpeciesFromFile` | display/cache_builder.py:52-66 | the loading loop returns the species of the specification function `LoadedSpecies` |
| `SpeciesCatalog.LoadedSpeciesSpec` | display/cache_builder.py:52-63 | a missing or unreadable file gives []; the header row is skipped; entry k is the stripped pair of a data row with at least two fields whose first two are non-empty before stripping; rows are taken in file order and no such row is left out |
| `SpeciesCatalog.KeptSpeciesSources` | display/cache_builder.py:59-62 | the kept species are the stripped pairs of the kept rows, in increasing row order, each kept row once |
| `SpeciesCatalog.KeptSpeciesMembers` | display/cache_builder.py:59-62 | a pair is loaded exactly when some kept row gives it |
| `SpeciesCatalog.SaveSpeciesToFile` | display/cache_builder.py:123-135 | on success the file holds the header and one row per pair, in order; when the file cannot be written the result is false and the file is unchanged |
| `SpeciesCatalog.LoadAfterSave` | display/cache_builder.py:123-130 | loading what was saved gives back the list whenever every name is non-empty and already stripped |
| `SpeciesCatalog.FetchSpeciesFromApi` | display/cache_builder.py:96-121 | the result is `None` exactly when the request fails; otherwise it holds the stripped pairs of the entries whose names are both non-empty after stripping, in order |
| `SpeciesCatalog.ApiSpeciesAreSavable` | display/cache_builder.py:104-109 | every pair taken from the API has non-empty, stripped names |
| `SpeciesCatalog.ApiEntrySavable` | display/cache_builder.py:106-109 | one API entry yields at most one pair, and that pair has non-empty names that are already stripped |
| `SpeciesCatalog.ApiListSurvivesSaveAndLoad` | display/cache_builder.py:104-109 | a species list fetched from the API, saved and loaded again is unchanged |
| `SpeciesCatalog.CheckLocationSettings` | display/cache_builder.py:68-94 | unknown exactly when the request fails; set exactly when both coordinates are present, not both 0, latitude in [-90, 90] and longitude in [-180, 180]; not set otherwise |
| `Resolutions.ParseDimensions` | display/cache_builder.py:187-190 | agrees with the code as written whenever the code does not raise, and skips the entry when it would raise |
| `Resolutions.CommaOnlyGroupRaises` | display/cache_builder.py:187-190 | a dimension text whose first group is only a comma makes `int('')` raise |
| `Resolutions.ThousandsSeparatorsDropped` | display/cache_builder.py:186-190 | "1,024 × 768" parses as 1024 by 768: commas are dropped before conversion |
| `Resolutions.FindOptimalImageSize` | display/cache_builder.py:171-206 | the loop and the stable sort return the URL of the specification function `OptimalImageUrl` |
| `Resolutions.FirstSmallestIsFirstMinimum` | display/cache_builder.py:201-204 | the chosen candidate has no more pixels than any other and strictly fewer than every earlier one, as a stable sort leaves it first |
| `Resolutions.SuitableImageSources` | display/cache_builder.py:182-199 | the suitable images are the links meeting both floors, in link order, none left out |
| `Resolutions.OptimalImageUrlSpec` | display/cache_builder.py:171-206 | `None` exactly when the section is absent or no link is at least 800 wide and 600 high; otherwise the href of such a link with the fewest pixels among them, earlier than every other such link with as few |
| `Resolutions.OptimalImageIsFirstMinimum` | display/cache_builder.py:193-204 | when some link qualifies, the chosen href is the first qualifying link with the fewest pixels |
| `Resolutions.SmallestQualifyingRenditionChosen` | display/cache_builder.py:193-204 | of 600×600, 1024×1024 and 800×600 renditions, the 800×600 one is chosen |
| `WikimediaSearch.NormaliseUrl` | display/cache_builder.py:240-243 | the result never starts with `/` and ends with the original reference |
| `WikimediaSearch.NormaliseUrlMakesAbsolute` | display/cache_builder.py:240-243 | a reference starting with `/` becomes an absolute `https://` URL: `//host/path` keeps its host, `/path` lands on `https://commons.wikimedia.org/` with its path kept; any other reference is left as it is |
| `WikimediaSearch.NormaliseUrlIdempotent` | display/cache_builder.py:240-243 | normalising twice is normalising once |
| `WikimediaSearch.ThumbnailToFullResolution` | display/cache_builder.py:247-248 | a thumbnail URL `{host}/thumb{path}/{w}px-{name}` gives the original `{host}{path}` |
| `WikimediaSearch.Dedup` | display/cache_builder.py:218 | the result holds exactly the input's elements, each once |
| `WikimediaSearch.DedupKeepsFirstOccurrenceOrder` | display/cache_builder.py:218 | the de-duplicated links are in order of first occurrence |
| `WikimediaSearch.DedupOfDistinct` | display/cache_builder.py:218 | a list without repeats is its own de-duplication |
| `WikimediaSearch.Candidates` | display/cache_builder.py:218 | at most `num_images` links are examined: a prefix of the de-duplicated links, all of them when fewer |
| `WikimediaSearch.ImagesOfSources` | display/cache_builder.py:218-251 | image k comes from candidate `source[k]`, and the sources increase: images keep candidate order |
| `WikimediaSearch.FetchAndParseWikimediaSearch` | display/cache_builder.py:208-255 | the loop over the candidates returns the images of the specification function `SearchImages` |
| `WikimediaSearch.SearchImagesSpec` | display/cache_builder.py:208-255 | a query yields at most `num_images` images, none when the search request fails; each comes from one of the examined links and carries a "© " credit |
| `WikimediaSearch.FirstNonEmptySpec` | display/cache_builder.py:260-263 | the chain returns [] exactly when every query yields nothing; otherwise the images of the first query that yields any |
| `WikimediaSearch.ScrapeWikimediaForImageData` | display/cache_builder.py:257-263 | the queries sent are a prefix of the three in order; the result is that of the last one sent, every earlier one yielded nothing, and all three are sent only when the first two yield nothing |
| `WikimediaSearch.QueryOrder` | display/cache_builder.py:259-263 | the queries are tried in the order "{c} {s} bird", "{s} bird", "{c} bird" |
| `CacheBuilder.FileExtension` | display/cache_builder.py:269 | the extension starts with `.` and holds no `/`; it is `.jpg` or the extension of the URL cut at its first `(` |
| `CacheBuilder.FileExtensionHasOneDot` | display/cache_builder.py:269 | the extension holds only its leading `.` |
| `CacheBuilder.DownloadFrame` | display/cache_builder.py:265-277 | no path other than the slot's two files changes, and no directory other than the folder is created |
| `CacheBuilder.DownloadSkipsFilledSlot` | display/cache_builder.py:272 | when both `{base}{ext}` and `{base}.txt` exist, no file changes |
| `CacheBuilder.DownloadFailureWritesNothing` | display/cache_builder.py:273-282 | a failed fetch writes neither file |
| `CacheBuilder.DownloadFillsSlot` | display/cache_builder.py:273-277 | a successful fetch into an unfilled slot leaves the credit in `{base}.txt` and the bytes in `{base}{ext}` |
| `CacheBuilder.DownloadIdempotent` | display/cache_builder.py:265-277 | downloading a slot a second time changes nothing |
| `CacheBuilder.Disk.DownloadImageAndAttribution` | display/cache_builder.py:265-282 | the new file system is the specification function `DownloadEffect` of the old one |
| `CacheBuilder.Disk.DownloadAll` | display/cache_builder.py:306-307 | the download loop leaves the file system `StoreAll` describes: image i downloaded into slot base `{folder}_{i+1}`, in order |
| `CacheBuilder.Disk.ProcessSpecies` | display/cache_builder.py:285-309 | returns the common name, and the new file system and success flag of `ProcessSpeciesEffect` |
| `CacheBuilder.Disk.EnsureCacheIsBuilt` | display/cache_builder.py:311-334 | the completed counter ends at the number of loaded species; one outcome per species, in order; the file system is that of processing each species in turn |
| `CacheBuilder.Disk.ProcessAll` | display/cache_builder.py:319-332 | the loop over the species keeps the counter, the outcomes and the file system in step |
| `CacheBuilder.ProcessSpeciesSpec` | display/cache_builder.py:291-309 | a complete folder gives success with nothing searched or written; failure happens exactly when the folder is not complete and all three queries yield nothing, and then nothing is written |
| `CacheBuilder.SlotNamesDistinct` | display/cache_builder.py:307 | `{folder}_{i}{ext}` and `{folder}_{j}{ext'}` are equal only when i = j |
| `CacheBuilder.SlotPathsOfDifferentSlots` | display/cache_builder.py:306-307 | files of two different slots never share a path |
| `CacheBuilder.SlotsDisjoint` | display/cache_builder.py:306-307 | neither the image nor the credit file of one slot is a file of another slot |
| `CacheBuilder.StoreAllFrame` | display/cache_builder.py:306-307 | storing into slots 1..n changes no path outside those slots and the folder |
| `CacheBuilder.StoreAllFillsSlots` | display/cache_builder.py:306-307 | candidate i is stored under slot base `{folder}_{i+1}`: every slot whose fetch succeeds and that was not filled ends up holding its credit and bytes |
| `CacheBuilder.SlotsOfImagesApart` | display/cache_builder.py:306-307 | the slots of a search result's images share no file, and none of their files is the folder itself |
| `CacheBuilder.AttributionFilesNeverCount` | display/cache_builder.py:292-294 | writing a credit file never makes a folder complete or incomplete |
| `FileStore.TxtIsNotImage` | display/cache_builder.py:293 | a `.txt` name never counts as an image |
| `FileStore.ImageEntriesIgnoreOtherFiles` | display/cache_builder.py:293 | adding a non-image file does not change the images a folder counts |
| `CacheResize.ResizeFills` | display/cache_builder.py:349-357 | a resized image fills the 800×600 screen: the side with the larger factor hits its target exactly and the other is scaled by the same factor and truncated |
| `CacheResize.ResizeShrinksOnlyLargeImages` | display/cache_builder.py:349-357 | a resized image gets no larger in either direction exactly when it is at least 800×600 |
| `CacheResize.ResizeCachedImages` | display/cache_builder.py:336-364 | the walk makes one decision per image file, in walk order, as `PassOver` defines |
| `CacheResize.PassOverNames` | display/cache_builder.py:341-343 | every file with an image extension gets a decision, and only those files do |
| `PinnedSpecies.NewPin` | display/birdnet_display_enhanced.py:144-147 | a new entry is pinned until now + 24 hours and is not dismissed |
| `PinnedSpecies.AddedSpec` | display/birdnet_display_enhanced.py:139-148 | a name already present, dismissed or not, leaves the store unchanged; a new name gains exactly one undismissed 24-hour entry and no other entry changes |
| `PinnedSpecies.AddedIsActiveForADay` | display/birdnet_display_enhanced.py:139-148 | a newly added species is active for exactly the next 24 hours |
| `PinnedSpecies.DismissedSpec` | display/birdnet_display_enhanced.py:150-157 | dismissing flags the named entry only, removes nothing, and that name is never active afterwards |
| `PinnedSpecies.AllDismissedSpec` | display/birdnet_display_enhanced.py:463-468 | dismissing all flags every entry, removes none, keeps every expiry time, and leaves nothing active |
| `PinnedSpecies.SweepSpec` | display/birdnet_display_enhanced.py:159-176 | the active entries are among those kept; dismissed, unexpired entries are kept; the sweep is idempotent and does not change which entries are active |
| `PinnedSpecies.SweepPins` | display/birdnet_display_enhanced.py:165-171 | the loop returns exactly the entries not dismissed with now < until, and keeps exactly the entries with now < until |
| `PinnedSpecies.ExpiredPinSurvivesAsWritten` | display/birdnet_display_enhanced.py:173-174 | as written, an expired entry with no dismissed entry beside it stays in the file, and re-adding that species then pins nothing |
| `PinnedSpecies.ExpiredPinIsRepinned` | display/birdnet_display_enhanced.py:165-174 | when the sweep is always written back, the same species is pinned again |
| `PinnedSpecies.SweepsAgreeOnActive` | display/birdnet_display_enhanced.py:165-174 | the sweep as written and the corrected sweep leave the same active species; the as-written store keeps every unexpired entry and differs only by expired entries it did not delete |
| `PinnedSpecies.PinnedFile.AddPinnedSpecies` | display/birdnet_display.py:54-63 | the new store is `Added` of the old one |
| `PinnedSpecies.PinnedFile.DismissPinnedSpecies` | display/birdnet_display.py:65-72 | returns true exactly when the name is present; the new store is `Dismissed` of the old one |
| `PinnedSpecies.PinnedFile.DismissAllPinned` | display/birdnet_display.py:377-383 | the loop flags every entry: the new store is `AllDismissed` of the old one |
| `PinnedSpecies.PinnedFile.GetActivePinnedSpeciesAsWritten` | display/birdnet_display.py:74-91 | returns the active entries; writes the swept store back only when it and the active set differ in size |
| `PinnedSpecies.PinnedFile.GetActivePinnedSpecies` | display/birdnet_display_enhanced.py:159-176 | returns the active entries; afterwards the store is the old store minus the entries with now ≥ until |
| `TimeAgo.FormatSecondsAgoSpec` | display/birdnet_display_enhanced.py:211-217 | below 60 s the label counts seconds, below 3600 s minutes, below 86400 s hours, otherwise days; the count is the number of whole units elapsed |
| `TimeAgo.FormatSecondsAgoDistinguishes` | display/birdnet_display.py:126-132 | two ages share a label only when they fall in the same band and count the same number of whole units |
| `CachedImages.GetCachedImage` | display/birdnet_display_enhanced.py:246-259 | `None` exactly when the sanitised folder is missing or holds no image file; otherwise the asset of one of its image files, with the stripped `.txt` contents or "" as credit |
| `CachedImages.StoredSlotIsCandidate` | display/birdnet_display_enhanced.py:249-252 | an image the cache builder stored with an image extension is among those `get_cached_image` draws from |
| `CachedImages.SlotImageStem` | display/birdnet_display_enhanced.py:253 | the stem of a stored image's name is its slot base |
| `CachedImages.SlotCredit` | display/birdnet_display_enhanced.py:253-256 | the credit read beside a stored image is its stored credit, stripped |
| `CachedImages.StoredSlotShowsItsAttribution` | display/birdnet_display_enhanced.py:253-256 | a drawn image that the cache builder stored shows exactly the credit the builder wrote |
| `CachedImages.GetOfflineFallbackData` | display/birdnet_display.py:176-191 | for the drawn positions (min(len, 4) distinct positions of the species list), collects in order an offline card for each sampled species with a cached image, and for no other |
| `CachedImages.OfflineFallbackSpec` | display/birdnet_display.py:176-191 | an empty list gives []; at most min(len, 4) cards, for distinct sampled species with a cached image; every such species is shown; each card has confidence 0, time "Offline" and is offline |
| `DetectionSelection.SelectBirds` | display/birdnet_display_enhanced.py:300-323 | the selection loops return the specification function `Selection` |
| `DetectionSelection.GroupNames` | display/birdnet_display_enhanced.py:304-311 | a name is in a group exactly when it is detected and its membership in the active set matches the group |
| `DetectionSelection.GroupCommutes` | display/birdnet_display_enhanced.py:304-319 | keeping the first bird of each name and splitting into groups can be done in either order |
| `DetectionSelection.FirstOfEachNameSpec` | display/birdnet_display_enhanced.py:313-319 | no name twice; each bird is the first detection of its name; the order is that of first detection |
| `DetectionSelection.GroupSources` | display/birdnet_display_enhanced.py:304-311 | a group is the birds of the input that belong to it, flagged, in input order, none left out |
| `DetectionSelection.SelectionSources` | display/birdnet_display_enhanced.py:321-323 | each shown bird is a first detection; the first `pinnedCount` are the pinned ones; each group keeps input order |
| `DetectionSelection.SelectionFlags` | display/birdnet_display_enhanced.py:300-323 | at most 4 birds; each is the first detection of its species, with `is_pinned` true exactly when the species is active |
| `DetectionSelection.SelectionPinnedFirst` | display/birdnet_display_enhanced.py:321-323 | every pinned bird comes before every unpinned one |
| `DetectionSelection.SelectionOrder` | display/birdnet_display_enhanced.py:304-319 | within each group, birds are in order of first detection |
| `DetectionSelection.SelectionDistinct` | display/birdnet_display_enhanced.py:300-323 | no species is shown twice |
| `DetectionSelection.SelectionComplete` | display/birdnet_display_enhanced.py:321-323 | with fewer than 4 shown, every detected species is shown; an active species is left out only when 4 pinned birds fill the list |
| `BirdData.CheckImages` | display/birdnet_display_enhanced.py:325-338 | a bird with no image URL or an unreachable one takes the URL and credit of one of its cached images, if any; other birds are unchanged |
| `BirdData.DetectionIdOfSameKeys` | display/birdnet_display_enhanced.py:340 | the list id depends only on the names and detection times |
| `BirdData.ImageCheckKeepsId` | display/birdnet_display_enhanced.py:325-340 | the image check changes only images and credits, so the list id is that of the selection |
| `BirdData.DetectionCache.Refresh` | display/birdnet_display.py:255-262 | a matching id reuses the cached list and leaves the cache unchanged; otherwise both id and list are replaced; the cached id always belongs to the cached list |
| `BirdData.DisplayCards` | display/birdnet_display_enhanced.py:349-354 | one card per bird, in order, with its age label and its confidence as a percentage |
| `BirdData.NewSpeciesArePinned` | display/birdnet_display_enhanced.py:292-295 | every species reported new is pinned afterwards; nothing is unpinned, and nothing else is pinned |
| `BirdData.GetBirdData` | display/birdnet_display_enhanced.py:278-360 | offline exactly when the request fails, the body is not a non-empty list, or nothing parses, with state unchanged and fallback cards; otherwise new species are pinned, the expired pins are deleted from the store by the corrected sweep (see Findings), the cache id is that of the selection; on a new id the cached list is the selection with each image checked, on a repeated id the previous cached list is kept; and the cards shown are the cached list, one per bird, at most 4 |
| `MediaMtxConfig.SetRunKeys` | display/birdnet_display_enhanced.py:622-625 | only `runOnInit` and `runOnInitRestart` are taken from the posted path settings; every other key of the entry is kept |
| `MediaMtxConfig.MergePaths` | display/birdnet_display_enhanced.py:616-625 | the loop over posted paths returns the specification function `MergePathsResult` |
| `MediaMtxConfig.MergedPathsStep` | display/birdnet_display_enhanced.py:618-625 | merging one more posted path replaces that path's entry by its merged entry and changes no other path |
| `MediaMtxConfig.UpdateMediaMtxConfig` | display/birdnet_display_enhanced.py:599-637 | load, merge and save give the outcome of `UpdateResult`: load failure, a merge that raises, save failure, or the saved configuration with a restart warning |
| `MediaMtxConfig.MergeKeepsOtherKeys` | display/birdnet_display_enhanced.py:607-613 | other top-level keys are unchanged; `logLevel` and `rtspAddress` are overwritten only when posted; `paths` is untouched when no paths are posted |
| `MediaMtxConfig.MergeSettingsPaths` | display/birdnet_display_enhanced.py:616-625 | when paths are posted, `paths` is present afterwards, an empty mapping when it was missing; over a mapping it is the merge of the posted paths; over any other value the post got through only when every posted name is already in it and no run key is posted, and `paths` is unchanged |
| `MediaMtxConfig.NonMappingPathsSpec` | display/birdnet_display_enhanced.py:618-625 | over a `paths` value that is not a mapping, a posted name is "in" a list when the list holds that string and "in" a string when it is a substring; any other value, a name not in it, or a posted run key makes the merge raise |
| `MediaMtxConfig.ListOfPathNamesIsKept` | display/birdnet_display_enhanced.py:616-631 | `paths: [cam1]` with `cam1` posted without run keys is saved unchanged rather than raising |
| `MediaMtxConfig.MergedEntrySpec` | display/birdnet_display_enhanced.py:620-625 | a merged entry sets the posted run keys and keeps every other key |
| `MediaMtxConfig.MergePathsSpec` | display/birdnet_display_enhanced.py:616-625 | paths not posted are unchanged; every posted path has an entry, created when missing; the merge raises exactly when a posted path with a run key has an entry that is not a mapping |
| `MediaMtxConfig.MergePathsIdempotent` | display/birdnet_display_enhanced.py:616-625 | posting the same paths twice is posting them once |
| `MediaMtxConfig.MergeIdempotent` | display/birdnet_display_enhanced.py:607-625 | posting the same settings twice is posting them once |

## Left out

- HTTP, HTML parsing and the Wikimedia markup (`requests`, BeautifulSoup, CSS selectors, `urljoin` of result links, `quote_plus`): search results, file pages and downloads are the oracle `Web`. The `href` of a result is used as given, with no `urljoin`.
- Result links are de-duplicated by their (`href`, `data-src`) pair (`WikimediaSearch.Dedup`). `dict.fromkeys` over BeautifulSoup tags compares whole tags, so two anchors with the same `href` and `data-src` that differ in another attribute or child are both examined by the code, while the model examines only the first and may then reach a later link.
- The author cell is taken as its text, already joined with single spaces. BeautifulSoup's `get_text(strip=True, separator=' ')` is not modelled.
- Display requests run one at a time in the model. Flask's development server (`app.run`, birdnet_display_enhanced.py line 659 and birdnet_display.py line 396) serves each request on its own thread. Each pinned-store operation loads, changes and saves `pinned_species.json` without a lock: add at lines 141-148, dismiss at 152-155, the sweep at 161-174 and dismiss-all at 466-469. `DETECTION_CACHE` (line 117) is shared by every request. `PinnedSpecies.PinnedFile`'s methods and `BirdData.DetectionCache.Refresh` are modelled as atomic. Interleaved requests can lose a pin or a dismissal, for example when `/data` saves a copy it loaded before a dismissal was saved; this is not modelled.
- Concurrency: the thread pool, `as_completed`, `print_lock` and the shared `requests` session. `ensure_cache_is_built` is modelled as a loop over the species in list order. The source completes species in whatever order the pool yields. When the sanitised folder names of the catalog's species are pairwise distinct, the species write disjoint folders, so the final counter and the final file system are those of the loop; completion order is not claimed.
- Two catalog species with the same sanitised folder name (a duplicate row, or names that differ only in dropped characters, such as "Grey Heron" and "Grey Heron."): in the pool both can find the folder incomplete and download into `{folder}_1..3` at the same time, so one species' image can end up beside the other's credit, and different extensions can leave extra images in a slot. The sequential model finds the folder complete and skips the second species; this race is not modelled.
- Console output, colour codes and logging.
- File-system errors: a directory that cannot be created and a write that raises `IOError` are not modelled.
- `CachedImages.GetCachedImage`: reading the credit file is modelled only for a text file or no entry at the path. `ReadCredit` gives `""` for anything else. The code (`get_cached_image`, lines 255-256) opens whatever `os.path.exists` finds. A directory named `{stem}.txt` makes `open` raise `IsADirectoryError`. A file that is not valid UTF-8 makes `read` raise `UnicodeDecodeError`. Neither `get_bird_data` (line 357 catches only `RequestException`) nor `get_offline_fallback_data` catches these, so the request fails. A binary file that happens to decode is shown as its stripped text. None of these three cases is modelled. `os.makedirs` creates only the species folder in the model, not its parents.
- A download whose image write succeeds but whose credit write raises would leave a half-written slot. This case is not modelled: a successful fetch always writes both files.
- Unicode: `str.isalnum()` and `str.lower()` are modelled on ASCII letters and digits only, and `\d` on ASCII digits. Non-ASCII letters in a common name are dropped by the model but kept by Python.
- `CacheResize.ResizeFills`: the scale factor is exact rational arithmetic truncated to integers. Python's float division can round a side one pixel lower. PIL's resampling and saving are not modelled.
- `CacheResize.ResizeCachedImages`: a file that does not open as an image is recorded as raising and skipped; why it fails is not modelled.
- `MediaMtxConfig.MergeSettings`: assumes the shapes the endpoint expects. The posted body is an object, `paths` in it maps names to objects (`Request`), and the loaded YAML is a mapping (`Mapping`). A posted body of another shape, or a top-level YAML list, raises at lines 608-621 and is answered with a 500 (lines 636-637); these requests are not modelled.
- `BirdData.GetBirdData`: composes the corrected sweep `PinnedSpecies.PinnedFile.GetActivePinnedSpecies`, so its store afterwards is `Unexpired` of the pinned store. The code (`get_bird_data`, line 298, calling `get_active_pinned_species`, lines 173-174) writes the swept store back only when its size differs from the active set's, so an expired entry can stay in the file (`PinnedSpecies.StoreAfterSweepAsWritten`, see Findings). The species shown by this call are the same either way (`PinnedSpecies.SweepsAgreeOnActive`); the difference shows on a later call, where the code ignores a re-add of the stale species and the model pins it again.
- `Resolutions.ParseDimensions`: an entry whose dimension group has commas but no digit is skipped. The code raises `ValueError` there (see Findings).
- Time: `datetime.now`, `fromisoformat` and `strptime` are integer seconds. `parse_absolute_time_to_seconds_ago` is a function parameter. `format_seconds_ago` is modelled on whole seconds, while the code accepts a float.
- The species API body is assumed to have the shape the code expects. A null name or a body that is not a JSON object makes the code raise an uncaught error; this is not modelled.
- `parse_v2_detection_item` is abstracted to an optional parsed bird. Its `int(confidence * 100)` float conversion is not modelled.
- The quick image check (`check_image_url_fast`) is a function parameter. `get_local_ip`, Flask's `url_for` and the QR code are left out. The static URL of a cached image is modelled as `/static/bird_images_cache/{folder}/{file}`.
- `get_cached_image` draws from the set of image names. The sorting before `random.choice` is not modelled; it does not change which images can be drawn.
- JSON and YAML loading and saving of the pinned store, the display configuration, the BirdNET configuration and the MediaMTX configuration. A missing or unreadable pinned file reads as empty. The MediaMTX load result and save outcome are inputs.
- The BirdNET configuration update and its `float()` coercions, the display configuration endpoints, and the MediaMTX read endpoint.
- Device control: brightness, reboot, power-off, service restarts. A failed MediaMTX restart is an input flag.
- The interactive prompts of `update_species_list_from_api` and the command-line entry points.
- `internal/api/v2/notifications_new_species_test.go` is not part of this model: it tests an HTTP handler whose code is not shown.

## Findings

| source | as written | input that shows it | evidently intended | confidence | as-written member | corrected member |
|---|---|---|---|---|---|---|
| display/birdnet_display_enhanced.py:173-174 | the swept store is written back only when it and the active set differ in size, so a deleted expired entry is not saved when no dismissed entry remains | store `{"Wren": until 100, not dismissed}` swept at time 200: nothing is active, nothing is kept, both sizes are 0, and the file keeps the expired entry; a later `add_pinned_species("Wren")` is then ignored | write the swept store back whenever an expired entry was deleted | medium, not executed | `PinnedSpecies.ExpiredPinSurvivesAsWritten` | `PinnedSpecies.PinnedFile.GetActivePinnedSpecies` |
| display/cache_builder.py:187-190 | the pattern `[\d,]+` accepts a group of commas only, and `int('')` then raises `ValueError`; nothing on the way up catches it, so the build stops at `future.result()` | a resolution link whose text is ", × 600" | skip the entry, as an entry whose text does not match is skipped | low, not executed | `Resolutions.CommaOnlyGroupRaises` | `Resolutions.ParseDimensions` |
