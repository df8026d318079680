/** Finding images on Wikimedia Commons: one search query
    (`_fetch_and_parse_wikimedia_search`, display/cache_builder.py lines
    208-255) and the three-query fallback chain
    (`scrape_wikimedia_for_image_data`, lines 257-263). The network and the
    HTML parser are an oracle `Web`. */
module WikimediaSearch {
  import opened Wrappers
  import opened Text
  import opened Attribution
  import opened Resolutions

  const BaseUrl: string := "https://commons.wikimedia.org"
  const ThumbSegment: string := "/thumb"

  /** An `a.sdms-image-result` of the search page: the file page it links
      to and the `data-src` of its `img` (`None` when the link holds no
      `img` or the `img` has no `data-src`). */
  datatype SearchResult = SearchResult(href: string, dataSrc: Option<string>)

  /** What the parser finds on a file page: the text of the cell next to the
      "Author" header, and the "Other resolutions" links. */
  datatype FilePage = FilePage(authorCell: Option<string>, resolutions: Option<seq<ResolutionLink>>)

  /** One image to download: its URL and its attribution line. */
  datatype ImageInfo = ImageInfo(url: string, attribution: string)

  /** The network as the cache builder sees it. `search(q)` is the parsed
      result list of the search page for `q`, `None` when that request
      raises; `page(href)` is the parsed file page behind a result,
      `None` when its request raises; `download(url)` is the body of a
      successful image download, `None` on any request error. */
  datatype Web = Web(
    search: string -> Option<seq<SearchResult>>,
    page: string -> Option<FilePage>,
    download: string -> Option<seq<bv8>>)

  /** Lines 240-243: a network-path reference (`//host/path`) gets the
      `https:` scheme and an absolute-path reference (`/path`) gets the
      Commons origin, as section 4.2 of RFC 3986 resolves them against
      `https://commons.wikimedia.org`; anything else is kept. */
  function NormaliseUrl(url: string): (r: string)
    ensures !StartsWith(r, "/")
    ensures EndsWith(r, url)
  {
    if StartsWith(url, "//") then
      assert ("https:" + url)[..1] == "h";
      assert ("https:" + url)[6..] == url;
      "https:" + url
    else if StartsWith(url, "/") then
      assert (BaseUrl + url)[..1] == "h";
      assert (BaseUrl + url)[|BaseUrl|..] == url;
      BaseUrl + url
    else url
  }

  /** A reference starting with `/` becomes an absolute `https` URL: a
      network-path reference keeps its own host, an absolute-path reference
      lands on the Commons origin with its path kept; anything else is
      left as it is. */
  lemma NormaliseUrlMakesAbsolute(url: string)
    ensures StartsWith(url, "/") ==> StartsWith(NormaliseUrl(url), "https://")
    ensures StartsWith(url, "//") ==> NormaliseUrl(url) == "https:" + url
    ensures StartsWith(url, "/") && !StartsWith(url, "//") ==> StartsWith(NormaliseUrl(url), BaseUrl + "/")
    ensures !StartsWith(url, "/") ==> NormaliseUrl(url) == url
  {
    if StartsWith(url, "//") {
      assert ("https:" + url)[..8] == "https:" + url[..2];
    } else if StartsWith(url, "/") {
      assert (BaseUrl + url)[..|BaseUrl| + 1] == BaseUrl + url[..1];
    }
  }

  /** A normalised URL is normalised already. */
  lemma NormaliseUrlIdempotent(url: string)
    ensures NormaliseUrl(NormaliseUrl(url)) == NormaliseUrl(url)
  {
  }

  /** Line 248: the thumbnail URL without its `/thumb` segments and without
      its last path segment (the thumbnail's own file name). */
  function FullResolutionUrl(thumbnail: string): (r: string)
    ensures |r| <= |thumbnail|
  {
    BeforeLast(RemoveAll(thumbnail, ThumbSegment), '/')
  }

  /** `replace` leaves a prefix in which the pattern does not start untouched. */
  lemma {:induction false} RemoveAllSkipsPrefix(a: string, rest: string, pat: string)
    requires pat != []
    requires forall i :: 0 <= i < |a| ==> !OccursAt(a + rest, pat, i)
    ensures RemoveAll(a + rest, pat) == a + RemoveAll(rest, pat)
    decreases |a|
  {
    if a != [] {
      var s := a + rest;
      var t := a[1..] + rest;
      assert s[1..] == t;
      forall i | 0 <= i < |a| - 1
        ensures !OccursAt(t, pat, i)
      {
        assert !OccursAt(s, pat, i + 1);
        if i + |pat| <= |t| {
          assert s[i + 1..i + 1 + |pat|] == t[i..i + |pat|];
        }
      }
      RemoveAllSkipsPrefix(a[1..], rest, pat);
      if |s| < |pat| {
        assert RemoveAll(t, pat) == t;
        assert RemoveAll(rest, pat) == rest;
        assert RemoveAll(s, pat) == s;
      } else {
        assert !OccursAt(s, pat, 0);
        assert s[..|pat|] != pat;
        assert RemoveAll(s, pat) == [s[0]] + RemoveAll(t, pat);
        assert [s[0]] + (a[1..] + RemoveAll(rest, pat)) == a + RemoveAll(rest, pat);
      }
    } else {
      assert a + rest == rest;
    }
  }

  /** Wikimedia thumbnail URLs have the shape
      `{host}/thumb{path}/{width}px-{name}`; the fallback turns them into the
      original's `{host}{path}`. */
  lemma ThumbnailToFullResolution(host: string, path: string, thumbName: string)
    requires forall i :: 0 <= i < |host| ==> !OccursAt(host + ThumbSegment + path + "/" + thumbName, ThumbSegment, i)
    requires forall i :: !OccursAt(path + "/" + thumbName, ThumbSegment, i)
    requires '/' !in thumbName
    ensures FullResolutionUrl(host + ThumbSegment + path + "/" + thumbName) == host + path
  {
    var tail := path + "/" + thumbName;
    assert host + ThumbSegment + path + "/" + thumbName == host + (ThumbSegment + tail);
    RemoveAllSkipsPrefix(host, ThumbSegment + tail, ThumbSegment);
    assert (ThumbSegment + tail)[..|ThumbSegment|] == ThumbSegment;
    assert (ThumbSegment + tail)[|ThumbSegment|..] == tail;
    assert tail + [] == tail;
    RemoveAllSkipsPrefix(tail, [], ThumbSegment);
    var joined := host + tail;
    assert joined == (host + path) + "/" + thumbName;
    var r := BeforeLast(joined, '/');
    assert joined[|host + path|] == '/';
    assert joined[|host + path| + 1..] == thumbName;
    assert |r| == |host + path|;
  }

  /** `list(dict.fromkeys(xs))`: the elements of `xs` in the order of their
      first occurrence, each once. */
  function Dedup<T(==, !new)>(xs: seq<T>): (r: seq<T>)
    ensures |r| <= |xs|
    ensures forall x :: x in r <==> x in xs
    ensures forall i, j :: 0 <= i < j < |r| ==> r[i] != r[j]
  {
    if xs == [] then []
    else
      var d := Dedup(xs[..|xs| - 1]);
      var x := xs[|xs| - 1];
      if x in d then d else d + [x]
  }

  /** `xs.index(x)`. */
  function FirstIndex<T(==)>(xs: seq<T>, x: T): (i: nat)
    requires x in xs
    ensures i < |xs| && xs[i] == x && x !in xs[..i]
  {
    if xs[0] == x then 0 else 1 + FirstIndex(xs[1..], x)
  }

  lemma FirstIndexUnique<T>(xs: seq<T>, x: T, i: nat)
    requires i < |xs| && xs[i] == x && x !in xs[..i]
    ensures FirstIndex(xs, x) == i
  {
  }

  /** The de-duplicated list is ordered by first occurrence in the input. */
  lemma {:induction false} DedupKeepsFirstOccurrenceOrder<T(!new)>(xs: seq<T>)
    ensures forall i, j :: 0 <= i < j < |Dedup(xs)| ==>
              FirstIndex(xs, Dedup(xs)[i]) < FirstIndex(xs, Dedup(xs)[j])
  {
    if xs != [] {
      var init := xs[..|xs| - 1];
      var x := xs[|xs| - 1];
      var d := Dedup(init);
      DedupKeepsFirstOccurrenceOrder(init);
      forall y | y in init
        ensures FirstIndex(xs, y) == FirstIndex(init, y)
      {
        var k := FirstIndex(init, y);
        assert xs[..k] == init[..k];
        FirstIndexUnique(xs, y, k);
      }
      if x !in d {
        assert xs[..|init|] == init;
        FirstIndexUnique(xs, x, |init|);
      }
    }
  }

  /** A list without repeats is its own de-duplication. */
  lemma {:induction false} DedupOfDistinct<T(!new)>(xs: seq<T>)
    requires forall i, j :: 0 <= i < j < |xs| ==> xs[i] != xs[j]
    ensures Dedup(xs) == xs
  {
    if xs != [] {
      var init := xs[..|xs| - 1];
      DedupOfDistinct(init);
      assert xs[|xs| - 1] !in init;
      assert init + [xs[|xs| - 1]] == xs;
    }
  }

  function Min(a: nat, b: nat): nat { if a <= b then a else b }

  /** `list(dict.fromkeys(result_elements))[:num_images]`. */
  function Candidates(results: seq<SearchResult>, numImages: nat): (r: seq<SearchResult>)
    ensures |r| <= numImages && |r| <= |Dedup(results)|
    ensures r == Dedup(results)[..|r|]
    ensures |r| == numImages || r == Dedup(results)
  {
    var d := Dedup(results);
    d[..Min(numImages, |d|)]
  }

  /** The image one search result contributes (lines 223-251): none when its
      `img` has no usable `data-src` or its file page cannot be fetched;
      otherwise the optimal rendition, made absolute, or, when there is none
      or its `href` is empty, the full-resolution fallback. */
  function ImageOf(web: Web, result: SearchResult): Option<ImageInfo> {
    if result.dataSrc.None? || result.dataSrc.value == [] then None
    else
      match web.page(result.href)
      case None => None
      case Some(page) =>
        var attribution := FinalAttribution(page.authorCell);
        var optimal := OptimalImageUrl(page.resolutions);
        if optimal.Some? && optimal.value != [] then Some(ImageInfo(NormaliseUrl(optimal.value), attribution))
        else Some(ImageInfo(FullResolutionUrl(result.dataSrc.value), attribution))
  }

  /** The images a list of results contributes, in order; each comes from
      one result. */
  function ImagesOf(web: Web, results: seq<SearchResult>): (images: seq<ImageInfo>)
    ensures |images| <= |results|
  {
    if results == [] then []
    else
      var im := ImageOf(web, results[|results| - 1]);
      ImagesOf(web, results[..|results| - 1]) + (if im.Some? then [im.value] else [])
  }

  /** One more result adds its contribution, if any, at the end. */
  lemma ImagesOfPrefix(web: Web, results: seq<SearchResult>, i: nat)
    requires i < |results|
    ensures ImagesOf(web, results[..i + 1])
            == ImagesOf(web, results[..i]) + (if ImageOf(web, results[i]).Some? then [ImageOf(web, results[i]).value] else [])
  {
    assert results[..i + 1][..i] == results[..i];
  }

  /** What each result contributes, entry by entry. */
  function Contributions(web: Web, results: seq<SearchResult>): (c: seq<Option<ImageInfo>>)
    ensures |c| == |results|
  {
    seq(|results|, i requires 0 <= i < |results| => ImageOf(web, results[i]))
  }

  /** The images are the present contributions, in order. */
  lemma {:induction false} ImagesOfContributions(web: Web, results: seq<SearchResult>)
    ensures ImagesOf(web, results) == Somes(Contributions(web, results))
  {
    if results != [] {
      var n := |results|;
      var init := results[..n - 1];
      ImagesOfContributions(web, init);
      var c := Contributions(web, results);
      assert c[..n - 1] == Contributions(web, init);
      assert c[n - 1] == ImageOf(web, results[n - 1]);
    }
  }

  /** Which result each image comes from: image k is the contribution of
      result `source[k]`, and the sources are increasing. */
  lemma ImagesOfSources(web: Web, results: seq<SearchResult>) returns (source: seq<nat>)
    ensures |source| == |ImagesOf(web, results)|
    ensures forall k :: 0 <= k < |source| ==>
              source[k] < |results| && ImageOf(web, results[source[k]]) == Some(ImagesOf(web, results)[k])
    ensures forall k, l :: 0 <= k < l < |source| ==> source[k] < source[l]
  {
    ImagesOfContributions(web, results);
    var c := Contributions(web, results);
    source := SomesSources(c);
    forall k | 0 <= k < |source|
      ensures source[k] < |results| && ImageOf(web, results[source[k]]) == Some(ImagesOf(web, results)[k])
    {
      assert c[source[k]] == ImageOf(web, results[source[k]]);
    }
  }

  /** What one search query yields. */
  function SearchImages(web: Web, query: string, numImages: nat): seq<ImageInfo> {
    match web.search(query)
    case None => []
    case Some(results) => ImagesOf(web, Candidates(results, numImages))
  }

  /** `_fetch_and_parse_wikimedia_search`. */
  method FetchAndParseWikimediaSearch(web: Web, query: string, numImages: nat)
    returns (images: seq<ImageInfo>)
    ensures images == SearchImages(web, query, numImages)
  {
    var response := web.search(query);
    if response.None? {
      return [];
    }
    var candidates := Candidates(response.value, numImages);
    images := [];
    for i := 0 to |candidates|
      invariant images == ImagesOf(web, candidates[..i])
    {
      ImagesOfPrefix(web, candidates, i);
      var result := candidates[i];
      ghost var contributed := ImageOf(web, result);
      if result.dataSrc.None? || result.dataSrc.value == [] {
        continue;
      }
      var page := web.page(result.href);
      if page.None? {
        continue;
      }
      var attribution := FinalAttribution(page.value.authorCell);
      var optimal := FindOptimalImageSize(page.value.resolutions);
      var url;
      if optimal.Some? && optimal.value != [] {
        url := NormaliseUrl(optimal.value);
      } else {
        url := FullResolutionUrl(result.dataSrc.value);
      }
      assert contributed == Some(ImageInfo(url, attribution));
      images := images + [ImageInfo(url, attribution)];
    }
    assert candidates[..|candidates|] == candidates;
  }

  /** One query yields at most `numImages` images, each taken from one of
      the first `numImages` distinct results and carrying a copyright line. */
  lemma SearchImagesSpec(web: Web, query: string, numImages: nat)
    ensures |SearchImages(web, query, numImages)| <= numImages
    ensures web.search(query).None? ==> SearchImages(web, query, numImages) == []
    ensures web.search(query).Some? ==>
              var candidates := Candidates(web.search(query).value, numImages);
              forall im :: im in SearchImages(web, query, numImages) ==>
                exists i :: 0 <= i < |candidates| && ImageOf(web, candidates[i]) == Some(im)
    ensures forall im :: im in SearchImages(web, query, numImages) ==>
              StartsWith(im.attribution, Copyright)
  {
    var images := SearchImages(web, query, numImages);
    if web.search(query).Some? {
      var candidates := Candidates(web.search(query).value, numImages);
      var source := ImagesOfSources(web, candidates);
      forall im | im in images
        ensures exists i :: 0 <= i < |candidates| && ImageOf(web, candidates[i]) == Some(im)
        ensures StartsWith(im.attribution, Copyright)
      {
        var k :| 0 <= k < |images| && images[k] == im;
        var i := source[k];
        assert ImageOf(web, candidates[i]) == Some(im);
      }
    }
  }

  /** The queries, most specific first (line 259). */
  function Queries(commonName: string, scientificName: string): seq<string> {
    [commonName + " " + scientificName + " bird", scientificName + " bird", commonName + " bird"]
  }

  /** The images of the first query in `queries` that yields any. */
  function FirstNonEmpty(web: Web, queries: seq<string>, numImages: nat): seq<ImageInfo> {
    if queries == [] then []
    else
      var images := SearchImages(web, queries[0], numImages);
      if images != [] then images else FirstNonEmpty(web, queries[1..], numImages)
  }

  /** The fallback chain returns the first non-empty result, or `[]` when
      every query comes back empty. */
  lemma {:induction false} FirstNonEmptySpec(web: Web, queries: seq<string>, numImages: nat)
    ensures FirstNonEmpty(web, queries, numImages) == [] <==>
              forall k :: 0 <= k < |queries| ==> SearchImages(web, queries[k], numImages) == []
    ensures FirstNonEmpty(web, queries, numImages) != [] ==>
              exists k :: 0 <= k < |queries|
                && FirstNonEmpty(web, queries, numImages) == SearchImages(web, queries[k], numImages)
                && forall j :: 0 <= j < k ==> SearchImages(web, queries[j], numImages) == []
  {
    if queries != [] {
      var rest := queries[1..];
      if SearchImages(web, queries[0], numImages) == [] {
        FirstNonEmptySpec(web, rest, numImages);
        var r := FirstNonEmpty(web, rest, numImages);
        assert FirstNonEmpty(web, queries, numImages) == r;
        forall j | 1 <= j < |queries| ensures queries[j] == rest[j - 1] {
        }
        if r != [] {
          var k :| 0 <= k < |rest| && r == SearchImages(web, rest[k], numImages)
            && forall j :: 0 <= j < k ==> SearchImages(web, rest[j], numImages) == [];
          assert r == SearchImages(web, queries[k + 1], numImages);
          forall j | 0 <= j < k + 1 ensures SearchImages(web, queries[j], numImages) == [] {
            if j > 0 {
              assert SearchImages(web, rest[j - 1], numImages) == [];
            }
          }
        } else {
          forall j | 0 <= j < |queries| ensures SearchImages(web, queries[j], numImages) == [] {
            if j > 0 {
              assert SearchImages(web, rest[j - 1], numImages) == [];
            }
          }
        }
      } else {
        assert FirstNonEmpty(web, queries, numImages) == SearchImages(web, queries[0], numImages);
      }
    }
  }

  /** `scrape_wikimedia_for_image_data`. `issued` lists the queries sent,
      in order: the chain stops at the first query that yields images. */
  method ScrapeWikimediaForImageData(web: Web, commonName: string, scientificName: string, numImages: nat)
    returns (images: seq<ImageInfo>, issued: seq<string>)
    ensures images == FirstNonEmpty(web, Queries(commonName, scientificName), numImages)
    ensures 0 < |issued| <= 3 && issued == Queries(commonName, scientificName)[..|issued|]
    ensures images == SearchImages(web, issued[|issued| - 1], numImages)
    ensures forall k :: 0 <= k < |issued| - 1 ==> SearchImages(web, issued[k], numImages) == []
    ensures images == [] ==> issued == Queries(commonName, scientificName)
  {
    var queries := Queries(commonName, scientificName);
    issued := [];
    images := [];
    for i := 0 to |queries|
      invariant issued == queries[..i]
      invariant forall k :: 0 <= k < i ==> SearchImages(web, queries[k], numImages) == []
      invariant FirstNonEmpty(web, queries, numImages) == FirstNonEmpty(web, queries[i..], numImages)
      invariant images == []
    {
      images := FetchAndParseWikimediaSearch(web, queries[i], numImages);
      issued := issued + [queries[i]];
      assert issued == queries[..i + 1];
      if images != [] {
        return;
      }
      assert queries[i..][1..] == queries[i + 1..];
    }
  }

  /** The images found for a species: the combined names first, then the
      scientific name, then the common name, stopping at the first query
      that yields any. */
  function SpeciesImages(web: Web, commonName: string, scientificName: string, numImages: nat): seq<ImageInfo> {
    var q := Queries(commonName, scientificName);
    var combined := SearchImages(web, q[0], numImages);
    if combined != [] then combined
    else
      var scientific := SearchImages(web, q[1], numImages);
      if scientific != [] then scientific else SearchImages(web, q[2], numImages)
  }

  /** The fallback chain over the three queries tries them in the order
      "{common} {scientific} bird", "{scientific} bird", "{common} bird". */
  lemma QueryOrder(commonName: string, scientificName: string, web: Web, numImages: nat)
    ensures FirstNonEmpty(web, Queries(commonName, scientificName), numImages)
            == SpeciesImages(web, commonName, scientificName, numImages)
  {
    var q := Queries(commonName, scientificName);
    assert q[1..][0] == q[1] && q[1..][1..][0] == q[2] && q[1..][1..][1..] == [];
    var a, b, c := SearchImages(web, q[0], numImages), SearchImages(web, q[1], numImages), SearchImages(web, q[2], numImages);
    assert FirstNonEmpty(web, q[1..][1..][1..], numImages) == [];
    assert FirstNonEmpty(web, q[1..][1..], numImages) == c;
    assert FirstNonEmpty(web, q[1..], numImages) == if b != [] then b else c;
  }
}
