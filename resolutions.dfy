/** Choosing the rendition to download from a file page's "Other
    resolutions" list: `find_optimal_image_size`
    (display/cache_builder.py, lines 171-206). */
module Resolutions {
  import opened Wrappers
  import opened Text

  const MinImageWidth: nat := 800
  const MinImageHeight: nat := 600

  /** One `a.mw-thumbnail-link` of the resolutions list: its `href` and its text. */
  datatype ResolutionLink = ResolutionLink(href: string, text: string)

  /** A character of the class `[\d,]`. */
  predicate IsDimChar(c: char) { IsDigit(c) || c == ',' }

  predicate DimGroup(s: string) {
    s != [] && forall i :: 0 <= i < |s| ==> IsDimChar(s[i])
  }

  /** The end of the run of `[\d,]` characters starting at `i`. */
  function RunEnd(t: string, i: nat): (j: nat)
    requires i <= |t|
    ensures i <= j <= |t|
    ensures forall k :: i <= k < j ==> IsDimChar(t[k])
    ensures j == |t| || !IsDimChar(t[j])
    decreases |t| - i
  {
    if i < |t| && IsDimChar(t[i]) then RunEnd(t, i + 1) else i
  }

  /** The end of the run of `\s` characters starting at `i`. */
  function SkipSpaces(t: string, i: nat): (j: nat)
    requires i <= |t|
    ensures i <= j <= |t|
    ensures forall k :: i <= k < j ==> IsSpace(t[k])
    ensures j == |t| || !IsSpace(t[j])
    decreases |t| - i
  {
    if i < |t| && IsSpace(t[i]) then SkipSpaces(t, i + 1) else i
  }

  /** The two groups of the leftmost match of `([\d,]+)\s*×\s*([\d,]+)` at
      or after `i`. Both groups are greedy and neither `×` nor whitespace is
      in `[\d,]`, so a match starting inside a run ends where one starting at
      the run's first character does: only run starts need to be tried. */
  function MatchFrom(t: string, i: nat): (r: Option<(string, string)>)
    requires i <= |t|
    ensures r.Some? ==> DimGroup(r.value.0) && DimGroup(r.value.1)
    decreases |t| - i
  {
    if i == |t| then None
    else if !IsDimChar(t[i]) then MatchFrom(t, i + 1)
    else
      var j := RunEnd(t, i);
      var k := SkipSpaces(t, j);
      if k < |t| && t[k] == '×' && SkipSpaces(t, k + 1) < |t| && IsDimChar(t[SkipSpaces(t, k + 1)]) then
        var m := SkipSpaces(t, k + 1);
        Some((t[i..j], t[m..RunEnd(t, m)]))
      else MatchFrom(t, j)
  }

  /** `re.search(r'([\d,]+)\s*×\s*([\d,]+)', text)`. */
  function DimensionMatch(text: string): Option<(string, string)> {
    MatchFrom(text, 0)
  }

  /** `group.replace(',', '')`. */
  function RemoveCommas(s: string): (r: string)
    ensures |r| <= |s|
    ensures (forall i :: 0 <= i < |s| ==> IsDimChar(s[i])) ==> AllDigits(r)
    ensures r == [] <==> forall i :: 0 <= i < |s| ==> s[i] == ','
  {
    if s == [] then []
    else (if s[0] == ',' then [] else [s[0]]) + RemoveCommas(s[1..])
  }

  /** The dimensions exactly as lines 187-190 compute them: `Ok(None)` when the
      text does not match, `Err` when a group holds only commas and `int('')`
      raises `ValueError` (nothing on the way up catches it). */
  function ParseDimensionsAsWritten(text: string): Result<Option<(nat, nat)>> {
    match DimensionMatch(text)
    case None => Ok(None)
    case Some((g1, g2)) =>
      var w := RemoveCommas(g1);
      var h := RemoveCommas(g2);
      if w == [] || h == [] then Err("ValueError: invalid literal for int() with base 10: ''")
      else Ok(Some((DigitsValue(w), DigitsValue(h))))
  }

  /** A resolution text whose first group is only a comma makes the source raise. */
  lemma CommaOnlyGroupRaises()
    ensures ParseDimensionsAsWritten(", × 600").Err?
  {
    var t := ", × 600";
    assert RunEnd(t, 1) == 1;
    assert RunEnd(t, 0) == 1;
    assert SkipSpaces(t, 2) == 2;
    assert SkipSpaces(t, 1) == 2;
    assert SkipSpaces(t, 4) == 4;
    assert SkipSpaces(t, 3) == 4;
    assert RunEnd(t, 7) == 7;
    assert RunEnd(t, 4) == 7;
    assert t[2] == '×' && IsDimChar(t[0]) && IsDimChar(t[4]);
    assert t[0..1] == "," && t[4..7] == "600";
    assert MatchFrom(t, 0) == Some((",", "600"));
    assert RemoveCommas(",") == [];
  }

  /** The dimensions the selector uses: an entry whose matched group has no
      digit is passed over, like an entry whose text does not match. */
  function ParseDimensions(text: string): (r: Option<(nat, nat)>)
    ensures ParseDimensionsAsWritten(text).Ok? ==> r == ParseDimensionsAsWritten(text).value
    ensures ParseDimensionsAsWritten(text).Err? ==> r.None?
  {
    match DimensionMatch(text)
    case None => None
    case Some((g1, g2)) =>
      var w := RemoveCommas(g1);
      var h := RemoveCommas(g2);
      if w == [] || h == [] then None else Some((DigitsValue(w), DigitsValue(h)))
  }

  lemma ThousandsMatch()
    ensures DimensionMatch("1,024 × 768") == Some(("1,024", "768"))
  {
    var t := "1,024 × 768";
    assert RunEnd(t, 5) == 5;
    assert RunEnd(t, 0) == 5;
    assert SkipSpaces(t, 6) == 6;
    assert SkipSpaces(t, 5) == 6;
    assert SkipSpaces(t, 8) == 8;
    assert SkipSpaces(t, 7) == 8;
    assert RunEnd(t, 11) == 11;
    assert RunEnd(t, 8) == 11;
    assert t[6] == '×' && IsDimChar(t[0]) && IsDimChar(t[8]);
    assert t[0..5] == "1,024" && t[8..11] == "768";
  }

  /** A run of digits has no comma to drop. */
  lemma {:induction false} DigitsKeptByRemoveCommas(s: string)
    requires AllDigits(s)
    ensures RemoveCommas(s) == s
  {
    if s != [] {
      DigitsKeptByRemoveCommas(s[1..]);
    }
  }

  lemma ThousandsCommaDropped()
    ensures RemoveCommas("1,024") == "1024"
  {
    DigitsKeptByRemoveCommas("024");
    assert ",024"[1..] == "024";
    assert "1,024"[1..] == ",024";
  }

  lemma ThousandsValue()
    ensures DigitsValue("1024") == 1024
  {
    assert DigitsValue("1") == 1;
    assert "10"[..1] == "1";
    assert DigitsValue("10") == 10;
    assert "102"[..2] == "10";
    assert DigitsValue("102") == 102;
    assert "1024"[..3] == "102";
  }

  lemma HeightValue()
    ensures RemoveCommas("768") == "768" && DigitsValue("768") == 768
  {
    DigitsKeptByRemoveCommas("768");
    assert DigitsValue("7") == 7;
    assert "76"[..1] == "7";
    assert DigitsValue("76") == 76;
    assert "768"[..2] == "76";
  }

  /** Commas in the dimension text are thousands separators and are dropped. */
  lemma ThousandsSeparatorsDropped()
    ensures ParseDimensions("1,024 × 768") == Some((1024, 768))
  {
    ThousandsMatch();
    ThousandsCommaDropped();
    ThousandsValue();
    HeightValue();
  }

  /** A link that parses and meets both floors. */
  predicate Qualifies(link: ResolutionLink) {
    var d := ParseDimensions(link.text);
    d.Some? && d.value.0 >= MinImageWidth && d.value.1 >= MinImageHeight
  }

  /** An entry of `suitable_images`. */
  datatype Candidate = Candidate(url: string, width: nat, height: nat)

  function Pixels(c: Candidate): nat { c.width * c.height }

  function CandidateOf(link: ResolutionLink): Candidate
    requires Qualifies(link)
  {
    var d := ParseDimensions(link.text).value;
    Candidate(link.href, d.0, d.1)
  }

  /** `suitable_images` after the loop: the qualifying links in order. */
  function SuitableImages(links: seq<ResolutionLink>): seq<Candidate> {
    if links == [] then []
    else
      var last := links[|links| - 1];
      SuitableImages(links[..|links| - 1]) + (if Qualifies(last) then [CandidateOf(last)] else [])
  }

  /** `sorted(candidates, key=total_pixels)[0]`: Python's sort is stable, so
      this is the first candidate with the fewest pixels. */
  function FirstSmallest(candidates: seq<Candidate>): (k: nat)
    requires candidates != []
    ensures k < |candidates|
  {
    if |candidates| == 1 then 0
    else
      var k := FirstSmallest(candidates[..|candidates| - 1]);
      if Pixels(candidates[|candidates| - 1]) < Pixels(candidates[k]) then |candidates| - 1 else k
  }

  /** The URL `find_optimal_image_size` returns for a page whose resolutions
      section holds `section` (`None`: the page has no such section). */
  function OptimalImageUrl(section: Option<seq<ResolutionLink>>): Option<string> {
    match section
    case None => None
    case Some(links) =>
      var suitable := SuitableImages(links);
      if suitable == [] then None else Some(suitable[FirstSmallest(suitable)].url)
  }

  /** `find_optimal_image_size`: append the qualifying links, then take the
      first of those with the fewest pixels (the stable `sorted(...)[0]`). */
  method FindOptimalImageSize(section: Option<seq<ResolutionLink>>) returns (url: Option<string>)
    ensures url == OptimalImageUrl(section)
  {
    if section.None? {
      return None;
    }
    var links := section.value;
    var suitable: seq<Candidate> := [];
    for i := 0 to |links|
      invariant suitable == SuitableImages(links[..i])
    {
      assert links[..i + 1][..i] == links[..i];
      var d := ParseDimensions(links[i].text);
      if d.Some? && d.value.0 >= MinImageWidth && d.value.1 >= MinImageHeight {
        suitable := suitable + [Candidate(links[i].href, d.value.0, d.value.1)];
      }
    }
    assert links[..|links|] == links;
    if suitable == [] {
      return None;
    }
    return Some(suitable[FirstSmallest(suitable)].url);
  }

  /** The first smallest candidate has no more pixels than any candidate and
      strictly fewer than every candidate before it. */
  lemma {:induction false} FirstSmallestIsFirstMinimum(candidates: seq<Candidate>)
    requires candidates != []
    ensures var k := FirstSmallest(candidates);
            && (forall j :: 0 <= j < |candidates| ==> Pixels(candidates[k]) <= Pixels(candidates[j]))
            && (forall j :: 0 <= j < k ==> Pixels(candidates[k]) < Pixels(candidates[j]))
  {
    if |candidates| > 1 {
      var init := candidates[..|candidates| - 1];
      FirstSmallestIsFirstMinimum(init);
      assert forall j :: 0 <= j < |init| ==> init[j] == candidates[j];
    }
  }

  /** The candidate each link contributes, if it qualifies. */
  function LinkContributions(links: seq<ResolutionLink>): (c: seq<Option<Candidate>>)
    ensures |c| == |links|
  {
    seq(|links|, i requires 0 <= i < |links| => if Qualifies(links[i]) then Some(CandidateOf(links[i])) else None)
  }

  /** The suitable images are the contributions that are present, in order. */
  lemma {:induction false} SuitableImagesOfLinkContributions(links: seq<ResolutionLink>)
    ensures SuitableImages(links) == Somes(LinkContributions(links))
  {
    if links != [] {
      var n := |links|;
      var init := links[..n - 1];
      SuitableImagesOfLinkContributions(init);
      var c := LinkContributions(links);
      assert c[..n - 1] == LinkContributions(init);
    }
  }

  /** Where each suitable image came from: an increasing list of the indices
      of the qualifying links, holding every one of them. */
  lemma SuitableImageSources(links: seq<ResolutionLink>) returns (source: seq<nat>)
    ensures |source| == |SuitableImages(links)|
    ensures forall k :: 0 <= k < |source| ==>
              source[k] < |links| && Qualifies(links[source[k]])
              && SuitableImages(links)[k] == CandidateOf(links[source[k]])
    ensures forall k, l :: 0 <= k < l < |source| ==> source[k] < source[l]
    ensures forall i :: 0 <= i < |links| && Qualifies(links[i]) ==> i in source
  {
    SuitableImagesOfLinkContributions(links);
    var c := LinkContributions(links);
    source := SomesSources(c);
    forall k | 0 <= k < |source|
      ensures source[k] < |links| && Qualifies(links[source[k]])
      ensures SuitableImages(links)[k] == CandidateOf(links[source[k]])
    {
      assert c[source[k]] == Some(SuitableImages(links)[k]);
    }
    forall i | 0 <= i < |links| && Qualifies(links[i]) ensures i in source {
      assert c[i].Some?;
    }
  }

  /** What `find_optimal_image_size` promises: `None` exactly when the
      section is absent or no link meets both floors; otherwise the URL of a
      link that meets them, has the fewest pixels of all such links, and
      comes before every other such link with as few pixels. */
  lemma OptimalImageUrlSpec(section: Option<seq<ResolutionLink>>)
    ensures OptimalImageUrl(section).None? <==>
              section.None? || forall i :: 0 <= i < |section.value| ==> !Qualifies(section.value[i])
    ensures OptimalImageUrl(section).Some? ==>
              var links := section.value;
              exists i :: 0 <= i < |links| && Qualifies(links[i])
                && OptimalImageUrl(section).value == links[i].href
                && (forall j :: 0 <= j < |links| && Qualifies(links[j]) ==>
                      Pixels(CandidateOf(links[i])) <= Pixels(CandidateOf(links[j])))
                && (forall j :: 0 <= j < i && Qualifies(links[j]) ==>
                      Pixels(CandidateOf(links[i])) < Pixels(CandidateOf(links[j])))
  {
    if section.Some? {
      var links := section.value;
      var source := SuitableImageSources(links);
      if SuitableImages(links) == [] {
        assert |source| == 0;
      } else {
        OptimalImageIsFirstMinimum(links);
      }
    }
  }

  /** The chosen link, when there is one, is the first of the qualifying
      links with the fewest pixels. */
  lemma OptimalImageIsFirstMinimum(links: seq<ResolutionLink>)
    requires SuitableImages(links) != []
    ensures exists i :: 0 <= i < |links| && Qualifies(links[i])
              && OptimalImageUrl(Some(links)) == Some(links[i].href)
              && (forall j :: 0 <= j < |links| && Qualifies(links[j]) ==>
                    Pixels(CandidateOf(links[i])) <= Pixels(CandidateOf(links[j])))
              && (forall j :: 0 <= j < i && Qualifies(links[j]) ==>
                    Pixels(CandidateOf(links[i])) < Pixels(CandidateOf(links[j])))
  {
    var suitable := SuitableImages(links);
    var source := SuitableImageSources(links);
    var k := FirstSmallest(suitable);
    FirstSmallestIsFirstMinimum(suitable);
    var i := source[k];
    forall j | 0 <= j < |links| && Qualifies(links[j])
      ensures Pixels(CandidateOf(links[i])) <= Pixels(CandidateOf(links[j]))
    {
      var l := PositionIn(source, j);
      assert CandidateOf(links[j]) == suitable[l];
    }
    forall j | 0 <= j < i && Qualifies(links[j])
      ensures Pixels(CandidateOf(links[i])) < Pixels(CandidateOf(links[j]))
    {
      var l := PositionIn(source, j);
      IncreasingIndices(source, l, k);
      assert CandidateOf(links[j]) == suitable[l];
    }
  }

  /** In an increasing list, a smaller entry sits at an earlier position. */
  lemma IncreasingIndices(xs: seq<nat>, l: nat, k: nat)
    requires l < |xs| && k < |xs| && xs[l] < xs[k]
    requires forall a, b :: 0 <= a < b < |xs| ==> xs[a] < xs[b]
    ensures l < k
  {
  }

  /** Three renditions of one image, 600×600, 1024×1024 and 800×600: the
      smallest that meets the 800×600 floor is the last. */
  lemma SmallestQualifyingRenditionChosen(small: ResolutionLink, large: ResolutionLink, exact: ResolutionLink)
    requires ParseDimensions(small.text) == Some((600, 600))
    requires ParseDimensions(large.text) == Some((1024, 1024))
    requires ParseDimensions(exact.text) == Some((800, 600))
    ensures OptimalImageUrl(Some([small, large, exact])) == Some(exact.href)
  {
    var links := [small, large, exact];
    assert links[..2][..1] == [small];
    assert SuitableImages([small]) == [];
    assert SuitableImages(links[..2]) == [CandidateOf(large)];
    assert SuitableImages(links) == [CandidateOf(large), CandidateOf(exact)];
  }
}
