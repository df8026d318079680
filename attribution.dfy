/** Attribution text for a cached image: `format_author_name` and the
    copyright line built from a detail page's "Author" cell
    (display/cache_builder.py, lines 44-50 and 228-234). */
module Attribution {
  import opened Wrappers
  import opened Text

  /** Attributions longer than this are shortened. */
  const MaxAuthorLength: nat := 20
  const Ellipsis: string := " ..."
  /** The only footnote marker that is cut off. */
  const FootnoteMarker: string := "[a]"
  const Copyright: string := "© "
  const DefaultAuthor: string := "Wikimedia Commons"

  /** The cleaned author text: everything before the first `[a]`, stripped. */
  function CleanedAuthor(author: string): string {
    Strip(BeforeFirst(author, FootnoteMarker))
  }

  /** `format_author_name`. */
  function FormatAuthorName(author: string): string {
    if author == [] then []
    else
      var cleaned := CleanedAuthor(author);
      if |cleaned| > MaxAuthorLength then
        var cut := RFind(cleaned, ' ', MaxAuthorLength);
        if cut != -1 then cleaned[..cut] + Ellipsis else cleaned[..MaxAuthorLength] + Ellipsis
      else cleaned
  }

  /** What `format_author_name` promises: empty in gives empty out; a short
      cleaned text comes back unchanged; a long one is cut at its last space
      before index 20 (or at 20 if it has none) and marked with " ...", so
      that the result never exceeds 24 characters. */
  lemma FormatAuthorNameSpec(author: string)
    ensures author == [] ==> FormatAuthorName(author) == []
    ensures author != [] && |CleanedAuthor(author)| <= MaxAuthorLength ==> FormatAuthorName(author) == CleanedAuthor(author)
    ensures author != [] && |CleanedAuthor(author)| > MaxAuthorLength ==>
              exists k :: 0 <= k <= MaxAuthorLength && ShortenedAt(CleanedAuthor(author), k, FormatAuthorName(author))
    ensures |FormatAuthorName(author)| <= MaxAuthorLength + |Ellipsis|
  {
    var cleaned := CleanedAuthor(author);
    if author != [] && |cleaned| > MaxAuthorLength {
      var cut := RFind(cleaned, ' ', MaxAuthorLength);
      var k := if cut != -1 then cut else MaxAuthorLength;
      assert FormatAuthorName(author) == cleaned[..k] + Ellipsis;
      assert ShortenedAt(cleaned, k, FormatAuthorName(author));
    }
  }

  /** `name` is `cleaned` cut at index k and marked with " ...", where k is
      the last space before index 20, or 20 itself when there is none. */
  predicate ShortenedAt(cleaned: string, k: nat, name: string)
    requires k <= MaxAuthorLength < |cleaned|
  {
    && name == cleaned[..k] + Ellipsis
    && (k < MaxAuthorLength ==> cleaned[k] == ' ')
    && (forall i :: k < i < MaxAuthorLength ==> cleaned[i] != ' ')
    && (k == MaxAuthorLength ==> forall i :: 0 <= i < MaxAuthorLength ==> cleaned[i] != ' ')
  }

  /** Only the literal `[a]` is removed: an author text without it, whatever
      other bracketed markers it holds, is only stripped. */
  lemma {:induction false} MarkerFreeAuthorIsOnlyStripped(author: string)
    requires forall i :: !OccursAt(author, FootnoteMarker, i)
    ensures CleanedAuthor(author) == Strip(author)
  {
    var r := BeforeFirst(author, FootnoteMarker);
    assert !OccursAt(author, FootnoteMarker, |r|);
    assert r == author[..|author|];
    assert r == author;
    assert CleanedAuthor(author) == Strip(r);
  }

  /** Everything from the first `[a]` on is dropped. */
  lemma TextAfterMarkerIsDropped(before: string, after: string)
    requires forall i :: 0 <= i < |before| ==> !OccursAt(before + FootnoteMarker + after, FootnoteMarker, i)
    ensures CleanedAuthor(before + FootnoteMarker + after) == Strip(before)
  {
    var s := before + FootnoteMarker + after;
    assert OccursAt(s, FootnoteMarker, |before|) by {
      assert s[|before|..|before| + 3] == FootnoteMarker;
    }
    var r := BeforeFirst(s, FootnoteMarker);
    assert |r| == |before|;
    assert r == before;
  }

  /** The text taken from the page's "Author" cell: everything before the
      first `(`, stripped; the placeholder when the page has no such cell. */
  function AuthorText(authorCell: Option<string>): string {
    match authorCell
    case None => DefaultAuthor
    case Some(cell) => Strip(BeforeFirst(cell, "("))
  }

  /** The attribution stored beside an image (lines 228-234). */
  function FinalAttribution(authorCell: Option<string>): (r: string)
    ensures StartsWith(r, Copyright)
    ensures |r| <= |Copyright| + MaxAuthorLength + |Ellipsis|
  {
    var formatted := FormatAuthorName(AuthorText(authorCell));
    FormatAuthorNameSpec(AuthorText(authorCell));
    if formatted != [] then Copyright + formatted else Copyright + DefaultAuthor
  }

  /** A cut-down name keeps its first character and ends in the ellipsis. */
  lemma ShortenedNameEnds(cleaned: string, k: nat)
    requires 0 < k <= |cleaned| && !IsSpace(cleaned[0])
    ensures !IsSpace((cleaned[..k] + Ellipsis)[0])
    ensures !IsSpace((cleaned[..k] + Ellipsis)[|cleaned[..k] + Ellipsis| - 1])
  {
    assert (cleaned[..k] + Ellipsis)[0] == cleaned[0];
    assert (cleaned[..k] + Ellipsis)[|cleaned[..k] + Ellipsis| - 1] == '.';
  }

  /** A formatted author name has no whitespace at its ends. */
  lemma FormattedNameHasNoOuterSpace(author: string)
    ensures FormatAuthorName(author) == []
            || (&& !IsSpace(FormatAuthorName(author)[0])
                && !IsSpace(FormatAuthorName(author)[|FormatAuthorName(author)| - 1]))
  {
    var cleaned := CleanedAuthor(author);
    if author != [] && |cleaned| > MaxAuthorLength {
      var cut := RFind(cleaned, ' ', MaxAuthorLength);
      var k := if cut != -1 then cut else MaxAuthorLength;
      assert IsSpace(' ') && !IsSpace(cleaned[0]);
      assert k != 0;
      ShortenedNameEnds(cleaned, k);
      assert FormatAuthorName(author) == cleaned[..k] + Ellipsis;
    }
  }

  /** A copyright line whose author part does not end in whitespace is its
      own strip. */
  lemma CopyrightLineIsStripped(tail: string)
    requires tail != [] && !IsSpace(tail[|tail| - 1])
    ensures Strip(Copyright + tail) == Copyright + tail
  {
    var r := Copyright + tail;
    assert r[|r| - 1] == tail[|tail| - 1];
    assert r[0] == '©';
    StripUnchanged(r);
  }

  /** The stored attribution has no whitespace at either end, so reading it
      back with `str.strip()` returns it whole. */
  lemma FinalAttributionIsStripped(authorCell: Option<string>)
    ensures Strip(FinalAttribution(authorCell)) == FinalAttribution(authorCell)
  {
    var formatted := FormatAuthorName(AuthorText(authorCell));
    if formatted == [] {
      assert FinalAttribution(authorCell) == Copyright + DefaultAuthor;
      DefaultLineIsStripped();
    } else {
      FormattedNameHasNoOuterSpace(AuthorText(authorCell));
      assert FinalAttribution(authorCell) == Copyright + formatted;
      CopyrightLineIsStripped(formatted);
    }
  }

  lemma DefaultLineIsStripped()
    ensures Strip(Copyright + DefaultAuthor) == Copyright + DefaultAuthor
  {
    assert DefaultAuthor[|DefaultAuthor| - 1] == 's';
    CopyrightLineIsStripped(DefaultAuthor);
  }

  /** A cell holding only a parenthesised remark falls back to the placeholder. */
  lemma ParenthesisedCellGivesPlaceholder(remark: string)
    ensures FinalAttribution(Some("(" + remark)) == Copyright + DefaultAuthor
  {
    var cell := "(" + remark;
    assert OccursAt(cell, "(", 0);
    assert BeforeFirst(cell, "(") == [];
  }
}
