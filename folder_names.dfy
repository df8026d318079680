/** The folder name under which a species' images are cached: keep ASCII
    letters, digits, spaces and underscores, drop trailing whitespace, then
    turn spaces into underscores (display/cache_builder.py line 288; the same
    expression is repeated in both display apps' `get_cached_image`). */
module FolderNames {
  import opened Text

  predicate KeptChar(c: char) { IsAlnum(c) || c == ' ' || c == '_' }

  /** The characters the comprehension keeps, in order. */
  function KeptChars(name: string): (r: string)
    ensures |r| <= |name|
    ensures forall i :: 0 <= i < |r| ==> KeptChar(r[i])
    ensures (forall i :: 0 <= i < |name| ==> KeptChar(name[i])) ==> r == name
  {
    if name == [] then []
    else (if KeptChar(name[0]) then [name[0]] else []) + KeptChars(name[1..])
  }

  function SpacesToUnderscores(s: string): (r: string)
    ensures |r| == |s|
    ensures forall i :: 0 <= i < |s| ==> r[i] == (if s[i] == ' ' then '_' else s[i])
  {
    seq(|s|, i requires 0 <= i < |s| => if s[i] == ' ' then '_' else s[i])
  }

  /** The sanitised folder name: only letters, digits and underscores. */
  function SanitiseFolderName(name: string): (r: string)
    ensures |r| <= |name|
    ensures forall i :: 0 <= i < |r| ==> IsAlnum(r[i]) || r[i] == '_'
  {
    SpacesToUnderscores(RStrip(KeptChars(name)))
  }

  /** Sanitising a sanitised name changes nothing. */
  lemma {:induction false} SanitiseIdempotent(name: string)
    ensures SanitiseFolderName(SanitiseFolderName(name)) == SanitiseFolderName(name)
  {
    var r := SanitiseFolderName(name);
    assert KeptChars(r) == r;
    assert RStrip(r) == r;
    assert SpacesToUnderscores(r) == r;
  }

  /** Position by position, an underscore in the folder name stands for a
      kept space or underscore and every other character is kept as it was;
      only trailing spaces are dropped, so the name never ends in an
      underscore that came from a trailing space. */
  lemma {:induction false} SanitiseUnderscores(name: string)
    ensures var kept := KeptChars(name);
            var r := SanitiseFolderName(name);
            && |r| <= |kept|
            && (forall i :: 0 <= i < |r| ==> (r[i] == '_' <==> kept[i] == ' ' || kept[i] == '_'))
            && (forall i :: 0 <= i < |r| && r[i] != '_' ==> r[i] == kept[i])
            && (forall i :: |r| <= i < |kept| ==> kept[i] == ' ')
            && (r != [] ==> kept[|r| - 1] != ' ')
  {
    var kept := KeptChars(name);
    var stripped := RStrip(kept);
    assert forall i :: |stripped| <= i < |kept| ==> IsSpace(kept[i]);
  }
}
