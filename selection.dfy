/** Which detections the display shows (`get_bird_data`,
    display/birdnet_display_enhanced.py lines 300-323; the same code is at
    display/birdnet_display.py lines 215-238): the birds whose species is
    pinned come first, then the others, each group keeping the first
    detection of every species in the order received, and at most four
    birds in all. */
module DetectionSelection {
  import opened WikimediaSearch

  const MaxShown: nat := 4

  /** A parsed detection (`parse_v2_detection_item`), with the `is_pinned`
      flag the selection sets on it. */
  datatype Bird = Bird(name: string, timeRaw: string, confidenceValue: int, imageUrl: string,
                       copyright: string, isNewSpecies: bool, isPinned: bool)

  function Names(birds: seq<Bird>): (names: seq<string>)
    ensures |names| == |birds|
    ensures forall k :: 0 <= k < |birds| ==> names[k] == birds[k].name
  {
    seq(|birds|, k requires 0 <= k < |birds| => birds[k].name)
  }

  /** The position of the first detection of `name`. */
  function FirstOf(birds: seq<Bird>, name: string): nat
    requires name in Names(birds)
  {
    FirstIndex(Names(birds), name)
  }

  /** The birds of one group, in order, flagged `pinned`: those whose name is
      in `active` when `pinned` holds, the others when it does not. */
  function Group(birds: seq<Bird>, active: set<string>, pinned: bool): seq<Bird>
    decreases |birds|
  {
    if birds == [] then []
    else
      var b := birds[|birds| - 1];
      var init := Group(birds[..|birds| - 1], active, pinned);
      if (b.name in active) == pinned then init + [b.(isPinned := pinned)] else init
  }

  /** The first bird of every name, in order. */
  function FirstOfEachName(birds: seq<Bird>): seq<Bird>
    decreases |birds|
  {
    if birds == [] then []
    else
      var b := birds[|birds| - 1];
      var init := FirstOfEachName(birds[..|birds| - 1]);
      if b.name in Names(init) then init else init + [b]
  }

  /** The list `get_bird_data` goes on to show. */
  function Selection(birds: seq<Bird>, active: set<string>): seq<Bird> {
    var both := FirstOfEachName(Group(birds, active, true)) + FirstOfEachName(Group(birds, active, false));
    both[..Min(MaxShown, |both|)]
  }

  /** The selection loops of `get_bird_data`: `pinned_birds` collects the
      first bird of each active name, `unpinned_birds` every other bird, and
      the `seen_names` loop keeps the first of each of those. */
  method SelectBirds(birds: seq<Bird>, active: set<string>) returns (final: seq<Bird>)
    ensures final == Selection(birds, active)
  {
    var pinned: seq<Bird> := [];
    var unpinned: seq<Bird> := [];
    for i := 0 to |birds|
      invariant pinned == FirstOfEachName(Group(birds[..i], active, true))
      invariant unpinned == Group(birds[..i], active, false)
    {
      assert birds[..i + 1][..i] == birds[..i];
      var bird := birds[i];
      if bird.name in active {
        bird := bird.(isPinned := true);
        assert Group(birds[..i + 1], active, true) == Group(birds[..i], active, true) + [bird];
        assert (Group(birds[..i], active, true) + [bird])[..|Group(birds[..i], active, true)|]
               == Group(birds[..i], active, true);
        if bird.name !in Names(pinned) {
          pinned := pinned + [bird];
        }
      } else {
        bird := bird.(isPinned := false);
        unpinned := unpinned + [bird];
      }
    }
    assert birds[..|birds|] == birds;
    var unique: seq<Bird> := [];
    var seen: set<string> := {};
    for i := 0 to |unpinned|
      invariant unique == FirstOfEachName(unpinned[..i])
      invariant forall n :: n in seen <==> n in Names(unique)
    {
      assert unpinned[..i + 1][..i] == unpinned[..i];
      if unpinned[i].name !in seen {
        assert Names(unique + [unpinned[i]]) == Names(unique) + [unpinned[i].name];
        unique := unique + [unpinned[i]];
        seen := seen + {unpinned[i].name};
      }
    }
    assert unpinned[..|unpinned|] == unpinned;
    var both := pinned + unique;
    final := both[..Min(MaxShown, |both|)];
  }

  /** The names in a group are the names of the input that belong to it. */
  lemma {:induction false} GroupNames(birds: seq<Bird>, active: set<string>, pinned: bool, name: string)
    ensures name in Names(Group(birds, active, pinned)) <==> name in Names(birds) && (name in active) == pinned
  {
    if birds != [] {
      var init := birds[..|birds| - 1];
      GroupNames(init, active, pinned, name);
      assert Names(birds) == Names(init) + [birds[|birds| - 1].name];
      var g := Group(init, active, pinned);
      var b := birds[|birds| - 1];
      if (b.name in active) == pinned {
        assert Names(g + [b.(isPinned := pinned)]) == Names(g) + [b.name];
      }
    }
  }

  /** Grouping of a bird list extended by one bird. */
  lemma GroupSnoc(birds: seq<Bird>, b: Bird, active: set<string>, pinned: bool)
    ensures Group(birds + [b], active, pinned)
            == Group(birds, active, pinned) + (if (b.name in active) == pinned then [b.(isPinned := pinned)] else [])
  {
    assert (birds + [b])[..|birds|] == birds;
  }

  lemma FirstOfEachNameSnoc(birds: seq<Bird>, b: Bird)
    ensures FirstOfEachName(birds + [b])
            == if b.name in Names(FirstOfEachName(birds)) then FirstOfEachName(birds) else FirstOfEachName(birds) + [b]
  {
    assert (birds + [b])[..|birds|] == birds;
  }

  /** The first detection of a name carries the name of the input; which
      names appear is the same whether one keeps the first of each name or
      not. */
  lemma {:induction false} FirstOfEachNameNames(birds: seq<Bird>, name: string)
    ensures name in Names(FirstOfEachName(birds)) <==> name in Names(birds)
  {
    if birds != [] {
      var init := birds[..|birds| - 1];
      var b := birds[|birds| - 1];
      FirstOfEachNameNames(init, name);
      assert Names(birds) == Names(init) + [b.name];
      var f := FirstOfEachName(init);
      if b.name !in Names(f) {
        assert Names(f + [b]) == Names(f) + [b.name];
      }
    }
  }

  /** Keeping the first bird of each name and splitting into the pinned
      and unpinned groups can be done in either order, since a name decides
      its group. */
  lemma {:induction false} GroupCommutes(birds: seq<Bird>, active: set<string>, pinned: bool)
    ensures FirstOfEachName(Group(birds, active, pinned)) == Group(FirstOfEachName(birds), active, pinned)
  {
    if birds != [] {
      var init := birds[..|birds| - 1];
      var b := birds[|birds| - 1];
      assert birds == init + [b];
      GroupCommutes(init, active, pinned);
      GroupSnoc(init, b, active, pinned);
      FirstOfEachNameSnoc(init, b);
      var f := FirstOfEachName(init);
      GroupSnoc(f, b, active, pinned);
      if (b.name in active) == pinned {
        var bp := b.(isPinned := pinned);
        FirstOfEachNameSnoc(Group(init, active, pinned), bp);
        GroupNames(f, active, pinned, b.name);
      }
    }
  }

  /** The first bird of each name: no name twice, each bird the first one
      of its name in the input, in the order of those first detections. */
  lemma {:induction false} FirstOfEachNameSpec(birds: seq<Bird>)
    ensures forall i, j :: 0 <= i < j < |FirstOfEachName(birds)| ==>
              FirstOfEachName(birds)[i].name != FirstOfEachName(birds)[j].name
    ensures forall k :: 0 <= k < |FirstOfEachName(birds)| ==>
              && FirstOfEachName(birds)[k].name in Names(birds)
              && FirstOfEachName(birds)[k] == birds[FirstOf(birds, FirstOfEachName(birds)[k].name)]
    ensures forall i, j :: 0 <= i < j < |FirstOfEachName(birds)| ==>
              FirstOf(birds, FirstOfEachName(birds)[i].name) < FirstOf(birds, FirstOfEachName(birds)[j].name)
  {
    if birds != [] {
      var n := |birds|;
      var init := birds[..n - 1];
      var b := birds[n - 1];
      FirstOfEachNameSpec(init);
      var f := FirstOfEachName(init);
      var full := FirstOfEachName(birds);
      assert Names(init) == Names(birds)[..n - 1];
      forall name | name in Names(init)
        ensures FirstOf(birds, name) == FirstOf(init, name)
      {
        var k := FirstOf(init, name);
        assert Names(birds)[..k] == Names(init)[..k];
        FirstIndexUnique(Names(birds), name, k);
      }
      forall k | 0 <= k < |f|
        ensures f[k].name in Names(birds) && f[k] == birds[FirstOf(birds, f[k].name)]
        ensures FirstOf(birds, f[k].name) == FirstOf(init, f[k].name) < n - 1
      {
        assert f[k].name in Names(init);
        var i := FirstOf(init, f[k].name);
        assert i < n - 1;
        assert init[i] == birds[i];
        assert f[k] == init[FirstOf(init, f[k].name)];
        assert Names(birds)[i] == f[k].name;
      }
      if b.name in Names(f) {
        assert full == f;
      } else {
        assert full == f + [b];
        FirstOfEachNameNames(init, b.name);
        assert Names(birds)[..n - 1] == Names(init);
        FirstIndexUnique(Names(birds), b.name, n - 1);
        assert Names(birds)[n - 1] == b.name;
        forall k | 0 <= k < |full|
          ensures full[k].name in Names(birds) && full[k] == birds[FirstOf(birds, full[k].name)]
        {
          if k < |f| {
            assert full[k] == f[k];
          }
        }
        forall i, j | 0 <= i < j < |full|
          ensures full[i].name != full[j].name
          ensures FirstOf(birds, full[i].name) < FirstOf(birds, full[j].name)
        {
          assert full[i] == f[i];
          if j < |f| {
            assert full[j] == f[j];
          } else {
            assert Names(f)[i] == f[i].name;
          }
        }
      }
    }
  }

  /** Which input bird each bird of a group comes from: bird k of the group
      is bird `source[k]` of the input, flagged; the sources increase; and
      every input bird belonging to the group is among them. */
  lemma {:induction false} GroupSources(birds: seq<Bird>, active: set<string>, pinned: bool)
    returns (source: seq<nat>)
    ensures var g := Group(birds, active, pinned);
            && |source| == |g|
            && (forall k :: 0 <= k < |g| ==>
                  && source[k] < |birds|
                  && (birds[source[k]].name in active) == pinned
                  && g[k] == birds[source[k]].(isPinned := pinned))
    ensures forall k, l :: 0 <= k < l < |source| ==> source[k] < source[l]
    ensures forall j :: 0 <= j < |birds| && (birds[j].name in active) == pinned ==> j in source
  {
    if birds == [] {
      return [];
    }
    var n := |birds|;
    var init := birds[..n - 1];
    var b := birds[n - 1];
    var initSource := GroupSources(init, active, pinned);
    var gi := Group(init, active, pinned);
    if (b.name in active) == pinned {
      source := initSource + [n - 1];
      var g := gi + [b.(isPinned := pinned)];
      assert Group(birds, active, pinned) == g;
      forall k | 0 <= k < |g|
        ensures source[k] < n && (birds[source[k]].name in active) == pinned
                && g[k] == birds[source[k]].(isPinned := pinned)
      {
        if k < |gi| {
          assert birds[source[k]] == init[initSource[k]];
        }
      }
    } else {
      source := initSource;
      forall k | 0 <= k < |gi|
        ensures birds[source[k]] == init[initSource[k]]
      {
      }
    }
    forall j | 0 <= j < n && (birds[j].name in active) == pinned ensures j in source {
      if j < n - 1 {
        assert init[j] == birds[j];
      }
    }
  }

  /** The selection is the flagged first detections of the pinned names
      followed by those of the other names, cut at four. */
  lemma SelectionOfFirsts(birds: seq<Bird>, active: set<string>)
    ensures var f := FirstOfEachName(birds);
            var both := Group(f, active, true) + Group(f, active, false);
            Selection(birds, active) == both[..Min(MaxShown, |both|)]
  {
    GroupCommutes(birds, active, true);
    GroupCommutes(birds, active, false);
  }

  /** Where each shown bird comes from: bird k is the first detection
      `src[k]` of its species, flagged; the first `pinnedCount` are the
      pinned ones; within each group the sources increase. */
  lemma SelectionSources(birds: seq<Bird>, active: set<string>) returns (src: seq<nat>, pinnedCount: nat)
    ensures var final := Selection(birds, active);
            var f := FirstOfEachName(birds);
            && |src| == |final|
            && forall k :: 0 <= k < |final| ==>
                 && src[k] < |f|
                 && final[k] == f[src[k]].(isPinned := k < pinnedCount)
                 && (f[src[k]].name in active) == (k < pinnedCount)
    ensures var final := Selection(birds, active);
            forall i, j :: 0 <= i < j < |final| && (i < pinnedCount) == (j < pinnedCount) ==> src[i] < src[j]
  {
    var f := FirstOfEachName(birds);
    var p := Group(f, active, true);
    var u := Group(f, active, false);
    var ps := GroupSources(f, active, true);
    var us := GroupSources(f, active, false);
    var both := p + u;
    SelectionOfFirsts(birds, active);
    var final := Selection(birds, active);
    pinnedCount := |p|;
    src := seq(|final|, k requires 0 <= k < |final| => if k < |p| then ps[k] else us[k - |p|]);
    forall k | 0 <= k < |final|
      ensures src[k] < |f| && final[k] == f[src[k]].(isPinned := k < pinnedCount)
              && (f[src[k]].name in active) == (k < pinnedCount)
    {
      assert final[k] == both[k];
    }
  }

  /** Every shown bird is the first detection of its species, flagged
      pinned exactly when its species is active. */
  lemma SelectionFlags(birds: seq<Bird>, active: set<string>)
    ensures |Selection(birds, active)| <= MaxShown
    ensures var final := Selection(birds, active);
            forall k :: 0 <= k < |final| ==>
              && final[k].name in Names(birds)
              && final[k].isPinned == (final[k].name in active)
              && final[k] == birds[FirstOf(birds, final[k].name)].(isPinned := final[k].isPinned)
  {
    FirstOfEachNameSpec(birds);
    var src, pinnedCount := SelectionSources(birds, active);
  }

  /** The pinned birds come before all the others. */
  lemma SelectionPinnedFirst(birds: seq<Bird>, active: set<string>)
    ensures var final := Selection(birds, active);
            forall i, j :: 0 <= i < j < |final| ==> final[j].isPinned ==> final[i].isPinned
  {
    var src, pinnedCount := SelectionSources(birds, active);
  }

  /** Within each group the birds keep the order of first detection. */
  lemma SelectionOrder(birds: seq<Bird>, active: set<string>)
    ensures var final := Selection(birds, active);
            forall k :: 0 <= k < |final| ==> final[k].name in Names(birds)
    ensures var final := Selection(birds, active);
            forall i, j :: 0 <= i < j < |final| && final[i].isPinned == final[j].isPinned ==>
              FirstOf(birds, final[i].name) < FirstOf(birds, final[j].name)
  {
    FirstOfEachNameSpec(birds);
    SelectionFlags(birds, active);
    var f := FirstOfEachName(birds);
    var final := Selection(birds, active);
    var src, pinnedCount := SelectionSources(birds, active);
    forall i, j | 0 <= i < j < |final| && final[i].isPinned == final[j].isPinned
      ensures FirstOf(birds, final[i].name) < FirstOf(birds, final[j].name)
    {
      assert final[i].name == f[src[i]].name && final[j].name == f[src[j]].name;
    }
  }

  /** No species is shown twice. */
  lemma SelectionDistinct(birds: seq<Bird>, active: set<string>)
    ensures var final := Selection(birds, active);
            forall i, j :: 0 <= i < j < |final| ==> final[i].name != final[j].name
  {
    FirstOfEachNameSpec(birds);
    var f := FirstOfEachName(birds);
    var final := Selection(birds, active);
    var src, pinnedCount := SelectionSources(birds, active);
    forall i, j | 0 <= i < j < |final|
      ensures final[i].name != final[j].name
    {
      assert final[i].name == f[src[i]].name && final[j].name == f[src[j]].name;
      if (i < pinnedCount) == (j < pinnedCount) {
        assert src[i] < src[j];
      }
    }
  }

  /** Every bird of a group carries the group's flag. */
  lemma {:induction false} GroupFlagged(birds: seq<Bird>, active: set<string>, pinned: bool)
    ensures forall k :: 0 <= k < |Group(birds, active, pinned)| ==> Group(birds, active, pinned)[k].isPinned == pinned
    decreases |birds|
  {
    if birds != [] {
      GroupFlagged(birds[..|birds| - 1], active, pinned);
    }
  }

  /** A bird of a list cut at four is shown unless the cut dropped it,
      which leaves four birds shown. */
  lemma CutShows(both: seq<Bird>, final: seq<Bird>, at: nat)
    requires at < |both| && final == both[..Min(MaxShown, |both|)]
    ensures |final| < MaxShown ==> both[at].name in Names(final)
    ensures both[at].name !in Names(final) ==> MaxShown <= at && |final| == MaxShown
  {
    if at < |final| {
      assert Names(final)[at] == both[at].name;
    }
  }

  /** Nothing is left out while there is room: with fewer than four birds
      shown, every species detected is shown; and a detected pinned species
      is left out only when four pinned birds fill the list. */
  lemma SelectionComplete(birds: seq<Bird>, active: set<string>, name: string)
    requires name in Names(birds)
    ensures |Selection(birds, active)| < MaxShown ==> name in Names(Selection(birds, active))
    ensures name in active && name !in Names(Selection(birds, active)) ==>
              && |Selection(birds, active)| == MaxShown
              && forall k :: 0 <= k < |Selection(birds, active)| ==> Selection(birds, active)[k].isPinned
  {
    var f := FirstOfEachName(birds);
    FirstOfEachNameNames(birds, name);
    var p := Group(f, active, true);
    var u := Group(f, active, false);
    var both := p + u;
    SelectionOfFirsts(birds, active);
    var final := Selection(birds, active);
    GroupNames(f, active, name in active, name);
    var g := if name in active then p else u;
    var k :| 0 <= k < |g| && g[k].name == name;
    var at := if name in active then k else |p| + k;
    assert both[at] == g[k];
    CutShows(both, final, at);
    if name in active && name !in Names(final) {
      GroupFlagged(f, active, true);
      forall i | 0 <= i < |final| ensures final[i].isPinned {
        assert final[i] == p[i];
      }
    }
  }
}
