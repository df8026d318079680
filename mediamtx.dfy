/** The MediaMTX settings update (`update_mediamtx_config_api`,
    display/birdnet_display_enhanced.py lines 599-638): the settings posted
    by the settings page are merged into the YAML configuration of the
    streaming server and saved. Reading and writing the file are inputs:
    the loaded configuration and whether the save succeeds. */
module MediaMtxConfig {
  import opened Wrappers
  import opened Text

  /** A YAML (or JSON) value. */
  datatype Yaml = YStr(s: string) | YBool(b: bool) | YInt(i: int) | YNull | YList(items: seq<Yaml>)
                | YMap(m: map<string, Yaml>)

  type Mapping = map<string, Yaml>

  const LogLevelKey: string := "logLevel"
  const RtspAddressKey: string := "rtspAddress"
  const PathsKey: string := "paths"
  const RunOnInitKey: string := "runOnInit"
  const RunOnInitRestartKey: string := "runOnInitRestart"

  /** The posted settings: `log_level`, `rtsp_address` and `paths`, each
      possibly absent (every path's settings form a mapping), and the
      `restart_service` flag, false when absent. */
  datatype Request = Request(logLevel: Option<Yaml>, rtspAddress: Option<Yaml>, paths: Option<map<string, Mapping>>,
                             restartService: bool)

  /** The answer: the file could not be loaded, the merge raised (a
      `paths` value or path entry that is not a mapping), the save failed, or the merged
      configuration was saved, with a warning when a requested restart of
      the service failed. */
  datatype UpdateOutcome = LoadFailed | MergeRaised | SaveFailed | Saved(config: Mapping, restartFailed: bool)

  /** A path's posted settings change at least one of the two keys. */
  predicate Touches(posted: Mapping) {
    RunOnInitKey in posted || RunOnInitRestartKey in posted
  }

  /** Writing into the entry of path `name` raises: the entry exists and is
      not a mapping, and a key is to be set in it. */
  predicate Raises(paths: Mapping, name: string, posted: Mapping) {
    Touches(posted) && name in paths && !paths[name].YMap?
  }

  /** A path entry with the posted keys set. */
  function SetRunKeys(entry: Mapping, posted: Mapping): (r: Mapping)
    ensures forall k :: k in r <==> k in entry || (k in posted && (k == RunOnInitKey || k == RunOnInitRestartKey))
    ensures forall k :: k in r ==>
              r[k] == if k in posted && (k == RunOnInitKey || k == RunOnInitRestartKey) then posted[k] else entry[k]
  {
    var once := if RunOnInitKey in posted then entry[RunOnInitKey := posted[RunOnInitKey]] else entry;
    if RunOnInitRestartKey in posted then once[RunOnInitRestartKey := posted[RunOnInitRestartKey]] else once
  }

  /** The entry of path `name` after the merge: created empty when missing,
      with the posted keys set. */
  function MergedEntry(paths: Mapping, name: string, posted: Mapping): Yaml
    requires !Raises(paths, name, posted)
  {
    var entry := if name in paths then paths[name] else YMap(map[]);
    if Touches(posted) then YMap(SetRunKeys(entry.m, posted)) else entry
  }

  /** The paths mapping after the entries named in `done` are merged. */
  function MergedPathsOver(paths: Mapping, posted: map<string, Mapping>, done: set<string>): Mapping
    requires done <= posted.Keys
    requires forall name :: name in done ==> !Raises(paths, name, posted[name])
  {
    map name | name in paths.Keys + done ::
      if name in done then MergedEntry(paths, name, posted[name]) else paths[name]
  }

  /** Merging one more path updates its entry and nothing else. */
  lemma MergedPathsStep(paths: Mapping, posted: map<string, Mapping>, done: set<string>, name: string)
    requires done <= posted.Keys && name in posted && name !in done
    requires forall n :: n in done ==> !Raises(paths, n, posted[n])
    requires !Raises(paths, name, posted[name])
    ensures MergedPathsOver(paths, posted, done + {name})
            == MergedPathsOver(paths, posted, done)[name := MergedEntry(paths, name, posted[name])]
  {
    var before := MergedPathsOver(paths, posted, done);
    var after := MergedPathsOver(paths, posted, done + {name});
    assert after.Keys == before.Keys + {name};
    forall n | n in after ensures after[n] == before[name := MergedEntry(paths, name, posted[name])][n] {
    }
  }

  /** The paths mapping after every posted path is merged, or `None` when
      writing into one of them raises. */
  function MergePathsResult(paths: Mapping, posted: map<string, Mapping>): Option<Mapping> {
    if exists name :: name in posted && Raises(paths, name, posted[name]) then None
    else Some(MergedPathsOver(paths, posted, posted.Keys))
  }

  /** `name in paths` on a `paths` value that is not a mapping: membership
      of the string in a list, a substring test on a string; on any other
      value `in` raises (`None`). */
  function HoldsName(paths: Yaml, name: string): Option<bool> {
    match paths
    case YList(items) => Some(YStr(name) in items)
    case YStr(text) => Some(exists i | 0 <= i <= |text| :: OccursAt(text, name, i))
    case _ => None
  }

  /** The loop over the posted paths on a `paths` value that is not a
      mapping gets through without raising exactly when every posted name
      is already "in" it (so no entry is created) and no posted path sets a
      run key (so nothing is written into it); it then changes nothing. */
  predicate NonMappingPathsPass(paths: Yaml, posted: map<string, Mapping>) {
    forall name | name in posted :: HoldsName(paths, name) == Some(true) && !Touches(posted[name])
  }

  /** The configuration after the posted settings are merged, or `None`
      when the merge raises. Over a `paths` value that is not a mapping the
      merge raises unless every posted name is already in it and no run
      key is posted (`NonMappingPathsPass`). */
  function MergeSettings(config: Mapping, request: Request): Option<Mapping> {
    var withLevel := if request.logLevel.Some? then config[LogLevelKey := request.logLevel.value] else config;
    var withAddress := if request.rtspAddress.Some? then withLevel[RtspAddressKey := request.rtspAddress.value] else withLevel;
    match request.paths
    case None => Some(withAddress)
    case Some(posted) =>
      var current := if PathsKey in withAddress then withAddress[PathsKey] else YMap(map[]);
      if posted == map[] then Some(withAddress[PathsKey := current])
      else if !current.YMap? then
        if NonMappingPathsPass(current, posted) then Some(withAddress[PathsKey := current]) else None
      else match MergePathsResult(current.m, posted)
        case None => None
        case Some(merged) => Some(withAddress[PathsKey := YMap(merged)])
  }

  /** The whole update, given the loaded file and the outcomes of the save
      and of the restart. */
  function UpdateResult(loaded: Option<Mapping>, request: Request, saveSucceeds: bool, restartSucceeds: bool)
    : UpdateOutcome
  {
    match loaded
    case None => LoadFailed
    case Some(config) =>
      match MergeSettings(config, request)
      case None => MergeRaised
      case Some(merged) =>
        if saveSucceeds then Saved(merged, request.restartService && !restartSucceeds) else SaveFailed
  }

  /** The loop over the posted paths: each entry is created when missing
      and the posted keys are written into it; the first entry that is not
      a mapping raises. */
  method MergePaths(original: Mapping, posted: map<string, Mapping>) returns (r: Option<Mapping>)
    ensures r == MergePathsResult(original, posted)
  {
    var paths := original;
    var remaining := posted.Keys;
    while remaining != {}
      invariant remaining <= posted.Keys
      invariant forall name :: name in posted.Keys - remaining ==> !Raises(original, name, posted[name])
      invariant paths == MergedPathsOver(original, posted, posted.Keys - remaining)
      decreases remaining
    {
      var name :| name in remaining;
      ghost var done := posted.Keys - remaining;
      assert name in paths <==> name in original;
      assert name in paths ==> paths[name] == original[name];
      var entry := if name in paths then paths[name] else YMap(map[]);
      if Touches(posted[name]) {
        if !entry.YMap? {
          assert Raises(original, name, posted[name]);
          return None;
        }
        entry := YMap(SetRunKeys(entry.m, posted[name]));
      }
      MergedPathsStep(original, posted, done, name);
      paths := paths[name := entry];
      remaining := remaining - {name};
      assert posted.Keys - remaining == done + {name};
    }
    assert posted.Keys - remaining == posted.Keys;
    return Some(paths);
  }

  /** `update_mediamtx_config_api`: load, merge, save. */
  method UpdateMediaMtxConfig(loaded: Option<Mapping>, request: Request, saveSucceeds: bool, restartSucceeds: bool)
    returns (outcome: UpdateOutcome)
    ensures outcome == UpdateResult(loaded, request, saveSucceeds, restartSucceeds)
  {
    if loaded.None? {
      return LoadFailed;
    }
    var config := loaded.value;
    if request.logLevel.Some? {
      config := config[LogLevelKey := request.logLevel.value];
    }
    if request.rtspAddress.Some? {
      config := config[RtspAddressKey := request.rtspAddress.value];
    }
    if request.paths.Some? {
      var posted := request.paths.value;
      if PathsKey !in config {
        config := config[PathsKey := YMap(map[])];
      }
      if posted != map[] {
        if !config[PathsKey].YMap? {
          if !NonMappingPathsPass(config[PathsKey], posted) {
            return MergeRaised;
          }
        } else {
          var merged := MergePaths(config[PathsKey].m, posted);
          if merged.None? {
            return MergeRaised;
          }
          config := config[PathsKey := YMap(merged.value)];
        }
      }
    }
    if !saveSucceeds {
      return SaveFailed;
    }
    if request.restartService && !restartSucceeds {
      return Saved(config, true);
    }
    return Saved(config, false);
  }

  /** Only the keys posted change: other top-level keys keep their values;
      `logLevel` and `rtspAddress` take the posted values when posted and
      keep theirs otherwise; `paths` is untouched when no paths are posted. */
  lemma MergeKeepsOtherKeys(config: Mapping, request: Request, k: string)
    requires MergeSettings(config, request).Some?
    ensures var merged := MergeSettings(config, request).value;
            && (k != LogLevelKey && k != RtspAddressKey && k != PathsKey ==>
                  (k in merged <==> k in config) && (k in config ==> merged[k] == config[k]))
            && (request.logLevel.Some? ==> LogLevelKey in merged && merged[LogLevelKey] == request.logLevel.value)
            && (request.logLevel.None? ==>
                  (LogLevelKey in merged <==> LogLevelKey in config)
                  && (LogLevelKey in config ==> merged[LogLevelKey] == config[LogLevelKey]))
            && (request.rtspAddress.Some? ==> RtspAddressKey in merged && merged[RtspAddressKey] == request.rtspAddress.value)
            && (request.paths.None? ==>
                  (PathsKey in merged <==> PathsKey in config)
                  && (PathsKey in config ==> merged[PathsKey] == config[PathsKey]))
  {
  }

  /** When paths are posted, `paths` is present afterwards (an empty
      mapping when it was missing). Over a mapping it is the merge of the
      posted paths; over anything else the merge got through only as
      `NonMappingPathsPass` allows, and `paths` is unchanged. */
  lemma MergeSettingsPaths(config: Mapping, request: Request)
    requires MergeSettings(config, request).Some? && request.paths.Some? && request.paths.value != map[]
    ensures var merged := MergeSettings(config, request).value;
            var before := if PathsKey in config then config[PathsKey] else YMap(map[]);
            && PathsKey in merged
            && (before.YMap? ==>
                  && merged[PathsKey].YMap?
                  && MergePathsResult(before.m, request.paths.value) == Some(merged[PathsKey].m))
            && (!before.YMap? ==>
                  && NonMappingPathsPass(before, request.paths.value)
                  && merged[PathsKey] == before)
  {
  }

  /** A list of path names or a string that holds every posted name lets
      a post without run keys through unchanged; a name it does not hold,
      or a run key, raises; any other value raises on the first name. */
  lemma NonMappingPathsSpec(paths: Yaml, posted: map<string, Mapping>, name: string)
    requires !paths.YMap? && name in posted
    ensures paths.YList? ==> (HoldsName(paths, name) == Some(true) <==> YStr(name) in paths.items)
    ensures paths.YStr? ==>
              (HoldsName(paths, name) == Some(true) <==> exists before, after :: paths.s == before + name + after)
    ensures !paths.YList? && !paths.YStr? ==> !NonMappingPathsPass(paths, posted)
    ensures Touches(posted[name]) ==> !NonMappingPathsPass(paths, posted)
    ensures HoldsName(paths, name) != Some(true) ==> !NonMappingPathsPass(paths, posted)
  {
    if paths.YStr? {
      var text := paths.s;
      if exists i | 0 <= i <= |text| :: OccursAt(text, name, i) {
        var i :| 0 <= i <= |text| && OccursAt(text, name, i);
        assert text == text[..i] + name + text[i + |name|..];
      }
      if exists before, after :: text == before + name + after {
        var before, after :| text == before + name + after;
        assert OccursAt(text, name, |before|);
      }
    }
  }

  /** A list `paths: [cam1]` and a post of `cam1` without run keys: nothing
      raises and the configuration is saved with `paths` unchanged. */
  lemma ListOfPathNamesIsKept()
    ensures var config := map[PathsKey := YList([YStr("cam1")])];
            var request := Request(None, None, Some(map["cam1" := map[]]), false);
            UpdateResult(Some(config), request, true, true) == Saved(config, false)
  {
    var config := map[PathsKey := YList([YStr("cam1")])];
    var request := Request(None, None, Some(map["cam1" := map[]]), false);
    assert NonMappingPathsPass(config[PathsKey], request.paths.value);
    assert config[PathsKey := config[PathsKey]] == config;
  }

  /** A merged path entry: a mapping in which `runOnInit` and
      `runOnInitRestart` take the posted values when posted, and every other
      key keeps its old value (posted keys besides those two are ignored). */
  lemma MergedEntrySpec(paths: Mapping, name: string, posted: Mapping, key: string)
    requires !Raises(paths, name, posted) && Touches(posted)
    ensures var e := MergedEntry(paths, name, posted);
            var before := if name in paths then paths[name].m else map[];
            && e.YMap?
            && (key != RunOnInitKey && key != RunOnInitRestartKey ==>
                  (key in e.m <==> key in before) && (key in before ==> e.m[key] == before[key]))
            && ((key == RunOnInitKey || key == RunOnInitRestartKey) && key in posted ==>
                  key in e.m && e.m[key] == posted[key])
            && ((key == RunOnInitKey || key == RunOnInitRestartKey) && key !in posted ==>
                  (key in e.m <==> key in before) && (key in before ==> e.m[key] == before[key]))
  {
  }

  /** Paths that are not posted keep their entries; every posted path has
      an entry afterwards, created when missing; the merge raises exactly
      when a posted path that sets a key has an entry that is not a
      mapping. */
  lemma MergePathsSpec(paths: Mapping, posted: map<string, Mapping>, name: string)
    ensures MergePathsResult(paths, posted).None? <==>
              exists n :: n in posted && Touches(posted[n]) && n in paths && !paths[n].YMap?
    ensures MergePathsResult(paths, posted).Some? ==>
              var r := MergePathsResult(paths, posted).value;
              && (name !in posted ==> (name in r <==> name in paths) && (name in paths ==> r[name] == paths[name]))
              && (name in posted ==> name in r && r[name] == MergedEntry(paths, name, posted[name]))
              && (name in posted && !Touches(posted[name]) ==>
                    r[name] == if name in paths then paths[name] else YMap(map[]))
  {
  }

  /** Posting the same paths twice leaves them as posting them once does. */
  lemma MergePathsIdempotent(paths: Mapping, posted: map<string, Mapping>)
    requires MergePathsResult(paths, posted).Some?
    ensures var r := MergePathsResult(paths, posted).value;
            MergePathsResult(r, posted) == Some(r)
  {
    var r := MergePathsResult(paths, posted).value;
    forall name | name in posted
      ensures !Raises(r, name, posted[name])
    {
    }
    var again := MergedPathsOver(r, posted, posted.Keys);
    forall name | name in posted
      ensures again[name] == r[name]
    {
      if Touches(posted[name]) {
        var m := r[name].m;
        assert SetRunKeys(m, posted[name]) == m;
      }
    }
    assert again == r;
  }

  /** Posting the same settings twice leaves the configuration as posting
      them once does. */
  lemma MergeIdempotent(config: Mapping, request: Request)
    requires MergeSettings(config, request).Some?
    ensures MergeSettings(MergeSettings(config, request).value, request) == MergeSettings(config, request)
  {
    var merged := MergeSettings(config, request).value;
    var withLevel := if request.logLevel.Some? then merged[LogLevelKey := request.logLevel.value] else merged;
    var withAddress := if request.rtspAddress.Some? then withLevel[RtspAddressKey := request.rtspAddress.value] else withLevel;
    assert withAddress == merged;
    if request.paths.Some? {
      if request.paths.value != map[] {
        var before := if PathsKey in config then config[PathsKey] else YMap(map[]);
        MergeSettingsPaths(config, request);
        if before.YMap? {
          MergePathsIdempotent(before.m, request.paths.value);
          assert merged[PathsKey := YMap(merged[PathsKey].m)] == merged;
        } else {
          assert merged[PathsKey := merged[PathsKey]] == merged;
        }
      } else {
        assert merged[PathsKey := merged[PathsKey]] == merged;
      }
    }
  }
}
