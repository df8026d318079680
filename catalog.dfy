/** The species list: reading and writing `species_list.csv`, the filter
    applied to the BirdNET-Go species inventory, and the location check
    (display/cache_builder.py, lines 52-135). The CSV layer is modelled as
    rows that are already split into fields. */
module SpeciesCatalog {
  import opened Wrappers
  import opened Text

  /** A (common name, scientific name) pair. */
  datatype Species = Species(common: string, scientific: string)

  type Row = seq<string>

  /** The species file as `csv.reader` sees it: absent, unreadable (an
      `IOError` or `csv.Error` while reading), or a sequence of rows. */
  datatype CsvFile = Missing | Unreadable | Rows(rows: seq<Row>)

  const Header: Row := ["Common Name", "Scientific Name"]

  /** A data row is kept when it has two fields that are non-empty before stripping. */
  predicate RowKept(row: Row) {
    |row| >= 2 && row[0] != [] && row[1] != []
  }

  function SpeciesOfRow(row: Row): Species
    requires |row| >= 2
  {
    Species(Strip(row[0]), Strip(row[1]))
  }

  /** The species the reading loop appends, in row order. */
  function KeptSpecies(rows: seq<Row>): seq<Species> {
    if rows == [] then []
    else
      var last := rows[|rows| - 1];
      KeptSpecies(rows[..|rows| - 1]) + (if RowKept(last) then [SpeciesOfRow(last)] else [])
  }

  /** What `load_species_from_file` returns: the header row is skipped. */
  function LoadedSpecies(file: CsvFile): seq<Species> {
    match file
    case Rows(rows) => if rows == [] then [] else KeptSpecies(rows[1..])
    case _ => []
  }

  /** `load_species_from_file`. */
  method LoadSpeciesFromFile(file: CsvFile) returns (species: seq<Species>)
    ensures species == LoadedSpecies(file)
  {
    species := [];
    if !file.Rows? || file.rows == [] {
      return;
    }
    var rows := file.rows[1..];
    for i := 0 to |rows|
      invariant species == KeptSpecies(rows[..i])
    {
      assert rows[..i + 1][..i] == rows[..i];
      var row := rows[i];
      if |row| >= 2 && row[0] != [] && row[1] != [] {
        species := species + [Species(Strip(row[0]), Strip(row[1]))];
      }
    }
    assert rows[..|rows|] == rows;
  }

  /** The kept species are exactly the stripped pairs of the kept rows, in
      row order: entry j comes from some row i, and every kept row after it
      gives a later entry. */
  lemma {:induction false} KeptSpeciesMembers(rows: seq<Row>)
    ensures |KeptSpecies(rows)| <= |rows|
    ensures forall i :: 0 <= i < |rows| && RowKept(rows[i]) ==> SpeciesOfRow(rows[i]) in KeptSpecies(rows)
    ensures forall s :: s in KeptSpecies(rows) ==>
              exists i :: 0 <= i < |rows| && RowKept(rows[i]) && s == SpeciesOfRow(rows[i])
  {
    if rows != [] {
      var init := rows[..|rows| - 1];
      KeptSpeciesMembers(init);
      forall i | 0 <= i < |rows| - 1 && RowKept(rows[i])
        ensures SpeciesOfRow(rows[i]) in KeptSpecies(rows)
      {
        assert rows[i] == init[i];
      }
      forall s | s in KeptSpecies(rows)
        ensures exists i :: 0 <= i < |rows| && RowKept(rows[i]) && s == SpeciesOfRow(rows[i])
      {
        if s in KeptSpecies(init) {
          var i :| 0 <= i < |init| && RowKept(init[i]) && s == SpeciesOfRow(init[i]);
          assert rows[i] == init[i];
        }
      }
    }
  }

  /** The indices of the rows the reading loop keeps, in order. */
  function KeptRows(rows: seq<Row>): (source: seq<nat>)
    ensures |source| <= |rows|
  {
    if rows == [] then []
    else KeptRows(rows[..|rows| - 1]) + (if RowKept(rows[|rows| - 1]) then [|rows| - 1] else [])
  }

  /** One species is kept per kept row. */
  lemma {:induction false} KeptRowsLength(rows: seq<Row>)
    ensures |KeptRows(rows)| == |KeptSpecies(rows)|
  {
    if rows != [] {
      KeptRowsLength(rows[..|rows| - 1]);
    }
  }

  /** A kept row index points at a kept row. */
  lemma {:induction false} KeptRowsAreKept(rows: seq<Row>)
    ensures forall k :: 0 <= k < |KeptRows(rows)| ==>
              KeptRows(rows)[k] < |rows| && RowKept(rows[KeptRows(rows)[k]])
  {
    if rows != [] {
      var n := |rows|;
      var init := rows[..n - 1];
      KeptRowsAreKept(init);
      var initSource := KeptRows(init);
      var source := KeptRows(rows);
      assert source == initSource + (if RowKept(rows[n - 1]) then [n - 1] else []);
      forall k | 0 <= k < |source|
        ensures source[k] < n && RowKept(rows[source[k]])
      {
        if k < |initSource| {
          assert source[k] == initSource[k];
          assert init[initSource[k]] == rows[initSource[k]];
        }
      }
    }
  }

  /** The kept row indices increase and stay below the number of rows. */
  lemma {:induction false} KeptRowsIncrease(rows: seq<Row>)
    ensures forall k :: 0 <= k < |KeptRows(rows)| ==> KeptRows(rows)[k] < |rows|
    ensures forall k, l :: 0 <= k < l < |KeptRows(rows)| ==> KeptRows(rows)[k] < KeptRows(rows)[l]
  {
    if rows != [] {
      var n := |rows|;
      KeptRowsIncrease(rows[..n - 1]);
      var initSource := KeptRows(rows[..n - 1]);
      var source := KeptRows(rows);
      assert source == initSource + (if RowKept(rows[n - 1]) then [n - 1] else []);
      forall k, l | 0 <= k < l < |source| ensures source[k] < source[l] {
        assert source[k] == initSource[k];
        if l < |initSource| {
          assert source[l] == initSource[l];
        }
      }
    }
  }

  /** Every kept row has its index among the kept row indices. */
  lemma {:induction false} KeptRowsComplete(rows: seq<Row>)
    ensures forall i :: 0 <= i < |rows| && RowKept(rows[i]) ==> i in KeptRows(rows)
  {
    if rows != [] {
      var n := |rows|;
      var init := rows[..n - 1];
      KeptRowsComplete(init);
      var initSource := KeptRows(init);
      var source := KeptRows(rows);
      assert source == initSource + (if RowKept(rows[n - 1]) then [n - 1] else []);
      forall i | 0 <= i < n && RowKept(rows[i]) ensures i in source {
        if i < n - 1 {
          assert init[i] == rows[i];
          var k := PositionIn(initSource, i);
          assert source[k] == i;
        } else {
          assert source[|initSource|] == n - 1;
        }
      }
    }
  }

  /** Entry k of the kept species is the stripped pair of the k-th kept row. */
  lemma {:induction false} KeptSpeciesOfKeptRows(rows: seq<Row>)
    ensures |KeptRows(rows)| == |KeptSpecies(rows)|
    ensures forall k :: 0 <= k < |KeptRows(rows)| ==>
              KeptRows(rows)[k] < |rows| && |rows[KeptRows(rows)[k]]| >= 2
              && KeptSpecies(rows)[k] == SpeciesOfRow(rows[KeptRows(rows)[k]])
  {
    if rows != [] {
      var n := |rows|;
      var init := rows[..n - 1];
      var last := rows[n - 1];
      KeptSpeciesOfKeptRows(init);
      KeptRowsLength(rows);
      var initSource := KeptRows(init);
      var source := KeptRows(rows);
      var initKept := KeptSpecies(init);
      var kept := KeptSpecies(rows);
      assert source == initSource + (if RowKept(last) then [n - 1] else []);
      assert kept == initKept + (if RowKept(last) then [SpeciesOfRow(last)] else []);
      forall k | 0 <= k < |source|
        ensures source[k] < n && |rows[source[k]]| >= 2 && kept[k] == SpeciesOfRow(rows[source[k]])
      {
        if k < |initSource| {
          assert source[k] == initSource[k] && kept[k] == initKept[k];
          assert init[initSource[k]] == rows[initSource[k]];
        }
      }
    }
  }

  /** Which row each kept species comes from: entry k is the stripped pair
      of row `source[k]`, a kept row; the sources increase, so input order
      is kept; and every kept row has an entry. */
  lemma KeptSpeciesSources(rows: seq<Row>) returns (source: seq<nat>)
    ensures |source| == |KeptSpecies(rows)|
    ensures forall k :: 0 <= k < |source| ==>
              source[k] < |rows| && RowKept(rows[source[k]]) && KeptSpecies(rows)[k] == SpeciesOfRow(rows[source[k]])
    ensures forall k, l :: 0 <= k < l < |source| ==> source[k] < source[l]
    ensures forall i :: 0 <= i < |rows| && RowKept(rows[i]) ==> i in source
  {
    source := KeptRows(rows);
    KeptRowsLength(rows);
    KeptRowsAreKept(rows);
    KeptRowsIncrease(rows);
    KeptRowsComplete(rows);
    KeptSpeciesOfKeptRows(rows);
  }

  /** What `load_species_from_file` promises: nothing from a missing or
      unreadable file or one without rows; otherwise the header row is
      skipped and entry k is the stripped pair of data row `source[k]`, a
      row with two fields non-empty before stripping, the rows taken in
      file order and none of them left out. */
  lemma LoadedSpeciesSpec(file: CsvFile) returns (source: seq<nat>)
    ensures !file.Rows? || file.rows == [] ==> LoadedSpecies(file) == [] && source == []
    ensures |source| == |LoadedSpecies(file)|
    ensures file.Rows? ==>
              && (forall k :: 0 <= k < |source| ==>
                    && 1 <= source[k] < |file.rows|
                    && RowKept(file.rows[source[k]])
                    && LoadedSpecies(file)[k] == SpeciesOfRow(file.rows[source[k]]))
              && (forall k, l :: 0 <= k < l < |source| ==> source[k] < source[l])
              && (forall i :: 1 <= i < |file.rows| && RowKept(file.rows[i]) ==> i in source)
  {
    if !file.Rows? || file.rows == [] {
      return [];
    }
    var rows := file.rows;
    var data := rows[1..];
    var dataSource := KeptSpeciesSources(data);
    source := seq(|dataSource|, k requires 0 <= k < |dataSource| => dataSource[k] + 1);
    forall k | 0 <= k < |source|
      ensures rows[source[k]] == data[dataSource[k]]
    {
    }
    forall i | 1 <= i < |rows| && RowKept(rows[i]) ensures i in source {
      assert data[i - 1] == rows[i];
      var k :| 0 <= k < |dataSource| && dataSource[k] == i - 1;
      assert source[k] == i;
    }
  }

  /** The rows `save_species_to_file` writes: the header, then one row per pair. */
  function SpeciesRows(species: seq<Species>): (rows: seq<Row>)
    ensures |rows| == |species| + 1 && rows[0] == Header
    ensures forall i :: 0 <= i < |species| ==> rows[i + 1] == [species[i].common, species[i].scientific]
  {
    [Header] + seq(|species|, i requires 0 <= i < |species| => [species[i].common, species[i].scientific])
  }

  /** `save_species_to_file`: on success the file holds exactly the header and
      one row per pair; when the destination cannot be written (`IOError`) it
      reports failure and the file is left as it was. */
  method SaveSpeciesToFile(species: seq<Species>, current: CsvFile, writable: bool)
    returns (ok: bool, written: CsvFile)
    ensures ok == writable
    ensures written == if writable then Rows(SpeciesRows(species)) else current
  {
    if !writable {
      return false, current;
    }
    var rows := [Header];
    for i := 0 to |species|
      invariant rows == SpeciesRows(species[..i])
    {
      rows := rows + [[species[i].common, species[i].scientific]];
      assert species[..i + 1][..i] == species[..i];
    }
    assert species[..|species|] == species;
    return true, Rows(rows);
  }

  /** A pair that survives a save and a reload unchanged. */
  predicate Savable(s: Species) {
    s.common != [] && s.scientific != [] && Strip(s.common) == s.common && Strip(s.scientific) == s.scientific
  }

  /** When every row is kept, the k-th kept row is row k. */
  lemma {:induction false} AllRowsKept(rows: seq<Row>)
    requires forall i :: 0 <= i < |rows| ==> RowKept(rows[i])
    ensures |KeptRows(rows)| == |rows|
    ensures forall k :: 0 <= k < |rows| ==> KeptRows(rows)[k] == k
  {
    if rows != [] {
      var n := |rows|;
      var init := rows[..n - 1];
      assert forall i :: 0 <= i < n - 1 ==> RowKept(init[i]);
      AllRowsKept(init);
      assert RowKept(rows[n - 1]);
      assert KeptRows(rows) == KeptRows(init) + [n - 1];
    }
  }

  lemma KeptSpeciesOfSavedRows(species: seq<Species>)
    requires forall i :: 0 <= i < |species| ==> Savable(species[i])
    ensures KeptSpecies(SpeciesRows(species)[1..]) == species
  {
    var rows := SpeciesRows(species)[1..];
    forall i | 0 <= i < |rows|
      ensures RowKept(rows[i]) && SpeciesOfRow(rows[i]) == species[i]
    {
      assert rows[i] == [species[i].common, species[i].scientific];
    }
    AllRowsKept(rows);
    KeptSpeciesOfKeptRows(rows);
  }

  /** Round trip: loading what was saved gives back the list whenever every
      name is non-empty and already stripped. */
  lemma LoadAfterSave(species: seq<Species>)
    requires forall i :: 0 <= i < |species| ==> Savable(species[i])
    ensures LoadedSpecies(Rows(SpeciesRows(species))) == species
  {
    KeptSpeciesOfSavedRows(species);
  }

  /** An entry of the inventory API's `species` array; a missing key reads as "". */
  datatype ApiSpecies = ApiSpecies(commonName: Option<string>, scientificName: Option<string>)

  /** The API's answer: the request failed (connection refused, time-out,
      HTTP error, undecodable JSON), or a body whose `species` key may be absent. */
  datatype ApiResponse = RequestFailed | Body(species: Option<seq<ApiSpecies>>)

  /** What one API entry contributes: its stripped names, when neither is
      empty. */
  function ApiEntrySpecies(e: ApiSpecies): seq<Species> {
    var common := Strip(e.commonName.GetOr(""));
    var scientific := Strip(e.scientificName.GetOr(""));
    if common != [] && scientific != [] then [Species(common, scientific)] else []
  }

  /** An entry contributes at most one pair, and a savable one. */
  lemma ApiEntrySavable(e: ApiSpecies)
    ensures |ApiEntrySpecies(e)| <= 1
    ensures forall i :: 0 <= i < |ApiEntrySpecies(e)| ==> Savable(ApiEntrySpecies(e)[i])
  {
    var common, scientific := e.commonName.GetOr(""), e.scientificName.GetOr("");
    if Strip(common) != [] && Strip(scientific) != [] {
      StrippedPairSavable(common, scientific);
    }
  }

  lemma StrippedPairSavable(common: string, scientific: string)
    requires Strip(common) != [] && Strip(scientific) != []
    ensures Savable(Species(Strip(common), Strip(scientific)))
  {
    StripIdempotent(common);
    StripIdempotent(scientific);
  }

  /** The entries `fetch_species_from_api` keeps, stripped, in order. */
  function ApiSpeciesList(entries: seq<ApiSpecies>): seq<Species> {
    if entries == [] then []
    else ApiSpeciesList(entries[..|entries| - 1]) + ApiEntrySpecies(entries[|entries| - 1])
  }

  /** `fetch_species_from_api`: `None` exactly when the request fails. */
  method FetchSpeciesFromApi(response: ApiResponse) returns (result: Option<seq<Species>>)
    ensures result.None? <==> response.RequestFailed?
    ensures response.Body? ==> result == Some(ApiSpeciesList(response.species.GetOr([])))
  {
    if response.RequestFailed? {
      return None;
    }
    var entries := response.species.GetOr([]);
    var species := [];
    for i := 0 to |entries|
      invariant species == ApiSpeciesList(entries[..i])
    {
      assert entries[..i + 1][..i] == entries[..i];
      assert ApiSpeciesList(entries[..i + 1]) == species + ApiEntrySpecies(entries[i]);
      var common := Strip(entries[i].commonName.GetOr(""));
      var scientific := Strip(entries[i].scientificName.GetOr(""));
      if common != [] && scientific != [] {
        species := species + [Species(common, scientific)];
      }
    }
    assert entries[..|entries|] == entries;
    return Some(species);
  }

  /** Every pair taken from the API has non-empty, stripped names. */
  lemma {:induction false} ApiSpeciesAreSavable(entries: seq<ApiSpecies>)
    ensures |ApiSpeciesList(entries)| <= |entries|
    ensures forall i :: 0 <= i < |ApiSpeciesList(entries)| ==> Savable(ApiSpeciesList(entries)[i])
  {
    if entries != [] {
      var init := ApiSpeciesList(entries[..|entries| - 1]);
      var last := ApiEntrySpecies(entries[|entries| - 1]);
      ApiSpeciesAreSavable(entries[..|entries| - 1]);
      ApiEntrySavable(entries[|entries| - 1]);
      forall i | 0 <= i < |init + last| ensures Savable((init + last)[i]) {
        if i < |init| {
          assert (init + last)[i] == init[i];
        } else {
          assert (init + last)[i] == last[i - |init|];
        }
      }
    }
  }

  /** A list fetched from the API and saved to the species file is read back
      unchanged by the cache builder. */
  lemma ApiListSurvivesSaveAndLoad(entries: seq<ApiSpecies>)
    ensures LoadedSpecies(Rows(SpeciesRows(ApiSpeciesList(entries)))) == ApiSpeciesList(entries)
  {
    ApiSpeciesAreSavable(entries);
    LoadAfterSave(ApiSpeciesList(entries));
  }

  /** The settings endpoint's answer: the request failed, or the
      `birdnet.latitude` / `birdnet.longitude` values, each possibly missing. */
  datatype SettingsResponse = SettingsFailed | Settings(latitude: Option<real>, longitude: Option<real>)

  /** The tri-state result of `check_location_settings`. */
  datatype LocationStatus = LocationSet | LocationNotSet | LocationUnknown

  /** `check_location_settings`. */
  function CheckLocationSettings(response: SettingsResponse): (status: LocationStatus)
    ensures status == LocationUnknown <==> response.SettingsFailed?
    ensures status == LocationSet <==>
              && response.Settings?
              && response.latitude.Some? && response.longitude.Some?
              && !(response.latitude.value == 0.0 && response.longitude.value == 0.0)
              && -90.0 <= response.latitude.value <= 90.0
              && -180.0 <= response.longitude.value <= 180.0
  {
    match response
    case SettingsFailed => LocationUnknown
    case Settings(latitude, longitude) =>
      if latitude.None? || longitude.None? then LocationNotSet
      else if latitude.value == 0.0 && longitude.value == 0.0 then LocationNotSet
      else if !(-90.0 <= latitude.value <= 90.0 && -180.0 <= longitude.value <= 180.0) then LocationNotSet
      else LocationSet
  }
}
