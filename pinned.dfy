/** Pinned species: a species detected for the first time stays at the top
    of the display for 24 hours unless dismissed. The store is the JSON file
    `pinned_species.json`, read and rewritten by every operation
    (display/birdnet_display_enhanced.py lines 118-176 and 463-468; the same
    code is at display/birdnet_display.py lines 34-91 and 377-383). Times are
    whole seconds. */
module PinnedSpecies {

  const PinnedDurationHours: nat := 24
  const SecondsPerHour: nat := 3600

  /** One entry: pinned until `until`, and whether the user dismissed it. */
  datatype Pin = Pin(until: int, dismissed: bool)

  type Pins = map<string, Pin>

  function NewPin(now: int): (p: Pin)
    ensures p.until == now + 86400 && !p.dismissed
  {
    Pin(now + PinnedDurationHours * SecondsPerHour, false)
  }

  /** Shown on the display: not dismissed and not yet expired. */
  predicate IsActive(p: Pin, now: int) {
    !p.dismissed && now < p.until
  }

  /** The entries `get_active_pinned_species` returns. */
  function Active(pins: Pins, now: int): Pins {
    map name | name in pins && IsActive(pins[name], now) :: pins[name]
  }

  /** The entries left after the expired ones are deleted. */
  function Unexpired(pins: Pins, now: int): Pins {
    map name | name in pins && now < pins[name].until :: pins[name]
  }

  /** The store after `add_pinned_species(name)` at time `now`. */
  function Added(pins: Pins, name: string, now: int): Pins {
    if name in pins then pins else pins[name := NewPin(now)]
  }

  /** The store after `dismiss_pinned_species(name)`. */
  function Dismissed(pins: Pins, name: string): Pins {
    if name in pins then pins[name := pins[name].(dismissed := true)] else pins
  }

  /** The store after `dismiss_all_pinned`. */
  function AllDismissed(pins: Pins): Pins {
    map name | name in pins :: pins[name].(dismissed := true)
  }

  /** Adding: a name already present, dismissed or not, leaves the store as
      it was; a new name gains one undismissed entry lasting 24 hours, and
      no other entry changes. */
  lemma AddedSpec(pins: Pins, name: string, now: int)
    ensures name in pins ==> Added(pins, name, now) == pins
    ensures name !in pins ==>
              && Added(pins, name, now).Keys == pins.Keys + {name}
              && Added(pins, name, now)[name] == Pin(now + 86400, false)
              && forall n :: n in pins ==> Added(pins, name, now)[n] == pins[n]
  {
  }

  /** A newly added species is active for exactly the next 24 hours. */
  lemma AddedIsActiveForADay(pins: Pins, name: string, now: int, t: int)
    requires name !in pins
    ensures name in Active(Added(pins, name, now), t) <==> t < now + 86400
  {
  }

  /** Dismissing flags the named entry only, and it is never active again. */
  lemma DismissedSpec(pins: Pins, name: string, t: int)
    ensures Dismissed(pins, name).Keys == pins.Keys
    ensures name in pins ==> Dismissed(pins, name)[name] == pins[name].(dismissed := true)
    ensures forall n :: n in pins && n != name ==> Dismissed(pins, name)[n] == pins[n]
    ensures name !in Active(Dismissed(pins, name), t)
  {
  }

  /** Dismissing all flags every entry, removes none, and leaves nothing active. */
  lemma AllDismissedSpec(pins: Pins, t: int)
    ensures AllDismissed(pins).Keys == pins.Keys
    ensures forall n :: n in pins ==> AllDismissed(pins)[n].until == pins[n].until
    ensures Active(AllDismissed(pins), t) == map[]
  {
  }

  /** The sweep: the active entries are among the entries kept; a dismissed
      entry that has not expired is kept; sweeping twice at one time is
      sweeping once; and the sweep never changes which entries are active. */
  lemma SweepSpec(pins: Pins, now: int)
    ensures Active(pins, now).Keys <= Unexpired(pins, now).Keys
    ensures forall n :: n in pins && pins[n].dismissed && now < pins[n].until ==> n in Unexpired(pins, now)
    ensures Unexpired(Unexpired(pins, now), now) == Unexpired(pins, now)
    ensures Active(Unexpired(pins, now), now) == Active(pins, now)
  {
  }

  /** `get_active_pinned_species`' loop: one pass over the entries that
      collects the active ones and deletes the expired ones. */
  method SweepPins(pins: Pins, now: int) returns (active: Pins, kept: Pins)
    ensures active == Active(pins, now)
    ensures kept == Unexpired(pins, now)
  {
    active := map[];
    kept := pins;
    var remaining := pins.Keys;
    while remaining != {}
      invariant remaining <= pins.Keys
      invariant active == map n | n in pins && n !in remaining && IsActive(pins[n], now) :: pins[n]
      invariant kept == map n | n in pins && (n in remaining || now < pins[n].until) :: pins[n]
      decreases remaining
    {
      var name :| name in remaining;
      var data := pins[name];
      if !data.dismissed && now < data.until {
        active := active[name := data];
      } else if now >= data.until {
        kept := kept - {name};
      }
      remaining := remaining - {name};
    }
  }

  /** The store file as `get_active_pinned_species` leaves it: the sweep is
      written back only when the kept and active entries differ in number. */
  function StoreAfterSweepAsWritten(pins: Pins, now: int): Pins {
    var kept := Unexpired(pins, now);
    if |kept| != |Active(pins, now)| then kept else pins
  }

  /** An expired entry survives in the file when no dismissed entry is left
      beside it, and a later `add_pinned_species` of that name is then
      ignored: a species pinned once is not pinned again. */
  lemma ExpiredPinSurvivesAsWritten()
    ensures var pins := map["Wren" := Pin(100, false)];
            && StoreAfterSweepAsWritten(pins, 200) == pins
            && "Wren" !in Active(Added(StoreAfterSweepAsWritten(pins, 200), "Wren", 200), 200)
  {
    var pins := map["Wren" := Pin(100, false)];
    assert Unexpired(pins, 200) == map[];
    assert Active(pins, 200) == map[];
  }

  /** With the sweep always written back, the same name is pinned again. */
  lemma ExpiredPinIsRepinned()
    ensures var pins := map["Wren" := Pin(100, false)];
            "Wren" in Active(Added(Unexpired(pins, 200), "Wren", 200), 200)
  {
    var pins := map["Wren" := Pin(100, false)];
    assert Unexpired(pins, 200) == map[];
  }

  /** Both sweeps show the same species now: the as-written store differs
      from the corrected one only by expired entries it failed to delete. */
  lemma SweepsAgreeOnActive(pins: Pins, now: int)
    ensures Active(StoreAfterSweepAsWritten(pins, now), now) == Active(pins, now)
    ensures Active(Unexpired(pins, now), now) == Active(pins, now)
    ensures Unexpired(pins, now).Keys <= StoreAfterSweepAsWritten(pins, now).Keys
    ensures forall name :: name in StoreAfterSweepAsWritten(pins, now) && name !in Unexpired(pins, now) ==>
              name in pins && pins[name].until <= now
  {
    var kept := Unexpired(pins, now);
    assert Active(kept, now) == Active(pins, now);
  }

  /** The contents of `pinned_species.json` (a missing or unreadable file
      reads as empty). */
  class PinnedFile {
    var pins: Pins

    constructor (initial: Pins)
      ensures pins == initial
    {
      pins := initial;
    }

    /** `add_pinned_species`. */
    method AddPinnedSpecies(name: string, now: int)
      modifies this
      ensures pins == Added(old(pins), name, now)
    {
      if name !in pins {
        pins := pins[name := NewPin(now)];
      }
    }

    /** `dismiss_pinned_species`: `true` exactly when the name is pinned. */
    method DismissPinnedSpecies(name: string) returns (found: bool)
      modifies this
      ensures found <==> name in old(pins)
      ensures pins == Dismissed(old(pins), name)
    {
      if name in pins {
        pins := pins[name := pins[name].(dismissed := true)];
        return true;
      }
      return false;
    }

    /** `dismiss_all_pinned`. */
    method DismissAllPinned()
      modifies this
      ensures pins == AllDismissed(old(pins))
    {
      ghost var original := pins;
      var remaining := pins.Keys;
      while remaining != {}
        invariant remaining <= original.Keys && pins.Keys == original.Keys
        invariant forall n :: n in original ==>
                    pins[n] == if n in remaining then original[n] else original[n].(dismissed := true)
        decreases remaining
      {
        var name :| name in remaining;
        pins := pins[name := pins[name].(dismissed := true)];
        remaining := remaining - {name};
      }
    }

    /** `get_active_pinned_species` as written: the expired entries are
        deleted from the file only when the number of entries left differs
        from the number of active ones. */
    method GetActivePinnedSpeciesAsWritten(now: int) returns (active: Pins)
      modifies this
      ensures active == Active(old(pins), now)
      ensures pins == StoreAfterSweepAsWritten(old(pins), now)
    {
      var kept;
      active, kept := SweepPins(pins, now);
      if |kept| != |active| {
        pins := kept;
      }
    }

    /** `get_active_pinned_species` with the sweep always written back. */
    method GetActivePinnedSpecies(now: int) returns (active: Pins)
      modifies this
      ensures active == Active(old(pins), now)
      ensures pins == Unexpired(old(pins), now)
    {
      var kept;
      active, kept := SweepPins(pins, now);
      pins := kept;
    }
  }
}
