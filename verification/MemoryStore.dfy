/** The in-memory page store, its entries updated in place. */
module MemoryStore {
  import opened Wrappers
  import opened Arithmetic
  import opened Digests
  import opened PageKey
  import opened PageRecord
  import opened PageStore

  class MemoryPageStore {
    const id: Text
    var nextOffset: u64
    var entries: map<Text, (Location, Text)>

    ghost function State(): Store
      reads this
    {
      Store(id, nextOffset, entries)
    }

    constructor (id: Text)
      ensures State() == Store(id, 0, map[])
    {
      this.id, nextOffset, entries := id, 0, map[];
    }

    method Put(p: PageId, payload: Text, generation: u64) returns (r: Result<Location, StoreError>)
      modifies this
      ensures (State(), r) == PageStore.Put(old(State()), p, payload, generation)
    {
      if payload == [] {
        return Err(EmptyPayload);
      }
      var location := Location(id, nextOffset, |payload|, generation);
      nextOffset := SaturatingAdd(nextOffset, |payload|);
      entries := entries[Key(p) := (location, payload)];
      r := Ok(location);
    }

    method Get(p: PageId, location: Location) returns (r: Result<Text, StoreError>)
      ensures r == PageStore.Get(State(), p, location)
    {
      if Key(p) !in entries {
        return Err(MissingPage);
      }
      var (stored, payload) := entries[Key(p)];
      if stored != location {
        return Err(StoreRejected);
      }
      r := Ok(payload);
    }

    method Remove(p: PageId, location: Location) returns (r: Result<(), StoreError>)
      modifies this`entries
      ensures (State(), r) == PageStore.Remove(old(State()), p, location)
    {
      if Key(p) !in entries {
        return Err(MissingPage);
      }
      var (stored, _) := entries[Key(p)];
      if stored != location {
        return Err(StoreRejected);
      }
      entries := entries - {Key(p)};
      r := Ok(());
    }
  }
}
