/** The in-memory page store: one entry a page key, located by a growing offset. */
module PageStore {
  import opened Wrappers
  import opened Arithmetic
  import opened Digests
  import opened PageKey
  import opened PageRecord

  datatype StoreError = MissingPage | EmptyPayload | StoreRejected

  datatype Store = Store(id: Text, nextOffset: u64, entries: map<Text, (Location, Text)>)

  function SaturatingAdd(a: u64, b: u64): u64 {
    Min(a + b, U64_MAX)
  }

  function Put(s: Store, p: PageId, payload: Text, generation: u64): (Store, Result<Location, StoreError>) {
    if payload == [] then (s, Err(EmptyPayload))
    else
      var location := Location(s.id, s.nextOffset, |payload|, generation);
      (s.(nextOffset := SaturatingAdd(s.nextOffset, |payload|),
          entries := s.entries[Key(p) := (location, payload)]), Ok(location))
  }

  function Get(s: Store, p: PageId, location: Location): Result<Text, StoreError> {
    if Key(p) !in s.entries then Err(MissingPage)
    else if s.entries[Key(p)].0 != location then Err(StoreRejected)
    else Ok(s.entries[Key(p)].1)
  }

  function Remove(s: Store, p: PageId, location: Location): (Store, Result<(), StoreError>) {
    match Get(s, p, location)
    case Err(e) => (s, Err(e))
    case Ok(_) => (s.(entries := s.entries - {Key(p)}), Ok(()))
  }
}
