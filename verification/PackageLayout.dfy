/** Where a package's payloads go: aligned, in order, with zeros between. */
module PackageLayout {
  import opened Arithmetic
  import opened Bytes
  import opened PackageHeader
  import Digests

  type Text = Digests.Text

  type Hasher = seq<byte> -> Sha

  datatype Payload = Payload(id: Text, bytes: seq<byte>)

  datatype Place = Place(id: Text, offset: u64, bytes: u64, alignment: u64, sha256: Sha)

  /** Rounding up in saturating u64 arithmetic. */
  function AlignUp(value: u64, alignment: u64): u64
    requires alignment > 0
  {
    AlignedBelow(Min(value + (alignment - 1), U64_MAX), alignment);
    Min(value + (alignment - 1), U64_MAX) / alignment * alignment
  }

  lemma AlignedBelow(x: u64, unit: u64)
    requires unit > 0
    ensures 0 <= x / unit * unit <= x
  {
    assert x == x / unit * unit + x % unit;
  }

  /** Short of saturation it is the least multiple not below the value; saturated, it may fall below. */
  lemma AlignUpIs(value: u64, alignment: u64)
    requires alignment > 0
    ensures value + alignment <= TWO_64 ==> AlignUp(value, alignment) == RoundUp(value, alignment)
    ensures TWO_64 % alignment == 0 ==> (AlignUp(value, alignment) >= value <==> value + alignment <= TWO_64)
  {
    if TWO_64 % alignment == 0 && value + alignment > TWO_64 {
      var q := TWO_64 / alignment;
      assert TWO_64 == q * alignment;
      assert (q - 1) * alignment == TWO_64 - alignment;
      DivModUnique(U64_MAX, alignment, q - 1, alignment - 1);
    }
    RoundUpBounds(value, alignment);
  }

  function Aligned(x: nat): nat {
    RoundUp(x, ALIGNMENT)
  }

  lemma AlignedBounds(x: nat)
    ensures x <= Aligned(x) < x + ALIGNMENT && Aligned(x) % ALIGNMENT == 0
  {
    RoundUpBounds(x, ALIGNMENT);
  }

  /** The cursor after the payloads from the i-th on. */
  function EndOf(ps: seq<Payload>, i: nat, cursor: nat): nat
    requires i <= |ps|
    decreases |ps| - i
  {
    if i == |ps| then cursor else EndOf(ps, i + 1, Aligned(cursor) + |ps[i].bytes|)
  }

  /** The payload sizes with one alignment unit for each. */
  function Room(ps: seq<Payload>, i: nat): nat
    requires i <= |ps|
    decreases |ps| - i
  {
    if i == |ps| then 0 else |ps[i].bytes| + ALIGNMENT + Room(ps, i + 1)
  }

  lemma {:induction false} EndWithinRoom(ps: seq<Payload>, i: nat, cursor: nat)
    requires i <= |ps|
    ensures cursor <= EndOf(ps, i, cursor) <= cursor + Room(ps, i)
    decreases |ps| - i
  {
    if i < |ps| {
      AlignedBounds(cursor);
      EndWithinRoom(ps, i + 1, Aligned(cursor) + |ps[i].bytes|);
    }
  }

  function Places(sha: Hasher, ps: seq<Payload>, i: nat, cursor: nat): (r: seq<Place>)
    requires i <= |ps| && EndOf(ps, i, cursor) < TWO_64
    ensures |r| == |ps| - i
    decreases |ps| - i
  {
    if i == |ps| then []
    else
      EndWithinRoom(ps, i + 1, Aligned(cursor) + |ps[i].bytes|);
      var place := Place(ps[i].id, Aligned(cursor), |ps[i].bytes|, ALIGNMENT, sha(ps[i].bytes));
      [place] + Places(sha, ps, i + 1, Aligned(cursor) + |ps[i].bytes|)
  }

  /** The bytes from the cursor to the end: zeros up to each payload, then the payload. */
  function Region(ps: seq<Payload>, i: nat, cursor: nat): (r: seq<byte>)
    requires i <= |ps|
    ensures |r| == EndOf(ps, i, cursor) - cursor
    decreases |ps| - i
  {
    if i == |ps| then []
    else
      AlignedBounds(cursor);
      ZeroBytes(Aligned(cursor) - cursor) + ps[i].bytes + Region(ps, i + 1, Aligned(cursor) + |ps[i].bytes|)
  }

  // ---- what the places are ---------------------------------------------------------

  /** A place is aligned, inside the range, and holds its payload's size and digest. */
  ghost predicate PlaceOk(sha: Hasher, p: Payload, place: Place, start: nat, end: nat) {
    && place.id == p.id && place.bytes == |p.bytes| && place.alignment == ALIGNMENT && place.sha256 == sha(p.bytes)
    && place.offset % ALIGNMENT == 0 && start <= place.offset && place.offset + place.bytes <= end
  }

  /** Every payload from the i-th on has its place, in order, and no two overlap. */
  ghost predicate WellPlaced(sha: Hasher, ps: seq<Payload>, i: nat, places: seq<Place>, start: nat, end: nat) {
    && i <= |ps| && |places| == |ps| - i
    && (forall j :: 0 <= j < |places| ==> PlaceOk(sha, ps[i + j], places[j], start, end))
    && (forall j, k :: 0 <= j < k < |places| ==> places[j].offset + places[j].bytes <= places[k].offset)
  }

  lemma {:induction false} PlacesAreOk(sha: Hasher, ps: seq<Payload>, i: nat, cursor: nat)
    requires i <= |ps| && EndOf(ps, i, cursor) < TWO_64
    ensures WellPlaced(sha, ps, i, Places(sha, ps, i, cursor), cursor, EndOf(ps, i, cursor))
    decreases |ps| - i
  {
    if i < |ps| {
      AlignedBounds(cursor);
      var next := Aligned(cursor) + |ps[i].bytes|;
      EndWithinRoom(ps, i + 1, next);
      PlacesAreOk(sha, ps, i + 1, next);
      hide Aligned, WellPlaced;
      ConsPlaces(sha, ps, i, cursor, Aligned(cursor), EndOf(ps, i, cursor), Places(sha, ps, i + 1, next));
    }
  }

  lemma ConsPlaces(sha: Hasher, ps: seq<Payload>, i: nat, cursor: nat, offset: nat, end: nat, rest: seq<Place>)
    requires i < |ps| && cursor <= offset && offset % ALIGNMENT == 0 && offset + |ps[i].bytes| <= end < TWO_64
    requires WellPlaced(sha, ps, i + 1, rest, offset + |ps[i].bytes|, end)
    ensures WellPlaced(sha, ps, i, [Place(ps[i].id, offset, |ps[i].bytes|, ALIGNMENT, sha(ps[i].bytes))] + rest,
                       cursor, end)
  {
    var places := [Place(ps[i].id, offset, |ps[i].bytes|, ALIGNMENT, sha(ps[i].bytes))] + rest;
    forall j | 0 <= j < |places| ensures PlaceOk(sha, ps[i + j], places[j], cursor, end) {
      assert j > 0 ==>
          places[j] == rest[j - 1]
          && PlaceOk(sha, ps[i + 1 + (j - 1)], rest[j - 1], offset + |ps[i].bytes|, end);
    }
    forall j, k | 0 <= j < k < |places| ensures places[j].offset + places[j].bytes <= places[k].offset {
      assert places[k] == rest[k - 1] && PlaceOk(sha, ps[i + 1 + (k - 1)], rest[k - 1], offset + |ps[i].bytes|, end);
      assert j > 0 ==> places[j] == rest[j - 1];
    }
  }

  lemma SliceInside(zeros: seq<byte>, body: seq<byte>, rest: seq<byte>, a: nat, b: nat)
    requires a <= b <= |rest|
    ensures var s := zeros + body + rest;
            && s[|zeros|..|zeros| + |body|] == body
            && s[|zeros| + |body| + a..|zeros| + |body| + b] == rest[a..b]
  {
  }

  /** A payload stands at its place in a region that starts at the cursor. */
  ghost predicate Holds(region: seq<byte>, cursor: nat, place: Place, p: Payload) {
    && cursor <= place.offset && place.bytes == |p.bytes| && place.offset - cursor + place.bytes <= |region|
    && region[place.offset - cursor..place.offset - cursor + place.bytes] == p.bytes
  }

  lemma HoldsBehind(
    zeros: seq<byte>, body: seq<byte>, rest: seq<byte>, cursor: nat, next: nat, place: Place, p: Payload
  )
    requires Holds(rest, next, place, p) && next == cursor + |zeros| + |body|
    ensures Holds(zeros + body + rest, cursor, place, p)
  {
    SliceInside(zeros, body, rest, place.offset - next, place.offset - next + place.bytes);
  }

  /** The region holds each payload at its place. */
  lemma {:induction false} RegionHoldsPayload(sha: Hasher, ps: seq<Payload>, i: nat, cursor: nat, j: nat)
    requires i <= |ps| && EndOf(ps, i, cursor) < TWO_64 && j < |ps| - i
    ensures Holds(Region(ps, i, cursor), cursor, Places(sha, ps, i, cursor)[j], ps[i + j])
    decreases |ps| - i
  {
    AlignedBounds(cursor);
    var next := Aligned(cursor) + |ps[i].bytes|;
    EndWithinRoom(ps, i + 1, next);
    var zeros, rest, places := ZeroBytes(Aligned(cursor) - cursor), Region(ps, i + 1, next),
        Places(sha, ps, i + 1, next);
    if j > 0 {
      RegionHoldsPayload(sha, ps, i + 1, next, j - 1);
      hide Holds, Aligned;
      assert ps[i + 1 + (j - 1)] == ps[i + j] && Places(sha, ps, i, cursor)[j] == places[j - 1];
      HoldsBehind(zeros, ps[i].bytes, rest, cursor, next, places[j - 1], ps[i + j]);
    } else {
      SliceInside(zeros, ps[i].bytes, rest, 0, 0);
    }
  }

  // ---- the two loops of the writer -----------------------------------------------------

  /** The cursor loop: one place a payload, in u64 arithmetic. */
  method Locate(sha: Hasher, ps: seq<Payload>, start: u64) returns (locations: seq<Place>, cursor: u64)
    requires start + Room(ps, 0) < TWO_64
    ensures EndOf(ps, 0, start) < TWO_64
    ensures locations == Places(sha, ps, 0, start) && cursor == EndOf(ps, 0, start)
  {
    hide Aligned;
    EndWithinRoom(ps, 0, start);
    locations, cursor := [], start;
    for i := 0 to |ps|
      invariant EndOf(ps, i, cursor) == EndOf(ps, 0, start) && cursor + Room(ps, i) <= start + Room(ps, 0)
      invariant locations + Places(sha, ps, i, cursor) == Places(sha, ps, 0, start)
    {
      AlignsWithoutSaturating(cursor);
      ghost var before := cursor;
      cursor := AlignUp(cursor, ALIGNMENT);
      var place := Place(ps[i].id, cursor, |ps[i].bytes|, ALIGNMENT, sha(ps[i].bytes));
      assert locations + ([place] + Places(sha, ps, i + 1, cursor + |ps[i].bytes|))
          == locations + [place] + Places(sha, ps, i + 1, cursor + |ps[i].bytes|);
      locations := locations + [place];
      cursor := (cursor + |ps[i].bytes|) % TWO_64;
    }
    assert locations + [] == locations;
  }

  lemma AlignsWithoutSaturating(cursor: u64)
    ensures cursor + ALIGNMENT <= TWO_64
            ==> AlignUp(cursor, ALIGNMENT) == Aligned(cursor) && cursor <= Aligned(cursor) < cursor + ALIGNMENT
  {
    AlignUpIs(cursor, ALIGNMENT);
    AlignedBounds(cursor);
  }

  /** The zero-filled buffer from `at` on, with the payloads from the i-th on still to be copied in. */
  ghost predicate FilledUpTo(a: seq<byte>, at: nat, whole: seq<byte>, rest: seq<byte>) {
    && at <= |a| && |a| == |whole| == at + |rest|
    && a[..at] + rest == whole
    && forall k :: at <= k < |a| ==> a[k] == 0
  }

  /** Copies every payload to its place in a zeroed buffer. */
  method FillRegion(sha: Hasher, ps: seq<Payload>, start: u64, locations: seq<Place>) returns (r: seq<byte>)
    requires EndOf(ps, 0, start) < TWO_64 && locations == Places(sha, ps, 0, start)
    ensures r == Region(ps, 0, start)
  {
    hide Aligned, FilledUpTo, Places, EndOf, Region;
    EndWithinRoom(ps, 0, start);
    var region := new byte[EndOf(ps, 0, start) - start](_ => 0);
    ghost var cursor: nat := start;
    StartsZero(region[..], Region(ps, 0, start));
    for i := 0 to |ps|
      invariant cursor >= start && EndOf(ps, i, cursor) == EndOf(ps, 0, start)
      invariant locations[i..] == Places(sha, ps, i, cursor)
      invariant FilledUpTo(region[..], cursor - start, Region(ps, 0, start), Region(ps, i, cursor))
    {
      ghost var next := Aligned(cursor) + |ps[i].bytes|;
      StepOver(sha, ps, i, cursor, locations[i..]);
      assert locations[i] == locations[i..][0] && locations[i + 1..] == locations[i..][1..];
      ghost var before := region[..];
      CopyAt(region, locations[i].offset - start, ps[i].bytes);
      FilledMore(before, region[..], cursor - start, Aligned(cursor) - cursor, ps[i].bytes, Region(ps, 0, start),
                 Region(ps, i + 1, next));
      cursor := next;
    }
    r := region[..];
    LastIsWhole(ps, cursor, r, cursor - start, Region(ps, 0, start));
  }

  lemma StartsZero(a: seq<byte>, whole: seq<byte>)
    requires |a| == |whole| && forall k :: 0 <= k < |a| ==> a[k] == 0
    ensures FilledUpTo(a, 0, whole, whole)
  {
    assert a[..0] + whole == whole;
  }

  /** One payload further along. */
  lemma StepOver(sha: Hasher, ps: seq<Payload>, i: nat, cursor: nat, places: seq<Place>)
    requires i < |ps| && EndOf(ps, i, cursor) < TWO_64 && places == Places(sha, ps, i, cursor)
    ensures var next := Aligned(cursor) + |ps[i].bytes|;
            && cursor <= Aligned(cursor) && next <= EndOf(ps, i, cursor) == EndOf(ps, i + 1, next)
            && places[0].offset == Aligned(cursor) && places[1..] == Places(sha, ps, i + 1, next)
            && Region(ps, i, cursor) == ZeroBytes(Aligned(cursor) - cursor) + ps[i].bytes + Region(ps, i + 1, next)
  {
    AlignedBounds(cursor);
    EndWithinRoom(ps, i + 1, Aligned(cursor) + |ps[i].bytes|);
    hide Aligned;
  }

  lemma LastIsWhole(ps: seq<Payload>, cursor: nat, a: seq<byte>, at: nat, whole: seq<byte>)
    requires FilledUpTo(a, at, whole, Region(ps, |ps|, cursor))
    ensures a == whole
  {
    assert a[..|a|] + [] == a;
  }

  method CopyAt(a: array<byte>, start: nat, source: seq<byte>)
    requires start + |source| <= a.Length
    modifies a
    ensures a[..] == old(a[..start]) + source + old(a[start + |source|..])
  {
    for i := 0 to |source|
      invariant a[..] == old(a[..])[..start] + source[..i] + old(a[..])[start + i..]
    {
      ghost var before := a[..];
      a[start + i] := source[i];
      OneByteCopied(old(a[..]), start, source, i, before, a[..]);
    }
    assert source[..|source|] == source;
  }

  lemma OneByteCopied(was: seq<byte>, start: nat, source: seq<byte>, i: nat, before: seq<byte>, after: seq<byte>)
    requires start + |source| <= |was| && i < |source|
    requires before == was[..start] + source[..i] + was[start + i..]
    requires after == before[start + i := source[i]]
    ensures after == was[..start] + source[..i + 1] + was[start + i + 1..]
  {
    assert source[..i + 1] == source[..i] + [source[i]];
    assert was[start + i..] == [was[start + i]] + was[start + i + 1..];
  }

  lemma FilledMore(
    before: seq<byte>, after: seq<byte>, at: nat, gap: nat, body: seq<byte>, whole: seq<byte>, rest: seq<byte>
  )
    requires FilledUpTo(before, at, whole, ZeroBytes(gap) + body + rest)
    requires after == before[..at + gap] + body + before[at + gap + |body|..]
    ensures FilledUpTo(after, at + gap + |body|, whole, rest)
  {
    var to := at + gap + |body|;
    assert before[..at + gap] == before[..at] + ZeroBytes(gap);
    assert after[..to] == before[..at] + ZeroBytes(gap) + body;
    assert after[..to] + rest == before[..at] + (ZeroBytes(gap) + body + rest);
    forall k | to <= k < |after| ensures after[k] == 0 {
      assert after[k] == before[to..][k - to];
    }
  }

  // ---- nothing more than that ---------------------------------------------------------------

  /** Each place starts less than one alignment unit behind what is before it. */
  ghost predicate Tight(places: seq<Place>, start: nat) {
    forall j :: 0 <= j < |places| ==> Close(places, start, j)
  }

  predicate Close(places: seq<Place>, start: nat, j: nat)
    requires j < |places|
  {
    places[j].offset < (if j == 0 then start else places[j - 1].offset + places[j - 1].bytes) + ALIGNMENT
  }

  lemma {:induction false} PlacesAreTight(sha: Hasher, ps: seq<Payload>, i: nat, cursor: nat)
    requires i <= |ps| && EndOf(ps, i, cursor) < TWO_64
    ensures Tight(Places(sha, ps, i, cursor), cursor)
    ensures var places := Places(sha, ps, i, cursor);
            EndOf(ps, i, cursor)
            == if places == [] then cursor else places[|places| - 1].offset + places[|places| - 1].bytes
    decreases |ps| - i
  {
    hide Aligned;
    if i < |ps| {
      AlignedBounds(cursor);
      var next := Aligned(cursor) + |ps[i].bytes|;
      EndWithinRoom(ps, i + 1, next);
      PlacesAreTight(sha, ps, i + 1, next);
      var places, rest := Places(sha, ps, i, cursor), Places(sha, ps, i + 1, next);
      ConsTight(places[0], rest, cursor, next);
      assert places == [places[0]] + rest;
    }
  }

  lemma ConsTight(first: Place, rest: seq<Place>, start: nat, next: nat)
    requires Tight(rest, next) && first.offset < start + ALIGNMENT && next == first.offset + first.bytes
    ensures Tight([first] + rest, start)
  {
    var places := [first] + rest;
    forall j | 0 <= j < |places| ensures Close(places, start, j) {
      if j > 0 {
        assert Close(rest, next, j - 1);
        assert places[j] == rest[j - 1] && places[j - 1] == if j == 1 then first else rest[j - 2];
      }
    }
  }

  /** Offset k of the region lies in no place. */
  ghost predicate InNoPlace(places: seq<Place>, k: int) {
    forall j :: 0 <= j < |places| ==> !(places[j].offset <= k < places[j].offset + places[j].bytes)
  }

  /** Outside the payloads the region is zero. */
  lemma {:induction false} RegionIsZeroElsewhere(sha: Hasher, ps: seq<Payload>, i: nat, cursor: nat, k: nat)
    requires i <= |ps| && EndOf(ps, i, cursor) < TWO_64
    requires k < |Region(ps, i, cursor)| && InNoPlace(Places(sha, ps, i, cursor), cursor + k)
    ensures Region(ps, i, cursor)[k] == 0
    decreases |ps| - i
  {
    hide Aligned;
    if i < |ps| {
      AlignedBounds(cursor);
      var gap, next := Aligned(cursor) - cursor, Aligned(cursor) + |ps[i].bytes|;
      EndWithinRoom(ps, i + 1, next);
      var places, rest := Places(sha, ps, i, cursor), Places(sha, ps, i + 1, next);
      assert places[0].offset == Aligned(cursor) && places[0].bytes == |ps[i].bytes| && places[1..] == rest;
      if k >= gap {
        assert !(places[0].offset <= cursor + k < places[0].offset + places[0].bytes);
        forall j | 0 <= j < |rest| ensures !(rest[j].offset <= cursor + k < rest[j].offset + rest[j].bytes) {
          assert rest[j] == places[j + 1];
        }
        RegionIsZeroElsewhere(sha, ps, i + 1, next, k - gap - |ps[i].bytes|);
      }
    }
  }
}
