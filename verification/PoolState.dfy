/**
 Pinned pool: the state, its tiling invariant, and what acquire and release
 mean in terms of the free points of [0, capacity), independently of how the
 free map is kept.
 */
module PoolState {
  import opened Wrappers
  import opened Arithmetic
  import MapSum
  import opened Intervals

  datatype FreeBlock = FreeBlock(start: nat, end: nat)

  datatype PinnedHandle = PinnedHandle(id: nat, generation: nat, offset: nat, bytes: u64)

  datatype PoolError = ZeroBytes | NoBlock | UnknownOffset | StaleHandle

  datatype PoolConfig = PoolConfig(capacityBytes: u64, alignment: u64) {
    predicate Valid() {
      capacityBytes > 0 && IsPowerOfTwo(alignment)
    }

    /** The largest request whose rounding does not wrap around 2^64. */
    function MaxRequest(): int {
      TWO_64 - alignment
    }

    /** The size the code reserves: the rounding, in wrapping u64 arithmetic. */
    function Rounded(bytes: u64): u64
      requires alignment > 0
    {
      RoundUp(bytes, alignment) % TWO_64
    }

    /** First byte after the handle's whole reservation, without wrap-around. */
    function EndOf(h: PinnedHandle): nat
      requires alignment > 0
    {
      h.offset + RoundUp(h.bytes, alignment)
    }
  }

  datatype PoolState = PoolState(
    config: PoolConfig, free: map<nat, FreeBlock>, inUse: map<nat, PinnedHandle>, nextId: nat
  )

  ghost function FreeExtents(free: map<nat, FreeBlock>): Extents {
    map k | k in free :: free[k].end
  }

  ghost function UsedExtents(c: PoolConfig, inUse: map<nat, PinnedHandle>): Extents
    requires c.alignment > 0
  {
    map o | o in inUse :: c.EndOf(inUse[o])
  }

  /** Free blocks start at their keys, aligned, and end aligned or at the capacity. */
  ghost predicate FreeAligned(c: PoolConfig, free: map<nat, FreeBlock>)
    requires c.alignment > 0
  {
    forall k :: k in free ==>
      && free[k].start == k && k % c.alignment == 0
      && (free[k].end % c.alignment == 0 || free[k].end == c.capacityBytes)
  }

  ghost predicate HandlesOk(c: PoolConfig, inUse: map<nat, PinnedHandle>, nextId: nat)
    requires c.alignment > 0
  {
    && (forall o :: o in inUse ==>
          && inUse[o].offset == o && o % c.alignment == 0
          && 0 < inUse[o].bytes && inUse[o].id == inUse[o].generation < nextId)
    && (forall o, p :: o in inUse && p in inUse && inUse[o].id == inUse[p].id ==> o == p)
  }

  /**
   Free blocks and alignment-rounded reservations are aligned, pairwise
   disjoint and tile [0, capacity); no two free blocks touch.
   */
  ghost predicate Valid(s: PoolState) {
    && s.config.Valid()
    && FreeAligned(s.config, s.free)
    && HandlesOk(s.config, s.inUse, s.nextId)
    && Separated(FreeExtents(s.free), s.config.capacityBytes)
    && Disjoint(UsedExtents(s.config, s.inUse), s.config.capacityBytes)
    && Tiles(FreeExtents(s.free), UsedExtents(s.config, s.inUse), s.config.capacityBytes)
  }

  /** Some n consecutive free bytes start at x. */
  ghost predicate Fits(free: map<nat, FreeBlock>, x: nat, n: int) {
    AllAt(FreeExtents(free), x, x + n)
  }

  /**
   Acquire: refused exactly for zero bytes or when no run of free bytes of the
   rounded size exists anywhere; otherwise the handle starts at the lowest such
   run, and exactly that run stops being free.
   */
  ghost predicate AcquireStep(s: PoolState, bytes: u64, t: PoolState, r: Result<PinnedHandle, PoolError>) {
    && s.config.alignment > 0
    && var n := RoundUp(bytes, s.config.alignment);
       match r
       case Err(e) =>
         t == s && if bytes == 0 then e == ZeroBytes else e == NoBlock && forall x :: !Fits(s.free, x, n)
       case Ok(h) =>
         && bytes > 0
         && h == PinnedHandle(s.nextId, s.nextId, h.offset, bytes)
         && Fits(s.free, h.offset, n) && (forall x :: Fits(s.free, x, n) ==> h.offset <= x)
         && t == PoolState(s.config, t.free, s.inUse[h.offset := h], s.nextId + 1)
         && forall z :: At(FreeExtents(t.free), z) <==> At(FreeExtents(s.free), z) && !(h.offset <= z < h.offset + n)
  }

  ghost predicate Live(s: PoolState, h: PinnedHandle) {
    h.offset in s.inUse && s.inUse[h.offset] == h
  }

  /** Release: accepted exactly for live handles; exactly their bytes become free. */
  ghost predicate ReleaseStep(s: PoolState, h: PinnedHandle, t: PoolState, r: Result<(), PoolError>) {
    && s.config.alignment > 0
    && (r.Ok? <==> Live(s, h))
    && match r
       case Err(e) => t == s && e == if h.offset in s.inUse then StaleHandle else UnknownOffset
       case Ok(_) =>
         && t == PoolState(s.config, t.free, s.inUse - {h.offset}, s.nextId)
         && forall z :: At(FreeExtents(t.free), z) <==> At(FreeExtents(s.free), z) || h.offset <= z < s.config.EndOf(h)
  }

  // ---- alignment -----------------------------------------------------------

  /** Free starts are multiples of the alignment, so the first fit never skips bytes. */
  lemma MisalignIsZero(c: PoolConfig, free: map<nat, FreeBlock>, k: nat)
    requires c.Valid() && FreeAligned(c, free) && k in free
    ensures (c.alignment - free[k].start % c.alignment) % c.alignment == 0
  {
    MulMod(1, c.alignment);
  }

  /** Rounding wraps exactly above MaxRequest, and then to zero. */
  lemma RoundedWraps(c: PoolConfig, bytes: u64)
    requires c.Valid()
    ensures bytes <= c.MaxRequest() ==> c.Rounded(bytes) == RoundUp(bytes, c.alignment)
    ensures bytes > c.MaxRequest() ==> c.Rounded(bytes) == 0 && RoundUp(bytes, c.alignment) == TWO_64
  {
    PowerDivides(c.alignment);
    RoundUpBounds(bytes, c.alignment);
    var r := RoundUp(bytes, c.alignment);
    if bytes > c.MaxRequest() {
      if r < TWO_64 {
        AlignedGap(r, TWO_64, c.alignment);
      } else if r > TWO_64 {
        AlignedGap(TWO_64, r, c.alignment);
      }
    }
  }

  // ---- the free map is canonical -------------------------------------------

  lemma FreeMapsEqual(c: PoolConfig, f: map<nat, FreeBlock>, g: map<nat, FreeBlock>)
    requires c.alignment > 0 && FreeAligned(c, f) && FreeAligned(c, g)
    requires Separated(FreeExtents(f), c.capacityBytes) && Separated(FreeExtents(g), c.capacityBytes)
    requires forall x :: At(FreeExtents(f), x) <==> At(FreeExtents(g), x)
    ensures f == g
  {
    forall x ensures At(FreeExtents(f), x) <==> At(FreeExtents(g), x) {
      assert At(FreeExtents(f), x) <==> At(FreeExtents(g), x);
    }
    Canonical(FreeExtents(f), FreeExtents(g), c.capacityBytes);
    assert f.Keys == FreeExtents(f).Keys && g.Keys == FreeExtents(g).Keys;
    forall k | k in f ensures f[k] == g[k] {
      assert FreeExtents(f)[k] == FreeExtents(g)[k];
    }
  }

  /** Acquire can succeed exactly when one free block is at least the rounded size. */
  lemma FitsIffBlock(c: PoolConfig, free: map<nat, FreeBlock>, n: int)
    requires Separated(FreeExtents(free), c.capacityBytes) && n > 0
    ensures (exists x :: Fits(free, x, n)) <==> exists k :: k in free && free[k].end - k >= n
  {
    if exists x: nat :: Fits(free, x, n) {
      var x: nat :| Fits(free, x, n);
      var k := RunInOneInterval(FreeExtents(free), c.capacityBytes, x, x + n);
      assert k in free && free[k].end - k >= n;
    }
    if exists k :: k in free && free[k].end - k >= n {
      var k :| k in free && free[k].end - k >= n;
      assert k in FreeExtents(free);
      assert Fits(free, k, n);
    }
  }

  /** In a valid pool the free map is a function of the live handles alone. */
  lemma FreeIsDeterminedByLive(s: PoolState, t: PoolState)
    requires Valid(s) && Valid(t) && s.config == t.config && s.inUse == t.inUse
    ensures s.free == t.free
  {
    var c, used := s.config, UsedExtents(s.config, s.inUse);
    forall x ensures At(FreeExtents(s.free), x) <==> At(FreeExtents(t.free), x) {
      PointIsFree(FreeExtents(s.free), used, c.capacityBytes, x);
      PointIsFree(FreeExtents(t.free), used, c.capacityBytes, x);
    }
    FreeMapsEqual(c, s.free, t.free);
  }

  lemma PointIsFree(free: Extents, used: Extents, limit: nat, x: int)
    requires Separated(free, limit) && Tiles(free, used, limit)
    ensures At(free, x) <==> 0 <= x < limit && !At(used, x)
  {
  }

  /** With nothing live the pool is one block again, however it got there. */
  lemma EmptyPoolIsOneBlock(s: PoolState)
    requires Valid(s) && s.inUse == map[]
    ensures s.free == map[0 := FreeBlock(0, s.config.capacityBytes)]
  {
    var f := FreeExtents(s.free);
    forall x | 0 <= x < s.config.capacityBytes ensures At(f, x) {
      assert !At(UsedExtents(s.config, s.inUse), x);
    }
    var k := RunInOneInterval(f, s.config.capacityBytes, 0, s.config.capacityBytes);
    forall j | j in s.free ensures j == k {
      assert j in f;
    }
  }

  // ---- byte accounting ------------------------------------------------------

  ghost function FreeBytes(s: PoolState): nat {
    Total(FreeExtents(s.free))
  }

  ghost function ReservedBytes(s: PoolState): nat
    requires s.config.alignment > 0
  {
    Total(UsedExtents(s.config, s.inUse))
  }

  /** Conservation: no byte of the region is lost or counted twice. */
  lemma BytesAreConserved(s: PoolState)
    requires Valid(s)
    ensures FreeBytes(s) + ReservedBytes(s) == s.config.capacityBytes
  {
    TilesFill(FreeExtents(s.free), UsedExtents(s.config, s.inUse), s.config.capacityBytes);
  }

  ghost function Requests(inUse: map<nat, PinnedHandle>): map<nat, nat> {
    map o | o in inUse :: inUse[o].bytes
  }

  ghost function RequestedBytes(inUse: map<nat, PinnedHandle>): nat {
    MapSum.Sum(Requests(inUse))
  }

  lemma RequestedBytesRemove(inUse: map<nat, PinnedHandle>, o: nat)
    requires o in inUse
    ensures RequestedBytes(inUse) == inUse[o].bytes + RequestedBytes(inUse - {o})
  {
    MapSum.SumRemove(Requests(inUse), o);
    assert Requests(inUse) - {o} == Requests(inUse - {o});
  }

  lemma {:induction false} RequestedAtMostReserved(c: PoolConfig, inUse: map<nat, PinnedHandle>)
    requires c.alignment > 0 && forall o :: o in inUse ==> inUse[o].offset == o && inUse[o].bytes > 0
    ensures RequestedBytes(inUse) <= Total(UsedExtents(c, inUse))
    decreases |inUse|
  {
    if inUse == map[] {
      assert Requests(inUse) == map[];
    } else {
      var o :| o in inUse;
      RequestedBytesRemove(inUse, o);
      RoundUpBounds(inUse[o].bytes, c.alignment);
      TotalRemove(UsedExtents(c, inUse), o);
      assert UsedExtents(c, inUse) - {o} == UsedExtents(c, inUse - {o});
      assert (inUse - {o}).Keys == inUse.Keys - {o};
      RequestedAtMostReserved(c, inUse - {o});
    }
  }

  /** So the bytes in use never exceed the capacity and their sum never overflows. */
  lemma InUseWithinCapacity(s: PoolState)
    requires Valid(s)
    ensures RequestedBytes(s.inUse) <= s.config.capacityBytes
  {
    BytesAreConserved(s);
    RequestedAtMostReserved(s.config, s.inUse);
  }

  // ---- runs ----------------------------------------------------------------

  ghost predicate Step(s: PoolState, t: PoolState) {
    && Valid(s) && Valid(t)
    && (|| (exists bytes, r :: AcquireStep(s, bytes, t, r))
        || (exists h, r :: ReleaseStep(s, h, t, r)))
  }

  ghost predicate Run(states: seq<PoolState>) {
    && states != [] && Valid(states[0])
    && forall i :: 0 < i < |states| ==> Step(states[i - 1], states[i])
  }

  lemma StepKeepsStale(s: PoolState, t: PoolState, h: PinnedHandle)
    requires Step(s, t) && h.id < s.nextId && !Live(s, h)
    ensures !Live(t, h) && s.nextId <= t.nextId
  {
  }

  /** A handle that was issued and is no longer live is never live again. */
  lemma {:induction false} StaleHandleStaysStale(states: seq<PoolState>, h: PinnedHandle)
    requires Run(states)
    requires h.id < states[0].nextId && !Live(states[0], h)
    ensures !Live(states[|states| - 1], h)
    decreases |states|
  {
    if |states| > 1 {
      var rest := states[1..];
      assert Step(states[0], states[1]);
      assert Run(rest) by {
        forall i | 0 < i < |rest| ensures Step(rest[i - 1], rest[i]) {
          assert Step(states[i], states[i + 1]);
        }
      }
      StepKeepsStale(states[0], states[1], h);
      StaleHandleStaysStale(rest, h);
    }
  }

  lemma ReleaseForgets(s: PoolState, h: PinnedHandle, t: PoolState)
    requires Valid(s) && ReleaseStep(s, h, t, Ok(()))
    ensures !Live(t, h) && h.id < t.nextId
  {
  }

  /** The released handle is refused for the rest of every run, even once its offset is reused. */
  lemma ReleasedHandleIsRefusedForever(
    s: PoolState, h: PinnedHandle, states: seq<PoolState>, t: PoolState, r: Result<(), PoolError>
  )
    requires Valid(s) && Run(states) && ReleaseStep(s, h, states[0], Ok(()))
    requires ReleaseStep(states[|states| - 1], h, t, r)
    ensures r.Err?
  {
    ReleaseForgets(s, h, states[0]);
    StaleHandleStaysStale(states, h);
  }

  /** Acquiring and then releasing gives back the very same free map and live handles. */
  lemma ReleaseUndoesAcquire(s: PoolState, bytes: u64, t: PoolState, h: PinnedHandle, u: PoolState)
    requires Valid(s) && Valid(u)
    requires AcquireStep(s, bytes, t, Ok(h)) && ReleaseStep(t, h, u, Ok(()))
    ensures u == s.(nextId := s.nextId + 1)
  {
    OffsetWasFree(s, bytes, t, h);
    assert u.inUse == s.inUse;
    FreeIsDeterminedByLive(s, u);
  }

  lemma OffsetWasFree(s: PoolState, bytes: u64, t: PoolState, h: PinnedHandle)
    requires Valid(s) && AcquireStep(s, bytes, t, Ok(h))
    ensures At(FreeExtents(s.free), h.offset) && h.offset !in s.inUse
  {
    RoundUpBounds(bytes, s.config.alignment);
    var used := UsedExtents(s.config, s.inUse);
    assert AllAt(FreeExtents(s.free), h.offset, s.config.EndOf(h));
    assert At(FreeExtents(s.free), h.offset);
    assert h.offset in used ==> At(used, h.offset);
    assert h.offset in s.inUse ==> h.offset in used;
  }

  /** State and request determine the outcome of an acquire: the handle and the whole free map. */
  lemma AcquireIsDetermined(
    s: PoolState, bytes: u64, t: PoolState, r: Result<PinnedHandle, PoolError>, u: PoolState,
    q: Result<PinnedHandle, PoolError>
  )
    requires Valid(s) && Valid(t) && Valid(u) && AcquireStep(s, bytes, t, r) && AcquireStep(s, bytes, u, q)
    ensures t == u && r == q
  {
    hide Fits, FreeAligned, HandlesOk, Separated, Disjoint, Tiles;
    if r.Ok? && q.Ok? {
      assert r.value.offset == q.value.offset;
      FreeIsDeterminedByLive(t, u);
    }
  }
}
