/** The pinned host pool: a first-fit allocator over an ordered map of free blocks. */
module PinnedPool {
  import opened Wrappers
  import opened Arithmetic
  import opened PoolState
  import opened Intervals

  // ---- what the two changes do to the whole pool ---------------------------

  /** The first n bytes of the block at k leave the free map. */
  function Taken(free: map<nat, FreeBlock>, k: nat, n: nat): map<nat, FreeBlock>
    requires k in free
  {
    if k + n < free[k].end then (free - {k})[k + n := FreeBlock(k + n, free[k].end)] else free - {k}
  }

  lemma TakenIsFree(c: PoolConfig, free: map<nat, FreeBlock>, k: nat, n: nat)
    requires c.Valid() && FreeAligned(c, free) && Separated(FreeExtents(free), c.capacityBytes)
    requires k in free && 0 < n && k + n <= free[k].end && n % c.alignment == 0
    ensures FreeAligned(c, Taken(free, k, n)) && Separated(FreeExtents(Taken(free, k, n)), c.capacityBytes)
    ensures forall z :: At(FreeExtents(Taken(free, k, n)), z) <==> At(FreeExtents(free), z) && !(k <= z < k + n)
  {
    hide Separated, At, FreeAligned;
    TakeFrontRemoves(FreeExtents(free), c.capacityBytes, k, n);
    assert FreeExtents(Taken(free, k, n)) == TakeFront(FreeExtents(free), k, n);
    TakenIsAligned(c, free, k, n);
  }

  lemma TakenIsAligned(c: PoolConfig, free: map<nat, FreeBlock>, k: nat, n: nat)
    requires c.alignment > 0 && FreeAligned(c, free)
    requires k in free && 0 < n && k + n <= free[k].end && n % c.alignment == 0
    ensures FreeAligned(c, Taken(free, k, n))
  {
    AlignedSum(k, n, c.alignment);
  }

  /** The blocks starting in [from, to) give way to that one block. */
  function Widened(free: map<nat, FreeBlock>, from: nat, to: nat): map<nat, FreeBlock> {
    (map k | k in free && !(from <= k < to) :: free[k])[from := FreeBlock(from, to)]
  }

  lemma MergedIsFree(free: map<nat, FreeBlock>, limit: nat, start: nat, end: nat, from: nat, to: nat)
    requires Separated(FreeExtents(free), limit) && start < end <= limit
    requires forall x :: start <= x < end ==> !At(FreeExtents(free), x)
    requires Widens(FreeExtents(free), start, end, from, to)
    ensures Separated(FreeExtents(Widened(free, from, to)), limit)
    ensures forall z :: At(FreeExtents(Widened(free, from, to)), z) <==> At(FreeExtents(free), z) || start <= z < end
  {
    hide Separated, At, Widens;
    MergedAdds(FreeExtents(free), limit, start, end, from, to);
    assert FreeExtents(Widened(free, from, to)) == Merged(FreeExtents(free), from, to);
  }

  lemma MergedIsAligned(c: PoolConfig, free: map<nat, FreeBlock>, start: nat, end: nat, from: nat, to: nat)
    requires c.alignment > 0 && FreeAligned(c, free)
    requires start % c.alignment == 0 && (end % c.alignment == 0 || end == c.capacityBytes)
    requires Widens(FreeExtents(free), start, end, from, to)
    ensures FreeAligned(c, Widened(free, from, to))
  {
    hide At;
    assert from in free || from == start;
    assert end in free || to == end;
    var t := Widened(free, from, to);
    forall k | k in t && k != from ensures k in free && t[k] == free[k] {
    }
  }

  lemma AcquireKeepsHandles(s: PoolState, t: PoolState, h: PinnedHandle)
    requires Valid(s) && AcquireStep(s, h.bytes, t, Ok(h)) && h.offset % s.config.alignment == 0
    ensures HandlesOk(t.config, t.inUse, t.nextId)
  {
    hide Separated, Disjoint, Tiles, FreeAligned, Fits;
  }

  lemma AcquireKeepsValid(s: PoolState, t: PoolState, h: PinnedHandle)
    requires Valid(s) && AcquireStep(s, h.bytes, t, Ok(h))
    requires FreeAligned(s.config, t.free) && Separated(FreeExtents(t.free), s.config.capacityBytes)
    requires h.offset % s.config.alignment == 0 && s.config.EndOf(h) <= s.config.capacityBytes
    ensures Valid(t)
  {
    var c := s.config;
    AcquireKeepsHandles(s, t, h);
    hide HandlesOk, FreeAligned, Separated, Disjoint, Tiles, At;
    RoundUpBounds(h.bytes, c.alignment);
    ReserveKeepsTiling(FreeExtents(s.free), UsedExtents(c, s.inUse), FreeExtents(t.free), c.capacityBytes,
                       h.offset, c.EndOf(h));
    assert UsedExtents(c, t.inUse) == UsedExtents(c, s.inUse)[h.offset := c.EndOf(h)];
  }

  lemma ReleaseKeepsValid(s: PoolState, h: PinnedHandle, t: PoolState)
    requires Valid(s) && ReleaseStep(s, h, t, Ok(()))
    requires FreeAligned(s.config, t.free) && Separated(FreeExtents(t.free), s.config.capacityBytes)
    ensures Valid(t)
  {
    var c := s.config;
    ReleaseKeepsHandles(s, h, t);
    hide HandlesOk, FreeAligned, Separated, Disjoint, Tiles, At;
    ReturnKeepsTiling(FreeExtents(s.free), UsedExtents(c, s.inUse), FreeExtents(t.free), c.capacityBytes, h.offset);
    assert UsedExtents(c, t.inUse) == UsedExtents(c, s.inUse) - {h.offset};
  }

  lemma ReleaseKeepsHandles(s: PoolState, h: PinnedHandle, t: PoolState)
    requires Valid(s) && ReleaseStep(s, h, t, Ok(()))
    ensures HandlesOk(t.config, t.inUse, t.nextId)
  {
    hide Separated, Disjoint, Tiles, FreeAligned;
  }

  lemma NotLiveIsRefused(s: PoolState, h: PinnedHandle)
    requires Valid(s) && !Live(s, h)
    ensures ReleaseStep(s, h, s, Err(if h.offset in s.inUse then StaleHandle else UnknownOffset))
  {
  }

  lemma ReleasedExactly(s: PoolState, h: PinnedHandle, t: PoolState)
    requires Valid(s) && Live(s, h) && t == PoolState(s.config, t.free, s.inUse - {h.offset}, s.nextId)
    requires FreeAligned(s.config, t.free) && Separated(FreeExtents(t.free), s.config.capacityBytes)
    requires forall z :: At(FreeExtents(t.free), z) <==> At(FreeExtents(s.free), z) || h.offset <= z < s.config.EndOf(h)
    ensures Valid(t) && ReleaseStep(s, h, t, Ok(()))
  {
    hide FreeAligned, Separated, At, Disjoint, Tiles, HandlesOk;
    assert ReleaseStep(s, h, t, Ok(()));
    ReleaseKeepsValid(s, h, t);
  }

  lemma ValidParts(s: PoolState)
    requires Valid(s)
    ensures s.config.Valid() && FreeAligned(s.config, s.free) && Separated(FreeExtents(s.free), s.config.capacityBytes)
  {
  }

  lemma ZeroIsRefused(s: PoolState)
    requires Valid(s)
    ensures AcquireStep(s, 0, s, Err(ZeroBytes))
  {
  }

  predicate IsLeast(m: nat, s: set<nat>) {
    m in s && forall x :: x in s ==> m <= x
  }

  predicate IsGreatest(m: nat, s: set<nat>) {
    m in s && forall x :: x in s ==> x <= m
  }

  lemma {:induction false} LeastExists(s: set<nat>)
    requires s != {}
    ensures exists m :: IsLeast(m, s)
    decreases |s|
  {
    var k :| k in s;
    var below := set x: nat | x in s && x < k;
    if below != {} {
      assert below <= s - {k};
      Smaller(below, s, k);
      LeastExists(below);
      var m: nat :| IsLeast(m, below);
      forall x | x in s ensures m <= x {
        assert x < k ==> x in below;
      }
      assert IsLeast(m, s);
    } else {
      assert forall x :: x in s && x < k ==> x in below;
      assert IsLeast(k, s);
    }
  }

  lemma {:induction false} GreatestExists(s: set<nat>)
    requires s != {}
    ensures exists m :: IsGreatest(m, s)
    decreases |s|
  {
    var k :| k in s;
    var above := set x: nat | x in s && x > k;
    if above != {} {
      assert above <= s - {k};
      Smaller(above, s, k);
      GreatestExists(above);
      var m: nat :| IsGreatest(m, above);
      forall x | x in s ensures x <= m {
        assert x > k ==> x in above;
      }
      assert IsGreatest(m, s);
    } else {
      assert forall x :: x in s && x > k ==> x in above;
      assert IsGreatest(k, s);
    }
  }

  lemma Smaller(a: set<nat>, b: set<nat>, k: nat)
    requires k in b && a <= b - {k}
    ensures |a| < |b|
  {
    assert b - {k} == a + (b - {k} - a);
  }

  lemma NoBlockAtAll(c: PoolConfig, free: map<nat, FreeBlock>)
    requires Separated(FreeExtents(free), c.capacityBytes)
    requires forall k :: k in free ==> free[k].end - k < 0
    ensures free == map[]
  {
    assert FreeExtents(free).Keys == free.Keys;
  }

  /** The first block that fits starts the lowest run of free bytes that fits. */
  lemma LowestFit(c: PoolConfig, free: map<nat, FreeBlock>, start: nat, n: nat)
    requires Separated(FreeExtents(free), c.capacityBytes) && n > 0
    requires start in free && free[start].end - start >= n
    requires forall k :: k in free && k < start ==> free[k].end - k < n
    ensures Fits(free, start, n) && start + n <= c.capacityBytes
    ensures forall x :: Fits(free, x, n) ==> start <= x
  {
    assert start in FreeExtents(free);
    forall x: nat | Fits(free, x, n) ensures start <= x {
      var k := RunInOneInterval(FreeExtents(free), c.capacityBytes, x, x + n);
      assert k in free;
    }
  }

  ghost predicate FirstFitAt(free: map<nat, FreeBlock>, start: nat, n: nat) {
    && start in free && free[start].end - start >= n
    && forall k :: k in free && k < start ==> free[k].end - k < n
  }

  lemma RefusedExactly(s: PoolState, bytes: u64)
    requires Valid(s) && bytes > 0
    requires forall k :: k in s.free ==> s.free[k].end - k < s.config.Rounded(bytes)
    ensures bytes <= s.config.MaxRequest() ==> AcquireStep(s, bytes, s, Err(NoBlock))
    ensures bytes > s.config.MaxRequest() ==> s.free == map[]
  {
    RoundedWraps(s.config, bytes);
    RoundUpBounds(bytes, s.config.alignment);
    if bytes <= s.config.MaxRequest() {
      FitsIffBlock(s.config, s.free, RoundUp(bytes, s.config.alignment));
    } else {
      NoBlockAtAll(s.config, s.free);
    }
  }

  lemma AcquiredExactly(s: PoolState, bytes: u64, start: nat)
    requires Valid(s) && 0 < bytes <= s.config.MaxRequest()
    requires FirstFitAt(s.free, start, s.config.Rounded(bytes))
    ensures Valid(Acquired(s, bytes, start))
    ensures AcquireStep(s, bytes, Acquired(s, bytes, start), Ok(PinnedHandle(s.nextId, s.nextId, start, bytes)))
    ensures RequestedBytes(Acquired(s, bytes, start).inUse) <= s.config.capacityBytes
  {
    var t := Acquired(s, bytes, start);
    var n := s.config.Rounded(bytes);
    RoundedWraps(s.config, bytes);
    RoundUpBounds(bytes, s.config.alignment);
    TakenIsFree(s.config, s.free, start, n);
    LowestFit(s.config, s.free, start, n);
    hide Separated, Disjoint, Tiles, FreeAligned, HandlesOk, At;
    AcquireKeepsValid(s, t, PinnedHandle(s.nextId, s.nextId, start, bytes));
    InUseWithinCapacity(t);
  }

  /** The state once the block at start has given its front to a request. */
  function Acquired(s: PoolState, bytes: u64, start: nat): PoolState
    requires s.config.alignment > 0 && start in s.free
  {
    PoolState(s.config, Taken(s.free, start, s.config.Rounded(bytes)),
              s.inUse[start := PinnedHandle(s.nextId, s.nextId, start, bytes)], s.nextId + 1)
  }

  /** A request whose rounding wraps reserves more than the whole region. */
  lemma WrappedRequestOverlaps(s: PoolState, h: PinnedHandle)
    requires s.config.Valid() && Live(s, h) && h.bytes > s.config.MaxRequest()
    ensures !Valid(s)
  {
    RoundedWraps(s.config, h.bytes);
    assert h.offset in UsedExtents(s.config, s.inUse);
  }

  /** A live reservation is aligned, inside the region, does not wrap, and holds no free byte. */
  lemma LiveReservation(s: PoolState, h: PinnedHandle)
    requires Valid(s) && Live(s, h)
    ensures var end := s.config.EndOf(h);
            && s.config.Rounded(h.bytes) == end - h.offset
            && h.offset < end <= s.config.capacityBytes
            && h.offset % s.config.alignment == 0 && end % s.config.alignment == 0
            && forall x :: h.offset <= x < end ==> !At(FreeExtents(s.free), x)
  {
    var c := s.config;
    var used := UsedExtents(c, s.inUse);
    assert h.offset in used && used[h.offset] == c.EndOf(h);
    RoundUpBounds(h.bytes, c.alignment);
    RoundedWraps(c, h.bytes);
    AlignedSum(h.offset, RoundUp(h.bytes, c.alignment), c.alignment);
    forall x | h.offset <= x < c.EndOf(h) ensures !At(FreeExtents(s.free), x) {
      assert At(used, x);
    }
  }

  datatype PoolStats = PoolStats(acquisitions: nat, releases: nat, coalesces: nat, peakInUseBytes: nat)

  class PinnedHostPool {
    const config: PoolConfig
    var free: map<nat, FreeBlock>
    var inUse: map<nat, PinnedHandle>
    var nextId: nat
    var stats: PoolStats

    ghost function View(): PoolState
      reads this
    {
      PoolState(config, free, inUse, nextId)
    }

    /** The tiling invariant, and the peak counter bounding what is in use. */
    ghost predicate IsValid()
      reads this
    {
      Valid(View()) && RequestedBytes(inUse) <= stats.peakInUseBytes <= config.capacityBytes
    }

    constructor (config: PoolConfig)
      requires config.Valid()
      ensures IsValid()
      ensures View() == PoolState(config, map[0 := FreeBlock(0, config.capacityBytes)], map[], 1)
      ensures stats == PoolStats(0, 0, 0, 0)
    {
      this.config := config;
      free := map[0 := FreeBlock(0, config.capacityBytes)];
      inUse := map[];
      nextId := 1;
      stats := PoolStats(0, 0, 0, 0);
      new;
      MulMod(0, config.alignment);
      assert FreeExtents(free) == map[0 := config.capacityBytes];
      assert UsedExtents(config, inUse) == map[] && Requests(inUse) == map[];
      forall x | 0 <= x < config.capacityBytes ensures At(FreeExtents(free), x) {
        assert 0 in FreeExtents(free);
      }
    }

    static method New(config: PoolConfig) returns (r: Option<PinnedHostPool>)
      ensures r.Some? <==> config.capacityBytes > 0 && exists k: nat :: config.alignment == Pow2(k)
      ensures r.Some? ==> fresh(r.value) && r.value.IsValid() && r.value.config == config && r.value.inUse == map[]
      ensures r.Some? ==> r.value.free == map[0 := FreeBlock(0, config.capacityBytes)]
    {
      PowerOfTwoIff(config.alignment);
      if !config.Valid() {
        return None;
      }
      var pool := new PinnedHostPool(config);
      r := Some(pool);
    }

    method InUseBytes() returns (total: nat)
      ensures total == RequestedBytes(inUse)
    {
      total := 0;
      var rest := inUse;
      while rest != map[]
        invariant total + RequestedBytes(rest) == RequestedBytes(inUse)
        decreases |rest|
      {
        var o :| o in rest;
        RequestedBytesRemove(rest, o);
        total := total + rest[o].bytes;
        assert (rest - {o}).Keys == rest.Keys - {o};
        rest := rest - {o};
      }
      assert Requests(rest) == map[];
    }

    /** First fit: the lowest block that holds `rounded` bytes after its misalignment. */
    method FirstFit(rounded: u64) returns (chosen: Option<nat>)
      requires config.Valid() && FreeAligned(config, free)
      ensures chosen.None? ==> forall k :: k in free ==> free[k].end - k < rounded
      ensures chosen.Some? ==>
                && chosen.value in free && free[chosen.value].end - chosen.value >= rounded
                && forall k :: k in free && k < chosen.value ==> free[k].end - k < rounded
    {
      var align := config.alignment;
      var rest := free.Keys;
      while rest != {}
        invariant rest <= free.Keys
        invariant forall j, k :: j in free && j !in rest && k in rest ==> j < k
        invariant forall j :: j in free && j !in rest ==> free[j].end - j < rounded
        decreases |rest|
      {
        LeastExists(rest);
        var k: nat :| IsLeast(k, rest);
        MisalignIsZero(config, free, k);
        var misalign := (align - free[k].start % align) % align;
        if free[k].end - free[k].start >= misalign + rounded {
          return Some(k);
        }
        rest := rest - {k};
      }
      chosen := None;
    }

    method Acquire(bytes: u64) returns (r: Result<PinnedHandle, PoolError>)
      requires IsValid()
      modifies this
      ensures bytes <= config.MaxRequest() ==> IsValid() && AcquireStep(old(View()), bytes, View(), r)
      ensures bytes > config.MaxRequest() ==> (r.Ok? <==> old(free) != map[]) && (r.Ok? ==> !Valid(View()))
      ensures r.Err? ==> View() == old(View()) && stats == old(stats)
      ensures r.Ok? ==> stats == old(stats).(acquisitions := old(stats.acquisitions) + 1,
                                            peakInUseBytes := Max(old(stats.peakInUseBytes), RequestedBytes(inUse)))
    {
      hide Valid, AcquireStep, FreeAligned, Separated;
      ghost var before := View();
      ValidParts(before);
      if bytes == 0 {
        ZeroIsRefused(before);
        return Err(ZeroBytes);
      }
      var rounded := config.Rounded(bytes);
      var chosen := FirstFit(rounded);
      if chosen.None? {
        RefusedExactly(before, bytes);
        return Err(NoBlock);
      }
      var start := chosen.value;
      var end := free[start].end;
      free := free - {start};
      if start + rounded < end {
        free := free[start + rounded := FreeBlock(start + rounded, end)];
      }
      var handle := PinnedHandle(nextId, nextId, start, bytes);
      nextId := nextId + 1;
      inUse := inUse[start := handle];
      assert View() == Acquired(before, bytes, start);
      if bytes <= config.MaxRequest() {
        AcquiredExactly(before, bytes, start);
      } else {
        WrappedRequestOverlaps(View(), handle);
      }
      var inUseBytes := InUseBytes();
      stats := stats.(acquisitions := stats.acquisitions + 1, peakInUseBytes := Max(stats.peakInUseBytes, inUseBytes));
      r := Ok(handle);
    }

    method Release(handle: PinnedHandle) returns (r: Result<(), PoolError>)
      requires IsValid()
      modifies this
      ensures IsValid() && ReleaseStep(old(View()), handle, View(), r)
      ensures r.Err? ==> stats == old(stats)
      ensures r.Ok? ==>
                var touching := (if At(FreeExtents(old(free)), handle.offset - 1) then 1 else 0)
                                + (if At(FreeExtents(old(free)), config.EndOf(handle)) then 1 else 0);
                stats == old(stats).(releases := old(stats.releases) + 1,
                                     coalesces := old(stats.coalesces) + touching)
    {
      hide Valid, ReleaseStep, FreeAligned, Separated, At;
      ghost var before := View();
      ValidParts(before);
      if handle.offset !in inUse {
        NotLiveIsRefused(before, handle);
        return Err(UnknownOffset);
      }
      if inUse[handle.offset] != handle {
        NotLiveIsRefused(before, handle);
        return Err(StaleHandle);
      }
      LiveReservation(before, handle);
      var roundedEnd := handle.offset + config.Rounded(handle.bytes);
      RequestedBytesRemove(inUse, handle.offset);
      inUse := inUse - {handle.offset};
      stats := stats.(releases := stats.releases + 1);
      InsertFree(handle.offset, roundedEnd);
      ReleasedExactly(before, handle, View());
      r := Ok(());
    }

    /** Return [start, end) to the free map, merging with the blocks it touches. */
    method InsertFree(start: nat, reservedEnd: nat)
      requires config.Valid() && FreeAligned(config, free) && Separated(FreeExtents(free), config.capacityBytes)
      requires start < reservedEnd <= config.capacityBytes
      requires start % config.alignment == 0
               && (reservedEnd % config.alignment == 0 || reservedEnd == config.capacityBytes)
      requires forall x :: start <= x < reservedEnd ==> !At(FreeExtents(free), x)
      modifies this
      ensures FreeAligned(config, free) && Separated(FreeExtents(free), config.capacityBytes)
      ensures forall z :: At(FreeExtents(free), z) <==> At(FreeExtents(old(free)), z) || start <= z < reservedEnd
      ensures inUse == old(inUse) && nextId == old(nextId)
      ensures stats == old(stats).(coalesces := old(stats.coalesces)
                                   + (if At(FreeExtents(old(free)), start - 1) then 1 else 0)
                                   + (if At(FreeExtents(old(free)), reservedEnd) then 1 else 0))
    {
      hide FreeAligned, Separated, At;
      ghost var before := free;
      var from, to, coalesced := start, reservedEnd, 0;
      var below := LastBefore(start);
      BlockStarts(config, free);
      if below.Some? && below.value + (free[below.value].end - free[below.value].start) == start {
        from := below.value;
        coalesced := coalesced + 1;
      }
      if to in free {
        to := free[to].end;
        coalesced := coalesced + 1;
      }
      stats := stats.(coalesces := stats.coalesces + coalesced);
      free := map k | k in free && !(from <= k < to) :: free[k];
      free := free[from := FreeBlock(from, to)];
      assert free == Widened(before, from, to);
      InsertedExactly(config, before, start, reservedEnd, below, from, to);
    }

    /** The highest block key below start. */
    method LastBefore(start: nat) returns (below: Option<nat>)
      ensures IsLastBefore(free, start, below)
    {
      var keys := set k: nat | k in free && k < start;
      if keys == {} {
        assert forall k :: k in free && k < start ==> k in keys;
        return None;
      }
      GreatestExists(keys);
      var k: nat :| IsGreatest(k, keys);
      assert forall j :: j in free && j < start ==> j in keys;
      below := Some(k);
    }
  }

  lemma BlockStarts(c: PoolConfig, free: map<nat, FreeBlock>)
    requires c.alignment > 0 && FreeAligned(c, free)
    ensures forall k :: k in free ==> free[k].start == k
  {
  }

  /** What coalescing with the nearest blocks on both sides does to the free points. */
  lemma InsertedExactly(
    c: PoolConfig, free: map<nat, FreeBlock>, start: nat, end: nat, below: Option<nat>, from: nat, to: nat
  )
    requires c.Valid() && FreeAligned(c, free) && Separated(FreeExtents(free), c.capacityBytes)
    requires start < end <= c.capacityBytes
    requires start % c.alignment == 0 && (end % c.alignment == 0 || end == c.capacityBytes)
    requires forall x :: start <= x < end ==> !At(FreeExtents(free), x)
    requires IsLastBefore(free, start, below)
    requires from == if below.Some? && free[below.value].end == start then below.value else start
    requires to == if end in free then free[end].end else end
    ensures FreeAligned(c, Widened(free, from, to))
    ensures Separated(FreeExtents(Widened(free, from, to)), c.capacityBytes)
    ensures forall z :: At(FreeExtents(Widened(free, from, to)), z) <==> At(FreeExtents(free), z) || start <= z < end
    ensures At(FreeExtents(free), start - 1) <==> below.Some? && free[below.value].end == start
    ensures At(FreeExtents(free), end) <==> end in free
  {
    hide FreeAligned, Separated, At;
    TouchingBelow(c, free, start, below);
    TouchingAbove(c, free, start, end);
    MergedIsFree(free, c.capacityBytes, start, end, from, to);
    MergedIsAligned(c, free, start, end, from, to);
  }

  ghost predicate IsLastBefore(free: map<nat, FreeBlock>, start: nat, below: Option<nat>) {
    match below
    case None => forall k :: k in free ==> k >= start
    case Some(b) => b in free && b < start && forall k :: k in free && k < start ==> k <= b
  }

  /** The byte below start is free exactly when the nearest block below ends there. */
  lemma TouchingBelow(c: PoolConfig, free: map<nat, FreeBlock>, start: nat, below: Option<nat>)
    requires Separated(FreeExtents(free), c.capacityBytes) && !At(FreeExtents(free), start)
    requires IsLastBefore(free, start, below)
    ensures At(FreeExtents(free), start - 1) <==> below.Some? && free[below.value].end == start
  {
    var f: Extents := FreeExtents(free);
    if below.Some? {
      assert below.value in f && (f[below.value] > start ==> At(f, start));
    }
    if At(f, start - 1) {
      var j :| j in f && j <= start - 1 < f[j];
      assert j in free;
    }
  }

  lemma TouchingAbove(c: PoolConfig, free: map<nat, FreeBlock>, start: nat, end: nat)
    requires Separated(FreeExtents(free), c.capacityBytes) && start < end
    requires forall x :: start <= x < end ==> !At(FreeExtents(free), x)
    ensures At(FreeExtents(free), end) <==> end in free
  {
    var f: Extents := FreeExtents(free);
    assert end in free ==> end in f && At(f, end);
    if At(f, end) {
      var k :| k in f && k <= end < f[k];
      assert k < end ==> At(f, end - 1);
    }
  }
}
