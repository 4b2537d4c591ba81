/**
 Sets of points kept as maps from the start of each half-open interval to its
 end, and the tilings of [0, limit) they form.
 */
module Intervals {
  import MapSum

  type Extents = map<nat, nat>

  ghost predicate At(m: Extents, x: int) {
    exists k :: k in m && k <= x < m[k]
  }

  ghost predicate Disjoint(m: Extents, limit: nat) {
    && (forall k :: k in m ==> k < m[k] <= limit)
    && (forall j, k :: j in m && k in m && j < k ==> m[j] <= k)
  }

  /** Disjoint, and maximally coalesced: no two intervals touch. */
  ghost predicate Separated(m: Extents, limit: nat) {
    && (forall k :: k in m ==> k < m[k] <= limit)
    && (forall j, k :: j in m && k in m && j < k ==> m[j] < k)
  }

  /** Every point of [0, limit) lies in exactly one interval of either map. */
  ghost predicate Tiles(free: Extents, used: Extents, limit: nat) {
    && (forall x :: At(free, x) ==> !At(used, x))
    && (forall x :: 0 <= x < limit ==> At(free, x) || At(used, x))
  }

  ghost predicate AllAt(m: Extents, x: int, y: int) {
    forall z :: x <= z < y ==> At(m, z)
  }

  lemma EndIsOutside(m: Extents, limit: nat, k: nat)
    requires Separated(m, limit) && k in m
    ensures !At(m, m[k]) && !At(m, k - 1)
  {
  }

  /** Maximal coalescing: a run of covered points lies inside a single interval. */
  lemma RunInOneInterval(m: Extents, limit: nat, x: int, y: int) returns (k: nat)
    requires Separated(m, limit) && x < y && AllAt(m, x, y)
    ensures k in m && k <= x && y <= m[k]
  {
    assert At(m, x);
    k :| k in m && k <= x < m[k];
    EndIsOutside(m, limit, k);
  }

  lemma IntervalsAgree(f: Extents, g: Extents, limit: nat, k: nat)
    requires Separated(f, limit) && Separated(g, limit) && k in f
    requires forall x :: At(f, x) <==> At(g, x)
    ensures k in g && f[k] == g[k]
  {
    EndIsOutside(f, limit, k);
    assert AllAt(f, k, f[k]);
    assert AllAt(g, k, f[k]);
    var j := RunInOneInterval(g, limit, k, f[k]);
    assert j < k ==> At(g, k - 1);
    var end := f[k];
    assert end < g[j] ==> At(g, end);
  }

  /** A coalesced map is determined by the points it covers. */
  lemma Canonical(f: Extents, g: Extents, limit: nat)
    requires Separated(f, limit) && Separated(g, limit)
    requires forall x :: At(f, x) <==> At(g, x)
    ensures f == g
  {
    forall k | k in f ensures k in g && f[k] == g[k] { IntervalsAgree(f, g, limit, k); }
    forall k | k in g ensures k in f && f[k] == g[k] { IntervalsAgree(g, f, limit, k); }
  }

  // ---- taking points out and putting them back ------------------------------

  function TakeFront(m: Extents, k: nat, n: nat): Extents
    requires k in m && k + n <= m[k]
  {
    var rest := m - {k};
    if k + n < m[k] then rest[k + n := m[k]] else rest
  }

  lemma TakeFrontRemoves(m: Extents, limit: nat, k: nat, n: nat)
    requires Separated(m, limit) && k in m && 0 < n && k + n <= m[k]
    ensures Separated(TakeFront(m, k, n), limit)
    ensures forall z :: At(TakeFront(m, k, n), z) <==> At(m, z) && !(k <= z < k + n)
  {
    hide At;
    forall z ensures At(TakeFront(m, k, n), z) <==> At(m, z) && !(k <= z < k + n) {
      if At(TakeFront(m, k, n), z) {
        TakeFrontLeaves(m, limit, k, n, z);
      }
      if At(m, z) && !(k <= z < k + n) {
        TakeFrontKeeps(m, limit, k, n, z);
      }
    }
  }

  lemma TakeFrontLeaves(m: Extents, limit: nat, k: nat, n: nat, z: int)
    requires Separated(m, limit) && k in m && 0 < n && k + n <= m[k] && At(TakeFront(m, k, n), z)
    ensures At(m, z) && !(k <= z < k + n)
  {
    var t := TakeFront(m, k, n);
    var j :| j in t && j <= z < t[j];
    var i := if j == k + n && k + n < m[k] then k else j;
    assert i in m && i <= z < m[i];
  }

  lemma TakeFrontKeeps(m: Extents, limit: nat, k: nat, n: nat, z: int)
    requires Separated(m, limit) && k in m && k + n <= m[k] && At(m, z) && !(k <= z < k + n)
    ensures At(TakeFront(m, k, n), z)
  {
    var t := TakeFront(m, k, n);
    var j :| j in m && j <= z < m[j];
    var i := if j == k then k + n else j;
    assert i in t && i <= z < t[i];
  }

  /** Drop every interval that starts inside [from, to) and add that one. */
  function Merged(m: Extents, from: nat, to: nat): Extents {
    (map k | k in m && !(from <= k < to) :: m[k])[from := to]
  }

  /** `from` and `to` extend [start, end) over the intervals that touch it. */
  ghost predicate Widens(m: Extents, start: nat, end: nat, from: nat, to: nat) {
    && (if At(m, start - 1) then from in m && m[from] == start else from == start)
    && (if end in m then to == m[end] else to == end)
  }

  lemma OutsideOrSwallowed(m: Extents, limit: nat, start: nat, end: nat, from: nat, to: nat, k: nat)
    requires Separated(m, limit) && start < end <= limit && Widens(m, start, end, from, to)
    requires forall x :: start <= x < end ==> !At(m, x)
    requires k in m
    ensures from <= start && end <= to
    ensures (m[k] < from) || to < k || (k == from && m[k] == start) || (k == end && m[k] == to)
  {
    assert At(m, k);
    assert k < start < m[k] ==> At(m, start);
    assert k < start == m[k] ==> At(m, start - 1);
  }

  lemma MergedPoint(m: Extents, limit: nat, start: nat, end: nat, from: nat, to: nat, z: int)
    requires Separated(m, limit) && start < end <= limit && Widens(m, start, end, from, to)
    requires forall x :: start <= x < end ==> !At(m, x)
    ensures At(Merged(m, from, to), z) <==> At(m, z) || start <= z < end
  {
    hide At;
    if At(Merged(m, from, to), z) && !(start <= z < end) {
      MergedCovers(m, start, end, from, to, z);
    }
    if At(m, z) {
      MergedKeeps(m, limit, start, end, from, to, z);
    }
    if start <= z < end {
      WidenedContains(m, limit, start, end, from, to);
      MergedFills(m, start, end, from, to, z);
    }
  }

  lemma MergedCovers(m: Extents, start: nat, end: nat, from: nat, to: nat, z: int)
    requires Widens(m, start, end, from, to)
    requires At(Merged(m, from, to), z) && !(start <= z < end)
    ensures At(m, z)
  {
    hide Widens;
    WidenedEnds(m, start, end, from, to);
    var t := Merged(m, from, to);
    var k :| k in t && k <= z < t[k];
    var i := if k != from then k else if z < start then from else end;
    assert i in m && i <= z < m[i];
  }

  lemma WidenedEnds(m: Extents, start: nat, end: nat, from: nat, to: nat)
    requires Widens(m, start, end, from, to)
    ensures from == start || (from in m && m[from] == start)
    ensures to == end || (end in m && m[end] == to)
  {
    hide At;
  }

  lemma WidenedContains(m: Extents, limit: nat, start: nat, end: nat, from: nat, to: nat)
    requires Separated(m, limit) && Widens(m, start, end, from, to)
    ensures from <= start && end <= to
  {
    hide At;
  }

  lemma MergedKeeps(m: Extents, limit: nat, start: nat, end: nat, from: nat, to: nat, z: int)
    requires Separated(m, limit) && start < end <= limit && Widens(m, start, end, from, to)
    requires forall x :: start <= x < end ==> !At(m, x)
    requires At(m, z)
    ensures At(Merged(m, from, to), z)
  {
    var t := Merged(m, from, to);
    var k :| k in m && k <= z < m[k];
    OutsideOrSwallowed(m, limit, start, end, from, to, k);
    var i := if m[k] < from || to < k then k else from;
    assert i in t && i <= z < t[i];
  }

  lemma MergedFills(m: Extents, start: nat, end: nat, from: nat, to: nat, z: int)
    requires Widens(m, start, end, from, to) && start <= z < end
    requires from <= start && end <= to
    ensures At(Merged(m, from, to), z)
  {
    assert from in Merged(m, from, to);
  }

  lemma MergedAdds(m: Extents, limit: nat, start: nat, end: nat, from: nat, to: nat)
    requires Separated(m, limit) && start < end <= limit && Widens(m, start, end, from, to)
    requires forall x :: start <= x < end ==> !At(m, x)
    ensures Separated(Merged(m, from, to), limit)
    ensures forall z :: At(Merged(m, from, to), z) <==> At(m, z) || start <= z < end
  {
    var t := Merged(m, from, to);
    forall k | k in t && k != from ensures k in m && t[k] == m[k] && (m[k] < from || to < k) {
      OutsideOrSwallowed(m, limit, start, end, from, to, k);
    }
    forall z ensures At(t, z) <==> At(m, z) || start <= z < end {
      MergedPoint(m, limit, start, end, from, to, z);
    }
  }

  lemma InsertAdds(m: Extents, k: nat, end: nat)
    requires k !in m
    ensures forall x :: At(m[k := end], x) <==> At(m, x) || k <= x < end
  {
    var t := m[k := end];
    forall x ensures At(t, x) <==> At(m, x) || k <= x < end {
      if At(m, x) {
        var j :| j in m && j <= x < m[j];
        assert j in t && t[j] == m[j];
      }
      if k <= x < end {
        assert k in t;
      }
    }
  }

  /** An interval made of points m does not cover keeps m disjoint. */
  lemma InsertKeepsDisjoint(m: Extents, limit: nat, k: nat, end: nat)
    requires Disjoint(m, limit) && k < end <= limit
    requires forall x :: k <= x < end ==> !At(m, x)
    ensures k !in m && Disjoint(m[k := end], limit)
  {
    forall j | j in m ensures m[j] <= k || end <= j {
      assert At(m, j);
      assert j < k < m[j] ==> At(m, k);
    }
    assert k in m ==> At(m, k);
  }

  lemma RemoveUncovers(m: Extents, limit: nat, k: nat)
    requires Disjoint(m, limit) && k in m
    ensures Disjoint(m - {k}, limit)
    ensures forall x :: At(m - {k}, x) <==> At(m, x) && !(k <= x < m[k])
  {
    InsertAdds(m - {k}, k, m[k]);
    assert (m - {k})[k := m[k]] == m;
    forall x ensures At(m - {k}, x) ==> !(k <= x < m[k]) {
      if At(m - {k}, x) {
        var j :| j in m - {k} && j <= x < (m - {k})[j];
        assert j in m && j != k;
      }
    }
  }

  /** Moving a run of free points to the used side keeps the tiling. */
  lemma ReserveKeepsTiling(free: Extents, used: Extents, free': Extents, limit: nat, x: nat, y: nat)
    requires Disjoint(used, limit) && Tiles(free, used, limit)
    requires x < y <= limit && AllAt(free, x, y)
    requires forall z :: At(free', z) <==> At(free, z) && !(x <= z < y)
    ensures x !in used && Disjoint(used[x := y], limit) && Tiles(free', used[x := y], limit)
  {
    hide At, Disjoint;
    InsertKeepsDisjoint(used, limit, x, y);
    InsertAdds(used, x, y);
    var used' := used[x := y];
    forall z | At(free', z) ensures !At(used', z) {
      assert At(free, z) && !At(used, z);
    }
    forall z | 0 <= z < limit ensures At(free', z) || At(used', z) {
      assert At(free, z) || At(used, z);
    }
  }

  /** Giving one used interval back to the free side keeps the tiling. */
  lemma ReturnKeepsTiling(free: Extents, used: Extents, free': Extents, limit: nat, x: nat)
    requires Disjoint(used, limit) && Tiles(free, used, limit) && x in used
    requires forall z :: At(free', z) <==> At(free, z) || x <= z < used[x]
    ensures Disjoint(used - {x}, limit) && Tiles(free', used - {x}, limit)
  {
    RemoveUncovers(used, limit, x);
    UsedPoints(used, x);
    hide At, Disjoint;
  }

  lemma UsedPoints(used: Extents, x: nat)
    requires x in used
    ensures AllAt(used, x, used[x])
  {
  }

  // ---- accounting -----------------------------------------------------------

  ghost function Sizes(m: Extents): map<nat, nat> {
    map k | k in m :: if k < m[k] then m[k] - k else 0
  }

  ghost function Total(m: Extents): nat {
    MapSum.Sum(Sizes(m))
  }

  lemma TotalRemove(m: Extents, k: nat)
    requires k in m && k < m[k]
    ensures Total(m) == m[k] - k + Total(m - {k})
  {
    MapSum.SumRemove(Sizes(m), k);
    assert Sizes(m) - {k} == Sizes(m - {k});
  }

  /** Peel the topmost interval: a tiling of [0, limit) holds exactly limit points. */
  lemma {:induction false} TilesFill(free: Extents, used: Extents, limit: nat)
    requires Disjoint(free, limit) && Disjoint(used, limit) && Tiles(free, used, limit)
    ensures Total(free) + Total(used) == limit
    decreases limit
  {
    if limit == 0 {
      assert free == map[] && used == map[];
    } else if At(free, limit - 1) {
      var k := PeelTop(free, used, limit);
      TilesFill(free - {k}, used, k);
      TotalRemove(free, k);
    } else {
      assert At(used, limit - 1);
      var k := PeelTop(used, free, limit);
      TilesFill(free, used - {k}, k);
      TotalRemove(used, k);
    }
  }

  lemma PointOf(m: Extents, k: nat, x: int)
    requires k in m
    ensures k <= x < m[k] ==> At(m, x)
  {
  }

  lemma PeelTop(m: Extents, other: Extents, limit: nat) returns (k: nat)
    requires Disjoint(m, limit) && Disjoint(other, limit) && limit > 0 && At(m, limit - 1)
    requires Tiles(m, other, limit) || Tiles(other, m, limit)
    ensures k in m && m[k] == limit
    ensures Disjoint(m - {k}, k) && Disjoint(other, k)
    ensures Tiles(m, other, limit) ==> Tiles(m - {k}, other, k)
    ensures Tiles(other, m, limit) ==> Tiles(other, m - {k}, k)
  {
    k :| k in m && k <= limit - 1 < m[k];
    RemoveUncovers(m, limit, k);
    forall j | j in other ensures other[j] <= k {
      var x := if j < k then k else j;
      PointOf(m, k, x);
      PointOf(other, j, x);
    }
    forall j | j in m - {k} ensures (m - {k})[j] <= k {
      assert j in m;
    }
  }
}
