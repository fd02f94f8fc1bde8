/** Splitting an ordered list of identifiers across the parking structures
    (assign_coords_to_clusters in smart_parking_map.py), and attaching the
    resulting coordinates and structure names to the rows of a dataset.

    With n identifiers and k structures, chunk_size = ceil(n / k); structure j
    (in the order of the configuration) receives ids[j * cs .. (j + 1) * cs],
    clipped to n, and the walk stops at the first empty chunk, so the split
    is front-loaded rather than balanced. */
module Partition {
  import opened Grid

  /** A reference location: structure name and centre point. The order of a
      seq<Cluster> is the configuration's insertion order. */
  type Cluster = (string, Coord)

  function Min(a: nat, b: nat): nat
  {
    if a <= b then a else b
  }

  /** chunk_size = ceil(n / k). */
  function ChunkSize(n: nat, k: nat): nat
    requires k > 0
  {
    CeilDiv(n, k)
  }

  /** The slice ids[j * cs : j * cs + cs], clipped to the list as Python clips it. */
  function Chunk<Id>(ids: seq<Id>, cs: nat, j: nat): seq<Id>
  {
    ids[Min(j * cs, |ids|) .. Min(j * cs + cs, |ids|)]
  }

  /** The coordinate and structure name that position i of ids receives: the
      grid point of its offset inside its chunk, around its chunk's structure. */
  function PlacementAt<Id>(ids: seq<Id>, clusters: seq<Cluster>, spacing: real, perRow: nat, i: nat)
    : (Coord, string)
    requires i < |ids| && |clusters| > 0 && perRow > 0
  {
    var cs := ChunkSize(|ids|, |clusters|);
    PositionInChunk(|ids|, |clusters|, i);
    var j := i / cs;
    (GridPoint(clusters[j].1, spacing, perRow, |Chunk(ids, cs, j)|, i % cs), clusters[j].0)
  }

  /** Position i < n lies in chunk i / cs, at offset i % cs, and that chunk is
      one of the k structures' chunks. */
  lemma PositionInChunk(n: nat, k: nat, i: nat)
    requires k > 0 && i < n
    ensures ChunkSize(n, k) > 0
    ensures i / ChunkSize(n, k) < k
    ensures (i / ChunkSize(n, k)) * ChunkSize(n, k) + i % ChunkSize(n, k) == i
    ensures i % ChunkSize(n, k) < ChunkSize(n, k)
  {
    var cs := ChunkSize(n, k);
    var q := i / cs;
    assert q * cs + i % cs == i;
    assert q * cs < k * cs;
    assert cs * q < cs * k;
    MulCancelLess(q, k, cs);
  }

  /** Position i belongs to chunk j exactly when i / cs == j: chunk j holds the
      positions from j * cs up to (j + 1) * cs, clipped to n. */
  lemma ChunkMembership(n: nat, cs: nat, i: nat, j: nat)
    requires cs > 0 && i < n
    ensures i / cs == j <==> Min(j * cs, n) <= i < Min(j * cs + cs, n)
  {
    var q := i / cs;
    assert q * cs <= i < q * cs + cs by {
      assert q * cs + i % cs == i;
    }
    if q < j {
      MulLe(q + 1, j, cs);
    } else if q > j {
      MulLe(j + 1, q, cs);
    }
  }

  /** Multiplying by a non-negative factor preserves order. */
  lemma MulLe(a: int, b: int, d: nat)
    requires a <= b
    ensures a * d <= b * d
  {
    assert b * d - a * d == (b - a) * d;
  }

  /** The number of structures that receive a non-empty chunk: ceil(n / cs). */
  function UsedClusters(n: nat, k: nat): nat
    requires k > 0
  {
    if n == 0 then 0 else CeilDiv(n, ChunkSize(n, k))
  }

  /** Front-loading: the first UsedClusters(n, k) <= k structures receive a
      non-empty chunk, every one of them but the last a full chunk of cs,
      and every later structure receives nothing. */
  lemma {:induction false} FrontLoaded<Id>(ids: seq<Id>, k: nat, j: nat)
    requires k > 0 && j < k
    ensures UsedClusters(|ids|, k) <= k
    ensures |Chunk(ids, ChunkSize(|ids|, k), j)| > 0 <==> j < UsedClusters(|ids|, k)
    ensures j + 1 < UsedClusters(|ids|, k) ==> |Chunk(ids, ChunkSize(|ids|, k), j)| == ChunkSize(|ids|, k)
  {
    var n := |ids|;
    var cs := ChunkSize(n, k);
    var u := UsedClusters(n, k);
    if n == 0 {
      return;
    }
    assert n <= u * cs < n + cs;
    assert n <= k * cs;
    if u > k {
      MulLe(k + 1, u, cs);
      assert false;
    }
    if j < u {
      MulLe(j, u - 1, cs);
      assert (u - 1) * cs + cs == u * cs;
    } else {
      MulLe(u, j, cs);
    }
    if j + 1 < u {
      MulLe(j + 1, u - 1, cs);
      assert (j + 1) * cs == j * cs + cs;
      assert (u - 1) * cs + cs == u * cs;
    }
  }

  /** Ten identifiers over eight structures: chunks of two for the first five
      structures and nothing for the last three. */
  lemma TenOverEight<Id>(ids: seq<Id>)
    requires |ids| == 10
    ensures ChunkSize(10, 8) == 2
    ensures seq(8, j requires 0 <= j < 8 => |Chunk(ids, 2, j)|) == [2, 2, 2, 2, 2, 0, 0, 0]
  {
  }

  /** The chunks of the first m structures, concatenated. */
  function ConcatChunks<Id>(ids: seq<Id>, cs: nat, m: nat): seq<Id>
  {
    if m == 0 then [] else ConcatChunks(ids, cs, m - 1) + Chunk(ids, cs, m - 1)
  }

  /** Coverage: the chunks of the first m structures are exactly the first
      m * cs identifiers, in order, without gaps or repeats. */
  lemma {:induction false} ConcatChunksPrefix<Id>(ids: seq<Id>, cs: nat, m: nat)
    ensures ConcatChunks(ids, cs, m) == ids[..Min(m * cs, |ids|)]
  {
    if m > 0 {
      ConcatChunksPrefix(ids, cs, m - 1);
      assert (m - 1) * cs + cs == m * cs;
      assert ids[..Min((m - 1) * cs, |ids|)] + Chunk(ids, cs, m - 1) == ids[..Min(m * cs, |ids|)];
    }
  }

  /** Coverage over all k structures: the chunks, in order, are the whole list. */
  lemma PartitionCovers<Id>(ids: seq<Id>, k: nat)
    requires k > 0
    ensures ConcatChunks(ids, ChunkSize(|ids|, k), k) == ids
  {
    ConcatChunksPrefix(ids, ChunkSize(|ids|, k), k);
    assert k * ChunkSize(|ids|, k) >= |ids|;
  }

  /** Placement of position j * cs + t, for t inside chunk j: the grid point of
      offset t in a grid of |Chunk(j)| around structure j. */
  lemma PlacementInChunk<Id>(ids: seq<Id>, clusters: seq<Cluster>, spacing: real, perRow: nat, j: nat, t: nat)
    requires |clusters| > 0 && perRow > 0
    requires t < |Chunk(ids, ChunkSize(|ids|, |clusters|), j)|
    ensures j < |clusters| && j * ChunkSize(|ids|, |clusters|) + t < |ids|
    ensures PlacementAt(ids, clusters, spacing, perRow, j * ChunkSize(|ids|, |clusters|) + t)
              == (GridPoint(clusters[j].1, spacing, perRow, |Chunk(ids, ChunkSize(|ids|, |clusters|), j)|, t),
                  clusters[j].0)
  {
    var n, cs := |ids|, ChunkSize(|ids|, |clusters|);
    var i := j * cs + t;
    assert i < n;
    PositionInChunk(n, |clusters|, i);
    ChunkMembership(n, cs, i, j);
    DivModOfCell(cs, j, t);
  }

  /** assign_coords_to_clusters: with no identifiers or no structures both
      maps are empty; otherwise both have exactly the identifiers as keys, and
      each identifier holds the coordinate and structure name of its last
      position in ids. */
  method AssignCoordsToClusters<Id>(ids: seq<Id>, clusters: seq<Cluster>, spacing: real, perRow: nat)
    returns (coords: map<Id, Coord>, clusterMap: map<Id, string>)
    requires |ids| == 0 || |clusters| == 0 || perRow > 0
    ensures |ids| == 0 || |clusters| == 0 ==> coords == map[] && clusterMap == map[]
    ensures |clusters| > 0 ==> coords.Keys == (set x | x in ids) && clusterMap.Keys == (set x | x in ids)
    ensures forall i :: 0 <= i < |ids| && |clusters| > 0 && LastBefore(ids, i, |ids|) ==>
              (coords[ids[i]], clusterMap[ids[i]]) == PlacementAt(ids, clusters, spacing, perRow, i)
  {
    var n, k := |ids|, |clusters|;
    coords, clusterMap := map[], map[];
    if k == 0 || n == 0 {
      return;
    }
    var chunkSize := CeilDiv(n, k);
    var idx := 0;
    var j := 0;
    while j < k
      invariant j <= k && idx == j * chunkSize
      invariant coords.Keys == (set x | x in ids[..Min(idx, n)])
      invariant clusterMap.Keys == coords.Keys
      invariant forall i :: 0 <= i < Min(idx, n) && LastBefore(ids, i, Min(idx, n)) ==>
                  (coords[ids[i]], clusterMap[ids[i]]) == PlacementAt(ids, clusters, spacing, perRow, i)
    {
      var name := clusters[j].0;
      var base := clusters[j].1;
      var chunk := ids[Min(idx, n) .. Min(idx + chunkSize, n)];
      if |chunk| == 0 {
        break;
      }
      var local := GenerateFakeCoordinates(chunk, base, spacing, perRow);
      ghost var prevCoords, prevNames := coords, clusterMap;
      coords := coords + local;
      clusterMap := NameChunk(clusterMap, chunk, name);
      ChunkStep(ids, clusters, spacing, perRow, j, chunkSize, idx, Min(idx + chunkSize, n), chunk, local,
                prevCoords, prevNames, coords, clusterMap);
      assert (j + 1) * chunkSize == idx + chunkSize;
      idx := idx + chunkSize;
      j := j + 1;
    }
    assert Min(idx, n) == n by {
      if j == k {
        assert n <= k * chunkSize;
      }
    }
    assert ids[..n] == ids;
  }

  /** The inner loop of lines 105-106: every identifier of the chunk is mapped
      to the structure's name, and every other entry is left as it was. */
  method NameChunk<Id>(clusterMap: map<Id, string>, chunk: seq<Id>, name: string)
    returns (names: map<Id, string>)
    ensures names.Keys == clusterMap.Keys + (set x | x in chunk)
    ensures forall x :: x in chunk ==> names[x] == name
    ensures forall x :: x in clusterMap && x !in chunk ==> names[x] == clusterMap[x]
  {
    names := clusterMap;
    for t := 0 to |chunk|
      invariant names.Keys == clusterMap.Keys + (set x | x in chunk[..t])
      invariant forall x :: x in chunk[..t] ==> names[x] == name
      invariant forall x :: x in clusterMap && x !in chunk[..t] ==> names[x] == clusterMap[x]
    {
      names := names[chunk[t] := name];
      assert chunk[..t + 1] == chunk[..t] + [chunk[t]];
    }
    assert chunk[..|chunk|] == chunk;
  }

  /** One turn of the partitioner's loop keeps its invariant: after chunk j
      has been merged, every position up to the end of chunk j holds its
      placement. */
  lemma ChunkStep<Id>(ids: seq<Id>, clusters: seq<Cluster>, spacing: real, perRow: nat, j: nat,
                      cs: nat, lo: nat, hi: nat, chunk: seq<Id>, local: map<Id, Coord>,
                      prevCoords: map<Id, Coord>, prevNames: map<Id, string>,
                      coords: map<Id, Coord>, names: map<Id, string>)
    requires j < |clusters| && perRow > 0 && cs == ChunkSize(|ids|, |clusters|)
    requires lo == j * cs && hi == Min(lo + cs, |ids|) && lo < hi
    requires chunk == ids[lo..hi]
    requires prevCoords.Keys == (set x | x in ids[..lo])
    requires prevNames.Keys == prevCoords.Keys
    requires forall i :: 0 <= i < lo && LastBefore(ids, i, lo) ==>
               (prevCoords[ids[i]], prevNames[ids[i]]) == PlacementAt(ids, clusters, spacing, perRow, i)
    requires local.Keys == set x | x in chunk
    requires forall t :: 0 <= t < |chunk| && LastBefore(chunk, t, |chunk|) ==>
               local[chunk[t]] == GridPoint(clusters[j].1, spacing, perRow, |chunk|, t)
    requires coords == prevCoords + local
    requires names.Keys == prevNames.Keys + (set x | x in chunk)
    requires forall x :: x in chunk ==> names[x] == clusters[j].0
    requires forall x :: x in prevNames && x !in chunk ==> names[x] == prevNames[x]
    ensures coords.Keys == (set x | x in ids[..hi])
    ensures names.Keys == coords.Keys
    ensures forall i :: 0 <= i < hi && LastBefore(ids, i, hi) ==>
              (coords[ids[i]], names[ids[i]]) == PlacementAt(ids, clusters, spacing, perRow, i)
  {
    assert ids[..hi] == ids[..lo] + chunk;
    SetOfConcat(ids[..lo], chunk);
    forall i | 0 <= i < lo && LastBefore(ids, i, hi)
      ensures (coords[ids[i]], names[ids[i]]) == PlacementAt(ids, clusters, spacing, perRow, i)
    {
      EarlierOutsideChunk(ids, lo, hi, i);
      assert ids[i] !in local;
    }
    forall i | lo <= i < hi && LastBefore(ids, i, hi)
      ensures (coords[ids[i]], names[ids[i]]) == PlacementAt(ids, clusters, spacing, perRow, i)
    {
      ChunkPlaced(ids, clusters, spacing, perRow, j, cs, lo, hi, chunk, local, i);
    }
  }

  /** A position inside chunk j = ids[lo..hi] whose value does not recur later
      in the chunk gets from the chunk's grid the coordinate of its placement. */
  lemma ChunkPlaced<Id>(ids: seq<Id>, clusters: seq<Cluster>, spacing: real, perRow: nat, j: nat,
                        cs: nat, lo: nat, hi: nat, chunk: seq<Id>, local: map<Id, Coord>, i: nat)
    requires j < |clusters| && perRow > 0 && cs == ChunkSize(|ids|, |clusters|)
    requires lo == j * cs && hi == Min(lo + cs, |ids|) && lo <= i < hi
    requires chunk == ids[lo..hi] && LastBefore(ids, i, hi)
    requires forall t :: 0 <= t < |chunk| && LastBefore(chunk, t, |chunk|) ==>
               chunk[t] in local && local[chunk[t]] == GridPoint(clusters[j].1, spacing, perRow, |chunk|, t)
    ensures ids[i] in local && local[ids[i]] == PlacementAt(ids, clusters, spacing, perRow, i).0
    ensures PlacementAt(ids, clusters, spacing, perRow, i).1 == clusters[j].0
  {
    PlacementOfPosition(ids, clusters, spacing, perRow, j, cs, lo, hi, i);
    ChunkLookup(ids, lo, hi, chunk, local, clusters[j].1, spacing, perRow, i);
  }

  /** Position i of chunk j = ids[lo..hi] is placed at offset i - lo of the
      chunk's grid around structure j. */
  lemma PlacementOfPosition<Id>(ids: seq<Id>, clusters: seq<Cluster>, spacing: real, perRow: nat, j: nat,
                                cs: nat, lo: nat, hi: nat, i: nat)
    requires j < |clusters| && perRow > 0 && cs == ChunkSize(|ids|, |clusters|)
    requires lo == j * cs && hi == Min(lo + cs, |ids|) && lo <= i < hi
    ensures PlacementAt(ids, clusters, spacing, perRow, i)
              == (GridPoint(clusters[j].1, spacing, perRow, hi - lo, i - lo), clusters[j].0)
  {
    assert |Chunk(ids, cs, j)| == hi - lo;
    PlacementInChunk(ids, clusters, spacing, perRow, j, i - lo);
  }

  /** The value a chunk's grid map holds for position i of the chunk
      ids[lo..hi], when that value does not recur later in the chunk. */
  lemma ChunkLookup<Id>(ids: seq<Id>, lo: nat, hi: nat, chunk: seq<Id>, local: map<Id, Coord>,
                        base: Coord, spacing: real, perRow: nat, i: nat)
    requires perRow > 0 && lo <= i < hi <= |ids| && chunk == ids[lo..hi] && LastBefore(ids, i, hi)
    requires forall t :: 0 <= t < |chunk| && LastBefore(chunk, t, |chunk|) ==>
               chunk[t] in local && local[chunk[t]] == GridPoint(base, spacing, perRow, |chunk|, t)
    ensures ids[i] in local && local[ids[i]] == GridPoint(base, spacing, perRow, hi - lo, i - lo)
  {
    var t := i - lo;
    assert chunk[t] == ids[i];
    LastInChunk(ids, lo, hi, t);
  }

  /** The elements of a concatenation are those of its two parts. */
  lemma SetOfConcat<T>(a: seq<T>, b: seq<T>)
    ensures (set x | x in a + b) == (set x | x in a) + (set x | x in b)
  {
  }

  /** A position before a slice whose value does not recur up to the slice's
      end does not occur in the slice. */
  lemma EarlierOutsideChunk<Id>(ids: seq<Id>, lo: nat, hi: nat, i: nat)
    requires i < lo <= hi <= |ids| && LastBefore(ids, i, hi)
    ensures LastBefore(ids, i, lo)
    ensures ids[i] !in ids[lo..hi]
  {
  }

  /** The last occurrence up to the slice's end, taken inside the slice, is
      the last occurrence within the slice. */
  lemma LastInChunk<Id>(ids: seq<Id>, lo: nat, hi: nat, t: nat)
    requires lo + t < hi <= |ids| && LastBefore(ids, lo + t, hi)
    ensures LastBefore(ids[lo..hi], t, hi - lo)
  {
    forall u | t < u < hi - lo
      ensures ids[lo..hi][u] != ids[lo..hi][t]
    {
      assert ids[lo..hi][u] == ids[lo + u];
    }
  }
}
