/** Attaching synthetic coordinates and structure names to the rows of one
    dataset (lines 136-146 for LADOT and 149-159 for IoT in
    smart_parking_map.py): the distinct identifiers of the identifier column,
    in order of first appearance, are partitioned across the structures, and
    every row then looks up its coordinate (a missing key raises) and its
    structure name (a missing key falls back to "Unknown"). */
module Placement {
  import opened Grid
  import opened Partition

  datatype Option<T> = None | Some(value: T)

  /** The three columns a row gains: latitude, longitude and structure. */
  datatype Placed = Placed(position: Coord, structure: string)

  /** No identifier occurs twice. */
  ghost predicate Distinct<Id>(s: seq<Id>)
  {
    forall i, j :: 0 <= i < j < |s| ==> s[i] != s[j]
  }

  /** The distinct values of a column in order of first appearance, as
      Series.unique() returns them. */
  function Unique<Id(==)>(s: seq<Id>): (u: seq<Id>)
    ensures Distinct(u)
    ensures forall i :: 0 <= i < |s| ==> s[i] in u
    ensures forall i :: 0 <= i < |u| ==> u[i] in s
    ensures |u| <= |s|
  {
    if |s| == 0 then []
    else
      var init, x := s[..|s| - 1], s[|s| - 1];
      var u := Unique(init);
      assert s == init + [x];
      if x in u then u
      else
        DistinctAppend(u, x);
        u + [x]
  }

  /** Appending a value that is not yet present keeps a list duplicate-free. */
  lemma DistinctAppend<Id>(u: seq<Id>, x: Id)
    requires Distinct(u) && x !in u
    ensures Distinct(u + [x])
  {
    forall i, j | 0 <= i < j < |u| + 1
      ensures (u + [x])[i] != (u + [x])[j]
    {
      if j == |u| {
        assert u[i] in u;
      }
    }
  }

  /** Unique keeps the first appearances in their order: a list that has no
      duplicates comes back unchanged. */
  lemma {:induction false} UniqueOfDistinct<Id>(s: seq<Id>)
    requires Distinct(s)
    ensures Unique(s) == s
  {
    if |s| > 0 {
      var init := s[..|s| - 1];
      assert Distinct(init);
      UniqueOfDistinct(init);
      assert s[|s| - 1] !in init;
      assert s == init + [s[|s| - 1]];
    }
  }

  /** Unique lists the values in the order of their first appearance: of two
      values it returns, the earlier one first occurs earlier in the column. */
  lemma {:induction false} UniqueFirstAppearance<Id>(s: seq<Id>)
    ensures forall i, j :: 0 <= i < j < |Unique(s)| ==>
              IndexOf(s, Unique(s)[i]) < IndexOf(s, Unique(s)[j])
  {
    if |s| > 0 {
      var init, x := s[..|s| - 1], s[|s| - 1];
      assert s == init + [x];
      UniqueFirstAppearance(init);
      var u0, u := Unique(init), Unique(s);
      forall i, j | 0 <= i < j < |u|
        ensures IndexOf(s, u[i]) < IndexOf(s, u[j])
      {
        IndexOfSnoc(init, x, u0[i]);
        if j < |u0| {
          IndexOfSnoc(init, x, u0[j]);
        } else {
          assert u[j] == x && x !in u0;
          assert IndexOf(s, x) == |init|;
        }
      }
    }
  }

  /** Appending a value does not move the first appearance of a value already
      present. */
  lemma {:induction false} IndexOfSnoc<Id>(s: seq<Id>, x: Id, y: Id)
    requires y in s
    ensures IndexOf(s + [x], y) == IndexOf(s, y)
  {
    if s[0] != y {
      assert (s + [x])[1..] == s[1..] + [x];
      IndexOfSnoc(s[1..], x, y);
    }
  }

  /** In a list without duplicates every position is the last one of its value. */
  lemma DistinctAllLast<Id>(s: seq<Id>, i: nat)
    requires Distinct(s) && i < |s|
    ensures LastBefore(s, i, |s|)
  {
  }

  /** The structure-name lookup with its "Unknown" fallback (lines 146, 159). */
  function StructureOf<Id>(clusterMap: map<Id, string>, id: Id): string
  {
    if id in clusterMap then clusterMap[id] else "Unknown"
  }

  /** The per-row lookups of lines 144-146: None when some row's identifier has
      no coordinate (the KeyError of ladot_coords[x]); otherwise one Placed
      per row, in row order. */
  function Annotate<Id>(rowIds: seq<Id>, coords: map<Id, Coord>, clusterMap: map<Id, string>)
    : (r: Option<seq<Placed>>)
    ensures r.Some? <==> forall x :: x in rowIds ==> x in coords
    ensures r.Some? ==> |r.value| == |rowIds|
    ensures r.Some? ==> forall k :: 0 <= k < |rowIds| ==>
              r.value[k] == Placed(coords[rowIds[k]], StructureOf(clusterMap, rowIds[k]))
  {
    if |rowIds| == 0 then Some([])
    else
      var rest := Annotate(rowIds[1..], coords, clusterMap);
      if rowIds[0] !in coords || rest.None? then None
      else Some([Placed(coords[rowIds[0]], StructureOf(clusterMap, rowIds[0]))] + rest.value)
  }

  /** Where a value first occurs in a list. */
  function IndexOf<Id(==)>(s: seq<Id>, x: Id): (i: nat)
    requires x in s
    ensures i < |s| && s[i] == x
    ensures forall j :: 0 <= j < i ==> s[j] != x
  {
    if s[0] == x then 0 else 1 + IndexOf(s[1..], x)
  }

  /** The names of the configured structures. */
  function ClusterNames(clusters: seq<Cluster>): set<string>
  {
    set c | c in clusters :: c.0
  }

  /** Coordinates and structures for every row of a dataset. With no
      structures configured and at least one row the coordinate lookup
      fails; otherwise every row gets the placement of its identifier's
      position among the distinct identifiers, and its structure is always a
      configured one, never the "Unknown" fallback (unless a structure is
      itself called so). */
  method PlaceRows<Id(==)>(rowIds: seq<Id>, clusters: seq<Cluster>, spacing: real, perRow: nat)
    returns (placed: Option<seq<Placed>>)
    requires |rowIds| == 0 || |clusters| == 0 || perRow > 0
    ensures placed.None? <==> |clusters| == 0 && |rowIds| > 0
    ensures placed.Some? ==> |placed.value| == |rowIds|
    ensures placed.Some? ==> forall r :: 0 <= r < |rowIds| ==>
              var (position, name) := PlacementAt(Unique(rowIds), clusters, spacing, perRow,
                                                  IndexOf(Unique(rowIds), rowIds[r]));
              placed.value[r] == Placed(position, name)
    ensures placed.Some? ==> forall r :: 0 <= r < |rowIds| ==>
              placed.value[r].structure in ClusterNames(clusters)
  {
    var ids := Unique(rowIds);
    var coords, clusterMap := AssignCoordsToClusters(ids, clusters, spacing, perRow);
    placed := Annotate(rowIds, coords, clusterMap);
    if |clusters| == 0 {
      if |rowIds| > 0 {
        assert rowIds[0] in rowIds && rowIds[0] !in coords;
      }
      return;
    }
    forall r | 0 <= r < |rowIds|
      ensures rowIds[r] in ids && IndexOf(ids, rowIds[r]) < |ids|
      ensures var i := IndexOf(ids, rowIds[r]);
              coords[rowIds[r]] == PlacementAt(ids, clusters, spacing, perRow, i).0 &&
              StructureOf(clusterMap, rowIds[r]) == PlacementAt(ids, clusters, spacing, perRow, i).1
      ensures PlacementAt(ids, clusters, spacing, perRow, IndexOf(ids, rowIds[r])).1 in ClusterNames(clusters)
    {
      assert rowIds[r] in ids;
      RowLookup(ids, clusters, spacing, perRow, coords, clusterMap, rowIds[r]);
    }
  }

  /** The lookups for one row: its identifier holds the placement of its
      position among the distinct identifiers. */
  lemma RowLookup<Id>(ids: seq<Id>, clusters: seq<Cluster>, spacing: real, perRow: nat,
                          coords: map<Id, Coord>, clusterMap: map<Id, string>, x: Id)
    requires Distinct(ids) && x in ids && |clusters| > 0 && perRow > 0
    requires coords.Keys == (set y | y in ids) && clusterMap.Keys == coords.Keys
    requires forall i :: 0 <= i < |ids| && LastBefore(ids, i, |ids|) ==>
               (coords[ids[i]], clusterMap[ids[i]]) == PlacementAt(ids, clusters, spacing, perRow, i)
    ensures var i := IndexOf(ids, x);
            x in coords && coords[x] == PlacementAt(ids, clusters, spacing, perRow, i).0 &&
            StructureOf(clusterMap, x) == PlacementAt(ids, clusters, spacing, perRow, i).1 &&
            PlacementAt(ids, clusters, spacing, perRow, i).1 in ClusterNames(clusters)
  {
    var i := IndexOf(ids, x);
    DistinctAllLast(ids, i);
    PlacementNamesACluster(ids, clusters, spacing, perRow, i);
  }

  /** The structure of every placement is one of the configured names. */
  lemma PlacementNamesACluster<Id>(ids: seq<Id>, clusters: seq<Cluster>, spacing: real, perRow: nat, i: nat)
    requires i < |ids| && |clusters| > 0 && perRow > 0
    ensures PlacementAt(ids, clusters, spacing, perRow, i).1 in ClusterNames(clusters)
  {
    PositionInChunk(|ids|, |clusters|, i);
    var j := i / ChunkSize(|ids|, |clusters|);
    assert clusters[j] in clusters;
  }
}
