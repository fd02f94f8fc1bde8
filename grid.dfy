/** Grid placement of parking-spot identifiers around one reference point
    (generate_fake_coordinates in smart_parking_map.py).

    The i-th identifier of a chunk of n goes to row i / perRow and column
    i % perRow of a grid with CeilDiv(n, perRow) rows, and the full frame of
    rows by perRow columns is shifted so that its centre falls on the
    reference point. A short last row is filled from column 0, so its points
    are not symmetric around the reference point. Coordinates are exact
    reals: the source's float rounding is not modelled. */
module Grid {

  /** A latitude/longitude pair in degrees. */
  datatype Coord = Coord(lat: real, lon: real)

  /** ceil(n / d) for a positive divisor: the least multiple count that covers n. */
  function CeilDiv(n: nat, d: nat): (r: nat)
    requires d > 0
    ensures n <= r * d < n + d
    ensures r == 0 <==> n == 0
  {
    var q := (n + d - 1) / d;
    assert n + d - 1 == q * d + (n + d - 1) % d;
    q
  }

  /** Number of grid rows for n identifiers at perRow per row (num_rows). */
  function NumRows(n: nat, perRow: nat): nat
    requires perRow > 0
  {
    CeilDiv(n, perRow)
  }

  /** Twice the signed distance of a row from the grid's centre row:
      2 * (row - (numRows - 1) / 2), an integer. */
  function RowOffset2(row: int, numRows: nat): int
  {
    2 * row - (numRows - 1)
  }

  /** Twice the signed distance of a column from the grid's centre column. */
  function ColOffset2(col: int, perRow: nat): int
  {
    2 * col - (perRow - 1)
  }

  /** The coordinate the source gives the i-th of n identifiers: the base point
      plus (row - row_center) * spacing and (col - col_center) * spacing. */
  function GridPoint(base: Coord, spacing: real, perRow: nat, n: nat, i: nat): Coord
    requires perRow > 0
  {
    var rowCenter := (NumRows(n, perRow) - 1) as real / 2.0;
    var colCenter := (perRow - 1) as real / 2.0;
    Coord(base.lat + ((i / perRow) as real - rowCenter) * spacing,
          base.lon + ((i % perRow) as real - colCenter) * spacing)
  }

  /** No later identifier in ids[..end] equals ids[i], so a dictionary filled
      from ids[..end] in order keeps the value written for position i. */
  ghost predicate LastBefore<Id>(ids: seq<Id>, i: nat, end: nat)
    requires i < end <= |ids|
  {
    forall j :: i < j < end ==> ids[j] != ids[i]
  }

  /** The grid point is the base point moved by half a spacing per unit of
      the doubled integer offsets. */
  lemma GridPointHalfSteps(base: Coord, spacing: real, perRow: nat, n: nat, i: nat)
    requires perRow > 0
    ensures GridPoint(base, spacing, perRow, n, i).lat
              == base.lat + (RowOffset2(i / perRow, NumRows(n, perRow)) as real) * spacing / 2.0
    ensures GridPoint(base, spacing, perRow, n, i).lon
              == base.lon + (ColOffset2(i % perRow, perRow) as real) * spacing / 2.0
  {
    var r, c := (i / perRow) as real, (i % perRow) as real;
    var rc := (NumRows(n, perRow) - 1) as real / 2.0;
    var cc := (perRow - 1) as real / 2.0;
    assert (r - rc) * spacing == (2.0 * r - 2.0 * rc) * spacing / 2.0;
    assert (c - cc) * spacing == (2.0 * c - 2.0 * cc) * spacing / 2.0;
  }

  /** Every position of a chunk of n lands inside the grid: its column is below
      perRow, its row below the row count, and both doubled offsets lie within
      the grid's half-extent around the centre. */
  lemma CellInGrid(perRow: nat, n: nat, i: nat)
    requires perRow > 0 && i < n
    ensures i % perRow < perRow
    ensures i / perRow < NumRows(n, perRow)
    ensures -(NumRows(n, perRow) - 1) <= RowOffset2(i / perRow, NumRows(n, perRow)) <= NumRows(n, perRow) - 1
    ensures -(perRow - 1) <= ColOffset2(i % perRow, perRow) <= perRow - 1
  {
    var rows := NumRows(n, perRow);
    var q := i / perRow;
    assert q * perRow <= i by {
      assert i == q * perRow + i % perRow;
    }
    MulCancelLess(q, rows, perRow);
  }

  /** Cancelling a positive factor preserves strict order. */
  lemma MulCancelLess(a: int, b: int, d: int)
    requires d > 0 && a * d < b * d
    ensures a < b
  {
  }

  /** Distinct positions get distinct cells: (row, col) determines i. */
  lemma CellsDistinct(perRow: nat, i: nat, j: nat)
    requires perRow > 0 && i != j
    ensures (i / perRow, i % perRow) != (j / perRow, j % perRow)
  {
    assert i == (i / perRow) * perRow + i % perRow;
    assert j == (j / perRow) * perRow + j % perRow;
  }

  /** With a non-zero spacing, no two positions of one chunk share a coordinate. */
  lemma GridPointsDistinct(base: Coord, spacing: real, perRow: nat, n: nat, i: nat, j: nat)
    requires perRow > 0 && spacing != 0.0 && i != j
    ensures GridPoint(base, spacing, perRow, n, i) != GridPoint(base, spacing, perRow, n, j)
  {
    CellsDistinct(perRow, i, j);
    var rc := (NumRows(n, perRow) - 1) as real / 2.0;
    var cc := (perRow - 1) as real / 2.0;
    if i / perRow != j / perRow {
      ScaleInjective((i / perRow) as real - rc, (j / perRow) as real - rc, spacing);
    } else {
      ScaleInjective((i % perRow) as real - cc, (j % perRow) as real - cc, spacing);
    }
  }

  /** Scaling by a non-zero spacing keeps distinct offsets distinct. */
  lemma ScaleInjective(a: real, b: real, spacing: real)
    requires a != b && spacing != 0.0
    ensures a * spacing != b * spacing
  {
    assert a * spacing - b * spacing == (a - b) * spacing;
  }

  /** The grid is centred across its columns: position row * perRow + c and
      position row * perRow + (perRow - 1 - c) lie at opposite longitude
      offsets from the base point. */
  lemma ColumnsMirror(base: Coord, spacing: real, perRow: nat, n: nat, row: nat, c: nat)
    requires perRow > 0 && c < perRow
    ensures var p := GridPoint(base, spacing, perRow, n, row * perRow + c);
            var q := GridPoint(base, spacing, perRow, n, row * perRow + (perRow - 1 - c));
            q.lon - base.lon == -(p.lon - base.lon)
  {
    DivModOfCell(perRow, row, c);
    DivModOfCell(perRow, row, perRow - 1 - c);
    GridPointHalfSteps(base, spacing, perRow, n, row * perRow + c);
    GridPointHalfSteps(base, spacing, perRow, n, row * perRow + (perRow - 1 - c));
    assert ColOffset2(perRow - 1 - c, perRow) == -ColOffset2(c, perRow);
  }

  /** The grid is centred across its rows: rows r and r2 = numRows - 1 - r lie
      at opposite latitude offsets from the base point. */
  lemma RowsMirror(base: Coord, spacing: real, perRow: nat, n: nat, r: nat, r2: nat, col: nat)
    requires perRow > 0 && col < perRow && r + r2 == NumRows(n, perRow) - 1
    ensures var p := GridPoint(base, spacing, perRow, n, r * perRow + col);
            var q := GridPoint(base, spacing, perRow, n, r2 * perRow + col);
            q.lat - base.lat == -(p.lat - base.lat)
  {
    var rows := NumRows(n, perRow);
    var i, j := r * perRow + col, r2 * perRow + col;
    DivModOfCell(perRow, r, col);
    DivModOfCell(perRow, r2, col);
    GridPointHalfSteps(base, spacing, perRow, n, i);
    GridPointHalfSteps(base, spacing, perRow, n, j);
    var a := RowOffset2(r, rows);
    assert RowOffset2(j / perRow, rows) == -a;
    NegatedHalfSteps(a, spacing);
  }

  /** Negating the doubled offset negates the displacement. */
  lemma NegatedHalfSteps(a: int, spacing: real)
    ensures ((-a) as real) * spacing / 2.0 == -((a as real) * spacing / 2.0)
  {
  }

  /** A chunk that fits on one row lies on the base latitude. */
  lemma SingleRowIsFlat(base: Coord, spacing: real, perRow: nat, n: nat, i: nat)
    requires perRow > 0 && i < n <= perRow
    ensures GridPoint(base, spacing, perRow, n, i).lat == base.lat
  {
    var rows := NumRows(n, perRow);
    MulCancelLess(rows, 2, perRow);
    assert rows == 1;
    DivModOfCell(perRow, 0, i);
    assert i / perRow == 0;
  }

  /** The cell arithmetic of position row * perRow + col, for col < perRow. */
  lemma DivModOfCell(perRow: nat, row: nat, col: nat)
    requires perRow > 0 && col < perRow
    ensures (row * perRow + col) / perRow == row
    ensures (row * perRow + col) % perRow == col
  {
    var i := row * perRow + col;
    var q, m := i / perRow, i % perRow;
    assert q * perRow + m == row * perRow + col;
    MulCancelLess(q, row + 1, perRow);
    MulCancelLess(row, q + 1, perRow);
  }

  /** Eight identifiers on rows of eight: one row on the base latitude, with
      longitudes -7, -5, ..., 7 half spacings from the base, symmetric around
      it. */
  lemma EightOnOneRow(base: Coord, spacing: real)
    ensures forall i :: 0 <= i < 8 ==> GridPoint(base, spacing, 8, 8, i).lat == base.lat
    ensures forall i :: 0 <= i < 8 ==>
              GridPoint(base, spacing, 8, 8, i).lon
                == base.lon + ([-7, -5, -3, -1, 1, 3, 5, 7][i] as real) * spacing / 2.0
  {
    forall i | 0 <= i < 8
      ensures GridPoint(base, spacing, 8, 8, i).lat == base.lat
      ensures GridPoint(base, spacing, 8, 8, i).lon
                == base.lon + ([-7, -5, -3, -1, 1, 3, 5, 7][i] as real) * spacing / 2.0
    {
      SingleRowIsFlat(base, spacing, 8, 8, i);
      GridPointHalfSteps(base, spacing, 8, 8, i);
    }
  }

  /** The frame is centred, not the points: a last row holding at most half a
      row's identifiers is filled from column 0, so all of its points lie
      west of the reference point (for a positive spacing). */
  lemma ShortLastRowLeansWest(base: Coord, spacing: real, perRow: nat, n: nat, i: nat)
    requires perRow > 0 && spacing > 0.0 && i < n
    requires i / perRow == NumRows(n, perRow) - 1
    requires 2 * (n - (NumRows(n, perRow) - 1) * perRow) <= perRow
    ensures GridPoint(base, spacing, perRow, n, i).lon < base.lon
  {
    var last := NumRows(n, perRow) - 1;
    var col := i % perRow;
    assert i == last * perRow + col;
    assert ColOffset2(col, perRow) < 0;
    GridPointHalfSteps(base, spacing, perRow, n, i);
  }

  /** With PER_ROW = 8, a lone identifier sits 7 half spacings west of the
      reference point, and both identifiers of a chunk of two lie west of it. */
  lemma SmallChunksLeanWest(base: Coord, spacing: real)
    requires spacing > 0.0
    ensures GridPoint(base, spacing, 8, 1, 0).lon == base.lon + (-7) as real * spacing / 2.0
    ensures GridPoint(base, spacing, 8, 2, 0).lon < base.lon
    ensures GridPoint(base, spacing, 8, 2, 1).lon < base.lon
  {
    GridPointHalfSteps(base, spacing, 8, 1, 0);
    ShortLastRowLeansWest(base, spacing, 8, 2, 0);
    ShortLastRowLeansWest(base, spacing, 8, 2, 1);
  }

  /** generate_fake_coordinates: place each identifier of ids on the grid around
      base. An empty list gives an empty map; otherwise the keys are exactly the
      identifiers given, and each one holds the grid point of its last position
      in ids (a later duplicate overwrites an earlier one, as a dictionary
      assignment does). */
  method GenerateFakeCoordinates<Id>(ids: seq<Id>, base: Coord, spacing: real, perRow: nat)
    returns (coords: map<Id, Coord>)
    requires |ids| == 0 || perRow > 0
    ensures |ids| == 0 ==> coords == map[]
    ensures coords.Keys == set x | x in ids
    ensures forall i :: 0 <= i < |ids| && LastBefore(ids, i, |ids|) ==>
              coords[ids[i]] == GridPoint(base, spacing, perRow, |ids|, i)
  {
    var n := |ids|;
    if n == 0 {
      return map[];
    }
    var numRows := CeilDiv(n, perRow);
    var rowCenter := (numRows - 1) as real / 2.0;
    var colCenter := (perRow - 1) as real / 2.0;
    coords := map[];
    for i := 0 to n
      invariant coords.Keys == set x | x in ids[..i]
      invariant forall j :: 0 <= j < i && LastBefore(ids, j, i) ==>
                  coords[ids[j]] == GridPoint(base, spacing, perRow, n, j)
    {
      var row := i / perRow;
      var col := i % perRow;
      var lat := base.lat + (row as real - rowCenter) * spacing;
      var lon := base.lon + (col as real - colCenter) * spacing;
      assert Coord(lat, lon) == GridPoint(base, spacing, perRow, n, i);
      ghost var prev := coords;
      coords := coords[ids[i] := Coord(lat, lon)];
      assert ids[..i + 1] == ids[..i] + [ids[i]];
      forall j | 0 <= j < i + 1 && LastBefore(ids, j, i + 1)
        ensures coords[ids[j]] == GridPoint(base, spacing, perRow, n, j)
      {
        if j < i {
          assert ids[j] != ids[i] && LastBefore(ids, j, i);
          assert coords[ids[j]] == prev[ids[j]];
        }
      }
    }
    assert ids[..n] == ids;
  }
}
