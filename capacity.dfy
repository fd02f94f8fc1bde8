/** The structure capacity table (lines 172-182 of smart_parking_map.py):
    the LADOT rows are grouped by structure; each group reports its row count
    (total_spots), the rows whose normalised state is "OCCUPIED" (occupied),
    their difference (vacant) and the occupied share in percent (pct_full).

    The table is a map from structure name to its row. The percentage is the
    exact ratio; its rounding to one decimal and the sorted row order of the
    grouping are not part of this model. */
module Capacity {
  import opened Occupancy

  /** A LADOT row as the roll-up sees it: its structure and its OccNormalized
      status, computed from the raw state by ClassifyText (lines 162-169). */
  datatype Record = Record(structure: string, status: Status)

  /** The row of a structure and a raw OccupancyState cell. */
  function Normalised(structure: string, cell: StateCell): (r: Record)
    ensures r.structure == structure
    ensures r.status == Vacant <==> cell.Text? && Upper(Strip(cell.s)) == "VACANT"
  {
    ClassifyTextCharacterised(cell);
    Record(structure, ClassifyText(cell))
  }

  /** One row of the capacity table. */
  datatype Summary = Summary(total: nat, occupied: nat, vacant: int)

  /** The structures that occur in the rows: the grouping keys. */
  function Structures(records: seq<Record>): set<string>
  {
    set r | r in records :: r.structure
  }

  /** Whether a row counts towards occupied (the lambda of line 176). */
  function OccupiedMark(r: Record): nat
  {
    if r.status == Occupied then 1 else 0
  }

  /** How many rows belong to structure s: the "size" aggregate of line 175. */
  function CountIn(records: seq<Record>, s: string): nat
  {
    if |records| == 0 then 0
    else
      var last := records[|records| - 1];
      CountIn(records[..|records| - 1], s) + (if last.structure == s then 1 else 0)
  }

  /** How many rows of structure s are occupied. */
  function OccupiedIn(records: seq<Record>, s: string): nat
  {
    if |records| == 0 then 0
    else
      var last := records[|records| - 1];
      OccupiedIn(records[..|records| - 1], s) + (if last.structure == s then OccupiedMark(last) else 0)
  }

  /** How many rows of structure s are vacant. */
  function VacantIn(records: seq<Record>, s: string): nat
  {
    if |records| == 0 then 0
    else
      var last := records[|records| - 1];
      VacantIn(records[..|records| - 1], s) +
        (if last.structure == s && last.status == Vacant then 1 else 0)
  }

  /** A group's running counts: its rows and its occupied rows. */
  datatype Group = Group(size: int, occupied: int)

  /** Counting one row: its structure's group grows by one row, and by one
      occupied row when the row is occupied. */
  function Bump(t: map<string, Group>, r: Record): map<string, Group>
  {
    var g := if r.structure in t then t[r.structure] else Group(0, 0);
    t[r.structure := Group(g.size + 1, g.occupied + OccupiedMark(r))]
  }

  /** The grouping itself, one row at a time. The result agrees with the
      per-structure counts, and has a group for exactly the structures that
      occur. */
  function Tally(records: seq<Record>): (t: map<string, Group>)
    ensures t.Keys == Structures(records)
    ensures forall s :: s in t ==> t[s] == Group(CountIn(records, s), OccupiedIn(records, s))
  {
    if |records| == 0 then map[]
    else
      var t0 := Tally(records[..|records| - 1]);
      TallyStep(records, t0);
      Bump(t0, records[|records| - 1])
  }

  /** Counting the last row keeps the tally in step with the counts. */
  lemma TallyStep(records: seq<Record>, t0: map<string, Group>)
    requires |records| > 0
    requires t0.Keys == Structures(records[..|records| - 1])
    requires forall s :: s in t0 ==>
               t0[s] == Group(CountIn(records[..|records| - 1], s), OccupiedIn(records[..|records| - 1], s))
    ensures var t := Bump(t0, records[|records| - 1]);
            t.Keys == Structures(records) &&
            forall s :: s in t ==> t[s] == Group(CountIn(records, s), OccupiedIn(records, s))
  {
    StructuresSnoc(records);
    var t := Bump(t0, records[|records| - 1]);
    forall s | s in t
      ensures t[s] == Group(CountIn(records, s), OccupiedIn(records, s))
    {
      TallyStepAt(records, t0, s);
    }
  }

  /** The group of one structure after counting the last row. */
  lemma TallyStepAt(records: seq<Record>, t0: map<string, Group>, s: string)
    requires |records| > 0
    requires t0.Keys == Structures(records[..|records| - 1])
    requires forall s :: s in t0 ==>
               t0[s] == Group(CountIn(records[..|records| - 1], s), OccupiedIn(records[..|records| - 1], s))
    requires s in Bump(t0, records[|records| - 1])
    ensures Bump(t0, records[|records| - 1])[s] == Group(CountIn(records, s), OccupiedIn(records, s))
  {
    var init, last := records[..|records| - 1], records[|records| - 1];
    if s == last.structure && s !in t0 {
      CountOutside(init, s);
    }
  }

  /** The grouping keys of a list are those of all but its last row, plus the
      last row's structure. */
  lemma StructuresSnoc(records: seq<Record>)
    requires |records| > 0
    ensures Structures(records)
              == Structures(records[..|records| - 1]) + {records[|records| - 1].structure}
  {
    var init, last := records[..|records| - 1], records[|records| - 1];
    assert records == init + [last];
    forall s | s in Structures(records) ensures s in Structures(init) + {last.structure} {
      var r :| r in records && r.structure == s;
      if r != last {
        assert r in init;
      }
    }
    assert last in records;
    forall s | s in Structures(init) ensures s in Structures(records) {
      var r :| r in init && r.structure == s;
      assert r in records;
    }
  }

  /** A structure that does not occur has no rows and no occupied rows. */
  lemma {:induction false} CountOutside(records: seq<Record>, s: string)
    requires s !in Structures(records)
    ensures CountIn(records, s) == 0 && OccupiedIn(records, s) == 0
  {
    if |records| > 0 {
      var init := records[..|records| - 1];
      assert Structures(init) <= Structures(records) by {
        forall r | r in init ensures r in records {
          assert records == init + [records[|records| - 1]];
        }
      }
      CountOutside(init, s);
    }
  }

  /** A structure that occurs has at least one row. */
  lemma {:induction false} CountInside(records: seq<Record>, s: string)
    requires s in Structures(records)
    ensures CountIn(records, s) > 0
  {
    var init, last := records[..|records| - 1], records[|records| - 1];
    assert records == init + [last];
    if last.structure != s {
      CountInside(init, s);
    }
  }

  /** Every row of a structure is occupied or vacant, never both. */
  lemma {:induction false} OccupiedPlusVacant(records: seq<Record>, s: string)
    ensures OccupiedIn(records, s) + VacantIn(records, s) == CountIn(records, s)
  {
    if |records| > 0 {
      OccupiedPlusVacant(records[..|records| - 1], s);
    }
  }

  /** The capacity table: per structure, total_spots, occupied and
      vacant = total_spots - occupied (line 181). */
  function CapacityTable(records: seq<Record>): (table: map<string, Summary>)
    ensures table.Keys == Structures(records)
    ensures forall s :: s in table ==>
              table[s].total == CountIn(records, s) &&
              table[s].occupied == OccupiedIn(records, s) &&
              table[s].vacant == table[s].total - table[s].occupied
  {
    var t := Tally(records);
    map s | s in t :: Summary(t[s].size, t[s].occupied, t[s].size - t[s].occupied)
  }

  /** Every row of the capacity table describes a structure with at least one
      spot, no more occupied spots than spots, and a vacant count that is
      exactly the number of its rows classified vacant. */
  lemma CapacityRowsSound(records: seq<Record>, s: string)
    requires s in CapacityTable(records)
    ensures var row := CapacityTable(records)[s];
            row.total > 0 && row.occupied <= row.total && row.vacant >= 0 &&
            row.vacant == VacantIn(records, s)
  {
    CountInside(records, s);
    OccupiedPlusVacant(records, s);
  }

  /** pct_full before rounding: occupied / total_spots * 100 (line 182). */
  function PctFull(row: Summary): (pct: real)
    requires row.total > 0 && row.occupied <= row.total
    ensures 0.0 <= pct <= 100.0
    ensures pct == 0.0 <==> row.occupied == 0
    ensures pct == 100.0 <==> row.occupied == row.total
  {
    var p := row.occupied as real / row.total as real * 100.0;
    assert row.occupied as real <= row.total as real;
    FractionBounds(row.occupied as real, row.total as real);
    p
  }

  /** A ratio of a part to its positive whole lies in [0, 1], and reaches the
      ends exactly for an empty and a full part. */
  lemma FractionBounds(part: real, whole: real)
    requires whole > 0.0 && 0.0 <= part <= whole
    ensures 0.0 <= part / whole * 100.0 <= 100.0
    ensures part / whole * 100.0 == 0.0 <==> part == 0.0
    ensures part / whole * 100.0 == 100.0 <==> part == whole
  {
    var q := part / whole;
    assert q * whole == part;
  }

  /** Five rows of one structure of which two are occupied give the row
      (5, 2, 3) and 40 percent full. */
  lemma FiveSpotsTwoOccupied(g: string)
    ensures var occ, vac := Record(g, Occupied), Record(g, Vacant);
            var recs := [occ, vac, vac, occ, vac];
            CapacityTable(recs)[g] == Summary(5, 2, 3) &&
            PctFull(CapacityTable(recs)[g]) == 40.0
  {
    var occ, vac := Record(g, Occupied), Record(g, Vacant);
    var r1 := [occ];
    var r2 := r1 + [vac];
    var r3 := r2 + [vac];
    var r4 := r3 + [occ];
    var r5 := r4 + [vac];
    assert r1[..0] == [];
    assert CountIn(r1, g) == 1 && OccupiedIn(r1, g) == 1;
    assert r2[..1] == r1;
    assert CountIn(r2, g) == 2 && OccupiedIn(r2, g) == 1;
    assert r3[..2] == r2;
    assert CountIn(r3, g) == 3 && OccupiedIn(r3, g) == 1;
    assert r4[..3] == r3;
    assert CountIn(r4, g) == 4 && OccupiedIn(r4, g) == 2;
    assert r5[..4] == r4;
    assert CountIn(r5, g) == 5 && OccupiedIn(r5, g) == 2;
    assert g in Structures(r5) by {
      assert r5[0] in r5;
    }
    assert r5 == [occ, vac, vac, occ, vac];
  }

  /** The same example from the raw states: "OCCUPIED" twice and "VACANT"
      three times. */
  lemma FiveSpotsExample(g: string)
    ensures var occ, vac := Normalised(g, Text("OCCUPIED")), Normalised(g, Text("VACANT"));
            CapacityTable([occ, vac, vac, occ, vac])[g] == Summary(5, 2, 3)
  {
    OccupiedExamples();
    UpperCaseIsVacant();
    FiveSpotsTwoOccupied(g);
  }
}
