# Smart parking map: placement, partition and occupancy core

This project models the computational core of `smart_parking_map.py` in Dafny
and proves properties of it. The script draws two parking datasets (LADOT meter
occupancy and IoT sensors) on a map around the parking structures of a campus.
Its core is:

- **Grid placement** (`generate_fake_coordinates`, module `Grid`). The i-th
  identifier of a chunk of n goes to row `i // per_row` and column
  `i % per_row` of a grid with `ceil(n / per_row)` rows. The full frame of
  rows by `per_row` columns is centred on the structure's reference point. A
  short last row is filled from column 0, so the points themselves are not
  symmetric: a lone identifier sits 7 half spacings west of the point.
- **Partition** (`assign_coords_to_clusters`, module `Partition`). With n
  identifiers and k structures, `chunk_size = ceil(n / k)`. Structures are
  taken in configuration order, and each receives the next `chunk_size`
  identifiers. The walk stops at the first empty chunk, so the split is
  front-loaded: 10 identifiers over 8 structures give 2,2,2,2,2,0,0,0.
- **Row annotation** (module `Placement`). The distinct identifiers of a
  dataset, in order of first appearance, are partitioned. Each row then looks
  up its coordinate (a missing key raises) and its structure (a missing key
  falls back to "Unknown").
- **Occupancy classification** (module `Occupancy`). A LADOT `OccupancyState`
  is handled in this order:
  1. NaN becomes "UNKNOWN".
  2. The text is upper-cased and stripped.
  3. It is vacant exactly when it equals "VACANT".

  The map markers use a slightly different rule on the same column: upper-case
  only, no strip, and NaN prints as "nan". An IoT proximity reading is vacant
  exactly when it equals 0. An absent column reads as 1, and NaN is never
  equal to 0.
- **Capacity table** (module `Capacity`). LADOT rows are grouped by structure.
  For each structure the table gives:
  - `total_spots`, the number of rows;
  - `occupied`;
  - `vacant = total_spots - occupied`;
  - `pct_full = occupied / total_spots * 100`.

The generator and the partitioner are imperative methods with loop invariants.
The generator is proved against the function `GridPoint`, and the partitioner
against the function `PlacementAt`. The
classifiers and the roll-up are functions, and lemmas relate each of them to an
independent characterisation.

## Model

| member | source | states |
|---|---|---|
| Grid.CeilDiv | smart_parking_map.py:58-59 | `math.ceil(n / d)`: the result r satisfies n <= r*d < n+d, and r is 0 exactly when n is 0 |
| Grid.NumRows | smart_parking_map.py:59 | definition of `num_rows = math.ceil(n / per_row)` through CeilDiv, whose contract pins it down |
| Grid.GridPoint | smart_parking_map.py:62-71 | definition of the coordinate of position i: base plus (row - row_center) * spacing and (col - col_center) * spacing; its properties are the lemmas below |
| Grid.GridPointHalfSteps | smart_parking_map.py:61-71 | a grid point is the base point moved by (2*row - (rows-1)) and (2*col - (per_row-1)) half spacings: the frame of rows by per_row columns is centred on the base |
| Grid.CellInGrid | smart_parking_map.py:58-68 | every position of a chunk lands in a column below per_row and a row below the row count; both offsets lie within the grid's half-extent |
| Grid.CellsDistinct | smart_parking_map.py:66-68 | distinct positions get distinct (row, col) cells |
| Grid.GridPointsDistinct | smart_parking_map.py:66-73 | with a non-zero spacing, no two positions of one chunk share a coordinate |
| Grid.ColumnsMirror | smart_parking_map.py:61-71 | columns c and per_row-1-c lie at opposite longitude offsets from the base |
| Grid.RowsMirror | smart_parking_map.py:58-70 | rows r and rows-1-r lie at opposite latitude offsets from the base |
| Grid.SingleRowIsFlat | smart_parking_map.py:58-70 | a chunk of at most per_row identifiers lies on the base latitude |
| Grid.EightOnOneRow | smart_parking_map.py:41-71 | with PER_ROW = 8 and eight identifiers, every grid point lies on the base latitude, and their longitudes are -7, -5, ..., 7 half spacings from the base longitude |
| Grid.ShortLastRowLeansWest | smart_parking_map.py:59-71 | a last row holding at most half a row's identifiers is filled from column 0, so all of its points lie west of the reference point: the frame is centred, not the points |
| Grid.SmallChunksLeanWest | smart_parking_map.py:41-71 | with PER_ROW = 8, a lone identifier sits 7 half spacings west of the reference point, and both identifiers of a chunk of two lie west of it |
| Grid.GenerateFakeCoordinates | smart_parking_map.py:48-75 | empty input gives the empty map; the keys are exactly the identifiers; each identifier holds the grid point of its last position (later duplicates overwrite) |
| Partition.ChunkSize | smart_parking_map.py:88 | definition of `chunk_size = math.ceil(n / k)` through CeilDiv; its properties are PositionInChunk and FrontLoaded |
| Partition.Chunk | smart_parking_map.py:92 | definition of the slice `ids[idx:idx + chunk_size]` of structure j, clipped to the list; its properties are ChunkMembership, FrontLoaded and PartitionCovers |
| Partition.PlacementAt | smart_parking_map.py:91-106 | definition of the coordinate and name position i receives: the grid point of its offset in its chunk around its chunk's structure; its properties are PlacementInChunk and PlacementNamesACluster |
| Partition.PositionInChunk | smart_parking_map.py:88-92 | position i lies in chunk i // chunk_size < k, at offset i % chunk_size |
| Partition.ChunkMembership | smart_parking_map.py:91-92 | position i belongs to the slice ids[j*cs : j*cs+cs] exactly when i // cs == j |
| Partition.FrontLoaded | smart_parking_map.py:84-107 | at most k structures are used; structure j gets a non-empty chunk exactly when j is below the used count; every used chunk but the last is full |
| Partition.TenOverEight | smart_parking_map.py:88-94 | 10 identifiers over 8 structures give chunk sizes 2,2,2,2,2,0,0,0 |
| Partition.ConcatChunksPrefix | smart_parking_map.py:91-107 | the chunks of the first m structures, concatenated, are exactly the first m*cs identifiers in order |
| Partition.PartitionCovers | smart_parking_map.py:88-107 | the chunks of all k structures, concatenated in order, are the whole identifier list |
| Partition.PlacementInChunk | smart_parking_map.py:91-106 | offset t of chunk j is placed at grid offset t around structure j, in a grid sized by that chunk, and named after structure j |
| Partition.AssignCoordsToClusters | smart_parking_map.py:77-109 | no identifiers or no structures give two empty maps; otherwise both maps have exactly the identifiers as keys, and each identifier holds the coordinate and name of its last position's placement |
| Partition.NameChunk | smart_parking_map.py:105-106 | every identifier of the chunk maps to the structure's name; every other entry is unchanged |
| Partition.ChunkStep | smart_parking_map.py:91-107 | one turn of the structure loop extends the placement invariant from ids[..j*cs] to the end of chunk j |
| Partition.ChunkPlaced | smart_parking_map.py:96-106 | a position inside chunk j gets from that chunk's grid the coordinate of its placement, and the name of structure j |
| Placement.Unique | smart_parking_map.py:136 | `unique()`: no duplicates, every value of the column occurs, and nothing else occurs |
| Placement.UniqueFirstAppearance | smart_parking_map.py:136 | `unique()` keeps the order of first appearance: of two returned values, the earlier one first occurs earlier in the column |
| Placement.UniqueOfDistinct | smart_parking_map.py:136 | a column without duplicates comes back unchanged |
| Placement.StructureOf | smart_parking_map.py:146 | definition of `cluster_map.get(x, "Unknown")`; what the lookup yields per row is stated by Annotate and PlaceRows |
| Placement.Annotate | smart_parking_map.py:143-146 | None exactly when some row's identifier has no coordinate (the KeyError); otherwise one entry per row with its coordinate and its structure or "Unknown" |
| Placement.PlaceRows | smart_parking_map.py:136-146 | the lookup fails exactly when no structures are configured and there are rows; otherwise each row gets the placement of its identifier's first-appearance position, and a configured structure name |
| Placement.RowLookup | smart_parking_map.py:143-146 | one row's lookups return the placement of its identifier's position among the distinct identifiers |
| Placement.PlacementNamesACluster | smart_parking_map.py:105-106 | every placement names one of the configured structures |
| Occupancy.Upper | smart_parking_map.py:166 | definition of `str.upper()` character by character (also line 309); its properties are UpperSpaces, UpperConcat and StripUpperCommute |
| Occupancy.Strip | smart_parking_map.py:167 | definition of `str.strip()` as rstrip after lstrip; its properties are StripLeadingShape, StripTrailingShape, StripPadded and StripUpperCommute |
| Occupancy.StripLeadingShape | smart_parking_map.py:167 | lstrip removes a whitespace prefix and stops at the first non-whitespace character |
| Occupancy.StripTrailingShape | smart_parking_map.py:167 | rstrip removes a whitespace suffix and stops at the last non-whitespace character |
| Occupancy.StripPadded | smart_parking_map.py:167 | strip undoes any whitespace padding around a text without surrounding whitespace |
| Occupancy.StripUpperCommute | smart_parking_map.py:166-167 | upper-casing then stripping equals stripping then upper-casing |
| Occupancy.NormalizeText | smart_parking_map.py:163-167 | definition of the normalised state: NaN becomes "UNKNOWN", then upper, then strip; MissingNormalizesToUnknown and StripUpperCommute state its properties |
| Occupancy.ClassifyText | smart_parking_map.py:168 | definition of the OccNormalized classification; ClassifyTextCharacterised states what it decides |
| Occupancy.ClassifyTextCharacterised | smart_parking_map.py:162-169 | a state is vacant exactly when it is text whose stripped, upper-cased form is "VACANT"; NaN is never vacant |
| Occupancy.MissingNormalizesToUnknown | smart_parking_map.py:163-167 | NaN normalises to "UNKNOWN" |
| Occupancy.PaddedVacant | smart_parking_map.py:162-169 | any whitespace-padded spelling of "vacant", in any letter case, is vacant |
| Occupancy.UnpaddedVacant | smart_parking_map.py:162-169 | a text that upper-cases to "VACANT" is vacant |
| Occupancy.LowerCaseIsVacant | smart_parking_map.py:162-169 | "vacant" is vacant |
| Occupancy.UpperCaseIsVacant | smart_parking_map.py:162-169 | "VACANT" is vacant |
| Occupancy.PaddedUpperCaseIsVacant | smart_parking_map.py:162-169 | " VACANT " is vacant |
| Occupancy.CapitalisedIsVacant | smart_parking_map.py:162-169 | "Vacant" is vacant |
| Occupancy.OccupiedExamples | smart_parking_map.py:162-169 | "OCCUPIED", "UNKNOWN" and NaN are occupied |
| Occupancy.MarkerLabel | smart_parking_map.py:309 | definition of `str(cell).upper()`, with NaN printing as "nan"; its properties are stated through MarkerStatus |
| Occupancy.MarkerStatus | smart_parking_map.py:309-310 | green exactly for a text cell that upper-cases to "VACANT", with no stripping; a NaN cell (label "NAN") is never green |
| Occupancy.MarkerAgreesWithCapacity | smart_parking_map.py:309-310 | a green marker is always counted vacant in the table; the two rules agree on NaN and on every text without surrounding whitespace |
| Occupancy.MarkerIgnoresPadding | smart_parking_map.py:309-310 | the rules differ on " VACANT ": vacant in the table, red on the map |
| Occupancy.ClassifyProximity | smart_parking_map.py:348-349 | vacant exactly for a reading equal to 0; an absent column and a NaN reading are occupied |
| Capacity.Normalised | smart_parking_map.py:162-169 | the OccNormalized status of a row is Vacant exactly when its state is text that strips and upper-cases to "VACANT" |
| Capacity.CountIn | smart_parking_map.py:175 | definition of the `"size"` aggregate: the number of rows of a structure; its properties are Tally, CapacityTable, CountInside, CountOutside and OccupiedPlusVacant |
| Capacity.OccupiedMark | smart_parking_map.py:176 | definition of one row's contribution to `(s == "OCCUPIED").sum()` |
| Capacity.OccupiedIn | smart_parking_map.py:176 | definition of `(s == "OCCUPIED").sum()` over a structure's rows; its properties are Tally, CapacityTable and OccupiedPlusVacant |
| Capacity.Tally | smart_parking_map.py:172-179 | the row-by-row grouping has a group for exactly the structures that occur, each holding that structure's row count and occupied count |
| Capacity.TallyStep | smart_parking_map.py:172-179 | counting one more row keeps the grouping equal to the per-structure counts |
| Capacity.CountOutside | smart_parking_map.py:172-179 | a structure that does not occur has no rows and no occupied rows |
| Capacity.CountInside | smart_parking_map.py:172-175 | a structure that occurs has at least one row, so no group has total_spots = 0 |
| Capacity.OccupiedPlusVacant | smart_parking_map.py:176-181 | per structure, occupied rows plus vacant rows equal all rows |
| Capacity.CapacityTable | smart_parking_map.py:172-181 | one row per occurring structure with total_spots = its row count, occupied = its occupied count, vacant = total_spots - occupied |
| Capacity.CapacityRowsSound | smart_parking_map.py:172-181 | every table row has total_spots > 0 and occupied <= total_spots; vacant >= 0 and equals the number of rows classified vacant |
| Capacity.PctFull | smart_parking_map.py:182 | pct_full lies in [0, 100]; it is 0 exactly when nothing is occupied and 100 exactly when everything is |
| Capacity.FiveSpotsTwoOccupied | smart_parking_map.py:172-182 | five rows of one structure with two occupied give (5, 2, 3) and 40 percent |
| Capacity.FiveSpotsExample | smart_parking_map.py:162-181 | the same from raw states "OCCUPIED" x2 and "VACANT" x3 |

## Left out

- CSV reading, `head(150)`, the printed diagnostics and the saved HTML file are I/O and are not modelled. The map, the markers' popups, the overlay HTML and the reservation JavaScript (folium) are presentation and are not modelled either. Their inputs are parameters of the model: the identifier column, the structure list and the state cells.
- Coordinates are exact reals. IEEE float rounding of `base + (row - center) * spacing` is not modelled.
- Capacity.PctFull: the exact ratio; the rounding to one decimal (`round(1)`) is not modelled.
- Capacity.CapacityTable: a map from structure to row, so the row order is not asserted. pandas `groupby` sorts its keys by default; the model leaves order open.
- Occupancy.Upper: only ASCII letters are upper-cased. Python's full Unicode case mapping, including mappings that change the length, is not modelled. Whitespace for strip follows Python's `str.isspace` exactly.
- A `per_row` of 0 raises ZeroDivisionError in the source. Grid.GenerateFakeCoordinates, Partition.AssignCoordsToClusters and Placement.PlaceRows instead require a positive row width whenever there is something to place.
- The structure configuration is a dict, so its names are unique. The model's `seq<Cluster>` also admits repeated names, which is a superset of the source's inputs.
- `str(cell)` is modelled only for text and NaN cells. Numeric or other non-text OccupancyState values are not modelled. The marker rule's default "UNKNOWN" for an absent column is not modelled either, because the normalisation step at line 163 already needs the column.
- Proximity readings are modelled as NaN or a number. A string such as "0" (which compares unequal to 0) is not modelled.
- Placement.Unique: NaN identifiers are not modelled. pandas treats all NaN values as one unique value, while Python's `NaN != NaN` would break the dictionary lookups.
