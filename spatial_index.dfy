/** The spatial index over the mountain list: an exact-coordinate table
    (the last mountain written at a position wins) and a uniform grid of
    square cells `gridSize` degrees wide, each cell listing its mountains in
    input order. The index is filled once, in the constructor, and never
    changed afterwards, so its tables are `const` fields.

    The exact table is keyed by the coordinate pair itself; the source keys
    it by the string `"lat,lon"`, which `Coordinates.ToStringInjective`
    shows to be the same key whenever the number format is injective. The
    grid is keyed by the source's own string `"cellLat,cellLon"`, whose
    integers are printed exactly. */
module SpatialIndexing {
  import opened Wrappers
  import opened Seqs
  import Strings

  /** A mountain record; `lat`/`lon` may be missing in the loaded data. */
  datatype MountainData = MountainData(
    mid: string,
    name: string,
    lat: Option<real>,
    lon: Option<real>,
    placeId: Option<string>,
    subname: Option<string>)

  /** The filter of `buildIndex`: both coordinates are present. */
  predicate HasCoordinates(m: MountainData) {
    m.lat.Some? && m.lon.Some?
  }

  /** The mountain sits exactly at `(lat, lon)`. */
  predicate At(m: MountainData, lat: real, lon: real) {
    m.lat == Some(lat) && m.lon == Some(lon)
  }

  // ----- grid cells and their keys -----

  type Cell = (int, int)

  /** `(Math.floor(lat / gridSize), Math.floor(lon / gridSize))`. */
  function CellOf(lat: real, lon: real, gridSize: real): Cell
    requires gridSize > 0.0
  {
    ((lat / gridSize).Floor, (lon / gridSize).Floor)
  }

  /** `getGridKey`: the two cell numbers printed in decimal, joined by a comma. */
  function GridKey(c: Cell): string {
    Strings.IntToDecimal(c.0) + "," + Strings.IntToDecimal(c.1)
  }

  /** `centerGridKey.split(',')`: the two printed cell numbers. */
  lemma GridKeySplits(c: Cell)
    ensures Strings.Split(GridKey(c), ",") == [Strings.IntToDecimal(c.0), Strings.IntToDecimal(c.1)]
  {
    var parts := [Strings.IntToDecimal(c.0), Strings.IntToDecimal(c.1)];
    forall i | 0 <= i < |parts| ensures ',' !in parts[i] {
      if ',' in parts[i] {
        var k :| 0 <= k < |parts[i]| && parts[i][k] == ',';
      }
    }
    assert Strings.Join(parts, ",") == GridKey(c);
    Strings.SplitJoin(parts, ',');
  }

  /** `key.split(',').map(Number)` read as a cell: the two halves of a
      two-part key, when both are integers. */
  function ParseGridKey(key: string): Option<Cell> {
    var parts := Strings.Split(key, ",");
    if |parts| == 2 && Strings.ParseInt(parts[0]).Some? && Strings.ParseInt(parts[1]).Some? then
      Some((Strings.ParseInt(parts[0]).value, Strings.ParseInt(parts[1]).value))
    else None
  }

  /** Splitting a grid key at the comma and parsing both halves with
      `Number` gives back the cell it was built from. */
  lemma GridKeyRoundTrip(c: Cell)
    ensures ParseGridKey(GridKey(c)) == Some(c)
  {
    GridKeySplits(c);
    Strings.DecimalRoundTrip(c.0);
    Strings.DecimalRoundTrip(c.1);
  }

  /** The first two statements of `getNearbyMountains`: the query's grid
      key, split at the comma and parsed back into the cell numbers. */
  method CenterCell(lat: real, lon: real, gridSize: real) returns (centerLat: int, centerLon: int)
    requires gridSize > 0.0
    ensures (centerLat, centerLon) == CellOf(lat, lon, gridSize)
  {
    var centerGridKey := GridKey(CellOf(lat, lon, gridSize));
    GridKeyRoundTrip(CellOf(lat, lon, gridSize));
    var center := ParseGridKey(centerGridKey).value;
    centerLat, centerLon := center.0, center.1;
  }

  /** Distinct cells have distinct keys, so the grid may as well be keyed
      by the cell itself. */
  lemma GridKeyInjective(a: Cell, b: Cell)
    requires GridKey(a) == GridKey(b)
    ensures a == b
  {
    GridKeyRoundTrip(a);
    GridKeyRoundTrip(b);
  }

  /** The mountains of a cell; a missing cell has none. */
  function CellContents(grid: map<Cell, seq<MountainData>>, key: Cell): seq<MountainData> {
    if key in grid then grid[key] else []
  }

  predicate InCell(m: MountainData, gridSize: real, c: Cell) {
    gridSize > 0.0 && HasCoordinates(m) && CellOf(m.lat.value, m.lon.value, gridSize) == c
  }

  function CellFilter(gridSize: real, c: Cell): MountainData -> bool {
    m => InCell(m, gridSize, c)
  }

  // ----- the two tables, as the constructor's loop leaves them -----

  /** The exact-coordinate table after inserting `ms` in order. */
  function ExactTable(ms: seq<MountainData>): map<(real, real), MountainData>
    decreases |ms|
  {
    if ms == [] then map[]
    else
      var table := ExactTable(ms[..|ms| - 1]);
      var m := ms[|ms| - 1];
      if HasCoordinates(m) then table[(m.lat.value, m.lon.value) := m] else table
  }

  /** The grid after inserting `ms` in order: a missing cell is created
      empty, then the mountain is appended to it. */
  function GridTable(ms: seq<MountainData>, gridSize: real): map<Cell, seq<MountainData>>
    requires gridSize > 0.0
    decreases |ms|
  {
    if ms == [] then map[]
    else
      var grid := GridTable(ms[..|ms| - 1], gridSize);
      var m := ms[|ms| - 1];
      if HasCoordinates(m) then
        var key := CellOf(m.lat.value, m.lon.value, gridSize);
        grid[key := CellContents(grid, key) + [m]]
      else grid
  }

  /** A position is in the exact table iff some mountain sits there, and it
      then maps to the last such mountain of the input. */
  lemma {:induction false} ExactTableSpec(ms: seq<MountainData>, lat: real, lon: real)
    ensures (lat, lon) in ExactTable(ms) <==> exists i :: 0 <= i < |ms| && At(ms[i], lat, lon)
    ensures (lat, lon) in ExactTable(ms) ==>
      exists i :: 0 <= i < |ms| && ms[i] == ExactTable(ms)[(lat, lon)] && At(ms[i], lat, lon) &&
        forall j :: i < j < |ms| ==> !At(ms[j], lat, lon)
    decreases |ms|
  {
    if ms != [] {
      var n := |ms| - 1;
      var init := ms[..n];
      ExactTableSpec(init, lat, lon);
      assert forall i :: 0 <= i < n ==> init[i] == ms[i];
      if (lat, lon) in ExactTable(ms) && !At(ms[n], lat, lon) {
        var i :| 0 <= i < n && init[i] == ExactTable(init)[(lat, lon)] && At(init[i], lat, lon) &&
          forall j :: i < j < n ==> !At(init[j], lat, lon);
        assert ms[i] == ExactTable(ms)[(lat, lon)];
      }
    }
  }

  /** Each mountain is listed in its own cell and nowhere else: the cell
      under a key holds exactly the input mountains of that cell, in input
      order, and a key is present iff that list is non-empty. */
  lemma {:induction false} GridTableSpec(ms: seq<MountainData>, gridSize: real, c: Cell)
    requires gridSize > 0.0
    ensures CellContents(GridTable(ms, gridSize), c) == Filter(ms, CellFilter(gridSize, c))
    ensures c in GridTable(ms, gridSize) <==> Filter(ms, CellFilter(gridSize, c)) != []
    decreases |ms|
  {
    if ms != [] {
      var n := |ms| - 1;
      var m := ms[n];
      GridTableSpec(ms[..n], gridSize, c);
      assert ms == ms[..n] + [m];
      FilterConcat(ms[..n], [m], CellFilter(gridSize, c));
    }
  }

  /** Mountains without coordinates leave both tables untouched. */
  lemma TablesIgnoreUnlocated(ms: seq<MountainData>, gridSize: real)
    requires gridSize > 0.0
    ensures ExactTable(Filter(ms, HasCoordinates)) == ExactTable(ms)
    ensures GridTable(Filter(ms, HasCoordinates), gridSize) == GridTable(ms, gridSize)
  {
    ExactIgnoresUnlocated(ms);
    GridIgnoresUnlocated(ms, gridSize);
  }

  lemma {:induction false} ExactIgnoresUnlocated(ms: seq<MountainData>)
    ensures ExactTable(Filter(ms, HasCoordinates)) == ExactTable(ms)
    decreases |ms|
  {
    if ms != [] {
      var n := |ms| - 1;
      ExactIgnoresUnlocated(ms[..n]);
      if HasCoordinates(ms[n]) {
        ExactStepLocated(ms);
      } else {
        ExactStepUnlocated(ms);
      }
    }
  }
  lemma ExactStepUnlocated(ms: seq<MountainData>)
    requires ms != []
    requires !HasCoordinates(ms[|ms|-1])
    requires ExactTable(Filter(ms[..|ms|-1], HasCoordinates)) == ExactTable(ms[..|ms|-1])
    ensures ExactTable(Filter(ms, HasCoordinates)) == ExactTable(ms)
  {
      var n := |ms| - 1;
      var init, m := ms[..n], ms[n];
      var kept := Filter(ms, HasCoordinates);
      assert kept == Filter(init, HasCoordinates) by {
        assert ms == init + [m];
        FilterSnoc(init, m, HasCoordinates);
      }
      assert ExactTable(ms) == ExactTable(init);
  }
  lemma ExactStepLocated(ms: seq<MountainData>)
    requires ms != []
    requires HasCoordinates(ms[|ms|-1])
    requires ExactTable(Filter(ms[..|ms|-1], HasCoordinates)) == ExactTable(ms[..|ms|-1])
    ensures ExactTable(Filter(ms, HasCoordinates)) == ExactTable(ms)
  {
      var n := |ms| - 1;
      var init, m := ms[..n], ms[n];
      var kept := Filter(ms, HasCoordinates);
      assert kept == Filter(init, HasCoordinates) + [m] by {
        assert ms == init + [m];
        FilterSnoc(init, m, HasCoordinates);
      }
      assert kept[..|kept| - 1] == Filter(init, HasCoordinates);
      assert ExactTable(ms) == ExactTable(init)[(m.lat.value, m.lon.value) := m];
  }

  lemma {:induction false} GridIgnoresUnlocated(ms: seq<MountainData>, gridSize: real)
    requires gridSize > 0.0
    ensures GridTable(Filter(ms, HasCoordinates), gridSize) == GridTable(ms, gridSize)
    decreases |ms|
  {
    if ms != [] {
      var n := |ms| - 1;
      GridIgnoresUnlocated(ms[..n], gridSize);
      if HasCoordinates(ms[n]) {
        GridStepLocated(ms, gridSize);
      } else {
        GridStepUnlocated(ms, gridSize);
      }
    }
  }

  lemma GridStepUnlocated(ms: seq<MountainData>, gridSize: real)
    requires gridSize > 0.0 && ms != [] && !HasCoordinates(ms[|ms| - 1])
    requires GridTable(Filter(ms[..|ms| - 1], HasCoordinates), gridSize) == GridTable(ms[..|ms| - 1], gridSize)
    ensures GridTable(Filter(ms, HasCoordinates), gridSize) == GridTable(ms, gridSize)
  {
    var n := |ms| - 1;
    var init, m := ms[..n], ms[n];
    assert Filter(ms, HasCoordinates) == Filter(init, HasCoordinates) by {
      assert ms == init + [m];
      FilterSnoc(init, m, HasCoordinates);
    }
    assert GridTable(ms, gridSize) == GridTable(init, gridSize);
  }

  lemma GridStepLocated(ms: seq<MountainData>, gridSize: real)
    requires gridSize > 0.0 && ms != [] && HasCoordinates(ms[|ms| - 1])
    requires GridTable(Filter(ms[..|ms| - 1], HasCoordinates), gridSize) == GridTable(ms[..|ms| - 1], gridSize)
    ensures GridTable(Filter(ms, HasCoordinates), gridSize) == GridTable(ms, gridSize)
  {
    var n := |ms| - 1;
    var init, m := ms[..n], ms[n];
    var kept := Filter(ms, HasCoordinates);
    assert kept == Filter(init, HasCoordinates) + [m] by {
      assert ms == init + [m];
      FilterSnoc(init, m, HasCoordinates);
    }
    assert kept[..|kept| - 1] == Filter(init, HasCoordinates);
  }

  /** Filtering a sequence that ends in `x`. */
  lemma FilterSnoc<T>(init: seq<T>, x: T, f: T -> bool)
    ensures Filter(init + [x], f) == Filter(init, f) + (if f(x) then [x] else [])
  {
    FilterConcat(init, [x], f);
    assert Filter([x], f) == (if f(x) then [x] else []) + Filter([], f);
  }

  // ----- the 3×3 neighbourhood -----

  /** The cells the nested loops of `getNearbyMountains` have visited
      after `rows` full rows and `cols` cells of the next one: row offset
      outer, column offset inner, each from -1 to 1. */
  function BlockPrefix(c: Cell, rows: nat, cols: nat): seq<Cell>
    decreases rows, cols
  {
    if cols == 0 then (if rows == 0 then [] else BlockPrefix(c, rows - 1, 3))
    else BlockPrefix(c, rows, cols - 1) + [(c.0 + rows - 1, c.1 + cols - 2)]
  }

  /** The nine cells around `c`, in the order of the nested loops. */
  function BlockCells(c: Cell): (cells: seq<Cell>)
    ensures |cells| == 9 && NoDuplicates(cells)
    ensures forall x: Cell :: x in cells <==> -1 <= x.0 - c.0 <= 1 && -1 <= x.1 - c.1 <= 1
  {
    BlockPrefixLength(c, 3, 0);
    BlockPrefixMembers(c, 3, 0);
    BlockPrefixDistinct(c, 3, 0);
    BlockPrefix(c, 3, 0)
  }

  /** The loops have visited three cells per finished row plus `cols`. */
  lemma {:induction false} BlockPrefixLength(c: Cell, rows: nat, cols: nat)
    ensures |BlockPrefix(c, rows, cols)| == 3 * rows + cols
    decreases rows, cols
  {
    if cols == 0 {
      if rows > 0 {
        BlockPrefixLength(c, rows - 1, 3);
      }
    } else {
      BlockPrefixLength(c, rows, cols - 1);
    }
  }

  /** The visited cells are those of the rows already finished plus the
      first `cols` cells of the current row. */
  lemma {:induction false} BlockPrefixMembers(c: Cell, rows: nat, cols: nat)
    requires cols <= 3
    ensures forall x: Cell :: x in BlockPrefix(c, rows, cols) <==>
      -1 <= x.1 - c.1 <= 1 &&
      (-1 <= x.0 - c.0 < rows - 1 || (x.0 - c.0 == rows - 1 && x.1 - c.1 < cols - 1))
    decreases rows, cols
  {
    if cols == 0 {
      if rows > 0 {
        BlockPrefixMembers(c, rows - 1, 3);
      }
    } else {
      BlockPrefixMembers(c, rows, cols - 1);
    }
  }

  /** No cell is visited twice. */
  lemma {:induction false} BlockPrefixDistinct(c: Cell, rows: nat, cols: nat)
    requires cols <= 3
    ensures NoDuplicates(BlockPrefix(c, rows, cols))
    decreases rows, cols
  {
    if cols == 0 {
      if rows > 0 {
        BlockPrefixDistinct(c, rows - 1, 3);
      }
    } else {
      BlockPrefixDistinct(c, rows, cols - 1);
      BlockPrefixMembers(c, rows, cols - 1);
      var prefix := BlockPrefix(c, rows, cols - 1);
      var x := (c.0 + rows - 1, c.1 + cols - 2);
      assert x !in prefix;
      forall i, j | 0 <= i < j < |prefix| + 1 ensures (prefix + [x])[i] != (prefix + [x])[j] {
        if j == |prefix| {
          assert (prefix + [x])[i] == prefix[i];
        }
      }
    }
  }

  /** The concatenation of the cells' lists, in the order of `cells`. */
  function Gather(grid: map<Cell, seq<MountainData>>, cells: seq<Cell>): seq<MountainData>
    decreases |cells|
  {
    if cells == [] then []
    else Gather(grid, cells[..|cells| - 1]) + CellContents(grid, cells[|cells| - 1])
  }

  /** What the nested loops have appended after `rows` full rows and `cols`
      cells of the next one. */
  function Visited(grid: map<Cell, seq<MountainData>>, c: Cell, rows: nat, cols: nat): seq<MountainData>
    decreases rows, cols
  {
    if cols == 0 then (if rows == 0 then [] else Visited(grid, c, rows - 1, 3))
    else Visited(grid, c, rows, cols - 1) + CellContents(grid, (c.0 + rows - 1, c.1 + cols - 2))
  }

  /** The loops append exactly the lists of the cells they visit, in order. */
  lemma {:induction false} VisitedIsGather(grid: map<Cell, seq<MountainData>>, c: Cell, rows: nat, cols: nat)
    ensures Visited(grid, c, rows, cols) == Gather(grid, BlockPrefix(c, rows, cols))
    decreases rows, cols
  {
    if cols == 0 {
      if rows > 0 {
        VisitedIsGather(grid, c, rows - 1, 3);
      }
    } else {
      VisitedIsGather(grid, c, rows, cols - 1);
      var prefix := BlockPrefix(c, rows, cols - 1);
      var cells := prefix + [(c.0 + rows - 1, c.1 + cols - 2)];
      assert cells[..|cells| - 1] == prefix;
    }
  }

  predicate InCells(m: MountainData, gridSize: real, cells: seq<Cell>) {
    gridSize > 0.0 && HasCoordinates(m) && CellOf(m.lat.value, m.lon.value, gridSize) in cells
  }

  function CellsFilter(gridSize: real, cells: seq<Cell>): MountainData -> bool {
    m => InCells(m, gridSize, cells)
  }

  /** The mountain's cell is at most one row and one column from `c`. */
  predicate InBlock(m: MountainData, gridSize: real, c: Cell) {
    gridSize > 0.0 && HasCoordinates(m) &&
    var mc := CellOf(m.lat.value, m.lon.value, gridSize);
    -1 <= mc.0 - c.0 <= 1 && -1 <= mc.1 - c.1 <= 1
  }

  function BlockFilter(gridSize: real, c: Cell): MountainData -> bool {
    m => InBlock(m, gridSize, c)
  }

  /** Some mountain of `all` lies at the position `k`. */
  predicate Covers(all: seq<MountainData>, k: (real, real)) {
    exists j :: 0 <= j < |all| && At(all[j], k.0, k.1)
  }

  /** What the listing of an exact table holds while the positions in
      `pending` are still to be visited: the table's mountain of every
      visited position, once each, and nothing else. */
  predicate Listing(table: map<(real, real), MountainData>, pending: set<(real, real)>, all: seq<MountainData>) {
    && (forall i :: 0 <= i < |all| ==>
          HasCoordinates(all[i]) &&
          var k := (all[i].lat.value, all[i].lon.value);
          k in table && k !in pending && table[k] == all[i])
    && (forall i, j :: 0 <= i < j < |all| ==> (all[i].lat, all[i].lon) != (all[j].lat, all[j].lon))
    && (forall k :: k in table && k !in pending ==> Covers(all, k))
  }

  lemma ListingStep(table: map<(real, real), MountainData>, pending: set<(real, real)>, all: seq<MountainData>, k: (real, real))
    requires forall k :: k in table ==> At(table[k], k.0, k.1)
    requires Listing(table, pending, all) && k in pending && pending <= table.Keys
    ensures Listing(table, pending - {k}, all + [table[k]])
  {
    var next := all + [table[k]];
    var rest := pending - {k};
    forall i | 0 <= i < |next|
      ensures HasCoordinates(next[i]) &&
        var k' := (next[i].lat.value, next[i].lon.value);
        k' in table && k' !in rest && table[k'] == next[i]
    {
      if i < |all| {
        assert next[i] == all[i];
      }
    }
    forall i, j | 0 <= i < j < |next| ensures (next[i].lat, next[i].lon) != (next[j].lat, next[j].lon) {
      assert next[i] == all[i];
      if j < |all| {
        assert next[j] == all[j];
      }
    }
    forall k' | k' in table && k' !in rest ensures Covers(next, k') {
      if k' == k {
        assert At(next[|all|], k.0, k.1);
      } else {
        var j :| 0 <= j < |all| && At(all[j], k'.0, k'.1);
        assert next[j] == all[j];
      }
    }
  }

  /** Gathering distinct cells of the grid returns, each exactly as often as
      in the input, the input mountains lying in those cells. */
  lemma {:induction false} GatherTable(ms: seq<MountainData>, gridSize: real, cells: seq<Cell>)
    requires gridSize > 0.0 && NoDuplicates(cells)
    ensures multiset(Gather(GridTable(ms, gridSize), cells)) == multiset(Filter(ms, CellsFilter(gridSize, cells)))
    decreases |cells|
  {
    if cells == [] {
      FilterKeepsNone(ms, CellsFilter(gridSize, cells));
    } else {
      var n := |cells| - 1;
      var init := cells[..n];
      var last := cells[n];
      DistinctInit(cells);
      GatherTable(ms, gridSize, init);
      GridTableSpec(ms, gridSize, last);
      CellsSplit(ms, gridSize, cells);
      assert Gather(GridTable(ms, gridSize), cells) ==
        Gather(GridTable(ms, gridSize), init) + CellContents(GridTable(ms, gridSize), last);
    }
  }

  /** Without its last cell a list of distinct cells stays distinct and no
      longer holds that cell. */
  lemma DistinctInit(cells: seq<Cell>)
    requires cells != [] && NoDuplicates(cells)
    ensures NoDuplicates(cells[..|cells| - 1]) && cells[|cells| - 1] !in cells[..|cells| - 1]
  {
    var init := cells[..|cells| - 1];
    forall i, j | 0 <= i < j < |init| ensures init[i] != init[j] {
      assert init[i] == cells[i] && init[j] == cells[j];
    }
    forall i | 0 <= i < |init| ensures init[i] != cells[|cells| - 1] {
      assert init[i] == cells[i];
    }
  }

  /** The mountains in a list of distinct cells are those in all but the
      last cell together with those in the last one. */
  lemma CellsSplit(ms: seq<MountainData>, gridSize: real, cells: seq<Cell>)
    requires cells != [] && cells[|cells| - 1] !in cells[..|cells| - 1]
    ensures var init, last := cells[..|cells| - 1], cells[|cells| - 1];
      multiset(Filter(ms, CellsFilter(gridSize, init))) + multiset(Filter(ms, CellFilter(gridSize, last)))
        == multiset(Filter(ms, CellsFilter(gridSize, cells)))
  {
    var init, last := cells[..|cells| - 1], cells[|cells| - 1];
    assert cells == init + [last];
    var f, g, h := CellsFilter(gridSize, init), CellFilter(gridSize, last), CellsFilter(gridSize, cells);
    forall x | x in ms ensures !(f(x) && g(x)) && h(x) == (f(x) || g(x)) {
      if gridSize > 0.0 && HasCoordinates(x) {
        var xc := CellOf(x.lat.value, x.lon.value, gridSize);
        assert xc in cells <==> xc in init || xc == last;
      }
    }
    FilterDisjointUnion(ms, f, g, h);
  }

  lemma {:induction false} FilterKeepsNone<T>(s: seq<T>, f: T -> bool)
    requires forall x :: x in s ==> !f(x)
    ensures Filter(s, f) == []
    decreases |s|
  {
    if s != [] {
      FilterKeepsNone(s[1..], f);
    }
  }

  /** The neighbourhood of a cell holds, each exactly as often as in the
      input, the located input mountains at most one cell away on each axis. */
  lemma NeighbourhoodSpec(ms: seq<MountainData>, gridSize: real, c: Cell)
    requires gridSize > 0.0
    ensures multiset(Gather(GridTable(ms, gridSize), BlockCells(c))) == multiset(Filter(ms, BlockFilter(gridSize, c)))
  {
    GatherTable(ms, gridSize, BlockCells(c));
    FilterExtensional(ms, CellsFilter(gridSize, BlockCells(c)), BlockFilter(gridSize, c));
  }

  /** Every mountain of the neighbourhood lies in the block. */
  lemma NeighbourhoodBounded(ms: seq<MountainData>, gridSize: real, c: Cell)
    requires gridSize > 0.0
    ensures forall i :: 0 <= i < |Gather(GridTable(ms, gridSize), BlockCells(c))| ==>
      InBlock(Gather(GridTable(ms, gridSize), BlockCells(c))[i], gridSize, c)
  {
    var nearby := Gather(GridTable(ms, gridSize), BlockCells(c));
    var kept := Filter(ms, BlockFilter(gridSize, c));
    NeighbourhoodSpec(ms, gridSize, c);
    FilterSpec(ms, BlockFilter(gridSize, c));
    forall i | 0 <= i < |nearby| ensures InBlock(nearby[i], gridSize, c) {
      assert nearby[i] in multiset(kept);
      var j :| 0 <= j < |kept| && kept[j] == nearby[i];
    }
  }

  // ----- the index -----

  class SpatialIndex {
    const gridSize: real
    /** The mountains the index was built from, as given. */
    ghost const mountains: seq<MountainData>
    const coordinateMap: map<(real, real), MountainData>
    const grid: map<Cell, seq<MountainData>>

    ghost predicate Valid() {
      gridSize > 0.0 &&
      coordinateMap == ExactTable(mountains) &&
      grid == GridTable(mountains, gridSize)
    }

    /** `new SpatialIndex(mountains, gridSize)` with `buildIndex`: drop the
        mountains without coordinates, then insert the rest in order. */
    constructor (mountains: seq<MountainData>, gridSize: real)
      requires gridSize > 0.0
      ensures this.mountains == mountains && this.gridSize == gridSize
      ensures Valid()
    {
      var valid := Filter(mountains, HasCoordinates);
      FilterSatisfies(mountains, HasCoordinates);
      var coords: map<(real, real), MountainData> := map[];
      var cells: map<Cell, seq<MountainData>> := map[];
      for i := 0 to |valid|
        invariant coords == ExactTable(valid[..i])
        invariant cells == GridTable(valid[..i], gridSize)
      {
        var m := valid[i];
        assert valid[..i + 1][..i] == valid[..i];
        coords := coords[(m.lat.value, m.lon.value) := m];
        var key := CellOf(m.lat.value, m.lon.value, gridSize);
        ghost var before := cells;
        if key !in cells {
          cells := cells[key := []];
        }
        cells := cells[key := cells[key] + [m]];
        assert cells == before[key := CellContents(before, key) + [m]];
      }
      assert valid[..|valid|] == valid;
      TablesIgnoreUnlocated(mountains, gridSize);
      this.gridSize := gridSize;
      this.mountains := mountains;
      coordinateMap := coords;
      grid := cells;
    }

    /** `findExact`: the last input mountain at exactly `(lat, lon)`, if any. */
    function FindExact(lat: real, lon: real): (r: Option<MountainData>)
      requires Valid()
      ensures r.Some? <==> exists i :: 0 <= i < |mountains| && At(mountains[i], lat, lon)
      ensures r.Some? ==>
        exists i :: 0 <= i < |mountains| && mountains[i] == r.value && At(r.value, lat, lon) &&
          forall j :: i < j < |mountains| ==> !At(mountains[j], lat, lon)
    {
      ExactTableSpec(mountains, lat, lon);
      if (lat, lon) in coordinateMap then Some(coordinateMap[(lat, lon)]) else None
    }

    /** The candidates `getNearbyMountains(lat, lon)` returns: the located
        input mountains of the 3×3 block around the query's cell, each as
        often as in the input. */
    function Nearby(lat: real, lon: real): (nearby: seq<MountainData>)
      requires Valid()
      ensures multiset(nearby) == multiset(Filter(mountains, BlockFilter(gridSize, CellOf(lat, lon, gridSize))))
      ensures forall i :: 0 <= i < |nearby| ==> InBlock(nearby[i], gridSize, CellOf(lat, lon, gridSize))
    {
      var c := CellOf(lat, lon, gridSize);
      NeighbourhoodSpec(mountains, gridSize, c);
      NeighbourhoodBounded(mountains, gridSize, c);
      VisitedIsGather(grid, c, 3, 0);
      Visited(grid, c, 3, 0)
    }

    /** `getNearbyMountains`: parse the centre cell back from its key, then
        append the lists of the nine cells around it, rows outer. */
    method GetNearbyMountains(lat: real, lon: real) returns (nearby: seq<MountainData>)
      requires Valid()
      ensures nearby == Nearby(lat, lon)
    {
      var centerLat, centerLon := CenterCell(lat, lon, gridSize);
      var center := (centerLat, centerLon);
      nearby := [];
      for latOffset := -1 to 2
        invariant nearby == Visited(grid, center, latOffset + 1, 0)
      {
        for lonOffset := -1 to 2
          invariant nearby == Visited(grid, center, latOffset + 1, lonOffset + 1)
        {
          var gridKey := (centerLat + latOffset, centerLon + lonOffset);
          if gridKey in grid {
            nearby := nearby + grid[gridKey];
          }
        }
      }
    }

    /** `getAllMountains`: one mountain per occupied position, the one the
        exact table holds there. */
    method GetAllMountains() returns (all: seq<MountainData>)
      requires Valid()
      ensures forall i :: 0 <= i < |all| ==>
        HasCoordinates(all[i]) && FindExact(all[i].lat.value, all[i].lon.value) == Some(all[i])
      ensures forall i, j :: 0 <= i < j < |all| ==>
        (all[i].lat, all[i].lon) != (all[j].lat, all[j].lon)
      ensures forall i :: 0 <= i < |mountains| && HasCoordinates(mountains[i]) ==>
        exists j :: 0 <= j < |all| && At(all[j], mountains[i].lat.value, mountains[i].lon.value)
    {
      forall k | k in coordinateMap ensures At(coordinateMap[k], k.0, k.1) {
        ExactTableSpec(mountains, k.0, k.1);
      }
      var pending := coordinateMap.Keys;
      all := [];
      while |pending| > 0
        invariant pending <= coordinateMap.Keys
        invariant Listing(coordinateMap, pending, all)
        decreases |pending|
      {
        var k :| k in pending;
        ListingStep(coordinateMap, pending, all, k);
        all := all + [coordinateMap[k]];
        pending := pending - {k};
      }
      assert pending == {};
      forall i | 0 <= i < |mountains| && HasCoordinates(mountains[i])
        ensures (mountains[i].lat.value, mountains[i].lon.value) in coordinateMap
      {
        ExactTableSpec(mountains, mountains[i].lat.value, mountains[i].lon.value);
      }
    }
  }

  /** An index built from no mountains finds nothing, anywhere. */
  lemma EmptyIndex(index: SpatialIndex, lat: real, lon: real)
    requires index.Valid() && index.mountains == []
    ensures index.FindExact(lat, lon) == None
    ensures index.Nearby(lat, lon) == []
  {
  }
}
