/** The board model of the game: a 9 by 9 grid, the fixed ship catalogue, placement of the ships
    without overlap, shot resolution with its hit and shot counters, scoring and the end-of-game test. */
module GameModel {
  import opened Wrappers
  import opened Ascii

  /** Side length of the square grid (GRID_SIZE). */
  const GridSize: nat := 9
  /** Number of cells of the grid. */
  const CellCount: nat := 81
  /** Number of cells the catalogue's ships occupy together: the number of hits that ends a game. */
  const ShipCells: nat := 14

  /** An index of the grid along either axis: x is the letter's index, y the digit's. */
  type Coord = n: nat | n < 9

  datatype CellState = Empty | Ship | Hit | Miss

  datatype Direction = Horizontal | Vertical

  /** One entry of the ship catalogue: its key in the catalogue, name and size, and once placed its
      anchor cell (x, y) and direction. */
  datatype Vessel = Vessel(key: char, name: string, size: nat, position: Option<(Coord, Coord)>, direction: Option<Direction>)

  /** The ship catalogue, in the order in which ships are placed. */
  function Catalogue(): (ships: seq<Vessel>)
    ensures |ships| == 4
    ensures forall k | 0 <= k < |ships| :: 0 < ships[k].size <= GridSize && ships[k].position == None && ships[k].direction == None
    ensures TotalSize(ships) == ShipCells
  {
    var ships := [Vessel('C', "Canberra-class", 5, None, None), Vessel('H', "Hobart-class", 4, None, None),
                  Vessel('L', "Leeuwin-class", 3, None, None), Vessel('A', "Armidale-class", 2, None, None)];
    assert TotalSize(ships[3..]) == 2;
    assert TotalSize(ships[1..]) == 4 + 3 + 2;
    ships
  }

  /** The number of cells the ships occupy together. */
  function TotalSize(ships: seq<Vessel>): nat
  {
    if ships == [] then 0 else ships[0].size + TotalSize(ships[1..])
  }

  /** Appending a ship adds its size. */
  lemma {:induction false} TotalSizeAppend(ships: seq<Vessel>, v: Vessel)
    ensures TotalSize(ships + [v]) == TotalSize(ships) + v.size
  {
    if ships != [] {
      assert (ships + [v])[1..] == ships[1..] + [v];
      TotalSizeAppend(ships[1..], v);
    }
  }

  /** The total depends on the sizes only. */
  lemma {:induction false} TotalSizeBySizes(a: seq<Vessel>, b: seq<Vessel>)
    requires |a| == |b|
    requires forall k | 0 <= k < |a| :: a[k].size == b[k].size
    ensures TotalSize(a) == TotalSize(b)
  {
    if a != [] {
      TotalSizeBySizes(a[1..], b[1..]);
    }
  }

  /** The ship records are the catalogue's, each possibly placed. */
  predicate Catalogued(ships: seq<Vessel>)
  {
    |ships| == |Catalogue()|
    && forall k | 0 <= k < |ships| :: ships[k].(position := None, direction := None) == Catalogue()[k]
  }

  /** Catalogued ships occupy 14 cells, however they are placed. */
  lemma CataloguedTotal(ships: seq<Vessel>)
    requires Catalogued(ships)
    ensures TotalSize(ships) == ShipCells
  {
    forall k | 0 <= k < |ships|
      ensures ships[k].size == Catalogue()[k].size
    {
      assert ships[k].(position := None, direction := None).size == ships[k].size;
    }
    TotalSizeBySizes(ships, Catalogue());
  }

  // ---------------------------------------------------------------------------------------------
  // Cells and counting

  /** How many cells are in state `c`. */
  function Count(cells: seq<CellState>, c: CellState): (n: nat)
    ensures n <= |cells|
  {
    if cells == [] then 0 else (if cells[0] == c then 1 else 0) + Count(cells[1..], c)
  }

  /** Changing one cell moves at most one unit of count between two states. */
  lemma {:induction false} CountUpdate(cells: seq<CellState>, n: nat, v: CellState, c: CellState)
    requires n < |cells|
    ensures Count(cells[n := v], c) == Count(cells, c) - (if cells[n] == c then 1 else 0) + (if v == c then 1 else 0)
  {
    if n == 0 {
      assert cells[n := v][1..] == cells[1..];
    } else {
      assert cells[n := v][1..] == cells[1..][n - 1 := v];
      CountUpdate(cells[1..], n - 1, v, c);
    }
  }

  /** Every cell is in exactly one of the four states. */
  lemma {:induction false} CountPartition(cells: seq<CellState>)
    ensures Count(cells, Empty) + Count(cells, Ship) + Count(cells, Hit) + Count(cells, Miss) == |cells|
  {
    if cells != [] {
      CountPartition(cells[1..]);
    }
  }

  /** A state has count zero exactly when no cell is in it. */
  lemma {:induction false} CountZero(cells: seq<CellState>, c: CellState)
    ensures Count(cells, c) == 0 <==> forall n | 0 <= n < |cells| :: cells[n] != c
  {
    if cells != [] {
      CountZero(cells[1..], c);
      if Count(cells, c) == 0 {
        forall n | 0 <= n < |cells|
          ensures cells[n] != c
        {
          if n > 0 {
            assert cells[n] == cells[1..][n - 1];
          }
        }
      }
    }
  }

  // ---------------------------------------------------------------------------------------------
  // Geometry: the grid as one sequence, x-major (index x * 9 + y), and runs of cells

  /** Position of cell (i, j), letter index i and digit index j, in the x-major sequence of cells. */
  function Index(i: Coord, j: Coord): (n: nat)
    ensures n < CellCount
  {
    i * 9 + j
  }

  /** Distinct cells have distinct positions. */
  lemma IndexInjective(i: Coord, j: Coord, i': Coord, j': Coord)
    ensures Index(i, j) == Index(i', j') ==> i == i' && j == j'
  {
  }

  /** A run of `size` cells anchored at (x, y) stays inside the grid. */
  predicate Fits(x: Coord, y: Coord, size: nat, dir: Direction)
  {
    match dir
    case Horizontal => y + size <= GridSize
    case Vertical => x + size <= GridSize
  }

  /** Is cell (i, j) one of the `size` cells of the run anchored at (x, y) in direction `dir`?
      A horizontal run keeps the letter index x and steps the digit index from y; a vertical run
      keeps y and steps x. */
  predicate InRun(x: Coord, y: Coord, size: nat, dir: Direction, i: Coord, j: Coord)
  {
    match dir
    case Horizontal => i == x && y <= j < y + size
    case Vertical => j == y && x <= i < x + size
  }

  /** The position of the k-th cell of a run. */
  function RunCell(x: Coord, y: Coord, dir: Direction, k: nat): (n: nat)
    requires Fits(x, y, k + 1, dir)
  {
    match dir
    case Horizontal => Index(x, y + k)
    case Vertical => Index(x + k, y)
  }

  /** The positions of the run's cells, anchor first. */
  function RunIndices(x: Coord, y: Coord, size: nat, dir: Direction): (r: seq<nat>)
    requires Fits(x, y, size, dir)
    ensures |r| == size
    ensures forall k | 0 <= k < |r| :: r[k] < CellCount
    ensures forall k, l | 0 <= k < l < |r| :: r[k] != r[l]
  {
    seq(size, k requires 0 <= k < size => RunCell(x, y, dir, k))
  }

  /** The run's positions are exactly the positions of the cells in the run. */
  lemma RunIndicesCover(x: Coord, y: Coord, size: nat, dir: Direction, i: Coord, j: Coord)
    requires Fits(x, y, size, dir)
    ensures Index(i, j) in RunIndices(x, y, size, dir) <==> InRun(x, y, size, dir, i, j)
  {
    var r := RunIndices(x, y, size, dir);
    if InRun(x, y, size, dir, i, j) {
      var k := if dir == Horizontal then j - y else i - x;
      assert r[k] == Index(i, j);
    }
    if Index(i, j) in r {
      var k :| 0 <= k < |r| && r[k] == Index(i, j);
      if dir == Horizontal {
        IndexInjective(i, j, x, y + k);
      } else {
        IndexInjective(i, j, x + k, y);
      }
    }
  }

  /** `cells` with every listed position set to `v`. */
  function Paint(cells: seq<CellState>, idxs: seq<nat>, v: CellState): (r: seq<CellState>)
    requires forall k | 0 <= k < |idxs| :: idxs[k] < |cells|
    ensures |r| == |cells|
    ensures forall n | 0 <= n < |cells| :: r[n] == if n in idxs then v else cells[n]
    decreases |idxs|
  {
    if idxs == [] then cells else Paint(cells[idxs[0] := v], idxs[1..], v)
  }

  /** Painting distinct EMPTY cells with `v` moves exactly that many cells from EMPTY to `v`. */
  lemma {:induction false} CountPaint(cells: seq<CellState>, idxs: seq<nat>, v: CellState, c: CellState)
    requires forall k | 0 <= k < |idxs| :: idxs[k] < |cells| && cells[idxs[k]] == Empty
    requires forall k, l | 0 <= k < l < |idxs| :: idxs[k] != idxs[l]
    requires v != Empty
    ensures Count(Paint(cells, idxs, v), c) + (if c == Empty then |idxs| else 0)
         == Count(cells, c) + (if c == v then |idxs| else 0)
    decreases |idxs|
  {
    if idxs != [] {
      CountUpdate(cells, idxs[0], v, c);
      var rest := idxs[1..];
      forall k | 0 <= k < |rest|
        ensures rest[k] < |cells| && cells[idxs[0] := v][rest[k]] == Empty
      {
        assert rest[k] == idxs[k + 1];
      }
      CountPaint(cells[idxs[0] := v], rest, v, c);
    }
  }

  /** The cells after a ship of `size` is laid on the run anchored at (x, y) (_place_ship's slice assignment). */
  function PlaceRun(cells: seq<CellState>, x: Coord, y: Coord, size: nat, dir: Direction): (r: seq<CellState>)
    requires |cells| == CellCount && Fits(x, y, size, dir)
    ensures |r| == CellCount
  {
    Paint(cells, RunIndices(x, y, size, dir), Ship)
  }

  /** Laying a ship sets exactly the cells of its run to SHIP and keeps every other cell. */
  lemma PlaceRunCells(cells: seq<CellState>, x: Coord, y: Coord, size: nat, dir: Direction)
    requires |cells| == CellCount && Fits(x, y, size, dir)
    ensures forall i: Coord, j: Coord :: PlaceRun(cells, x, y, size, dir)[Index(i, j)] == if InRun(x, y, size, dir, i, j) then Ship else cells[Index(i, j)]
  {
    forall i: Coord, j: Coord {
      RunIndicesCover(x, y, size, dir, i, j);
    }
  }

  /** _is_valid_placement on the x-major cells. */
  function CanPlace(cells: seq<CellState>, x: Coord, y: Coord, size: nat, dir: Direction): (ok: bool)
    requires |cells| == CellCount
    ensures ok ==> Fits(x, y, size, dir)
  {
    if dir == Horizontal && y + size <= GridSize then
      forall j: Coord | y <= j < y + size :: cells[Index(x, j)] == Empty
    else if dir == Vertical && x + size <= GridSize then
      forall i: Coord | x <= i < x + size :: cells[Index(i, y)] == Empty
    else
      false
  }

  /** A placement is valid exactly when the run is inside the grid and every one of its cells is EMPTY. */
  lemma CanPlaceExactly(cells: seq<CellState>, x: Coord, y: Coord, size: nat, dir: Direction)
    requires |cells| == CellCount
    ensures CanPlace(cells, x, y, size, dir)
        <==> Fits(x, y, size, dir) && forall i: Coord, j: Coord :: InRun(x, y, size, dir, i, j) ==> cells[Index(i, j)] == Empty
  {
  }

  /** Laying a ship on a valid run turns exactly `size` EMPTY cells into SHIP and touches no HIT or MISS cell. */
  lemma PlaceRunCounts(cells: seq<CellState>, x: Coord, y: Coord, size: nat, dir: Direction)
    requires |cells| == CellCount && CanPlace(cells, x, y, size, dir)
    ensures Count(PlaceRun(cells, x, y, size, dir), Ship) == Count(cells, Ship) + size
    ensures Count(PlaceRun(cells, x, y, size, dir), Empty) + size == Count(cells, Empty)
    ensures Count(PlaceRun(cells, x, y, size, dir), Hit) == Count(cells, Hit)
    ensures Count(PlaceRun(cells, x, y, size, dir), Miss) == Count(cells, Miss)
  {
    var idxs := RunIndices(x, y, size, dir);
    forall k | 0 <= k < |idxs|
      ensures cells[idxs[k]] == Empty
    {
      assert idxs[k] == RunCell(x, y, dir, k);
    }
    CountPaint(cells, idxs, Ship, Ship);
    CountPaint(cells, idxs, Ship, Empty);
    CountPaint(cells, idxs, Ship, Hit);
    CountPaint(cells, idxs, Ship, Miss);
  }

  // ---------------------------------------------------------------------------------------------
  // Ship placement (position_ships), with the random samples supplied by the caller

  /** One sample of position_ships: a random anchor (two values in 0..8) and a random direction. */
  datatype Draw = Draw(x: Coord, y: Coord, dir: Direction)

  /** The index of the first sample at or after `from` that is a valid placement for a ship of `size`,
      or `|draws|` when there is none. */
  function FirstFit(cells: seq<CellState>, size: nat, draws: seq<Draw>, from: nat): (k: nat)
    requires |cells| == CellCount && from <= |draws|
    ensures from <= k <= |draws|
    ensures k < |draws| ==> CanPlace(cells, draws[k].x, draws[k].y, size, draws[k].dir)
    ensures forall m | from <= m < k :: !CanPlace(cells, draws[m].x, draws[m].y, size, draws[m].dir)
    decreases |draws| - from
  {
    if from == |draws| then from
    else if CanPlace(cells, draws[from].x, draws[from].y, size, draws[from].dir) then from
    else FirstFit(cells, size, draws, from + 1)
  }

  /** The ship record once placed from sample `d`. */
  function Placed(ship: Vessel, d: Draw): (r: Vessel)
    ensures r.(position := None, direction := None) == ship.(position := None, direction := None)
  {
    ship.(position := Some((d.x, d.y)), direction := Some(d.dir))
  }

  /** What position_ships does for ships[k..], one ship after the other, taking samples from `from` on:
      the final cells and ship records, or None when the samples run out before every ship is placed. */
  function Arrange(cells: seq<CellState>, ships: seq<Vessel>, k: nat, draws: seq<Draw>, from: nat): Option<(seq<CellState>, seq<Vessel>)>
    requires |cells| == CellCount && k <= |ships| && from <= |draws|
    decreases |ships| - k
  {
    if k == |ships| then Some((cells, ships))
    else
      var m := FirstFit(cells, ships[k].size, draws, from);
      if m == |draws| then None
      else
        var d := draws[m];
        Arrange(PlaceRun(cells, d.x, d.y, ships[k].size, d.dir), ships[k := Placed(ships[k], d)], k + 1, draws, m + 1)
  }

  /** Does placed ship `ship` cover cell (i, j)? */
  predicate Covers(ship: Vessel, i: Coord, j: Coord)
  {
    ship.position.Some? && ship.direction.Some?
    && InRun(ship.position.value.0, ship.position.value.1, ship.size, ship.direction.value, i, j)
  }

  /** Does one of `ships` cover cell (i, j)? */
  predicate AnyCovers(ships: seq<Vessel>, i: Coord, j: Coord)
  {
    ships != [] && (Covers(ships[|ships| - 1], i, j) || AnyCovers(ships[..|ships| - 1], i, j))
  }

  /** AnyCovers is "some ship covers the cell". */
  lemma {:induction false} AnyCoversExists(ships: seq<Vessel>, i: Coord, j: Coord)
    ensures AnyCovers(ships, i, j) <==> exists s | 0 <= s < |ships| :: Covers(ships[s], i, j)
  {
    if ships != [] {
      var init := ships[..|ships| - 1];
      AnyCoversExists(init, i, j);
      if AnyCovers(init, i, j) {
        var s :| 0 <= s < |init| && Covers(init[s], i, j);
        assert ships[s] == init[s];
      }
      if exists s | 0 <= s < |ships| :: Covers(ships[s], i, j) {
        var s :| 0 <= s < |ships| && Covers(ships[s], i, j);
        if s < |init| {
          assert init[s] == ships[s];
        }
      }
    }
  }

  /** Ships ships[..k] are placed inside the grid, each one clear of the ships before it; the SHIP
      cells are exactly the cells they cover, every other cell is EMPTY, and the SHIP cells number
      their total size. */
  ghost predicate LaidOut(cells: seq<CellState>, ships: seq<Vessel>, k: nat)
  {
    && |cells| == CellCount && k <= |ships|
    && (forall s | 0 <= s < k :: ships[s].position.Some? && ships[s].direction.Some?
          && Fits(ships[s].position.value.0, ships[s].position.value.1, ships[s].size, ships[s].direction.value))
    && (forall t, i: Coord, j: Coord | 0 <= t < k && Covers(ships[t], i, j) :: !AnyCovers(ships[..t], i, j))
    && (forall i: Coord, j: Coord :: cells[Index(i, j)] == if AnyCovers(ships[..k], i, j) then Ship else Empty)
    && Count(cells, Ship) == TotalSize(ships[..k])
    && Count(cells, Hit) == 0 && Count(cells, Miss) == 0
  }

  /** No two laid-out ships share a cell. */
  lemma LaidOutDisjoint(cells: seq<CellState>, ships: seq<Vessel>, k: nat, s: nat, t: nat, i: Coord, j: Coord)
    requires LaidOut(cells, ships, k) && s < t < k
    ensures !(Covers(ships[s], i, j) && Covers(ships[t], i, j))
  {
    AnyCoversExists(ships[..t], i, j);
    assert ships[..t][s] == ships[s];
  }

  /** Laying ship k on a valid run leaves ships[..k+1] laid out. */
  lemma LaidOutStep(cells: seq<CellState>, ships: seq<Vessel>, k: nat, d: Draw)
    requires LaidOut(cells, ships, k) && k < |ships|
    requires CanPlace(cells, d.x, d.y, ships[k].size, d.dir)
    ensures LaidOut(PlaceRun(cells, d.x, d.y, ships[k].size, d.dir), ships[k := Placed(ships[k], d)], k + 1)
  {
    var size := ships[k].size;
    var cells' := PlaceRun(cells, d.x, d.y, size, d.dir);
    var ships' := ships[k := Placed(ships[k], d)];
    PlaceRunCounts(cells, d.x, d.y, size, d.dir);
    PlaceRunCells(cells, d.x, d.y, size, d.dir);
    CanPlaceExactly(cells, d.x, d.y, size, d.dir);
    assert ships'[..k] == ships[..k];
    assert ships'[..k + 1][..k] == ships[..k];
    forall t, i: Coord, j: Coord | 0 <= t < k + 1 && Covers(ships'[t], i, j)
      ensures !AnyCovers(ships'[..t], i, j)
    {
      if t < k {
        assert ships'[..t] == ships[..t];
      } else {
        assert cells[Index(i, j)] == Empty;
      }
    }
    assert ships'[..k + 1] == ships[..k] + [ships'[k]];
    TotalSizeAppend(ships[..k], ships'[k]);
  }

  /** The two ship lists are the same ships, placed or not. */
  predicate SameShips(a: seq<Vessel>, b: seq<Vessel>)
  {
    |a| == |b| && forall s | 0 <= s < |a| :: a[s].(position := None, direction := None) == b[s].(position := None, direction := None)
  }

  /** What position_ships leaves behind when it finishes: a full layout of the same ships. */
  ghost predicate ArrangedFrom(r: Option<(seq<CellState>, seq<Vessel>)>, ships: seq<Vessel>)
  {
    r.Some? ==> LaidOut(r.value.0, r.value.1, |ships|) && SameShips(r.value.1, ships)
  }

  /** Placing the remaining ships keeps the layout well formed and changes only their positions. */
  lemma {:induction false} ArrangeLaysOut(cells: seq<CellState>, ships: seq<Vessel>, k: nat, draws: seq<Draw>, from: nat)
    requires LaidOut(cells, ships, k) && from <= |draws|
    ensures ArrangedFrom(Arrange(cells, ships, k, draws, from), ships)
    decreases |ships| - k
  {
    if k < |ships| {
      var m := FirstFit(cells, ships[k].size, draws, from);
      if m < |draws| {
        var d := draws[m];
        LaidOutStep(cells, ships, k, d);
        ArrangeLaysOut(PlaceRun(cells, d.x, d.y, ships[k].size, d.dir), ships[k := Placed(ships[k], d)], k + 1, draws, m + 1);
        ArrangeBack(cells, ships, k, draws, from);
      }
    }
  }

  /** A full layout reached after placing ship k is a full layout of the ships before that step. */
  lemma ArrangeBack(cells: seq<CellState>, ships: seq<Vessel>, k: nat, draws: seq<Draw>, from: nat)
    requires |cells| == CellCount && k < |ships| && from <= |draws|
    requires FirstFit(cells, ships[k].size, draws, from) < |draws|
    requires var d := draws[FirstFit(cells, ships[k].size, draws, from)];
      ArrangedFrom(Arrange(PlaceRun(cells, d.x, d.y, ships[k].size, d.dir), ships[k := Placed(ships[k], d)], k + 1, draws,
                           FirstFit(cells, ships[k].size, draws, from) + 1), ships[k := Placed(ships[k], d)])
    ensures ArrangedFrom(Arrange(cells, ships, k, draws, from), ships)
  {
    var m := FirstFit(cells, ships[k].size, draws, from);
    var d := draws[m];
    var ships' := ships[k := Placed(ships[k], d)];
    var r := Arrange(PlaceRun(cells, d.x, d.y, ships[k].size, d.dir), ships', k + 1, draws, m + 1);
    assert Arrange(cells, ships, k, draws, from) == r;
    assert SameShips(ships', ships);
  }

  /** The cells of a fresh board. */
  function EmptyCells(): (cells: seq<CellState>)
    ensures |cells| == CellCount
    ensures forall n | 0 <= n < |cells| :: cells[n] == Empty
  {
    seq(CellCount, _ => Empty)
  }

  /** position_ships on a fresh board: when it finishes, all four ships are placed inside the grid,
      no two overlap, the SHIP cells are exactly the cells they cover, and there are 14 of them. */
  lemma PositionOnFreshBoard(draws: seq<Draw>)
    ensures var r := Arrange(EmptyCells(), Catalogue(), 0, draws, 0);
      ArrangedFrom(r, Catalogue()) && (r.Some? ==> Catalogued(r.value.1) && Count(r.value.0, Ship) == ShipCells)
  {
    FreshLaidOut();
    ArrangeLaysOut(EmptyCells(), Catalogue(), 0, draws, 0);
    var r := Arrange(EmptyCells(), Catalogue(), 0, draws, 0);
    if r.Some? {
      FullLayoutCount(r.value.0, r.value.1);
    }
  }

  /** A fresh board holds none of the catalogue's ships yet. */
  lemma FreshLaidOut()
    ensures LaidOut(EmptyCells(), Catalogue(), 0)
  {
    var cells := EmptyCells();
    CountZero(cells, Ship);
    CountZero(cells, Hit);
    CountZero(cells, Miss);
  }

  /** A full layout of the catalogue's ships has 14 SHIP cells. */
  lemma FullLayoutCount(cells: seq<CellState>, ships: seq<Vessel>)
    requires ArrangedFrom(Some((cells, ships)), Catalogue())
    ensures Catalogued(ships) && Count(cells, Ship) == ShipCells
  {
    CataloguedTotal(ships);
    assert ships[..|Catalogue()|] == ships;
  }

  // ---------------------------------------------------------------------------------------------
  // Shots

  /** The board's cells with its hit and shot counters. */
  datatype BoardState = BoardState(cells: seq<CellState>, hits: nat, shots: nat)

  /** The counters agree with the cells: hit_count counts the HIT cells, shot_count the HIT and MISS cells. */
  predicate Consistent(s: BoardState)
  {
    |s.cells| == CellCount && s.hits == Count(s.cells, Hit) && s.shots == Count(s.cells, Hit) + Count(s.cells, Miss)
  }

  /** The cells that belong to ships: not yet hit, or hit. */
  function Fleet(cells: seq<CellState>): nat
  {
    Count(cells, Ship) + Count(cells, Hit)
  }

  /** A fresh board (every cell EMPTY, both counters zero) is consistent and holds no ship. */
  lemma FreshBoard(s: BoardState)
    requires |s.cells| == CellCount && (forall n | 0 <= n < CellCount :: s.cells[n] == Empty)
    requires s.hits == 0 && s.shots == 0
    ensures Consistent(s) && Fleet(s.cells) == 0
  {
    CountZero(s.cells, Ship);
    CountZero(s.cells, Hit);
    CountZero(s.cells, Miss);
  }

  /** is_game_over: every ship cell of the catalogue has been hit. */
  predicate IsOver(s: BoardState)
  {
    s.hits == ShipCells
  }

  datatype ShotResult = ShotResult(isHit: bool, isGameOver: bool)

  /** process_shot at position `n`: a SHIP cell becomes HIT, an EMPTY cell MISS, a HIT or MISS cell stays. */
  function Shoot(s: BoardState, n: nat): (BoardState, ShotResult)
    requires n < |s.cells|
  {
    match s.cells[n]
    case Ship =>
      var s' := BoardState(s.cells[n := Hit], s.hits + 1, s.shots + 1);
      (s', ShotResult(true, IsOver(s')))
    case Empty => (BoardState(s.cells[n := Miss], s.hits, s.shots + 1), ShotResult(false, false))
    case _ => (s, ShotResult(false, false))
  }

  /** A shot resolves its cell, touches no other cell, reports a hit exactly when the cell held a ship,
      and keeps the counters consistent and the fleet's size. */
  lemma ShootResolves(s: BoardState, n: nat)
    requires Consistent(s) && n < CellCount
    ensures var (s', r) := Shoot(s, n);
      && Consistent(s') && Fleet(s'.cells) == Fleet(s.cells)
      && (s'.cells[n] == Hit || s'.cells[n] == Miss)
      && (forall m | 0 <= m < CellCount && m != n :: s'.cells[m] == s.cells[m])
      && (r.isHit <==> s.cells[n] == Ship)
      && (r.isGameOver <==> r.isHit && IsOver(s'))
      && s'.hits == s.hits + (if r.isHit then 1 else 0)
      && s'.shots == s.shots + (if s.cells[n] == Ship || s.cells[n] == Empty then 1 else 0)
  {
    var c := s.cells[n];
    if c == Ship || c == Empty {
      var v := if c == Ship then Hit else Miss;
      CountUpdate(s.cells, n, v, Ship);
      CountUpdate(s.cells, n, v, Hit);
      CountUpdate(s.cells, n, v, Miss);
    }
  }

  /** A shot at an already resolved cell changes nothing and is neither a hit nor the end of the game;
      so a second shot at the same cell is a no-op. */
  lemma ShootTwice(s: BoardState, n: nat)
    requires n < |s.cells|
    ensures var (s', _) := Shoot(s, n); Shoot(s', n) == (s', ShotResult(false, false))
  {
  }

  /** On a board whose ships occupy 14 cells: hits never exceed 14, shots lie between hits and 81,
      and the game is over exactly when no SHIP cell remains. */
  lemma BoardBounds(s: BoardState)
    requires Consistent(s) && Fleet(s.cells) == ShipCells
    ensures s.hits <= ShipCells && s.hits <= s.shots <= CellCount
    ensures IsOver(s) <==> forall n | 0 <= n < CellCount :: s.cells[n] != Ship
  {
    CountPartition(s.cells);
    CountZero(s.cells, Ship);
  }

  // ---------------------------------------------------------------------------------------------
  // Coordinates

  /** The letters A..I (ALPHABET), indexed by x. */
  function Alphabet(): (a: string)
    ensures |a| == GridSize
    ensures forall i | 0 <= i < |a| :: a[i] as int == 'A' as int + i
  {
    seq(9, i requires 0 <= i < 9 => (65 + i) as char)
  }

  /** The name of cell (x, y): its letter followed by its 1-based number, as in `B7`. */
  function CoordName(x: Coord, y: Coord): string
  {
    [Alphabet()[x], ('1' as int + y) as char]
  }

  /** The coordinates _coord_to_indices can convert: a letter A..I (either case) then a digit 1..9. */
  predicate Indexable(coord: string)
  {
    |coord| >= 2 && UpperChar(coord[0]) in Alphabet() && '1' <= coord[1] <= '9'
  }

  /** _coord_to_indices: the letter's place in the alphabet, the number minus one. */
  function CoordToIndices(coord: string): (r: (Coord, Coord))
    requires Indexable(coord)
    ensures Alphabet()[r.0] == UpperChar(coord[0])
    ensures CoordName(r.0, r.1) == [UpperChar(coord[0]), coord[1]]
  {
    (UpperChar(coord[0]) as int - 'A' as int, coord[1] as int - '1' as int)
  }

  /** Naming a cell and converting the name back gives the cell. */
  lemma CoordNameRoundTrip(x: Coord, y: Coord)
    ensures Indexable(CoordName(x, y)) && CoordToIndices(CoordName(x, y)) == (x, y)
  {
  }

  /** The position in the x-major cells of the cell named by `coord`. */
  function CellOf(coord: string): nat
    requires Indexable(coord)
  {
    Index(CoordToIndices(coord).0, CoordToIndices(coord).1)
  }

  // ---------------------------------------------------------------------------------------------
  // The board object

  /** GameBoard: the grid as a 9 by 9 array, the two counters and the ship records. */
  class GameBoard {
    const board: array2<CellState>
    var shotCount: nat
    var hitCount: nat
    var ships: seq<Vessel>
    /** The grid in x-major order: cell (i, j) is cells[Index(i, j)]. */
    ghost var cells: seq<CellState>

    ghost predicate Valid()
      reads this, board
    {
      && board.Length0 == GridSize && board.Length1 == GridSize
      && |cells| == CellCount
      && (forall i: Coord, j: Coord :: board[i, j] == cells[Index(i, j)])
      && Consistent(State())
      && Catalogued(ships)
    }

    /** The cells and counters as a value. */
    ghost function State(): BoardState
      reads this
    {
      BoardState(cells, hitCount, shotCount)
    }

    /** A fresh board: every cell EMPTY, both counters zero, the catalogue unplaced. */
    constructor ()
      ensures Valid() && fresh(board)
      ensures ships == Catalogue() && hitCount == 0 && shotCount == 0
      ensures cells == EmptyCells()
    {
      var grid := new CellState[GridSize, GridSize]((i, j) => Empty);
      board := grid;
      shotCount, hitCount := 0, 0;
      ships := Catalogue();
      cells := seq(CellCount, n requires 0 <= n < CellCount reads grid => grid[n / 9, n % 9]);
      new;
      CountZero(cells, Hit);
      CountZero(cells, Miss);
    }

    /** _is_valid_placement: the run lies inside the grid and all its cells are EMPTY. */
    function IsValidPlacement(x: Coord, y: Coord, size: nat, dir: Direction): (ok: bool)
      reads this, board
      requires Valid()
      ensures ok == CanPlace(cells, x, y, size, dir)
    {
      if dir == Horizontal && y + size <= GridSize then
        forall j: Coord | y <= j < y + size :: board[x, j] == Empty
      else if dir == Vertical && x + size <= GridSize then
        forall i: Coord | x <= i < x + size :: board[i, y] == Empty
      else
        false
    }

    /** _place_ship: records the anchor and direction of ship `k` and sets its run of cells to SHIP. */
    method PlaceShip(x: Coord, y: Coord, k: nat, dir: Direction)
      requires Valid() && k < |ships|
      requires CanPlace(cells, x, y, ships[k].size, dir)
      modifies this, board
      ensures Valid()
      ensures ships == old(ships)[k := Placed(old(ships)[k], Draw(x, y, dir))]
      ensures cells == PlaceRun(old(cells), x, y, old(ships)[k].size, dir)
      ensures forall i: Coord, j: Coord :: board[i, j] == if InRun(x, y, old(ships)[k].size, dir, i, j) then Ship else old(board[i, j])
      ensures hitCount == old(hitCount) && shotCount == old(shotCount)
    {
      var size := ships[k].size;
      ships := ships[k := Placed(ships[k], Draw(x, y, dir))];
      if dir == Horizontal {
        forall j | y <= j < y + size {
          board[x, j] := Ship;
        }
      } else {
        forall i | x <= i < x + size {
          board[i, y] := Ship;
        }
      }
      PlaceRunCounts(cells, x, y, size, dir);
      PlaceRunCells(cells, x, y, size, dir);
      cells := PlaceRun(cells, x, y, size, dir);
    }

    /** position_ships: for each ship in catalogue order, takes samples until one is a valid placement
        and places the ship there. `ok` is false when the samples run out first. */
    method PositionShips(draws: seq<Draw>) returns (ok: bool)
      requires Valid()
      modifies this, board
      ensures Valid()
      ensures ok == Arrange(old(cells), old(ships), 0, draws, 0).Some?
      ensures ok ==> (cells, ships) == Arrange(old(cells), old(ships), 0, draws, 0).value
      ensures hitCount == old(hitCount) && shotCount == old(shotCount)
    {
      var pos := 0;
      for k := 0 to |ships|
        invariant Valid() && pos <= |draws| && |ships| == |old(ships)|
        invariant hitCount == old(hitCount) && shotCount == old(shotCount)
        invariant Arrange(cells, ships, k, draws, pos) == Arrange(old(cells), old(ships), 0, draws, 0)
      {
        ghost var start := pos;
        while pos < |draws| && !IsValidPlacement(draws[pos].x, draws[pos].y, ships[k].size, draws[pos].dir)
          invariant start <= pos <= |draws|
          invariant FirstFit(cells, ships[k].size, draws, pos) == FirstFit(cells, ships[k].size, draws, start)
          decreases |draws| - pos
        {
          pos := pos + 1;
        }
        if pos == |draws| {
          return false;
        }
        var d := draws[pos];
        PlaceShip(d.x, d.y, k, d.dir);
        pos := pos + 1;
      }
      return true;
    }

    /** process_shot: resolves the shot at `coord` and reports whether it hit and whether it ended the game. */
    method ProcessShot(coord: string) returns (isHit: bool, isGameOver: bool)
      requires Valid() && Indexable(coord)
      modifies this, board
      ensures Valid() && ships == old(ships)
      ensures (State(), ShotResult(isHit, isGameOver)) == Shoot(old(State()), CellOf(coord))
    {
      var (x, y) := CoordToIndices(coord);
      ShootResolves(State(), Index(x, y));
      var current := board[x, y];
      if current == Ship || current == Empty {
        var v := if current == Ship then Hit else Miss;
        board[x, y] := v;
        cells := cells[Index(x, y) := v];
        forall i: Coord, j: Coord
          ensures board[i, j] == cells[Index(i, j)]
        {
          IndexInjective(i, j, x, y);
        }
        if current == Ship {
          hitCount := hitCount + 1;
        }
        shotCount := shotCount + 1;
        isHit := current == Ship;
        isGameOver := isHit && IsGameOver();
      } else {
        isHit, isGameOver := false, false;
      }
    }

    /** is_game_over: hit_count has reached the catalogue's total size, i.e. 14 HIT cells. */
    function IsGameOver(): (over: bool)
      reads this, board
      requires Valid()
      ensures over <==> Count(cells, Hit) == ShipCells
    {
      CataloguedTotal(ships);
      hitCount == TotalSize(ships)
    }

    /** get_state_at: the state of the cell named by `coord`. */
    function GetStateAt(coord: string): (c: CellState)
      reads this, board
      requires Valid() && Indexable(coord)
      ensures c == cells[CellOf(coord)]
    {
      var (x, y) := CoordToIndices(coord);
      board[x, y]
    }

    /** get_score: the number of shots that resolved a cell, i.e. the HIT and MISS cells. */
    function GetScore(): (score: nat)
      reads this, board
      requires Valid()
      ensures score == Count(cells, Hit) + Count(cells, Miss)
    {
      shotCount
    }
  }
}
