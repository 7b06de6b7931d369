/** The board of one player: a 10x10 grid of cells, how ship cells are
    counted, and what a single shot does to the grid. */
module Board {

  /** Side length of the square board. */
  const Size: int := 10

  /** The state of one cell. */
  datatype Cell = Empty | Ship | Hit | Miss

  /** A grid value, indexed as g[row][column]. */
  type Grid = seq<seq<Cell>>

  ghost predicate IsGrid(g: Grid)
  {
    |g| == Size && forall r :: 0 <= r < |g| ==> |g[r]| == Size
  }

  predicate InBounds(r: int, c: int)
  {
    0 <= r < Size && 0 <= c < Size
  }

  /** No cell of the grid is (still) a ship cell. */
  ghost predicate NoShips(g: Grid)
    requires IsGrid(g)
  {
    forall r, c :: InBounds(r, c) ==> g[r][c] != Ship
  }

  /** The grid of a freshly constructed board: every cell is water. */
  ghost predicate AllEmpty(g: Grid)
    requires IsGrid(g)
  {
    forall r, c :: InBounds(r, c) ==> g[r][c] == Empty
  }

  // ---------------------------------------------------------------------
  // Counting ship cells

  function Tally(c: Cell): nat
  {
    if c == Ship then 1 else 0
  }

  function CountRow(row: seq<Cell>): nat
  {
    if row == [] then 0 else Tally(row[0]) + CountRow(row[1..])
  }

  /** The number of cells in state Ship. */
  function CountShips(g: Grid): nat
  {
    if g == [] then 0 else CountRow(g[0]) + CountShips(g[1..])
  }

  lemma {:induction false} CountRowZero(row: seq<Cell>)
    ensures CountRow(row) == 0 <==> forall i :: 0 <= i < |row| ==> row[i] != Ship
  {
    if row != [] {
      CountRowZero(row[1..]);
      assert forall i :: 1 <= i < |row| ==> row[i] == row[1..][i - 1];
    }
  }

  /** A grid holds no ship cell exactly when its ship-cell count is zero. */
  lemma {:induction false} CountShipsZero(g: Grid)
    ensures CountShips(g) == 0 <==>
            forall r, c :: 0 <= r < |g| && 0 <= c < |g[r]| ==> g[r][c] != Ship
  {
    if g != [] {
      CountRowZero(g[0]);
      CountShipsZero(g[1..]);
      assert forall r :: 1 <= r < |g| ==> g[r] == g[1..][r - 1];
    }
  }

  lemma {:induction false} CountRowUpdate(row: seq<Cell>, i: nat, v: Cell)
    requires i < |row|
    ensures CountRow(row[i := v]) + Tally(row[i]) == CountRow(row) + Tally(v)
  {
    if i == 0 {
      assert row[i := v][1..] == row[1..];
    } else {
      assert row[i := v][1..] == row[1..][i - 1 := v];
      CountRowUpdate(row[1..], i - 1, v);
    }
  }

  /** Overwriting one cell changes the count by what leaves and what enters. */
  lemma {:induction false} CountShipsUpdate(g: Grid, r: nat, c: nat, v: Cell)
    requires r < |g| && c < |g[r]|
    ensures CountShips(g[r := g[r][c := v]]) + Tally(g[r][c]) == CountShips(g) + Tally(v)
  {
    if r == 0 {
      assert g[r := g[r][c := v]][1..] == g[1..];
      CountRowUpdate(g[0], c, v);
    } else {
      assert g[r := g[r][c := v]][1..] == g[1..][r - 1 := g[1..][r - 1][c := v]];
      CountShipsUpdate(g[1..], r - 1, c, v);
    }
  }

  // ---------------------------------------------------------------------
  // Shooting

  /** What a shot at (x, y) finds. The game reports only Struck as a hit;
      the other three outcomes all read as "no hit". */
  datatype Outcome = OffBoard | AlreadyShot | Struck | Splash

  function ShotOutcome(g: Grid, x: int, y: int): Outcome
    requires IsGrid(g)
  {
    if !InBounds(x, y) then OffBoard
    else if g[x][y] == Hit || g[x][y] == Miss then AlreadyShot
    else if g[x][y] == Ship then Struck
    else Splash
  }

  /** The grid after a shot at (x, y). */
  function Fired(g: Grid, x: int, y: int): (g': Grid)
    requires IsGrid(g)
    ensures IsGrid(g')
  {
    match ShotOutcome(g, x, y)
    case Struck => g[x := g[x][y := Hit]]
    case Splash => g[x := g[x][y := Miss]]
    case _ => g
  }

  /** A shot changes at most the target cell, and only along the two legal
      transitions Ship -> Hit and Empty -> Miss. */
  lemma ShotTransitions(g: Grid, x: int, y: int, r: int, c: int)
    requires IsGrid(g) && InBounds(r, c)
    ensures var g' := Fired(g, x, y);
            g'[r][c] == g[r][c] ||
            ((r, c) == (x, y) &&
             ((g[r][c] == Ship && g'[r][c] == Hit) || (g[r][c] == Empty && g'[r][c] == Miss)))
  {
  }

  /** A shot leaves the grid as it was exactly when it is off the board or
      at a cell that was already shot. */
  lemma ShotNoEffect(g: Grid, x: int, y: int)
    requires IsGrid(g)
    ensures Fired(g, x, y) == g <==> ShotOutcome(g, x, y) in {OffBoard, AlreadyShot}
  {
  }

  /** Shooting the same cell twice is the same as shooting it once; the second
      shot never counts as a fresh hit or miss. */
  lemma ShotIdempotent(g: Grid, x: int, y: int)
    requires IsGrid(g)
    ensures ShotOutcome(Fired(g, x, y), x, y) in {OffBoard, AlreadyShot}
    ensures Fired(Fired(g, x, y), x, y) == Fired(g, x, y)
  {
  }

  /** The ship-cell count drops by one on a hit and is unchanged otherwise. */
  lemma ShotCount(g: Grid, x: int, y: int)
    requires IsGrid(g)
    ensures CountShips(Fired(g, x, y)) ==
            CountShips(g) - (if ShotOutcome(g, x, y) == Struck then 1 else 0)
  {
    match ShotOutcome(g, x, y)
    case Struck => CountShipsUpdate(g, x, y, Hit);
    case Splash => CountShipsUpdate(g, x, y, Miss);
    case _ =>
  }

  // ---------------------------------------------------------------------
  // Sequences of shots

  /** The grid after a sequence of shots, fired in order. */
  function FiredAll(g: Grid, shots: seq<(int, int)>): (g': Grid)
    requires IsGrid(g)
    ensures IsGrid(g')
    decreases |shots|
  {
    if shots == [] then g else FiredAll(Fired(g, shots[0].0, shots[0].1), shots[1..])
  }

  /** How many shots of the sequence are hits. */
  function Strikes(g: Grid, shots: seq<(int, int)>): nat
    requires IsGrid(g)
    decreases |shots|
  {
    if shots == [] then 0
    else (if ShotOutcome(g, shots[0].0, shots[0].1) == Struck then 1 else 0)
         + Strikes(Fired(g, shots[0].0, shots[0].1), shots[1..])
  }

  /** Over any sequence of shots the ship-cell count falls by exactly the
      number of hits, so it never increases, and each shot hits at most once. */
  lemma {:induction false} ShotsCount(g: Grid, shots: seq<(int, int)>)
    requires IsGrid(g)
    ensures CountShips(FiredAll(g, shots)) + Strikes(g, shots) == CountShips(g)
    ensures Strikes(g, shots) <= |shots|
    decreases |shots|
  {
    if shots != [] {
      ShotCount(g, shots[0].0, shots[0].1);
      ShotsCount(Fired(g, shots[0].0, shots[0].1), shots[1..]);
    }
  }

  /** Sinking a fleet takes at least as many shots as it has ship cells. */
  lemma SunkNeedsEveryCell(g: Grid, shots: seq<(int, int)>)
    requires IsGrid(g)
    requires CountShips(FiredAll(g, shots)) == 0
    ensures |shots| >= CountShips(g)
  {
    ShotsCount(g, shots);
  }

  /** Shots at distinct cells that all hold a ship are all hits. */
  lemma {:induction false} DistinctShipShots(g: Grid, shots: seq<(int, int)>)
    requires IsGrid(g)
    requires forall k :: 0 <= k < |shots| ==>
               InBounds(shots[k].0, shots[k].1) && g[shots[k].0][shots[k].1] == Ship
    requires forall k, l :: 0 <= k < l < |shots| ==> shots[k] != shots[l]
    ensures Strikes(g, shots) == |shots|
    decreases |shots|
  {
    if shots != [] {
      var g1 := Fired(g, shots[0].0, shots[0].1);
      var rest := shots[1..];
      forall k | 0 <= k < |rest|
        ensures g1[rest[k].0][rest[k].1] == Ship
      {
        assert rest[k] == shots[k + 1];
      }
      forall k, l | 0 <= k < l < |rest|
        ensures rest[k] != rest[l]
      {
        assert rest[k] == shots[k + 1] && rest[l] == shots[l + 1];
      }
      DistinctShipShots(g1, rest);
    }
  }

  /** Exactly as many hits on distinct ship cells as the board has ship cells
      sink the whole fleet. */
  lemma SinkByDistinctHits(g: Grid, shots: seq<(int, int)>)
    requires IsGrid(g)
    requires forall k :: 0 <= k < |shots| ==>
               InBounds(shots[k].0, shots[k].1) && g[shots[k].0][shots[k].1] == Ship
    requires forall k, l :: 0 <= k < l < |shots| ==> shots[k] != shots[l]
    requires |shots| == CountShips(g)
    ensures NoShips(FiredAll(g, shots))
  {
    DistinctShipShots(g, shots);
    ShotsCount(g, shots);
    CountShipsZero(FiredAll(g, shots));
  }
}
