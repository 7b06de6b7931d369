# Battleships board engine in Dafny

This project models the board engine of a console Battleship game (human
against computer, 10x10 board), the `BattleField` class of
`battleships.cpp`. A board holds a grid of cells, each `Empty`, `Ship`, `Hit`
or `Miss`, and a counter `shipsLeft` of ship cells not yet hit. On top of that
it provides:

- the placement check `canPlaceShip`: every ship cell is on the board, and no
  cell of the ship or of its one-cell margin holds a ship;
- `placeShip`, which marks the ship's cells;
- `placeShipsRandomly`, which lays the fixed fleet by retrying random
  candidates;
- `shoot`, a per-cell state machine;
- `allShipsSunk`.

Files:

- `board.dfy` (module `Board`) covers cells, grid values and the ship-cell
  count. It also holds the value-level rules of a shot (`ShotOutcome`, `Fired`)
  and the lemmas about single shots and sequences of shots.
- `layout.dfy` (module `Layout`) covers ship geometry (`Placement`, `Row`,
  `Col`, `Covers`). It holds the box test `Fits` that `canPlaceShip`
  implements and the Chebyshev separation rule. It also has the fleet
  invariant `FleetLaid`, the fixed fleet composition, and the first-fit
  rule (`FirstFit`) that ties the laid ships to the random draws.
- `battlefield.dfy` (module `Battleships`) is the class `BattleField`. Its
  grid is an `array2<Cell>` updated in place, next to `shipsLeft`. A ghost
  field `cells` holds the grid as a value. `Valid()` ties `field` to `cells`
  and keeps `shipsLeft == CountShips(cells)`. A client method
  (`HitMissSinkScenario`) shows the hit / miss / repeat / sink scenario
  following from the contracts alone.

Conventions carried over from the code:

- `x` is the row and `y` the column (`field[x][y]`).
- A "horizontal" ship advances `x`, so it runs down a column.
- The random source is an injected sequence of `Candidate(x, y, horizontal)`
  draws.

## Model

| member | source | states |
|---|---|---|
| `Battleships.BattleField.constructor` | battleships.cpp:49 | a new board has all 100 cells `Empty`, `shipsLeft == 0`, and satisfies the counter invariant |
| `Battleships.BattleField.CanPlaceShip` | battleships.cpp:21-37 | the nested loops with early returns answer exactly `Fits`: no in-bounds cell of the box (-1..length along, -1..1 across) holds a ship, and every ship cell is in bounds |
| `Layout.FitsIff` | battleships.cpp:21-37 | for a ship of length >= 1, `Fits` holds iff every ship cell is on the board and no ship lies within Chebyshev distance 1 of any ship cell; out-of-board neighbours are ignored, not rejected |
| `Battleships.BattleField.PlaceShip` | battleships.cpp:39-46 | exactly the `length` cells of the ship become `Ship`, every other cell is unchanged, `shipsLeft` grows by `length`, and the counter invariant is preserved |
| `Board.CountShipsUpdate` | battleships.cpp:43-45 | overwriting one cell changes the ship-cell count by what leaves and what enters; this is what keeps `shipsLeft` equal to the number of `Ship` cells after `placeShip` and `shoot` |
| `Battleships.BattleField.PlaceShipsRandomly` | battleships.cpp:51-75 | the fleet is laid in the order of the source, one ship after another. Each ship is on the board and no two ships touch, not even diagonally. No ship touches a ship already on the board. The cells are exactly the old grid with the fleet's cells set to `Ship`, and the counter invariant holds. The lengths laid are always a prefix of 1,1,1,1,2,2,2,3,3,4. `complete` holds iff all ten ships were laid, and then `shipsLeft` grew by 20. The result is tied to the draws (`FirstFit`): ship k is built from draw `picks[k]`, the first draw after the previous ship's that fits the board as it then is, and every draw skipped did not fit. `complete` is false only when every draw was consumed, and the draws after the last ship all failed to fit the next one |
| `Battleships.BattleField.PlaceShipsOfType` | battleships.cpp:61-73 | the `count` loop lays the ships of one type in turn, keeping the first-fit progress; when it finishes, the fleet has grown by `ShipCounts[t]` ships; otherwise the draws ran out |
| `Battleships.BattleField.PlaceOneShip` | battleships.cpp:62-72 | the retry loop consumes draws until one fits, lays that ship and keeps the first-fit progress; it comes back without a ship only when the draws ran out |
| `Layout.DrawAccept` | battleships.cpp:68-71 | a draw that fits, laid as the next ship, keeps the fleet well laid, the count, the length prefix and first-fit |
| `Layout.DrawReject` | battleships.cpp:63-68 | a draw that does not fit for the next ship is skipped and recorded as rejected |
| `Layout.DrawnFirstFitPicks` | battleships.cpp:60-72 | the draws taken are strictly increasing indices into the stream; ship k is built from draw `picks[k]` and fits on the grid of the ships before it |
| `Layout.DrawnFirstFitSkips` | battleships.cpp:63-68 | every draw skipped before ship k did not fit, for a ship of that length, on the grid of the ships before it |
| `Layout.FirstFitUnique` | battleships.cpp:60-72 | first-fit drawing is deterministic: from the same start grid and draws, fleets of the same lengths are the same ships from the same draws |
| `Layout.RejectedAll` | battleships.cpp:68 | the recursive record of skipped draws says exactly that none of them fits |
| `Layout.TypeSlice` | battleships.cpp:57-58 | the count-th ship of type t is the fleet's ship number (all ships of the smaller types) + count, and `FleetLengths` gives it the length of type t, which is at least 1 |
| `Layout.ExtendFleet` | battleships.cpp:63-72 | laying one more ship that passed the fits check keeps the fleet on the board and pairwise non-adjacent, and keeps it clear of the ships the board started with |
| `Layout.FleetComposition` | battleships.cpp:57-58 | four 1-cell, three 2-cell, two 3-cell and one 4-cell ship, placed smallest first, make the ten ships 1,1,1,1,2,2,2,3,3,4 and 20 cells |
| `Battleships.BattleField.Shoot` | battleships.cpp:77-89 | the result is true iff the target was an in-bounds `Ship` cell. The grid becomes `Fired` of the old grid. `shipsLeft` drops by one exactly on a hit. The counter invariant is preserved |
| `Board.ShotTransitions` | battleships.cpp:77-89 | a shot changes at most the target cell, and only `Ship` to `Hit` or `Empty` to `Miss` |
| `Board.ShotNoEffect` | battleships.cpp:78-79 | a shot leaves the grid unchanged iff it is off the board or at a cell already `Hit` or `Miss` |
| `Board.ShotIdempotent` | battleships.cpp:79 | a second shot at the same cell has no effect and is never a fresh hit or miss |
| `Board.ShotCount` | battleships.cpp:81-88 | the ship-cell count falls by exactly one on a hit and is unchanged on every other outcome |
| `Board.ShotsCount` | battleships.cpp:77-89 | over any sequence of shots the count falls by exactly the number of hits, so it never increases, and there are at most as many hits as shots |
| `Board.SunkNeedsEveryCell` | battleships.cpp:77-93 | sinking every ship takes at least as many shots as there were ship cells |
| `Board.DistinctShipShots` | battleships.cpp:81-84 | shots at distinct cells that all hold a ship are all hits |
| `Board.SinkByDistinctHits` | battleships.cpp:91-93 | as many shots at distinct ship cells as there are ship cells leave no ship on the board |
| `Board.CountShipsZero` | battleships.cpp:91-93 | the ship-cell count is zero iff no cell is `Ship` |
| `Battleships.BattleField.AllShipsSunk` | battleships.cpp:91-93 | the counter test `shipsLeft == 0` holds iff no cell of the grid is `Ship` |

## Left out

- `print` (battleships.cpp:95-109) is console output only. It would hide
  `Ship` cells of the opponent's board as `Empty`. It is not modelled.
- `main` (battleships.cpp:112-179) is not modelled. It holds the turn loop,
  the parsing of `std::cin` with its error recovery, the messages, and the
  computer's firing loop. That loop keeps firing while it misses and a ship
  remains, and it has no termination argument.
- `std::random_device`, `std::mt19937` and the uniform distributions are
  not modelled. `PlaceShipsRandomly` takes the draws as a finite sequence
  `cands` instead, and the distribution is not modelled.
- PlaceShipsRandomly: the source retries forever until a candidate fits. The
  model ends when `cands` runs out and returns `complete == false`. The fleet
  properties it then promises are those of the ships laid so far.
  Termination of the unbounded retry loop is not claimed. The ships laid,
  the draws they came from and the number of draws consumed are ghost
  results (`fleet`, `picks`, `used`). The `count` loop and the retry loop
  are written as the methods `PlaceShipsOfType` and `PlaceOneShip`.
- The glyph values of the cell enumeration (`'~'`, `'S'`, `'X'`, `'O'`)
  matter only for printing. `Cell` is a plain four-constructor datatype.
- CanPlaceShip, PlaceShip: the length is a `nat`, while the source takes an
  `int`. Negative lengths are never passed: the source only uses 1 to 4.
  `FitsIff` needs length >= 1, because for length 0 the source's box check
  still inspects a 2x3 box around the origin.
- PlaceShip requires `Fits`, as at its only call site. The source writes
  without a bounds check, so it has no defined behaviour for an
  out-of-board ship.
- `shipsLeft` is a C++ `int`. The model uses an unbounded `int`. The value
  counts cells of a 100-cell grid, so overflow cannot arise and is not modelled.
- The code's `shoot` returns one `bool`. An already-shot cell, an
  off-board shot and a fresh miss all return `false` (battleships.cpp:78-79,
  86-87). The model keeps that `bool` and also names the four outcomes in
  `ShotOutcome`. A separate already-shot result would differ from the
  code, so the model keeps the code's `bool`.
- The code places the smallest ship first (battleships.cpp:57-58), and so
  does the model.
