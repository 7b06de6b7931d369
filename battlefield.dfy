/** The board engine of one player: a 10x10 grid of cells updated in place and
    the number of ship cells not yet hit. */
module Battleships {
  import opened Board
  import opened Layout

  class BattleField {
    const field: array2<Cell>
    var shipsLeft: int

    /** The grid as a value: the contents of field. */
    ghost var cells: Grid

    /** The object invariant: field is 10x10 and shows cells, and shipsLeft is
        the number of cells in state Ship. */
    ghost predicate Valid()
      reads this, field
    {
      && field.Length0 == Size && field.Length1 == Size
      && IsGrid(cells)
      && (forall r, c :: 0 <= r < Size && 0 <= c < Size ==> field[r, c] == cells[r][c])
      && shipsLeft == CountShips(cells)
    }

    /** A new board: every cell is Empty and no ship is left. */
    constructor ()
      ensures Valid() && fresh(field)
      ensures AllEmpty(cells) && shipsLeft == 0
    {
      field := new Cell[Size, Size]((r, c) => Empty);
      cells := seq(Size, r => seq(Size, c => Empty));
      shipsLeft := 0;
      new;
      CountShipsZero(cells);
    }

    /** Whether a ship of the given length may be laid from (x, y): the cells
        from -1 to length along the ship and from -1 to 1 across it that lie on
        the board hold no ship, and every cell of the ship is on the board. */
    method CanPlaceShip(x: int, y: int, length: nat, horizontal: bool) returns (ok: bool)
      requires Valid()
      ensures ok == Fits(cells, Placement(x, y, length, horizontal))
    {
      ghost var p := Placement(x, y, length, horizontal);
      var i := -1;
      while i <= length
        invariant -1 <= i <= length + 1
        invariant ClearUpTo(cells, p, i)
      {
        var j := -1;
        while j <= 1
          invariant -1 <= j <= 2
          invariant forall j' :: -1 <= j' < j && InBounds(Row(p, i, j'), Col(p, i, j')) ==>
                      cells[Row(p, i, j')][Col(p, i, j')] != Ship
        {
          var nx := if horizontal then x + i else x + j;
          var ny := if horizontal then y + j else y + i;
          if 0 <= nx < Size && 0 <= ny < Size {
            if field[nx, ny] == Ship {
              assert Row(p, i, j) == nx && Col(p, i, j) == ny;
              return false;
            }
          }
          j := j + 1;
        }
        i := i + 1;
      }
      i := 0;
      while i < length
        invariant 0 <= i <= length
        invariant forall i' :: 0 <= i' < i ==> InBounds(Row(p, i', 0), Col(p, i', 0))
      {
        var nx := if horizontal then x + i else x;
        var ny := if horizontal then y else y + i;
        if nx < 0 || nx >= Size || ny < 0 || ny >= Size {
          assert Row(p, i, 0) == nx && Col(p, i, 0) == ny;
          return false;
        }
        i := i + 1;
      }
      return true;
    }

    /** Lays a ship that fits: exactly its cells become Ship, every other cell
        keeps its state, and shipsLeft grows by the ship's length. */
    method PlaceShip(x: int, y: int, length: nat, horizontal: bool)
      requires Valid() && Fits(cells, Placement(x, y, length, horizontal))
      modifies this, field
      ensures Valid()
      ensures forall r, c :: InBounds(r, c) ==>
                cells[r][c] == if Covers(Placement(x, y, length, horizontal), r, c) then Ship else old(cells[r][c])
      ensures shipsLeft == old(shipsLeft) + length
    {
      ghost var p := Placement(x, y, length, horizontal);
      var i := 0;
      while i < length
        invariant 0 <= i <= length
        invariant IsGrid(cells) && shipsLeft == old(shipsLeft)
        invariant forall r, c :: 0 <= r < Size && 0 <= c < Size ==> field[r, c] == cells[r][c]
        invariant forall r, c :: InBounds(r, c) ==>
                    cells[r][c] == if Covers(p.(len := i), r, c) then Ship else old(cells[r][c])
        invariant CountShips(cells) == old(shipsLeft) + i
      {
        var nx := if horizontal then x + i else x;
        var ny := if horizontal then y else y + i;
        assert Row(p, i, 0) == nx && Col(p, i, 0) == ny;
        assert cells[nx][ny] != Ship;
        CountShipsUpdate(cells, nx, ny, Ship);
        field[nx, ny] := Ship;
        cells := cells[nx := cells[nx][ny := Ship]];
        i := i + 1;
      }
      shipsLeft := shipsLeft + length;
    }

    /** Progress of PlaceShipsRandomly: the board is valid and shows the fleet
        drawn so far, first-fit, from cands, of which the first used were
        consumed. */
    ghost predicate Laying(start: Grid, startShips: int, cands: seq<Candidate>,
                           fleet: seq<Placement>, picks: seq<nat>, used: nat)
      reads this, field
    {
      Valid() && Drawing(start, startShips, cells, shipsLeft, cands, fleet, picks, used)
    }

    /** Draws from cands, starting at next, until a ship of length len fits,
        and lays it. placed is false when cands runs out first. */
    method PlaceOneShip(ghost start: Grid, ghost startShips: int, cands: seq<Candidate>,
                        ghost fleet: seq<Placement>, ghost picks: seq<nat>, next: nat, len: nat)
      returns (placed: bool, next': nat, ghost fleet': seq<Placement>, ghost picks': seq<nat>)
      requires Laying(start, startShips, cands, fleet, picks, next)
      requires next == Base(picks) && |fleet| < |FleetLengths| && len == FleetLengths[|fleet|] && len >= 1
      modifies this, field
      ensures Laying(start, startShips, cands, fleet', picks', next')
      ensures placed ==> |fleet'| == |fleet| + 1 && next' == Base(picks')
      ensures !placed ==> fleet' == fleet && next' == |cands|
    {
      placed, next', fleet', picks' := false, next, fleet, picks;
      while !placed
        invariant Laying(start, startShips, cands, fleet', picks', next')
        invariant placed ==> |fleet'| == |fleet| + 1 && next' == Base(picks')
        invariant !placed ==> fleet' == fleet
        decreases |cands| - next'
      {
        if next' == |cands| {
          return;
        }
        var cand := cands[next'];
        ghost var p := FromCandidate(cand, len);
        assert p == Placement(cand.x, cand.y, len, cand.horizontal);
        placed := CanPlaceShip(cand.x, cand.y, len, cand.horizontal);
        if placed {
          ghost var before, beforeShips := cells, shipsLeft;
          PlaceShip(cand.x, cand.y, len, cand.horizontal);
          DrawAccept(start, startShips, before, beforeShips, cells, cands, fleet', picks', next', p);
          fleet', picks' := fleet' + [p], picks' + [next'];
        } else {
          DrawReject(start, startShips, cells, shipsLeft, cands, fleet', picks', next');
        }
        next' := next' + 1;
      }
    }

    /** Lays the ShipCounts[t] ships of type t, each with PlaceOneShip. placedAll
        is false when cands runs out first. */
    method PlaceShipsOfType(ghost start: Grid, ghost startShips: int, cands: seq<Candidate>,
                            ghost fleet: seq<Placement>, ghost picks: seq<nat>, next: nat, t: nat)
      returns (placedAll: bool, next': nat, ghost fleet': seq<Placement>, ghost picks': seq<nat>)
      requires Laying(start, startShips, cands, fleet, picks, next)
      requires t < |ShipCounts| && next == Base(picks) && |fleet| == |PlannedLengths(t)|
      modifies this, field
      ensures Laying(start, startShips, cands, fleet', picks', next')
      ensures placedAll ==> next' == Base(picks') && |fleet'| == |PlannedLengths(t + 1)|
      ensures !placedAll ==> next' == |cands| && |fleet'| < |FleetLengths|
    {
      placedAll, next', fleet', picks' := true, next, fleet, picks;
      for count := 0 to ShipCounts[t]
        invariant Laying(start, startShips, cands, fleet', picks', next')
        invariant next' == Base(picks') && |fleet'| == |PlannedLengths(t)| + count
      {
        TypeSlice(t, count);
        var placed;
        placed, next', fleet', picks' := PlaceOneShip(start, startShips, cands, fleet', picks', next', ShipLengths[t]);
        if !placed {
          return false, next', fleet', picks';
        }
      }
    }

    /** Lays the fleet (four ships of one cell, three of two, two of three,
        one of four, smallest first), drawing origins and orientations from
        cands and retrying each ship until a candidate fits. complete is false
        when cands runs out before the whole fleet is laid. fleet lists the
        ships laid, in order; ship k was built from draw picks[k], and the
        first used draws were consumed. */
    method PlaceShipsRandomly(cands: seq<Candidate>)
      returns (complete: bool, ghost fleet: seq<Placement>, ghost picks: seq<nat>, ghost used: nat)
      requires Valid()
      modifies this, field
      ensures Valid()
      ensures FleetLaid(old(cells), cells, fleet)
      ensures shipsLeft == old(shipsLeft) + Sum(Lengths(fleet))
      ensures complete <==> |fleet| == |FleetLengths|
      ensures |fleet| <= |FleetLengths| && Lengths(fleet) == FleetLengths[..|fleet|]
      ensures !complete ==> used == |cands|
      ensures complete ==> used == Base(picks)
      ensures FirstFit(old(cells), cands, fleet, picks, used, NextLength(|fleet|))
      ensures complete ==> shipsLeft == old(shipsLeft) + 20
    {
      ghost var start, startShips := cells, shipsLeft;
      fleet, picks := [], [];
      var next: nat := 0;
      complete := true;
      for t := 0 to |ShipCounts|
        invariant Laying(start, startShips, cands, fleet, picks, next)
        invariant next == Base(picks) && |fleet| == |PlannedLengths(t)|
      {
        complete, next, fleet, picks := PlaceShipsOfType(start, startShips, cands, fleet, picks, next, t);
        if !complete {
          break;
        }
      }
      FleetComposition();
      if complete {
        assert FleetLengths[..|fleet|] == FleetLengths;
      }
      used := next;
    }

    /** A shot at (x, y). Off the board, or at a cell already Hit or Miss, it
        changes nothing and reports no hit; at a Ship cell it turns the cell to
        Hit, takes one from shipsLeft and reports a hit; at an Empty cell it
        turns the cell to Miss and reports no hit. */
    method Shoot(x: int, y: int) returns (hit: bool)
      requires Valid()
      modifies this, field
      ensures Valid()
      ensures hit <==> ShotOutcome(old(cells), x, y) == Struck
      ensures cells == Fired(old(cells), x, y)
      ensures shipsLeft == old(shipsLeft) - (if hit then 1 else 0)
    {
      if x < 0 || x >= Size || y < 0 || y >= Size {
        return false;
      }
      if field[x, y] == Hit || field[x, y] == Miss {
        return false;
      }
      if field[x, y] == Ship {
        CountShipsUpdate(cells, x, y, Hit);
        field[x, y] := Hit;
        cells := cells[x := cells[x][y := Hit]];
        shipsLeft := shipsLeft - 1;
        return true;
      } else {
        CountShipsUpdate(cells, x, y, Miss);
        field[x, y] := Miss;
        cells := cells[x := cells[x][y := Miss]];
        return false;
      }
    }

    /** The game is over for this board exactly when no cell is a ship. */
    function AllShipsSunk(): (sunk: bool)
      reads this, field
      requires Valid()
      ensures sunk <==> NoShips(cells)
    {
      CountShipsZero(cells);
      shipsLeft == 0
    }
  }

  /** A client of the contracts above: one two-cell ship at row 3, columns 4
      and 5 (so "horizontal" is false), shot at, missed around and sunk. */
  method HitMissSinkScenario()
  {
    var b := new BattleField();
    var hit := b.Shoot(-1, 5);
    assert !hit && b.shipsLeft == 0;
    hit := b.Shoot(10, 0);
    assert !hit && b.shipsLeft == 0;
    b.PlaceShip(3, 4, 2, false);
    assert b.shipsLeft == 2 && b.cells[3][4] == Ship && b.cells[3][5] == Ship;
    hit := b.Shoot(3, 4);
    assert hit && b.shipsLeft == 1 && b.cells[3][4] == Hit && b.cells[3][5] == Ship;
    hit := b.Shoot(3, 6);
    assert !hit && b.shipsLeft == 1 && b.cells[3][6] == Miss && b.cells[3][5] == Ship;
    hit := b.Shoot(3, 4);
    assert !hit && b.shipsLeft == 1 && b.cells[3][5] == Ship;
    assert !b.AllShipsSunk();
    hit := b.Shoot(3, 5);
    assert hit && b.AllShipsSunk();
  }
}
