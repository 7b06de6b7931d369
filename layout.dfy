/** Where ships go: the cells of a straight ship, the check that a ship fits
    on a grid, the separation rule between ships, and the fixed fleet. */
module Layout {
  import opened Board

  /** A straight ship starting at (x, y). "horizontal" advances x, which is
      the row index of the grid; otherwise the ship advances y, the column. */
  datatype Placement = Placement(x: int, y: int, len: nat, horizontal: bool)

  /** Row and column of the cell i steps along the ship and j steps across it.
      The ship's own cells are those with 0 <= i < len and j == 0. */
  function Row(p: Placement, i: int, j: int): int
  {
    if p.horizontal then p.x + i else p.x + j
  }

  function Col(p: Placement, i: int, j: int): int
  {
    if p.horizontal then p.y + j else p.y + i
  }

  /** (r, c) is one of the ship's own cells. */
  predicate Covers(p: Placement, r: int, c: int)
  {
    if p.horizontal then c == p.y && p.x <= r < p.x + p.len
    else r == p.x && p.y <= c < p.y + p.len
  }

  /** Every cell of the ship lies on the board. */
  ghost predicate InBoard(p: Placement)
  {
    forall i :: 0 <= i < p.len ==> InBounds(Row(p, i, 0), Col(p, i, 0))
  }

  /** No in-bounds cell of the box rows -1 .. n-1 along the ship, -1 .. 1 across
      it, holds a ship. Cells of the box outside the board are ignored. */
  ghost predicate ClearUpTo(g: Grid, p: Placement, n: int)
    requires IsGrid(g)
  {
    forall i, j :: -1 <= i < n && -1 <= j <= 1 && InBounds(Row(p, i, j), Col(p, i, j)) ==>
      g[Row(p, i, j)][Col(p, i, j)] != Ship
  }

  /** The ship may be placed: its box (the ship and a one-cell margin) holds no
      ship on the board, and the ship itself lies on the board. */
  ghost predicate Fits(g: Grid, p: Placement)
    requires IsGrid(g)
  {
    ClearUpTo(g, p, p.len + 1) && InBoard(p)
  }

  /** Chebyshev distance at most one: the same cell or one of its 8 neighbours. */
  predicate Adjacent(r1: int, c1: int, r2: int, c2: int)
  {
    -1 <= r1 - r2 <= 1 && -1 <= c1 - c2 <= 1
  }

  /** No ship on the grid is in the 8-neighbourhood of any cell of p. */
  ghost predicate ClearOf(g: Grid, p: Placement)
    requires IsGrid(g)
  {
    forall i, r, c :: 0 <= i < p.len && InBounds(r, c) && Adjacent(r, c, Row(p, i, 0), Col(p, i, 0)) ==>
      g[r][c] != Ship
  }

  /** For a ship of at least one cell, the box test of Fits says exactly that
      the ship is on the board and that no ship lies within Chebyshev distance
      one of any of its cells. */
  lemma FitsIff(g: Grid, p: Placement)
    requires IsGrid(g) && p.len >= 1
    ensures Fits(g, p) <==> InBoard(p) && ClearOf(g, p)
  {
    if Fits(g, p) {
      forall i, r, c | 0 <= i < p.len && InBounds(r, c) && Adjacent(r, c, Row(p, i, 0), Col(p, i, 0))
        ensures g[r][c] != Ship
      {
        var a, b := if p.horizontal then r - p.x else c - p.y, if p.horizontal then c - p.y else r - p.x;
        assert Row(p, a, b) == r && Col(p, a, b) == c;
      }
    }
    if InBoard(p) && ClearOf(g, p) {
      forall i, j | -1 <= i < p.len + 1 && -1 <= j <= 1 && InBounds(Row(p, i, j), Col(p, i, j))
        ensures g[Row(p, i, j)][Col(p, i, j)] != Ship
      {
        var k := if i < 0 then 0 else if i >= p.len then p.len - 1 else i;
        assert Adjacent(Row(p, i, j), Col(p, i, j), Row(p, k, 0), Col(p, k, 0));
      }
    }
  }

  // ---------------------------------------------------------------------
  // Fleets of placed ships

  /** No cell of p is within Chebyshev distance one of a cell of q. */
  ghost predicate Apart(p: Placement, q: Placement)
  {
    forall i, j :: 0 <= i < p.len && 0 <= j < q.len ==>
      !Adjacent(Row(p, i, 0), Col(p, i, 0), Row(q, j, 0), Col(q, j, 0))
  }

  /** Ships of the fleet pairwise neither overlap nor touch, not even diagonally. */
  ghost predicate Separated(fleet: seq<Placement>)
  {
    forall a, b :: 0 <= a < b < |fleet| ==> Apart(fleet[a], fleet[b])
  }

  /** (r, c) is a cell of some ship of the fleet. */
  ghost predicate OnFleet(fleet: seq<Placement>, r: int, c: int)
    decreases |fleet|
  {
    |fleet| > 0 && (OnFleet(fleet[..|fleet| - 1], r, c) || Covers(fleet[|fleet| - 1], r, c))
  }

  lemma {:induction false} CoveredOnFleet(fleet: seq<Placement>, k: int, r: int, c: int)
    requires 0 <= k < |fleet| && Covers(fleet[k], r, c)
    ensures OnFleet(fleet, r, c)
    decreases |fleet|
  {
    if k < |fleet| - 1 {
      CoveredOnFleet(fleet[..|fleet| - 1], k, r, c);
    }
  }

  /** g is the grid start with the ships of the fleet laid on it: every fleet
      cell is a ship, every other cell is as in start; every ship lies on the
      board, keeps clear of the ships already on start, and no two ships of
      the fleet touch. */
  ghost predicate FleetLaid(start: Grid, g: Grid, fleet: seq<Placement>)
  {
    && IsGrid(start) && IsGrid(g)
    && (forall r, c :: InBounds(r, c) ==> g[r][c] == if OnFleet(fleet, r, c) then Ship else start[r][c])
    && (forall k :: 0 <= k < |fleet| ==> fleet[k].len >= 1 && InBoard(fleet[k]) && ClearOf(start, fleet[k]))
    && Separated(fleet)
  }

  /** Progress while laying a fleet on start, whose ship count was startShips:
      g shows the fleet laid, and ships counts the start ships plus the
      fleet's cells. */
  ghost predicate Progress(start: Grid, startShips: int, g: Grid, ships: int, fleet: seq<Placement>)
  {
    FleetLaid(start, g, fleet) && ships == startShips + Sum(Lengths(fleet))
  }

  /** Laying one more ship that fits keeps the fleet well laid: the new ship is
      apart from every ship before it and from the ships of the start grid. */
  lemma ExtendFleet(start: Grid, g: Grid, g': Grid, fleet: seq<Placement>, p: Placement)
    requires FleetLaid(start, g, fleet)
    requires p.len >= 1 && Fits(g, p)
    requires IsGrid(g')
    requires forall r, c :: InBounds(r, c) ==> g'[r][c] == if Covers(p, r, c) then Ship else g[r][c]
    ensures FleetLaid(start, g', fleet + [p])
  {
    var fleet' := fleet + [p];
    assert fleet'[..|fleet'| - 1] == fleet;
    FitsIff(g, p);
    forall i, r, c | 0 <= i < p.len && InBounds(r, c) && Adjacent(r, c, Row(p, i, 0), Col(p, i, 0))
      ensures start[r][c] != Ship
    {
      assert g[r][c] != Ship;
    }
    forall a | 0 <= a < |fleet|
      ensures Apart(fleet[a], p)
    {
      var q := fleet[a];
      forall i, j | 0 <= i < q.len && 0 <= j < p.len
        ensures !Adjacent(Row(q, i, 0), Col(q, i, 0), Row(p, j, 0), Col(p, j, 0))
      {
        var r, c := Row(q, i, 0), Col(q, i, 0);
        assert InBounds(r, c);
        assert Covers(q, r, c);
        CoveredOnFleet(fleet, a, r, c);
        assert g[r][c] == Ship;
      }
    }
  }

  // ---------------------------------------------------------------------
  // The fixed fleet

  /** Number of ships of each type, and the length of that type: four ships of
      one cell, three of two, two of three and one of four, smallest first. */
  const ShipCounts: seq<nat> := [4, 3, 2, 1]
  const ShipLengths: seq<nat> := [1, 2, 3, 4]

  /** The lengths of the whole fleet in the order its ships are laid. */
  const FleetLengths: seq<nat> := [1, 1, 1, 1, 2, 2, 2, 3, 3, 4]

  function Repeat(v: nat, n: nat): (s: seq<nat>)
    ensures |s| == n && forall i :: 0 <= i < n ==> s[i] == v
  {
    if n == 0 then [] else Repeat(v, n - 1) + [v]
  }

  /** Lengths of the ships of the first t types, in the order they are placed. */
  function PlannedLengths(t: nat): seq<nat>
    requires t <= |ShipCounts|
  {
    if t == 0 then [] else PlannedLengths(t - 1) + Repeat(ShipLengths[t - 1], ShipCounts[t - 1])
  }

  /** The plan for fewer types is a prefix of the plan for more. */
  lemma {:induction false} PlannedPrefix(t: nat, u: nat)
    requires t <= u <= |ShipCounts|
    ensures PlannedLengths(t) <= PlannedLengths(u)
    decreases u
  {
    if t < u {
      PlannedPrefix(t, u - 1);
    }
  }

  function Lengths(fleet: seq<Placement>): (s: seq<nat>)
    ensures |s| == |fleet| && forall k :: 0 <= k < |fleet| ==> s[k] == fleet[k].len
  {
    seq(|fleet|, k requires 0 <= k < |fleet| => fleet[k].len)
  }

  function Sum(s: seq<nat>): nat
  {
    if s == [] then 0 else Sum(s[..|s| - 1]) + s[|s| - 1]
  }

  lemma LengthsAppend(fleet: seq<Placement>, p: Placement)
    ensures Lengths(fleet + [p]) == Lengths(fleet) + [p.len]
    ensures Sum(Lengths(fleet + [p])) == Sum(Lengths(fleet)) + p.len
  {
    assert Lengths(fleet + [p]) == Lengths(fleet) + [p.len];
    assert (Lengths(fleet) + [p.len])[..|fleet|] == Lengths(fleet);
  }

  /** Laying the ship types in turn, count ships of each, gives the fleet
      1,1,1,1,2,2,2,3,3,4: ten ships and 20 cells. */
  lemma FleetComposition()
    ensures PlannedLengths(|ShipCounts|) == FleetLengths
    ensures Sum(FleetLengths) == 20
  {
    assert PlannedLengths(1) == [1, 1, 1, 1];
    assert PlannedLengths(2) == [1, 1, 1, 1, 2, 2, 2];
    assert PlannedLengths(3) == [1, 1, 1, 1, 2, 2, 2, 3, 3];
    var s := FleetLengths;
    assert Sum(s[..1]) == 1 by { assert s[..1][..0] == []; }
    assert Sum(s[..2]) == 2 by { assert s[..2][..1] == s[..1]; }
    assert Sum(s[..3]) == 3 by { assert s[..3][..2] == s[..2]; }
    assert Sum(s[..4]) == 4 by { assert s[..4][..3] == s[..3]; }
    assert Sum(s[..5]) == 6 by { assert s[..5][..4] == s[..4]; }
    assert Sum(s[..6]) == 8 by { assert s[..6][..5] == s[..5]; }
    assert Sum(s[..7]) == 10 by { assert s[..7][..6] == s[..6]; }
    assert Sum(s[..8]) == 13 by { assert s[..8][..7] == s[..7]; }
    assert Sum(s[..9]) == 16 by { assert s[..9][..8] == s[..8]; }
    assert s[..10] == s;
  }

  /** The count-th ship of type t is ship number |PlannedLengths(t)| + count
      of the fleet, and FleetLengths gives it the length of type t. */
  lemma TypeSlice(t: nat, count: nat)
    requires t < |ShipCounts| && count < ShipCounts[t]
    ensures |PlannedLengths(t)| + count < |FleetLengths|
    ensures FleetLengths[|PlannedLengths(t)| + count] == ShipLengths[t] >= 1
  {
    FleetComposition();
    PlannedPrefix(t + 1, |ShipCounts|);
    assert PlannedLengths(t + 1)[|PlannedLengths(t)| + count] == ShipLengths[t];
  }

  /** The length of the ship laid after n ships, or 0 once the fleet is complete. */
  function NextLength(n: nat): nat
  {
    if n < |FleetLengths| then FleetLengths[n] else 0
  }

  // ---------------------------------------------------------------------
  // Drawing placements from the random source

  /** One draw of the random source used while placing the fleet: an origin
      cell and an orientation. */
  datatype Candidate = Candidate(x: int, y: int, horizontal: bool)

  function FromCandidate(c: Candidate, len: nat): Placement
  {
    Placement(c.x, c.y, len, c.horizontal)
  }

  /** The index of the first draw after the last one taken (0 if none was). */
  function Base(picks: seq<nat>): nat
  {
    if picks == [] then 0 else picks[|picks| - 1] + 1
  }

  /** The grid start with the cells of the fleet set to Ship. */
  ghost function Overlay(start: Grid, fleet: seq<Placement>): (g: Grid)
    requires IsGrid(start)
    ensures IsGrid(g)
    ensures forall r, c :: InBounds(r, c) ==> g[r][c] == if OnFleet(fleet, r, c) then Ship else start[r][c]
  {
    seq(Size, r requires 0 <= r < Size =>
      seq(Size, c requires 0 <= c < Size => if OnFleet(fleet, r, c) then Ship else start[r][c]))
  }

  /** A grid showing the fleet laid on start is the overlay of the fleet on start. */
  lemma LaidIsOverlay(start: Grid, g: Grid, fleet: seq<Placement>)
    requires FleetLaid(start, g, fleet)
    ensures g == Overlay(start, fleet)
  {
    var o := Overlay(start, fleet);
    forall r | 0 <= r < Size
      ensures g[r] == o[r]
    {
      assert forall c :: 0 <= c < Size ==> g[r][c] == o[r][c];
    }
  }

  /** Every draw cands[n] with lo <= n < hi is rejected: a ship of length len
      built from it does not fit on g. */
  ghost predicate Rejected(g: Grid, cands: seq<Candidate>, lo: nat, hi: nat, len: nat)
    requires IsGrid(g)
    decreases hi
  {
    hi <= lo ||
    (hi <= |cands| && Rejected(g, cands, lo, hi - 1, len) && !Fits(g, FromCandidate(cands[hi - 1], len)))
  }

  lemma {:induction false} RejectedAll(g: Grid, cands: seq<Candidate>, lo: nat, hi: nat, len: nat)
    requires IsGrid(g) && hi <= |cands|
    ensures Rejected(g, cands, lo, hi, len) <==>
            forall n :: lo <= n < hi ==> !Fits(g, FromCandidate(cands[n], len))
    decreases hi
  {
    if lo < hi {
      RejectedAll(g, cands, lo, hi - 1, len);
    }
  }

  /** The fleet was drawn first-fit from cands, ship by ship: the last ship
      was built from draw picks[k], at or after the draw that follows the
      previous ship's, it fits on the grid of the ships before it, and every
      draw skipped in between did not fit there for a ship of its length. */
  ghost predicate DrawnFirstFit(start: Grid, cands: seq<Candidate>, fleet: seq<Placement>, picks: seq<nat>)
    requires IsGrid(start)
    decreases |fleet|
  {
    |picks| == |fleet| &&
    (fleet == [] ||
     var k := |fleet| - 1;
     && DrawnFirstFit(start, cands, fleet[..k], picks[..k])
     && Base(picks[..k]) <= picks[k] < |cands|
     && fleet[k] == FromCandidate(cands[picks[k]], fleet[k].len)
     && Fits(Overlay(start, fleet[..k]), fleet[k])
     && Rejected(Overlay(start, fleet[..k]), cands, Base(picks[..k]), picks[k], fleet[k].len))
  }

  /** The fleet was drawn first-fit from cands, of which the first used were
      consumed; the draws consumed after the last ship did not fit the
      current grid for a ship of length nextLen. */
  ghost predicate FirstFit(start: Grid, cands: seq<Candidate>, fleet: seq<Placement>,
                           picks: seq<nat>, used: nat, nextLen: nat)
    requires IsGrid(start)
  {
    && DrawnFirstFit(start, cands, fleet, picks)
    && Base(picks) <= used <= |cands|
    && Rejected(Overlay(start, fleet), cands, Base(picks), used, nextLen)
  }

  /** First-fit drawing spelled out for every ship, the draws taken: they
      are strictly increasing indices into cands, and ship k is built from
      draw picks[k] and fits on the grid of the ships before it. */
  lemma {:induction false} DrawnFirstFitPicks(start: Grid, cands: seq<Candidate>, fleet: seq<Placement>, picks: seq<nat>)
    requires IsGrid(start) && DrawnFirstFit(start, cands, fleet, picks)
    ensures |picks| == |fleet| && Base(picks) <= |cands|
    ensures forall k, l :: 0 <= k < l < |picks| ==> picks[k] < picks[l]
    ensures forall k :: 0 <= k < |fleet| ==>
              picks[k] < |cands| && fleet[k] == FromCandidate(cands[picks[k]], fleet[k].len)
              && Fits(Overlay(start, fleet[..k]), fleet[k])
    decreases |fleet|
  {
    if fleet != [] {
      var m := |fleet| - 1;
      var f, q := fleet[..m], picks[..m];
      DrawnFirstFitPicks(start, cands, f, q);
      forall k | 0 <= k < m
        ensures fleet[..k] == f[..k] && fleet[k] == f[k] && picks[k] == q[k]
      {
      }
      forall k, l | 0 <= k < l < |picks|
        ensures picks[k] < picks[l]
      {
        if l == m && m > 0 {
          assert picks[k] <= q[m - 1];
        }
      }
      assert fleet[..m] == f;
    }
  }

  /** The draws skipped before ship k did not fit for it. */
  lemma {:induction false} SkipsAt(start: Grid, cands: seq<Candidate>, fleet: seq<Placement>, picks: seq<nat>, k: nat)
    requires IsGrid(start) && DrawnFirstFit(start, cands, fleet, picks) && k < |fleet|
    ensures picks[k] <= |cands|
    ensures forall n :: (if k == 0 then 0 else picks[k - 1] + 1) <= n < picks[k] ==>
              !Fits(Overlay(start, fleet[..k]), FromCandidate(cands[n], fleet[k].len))
    decreases |fleet|
  {
    var m := |fleet| - 1;
    var f, q := fleet[..m], picks[..m];
    if k == m {
      RejectedAll(Overlay(start, f), cands, Base(q), picks[m], fleet[m].len);
    } else {
      SkipsAt(start, cands, f, q, k);
      assert fleet[..k] == f[..k] && fleet[k] == f[k] && picks[k] == q[k];
      if k > 0 {
        assert picks[k - 1] == q[k - 1];
      }
    }
  }

  /** First-fit drawing spelled out for every ship, the draws skipped: every
      draw after picks[k-1] and before picks[k] did not fit, for a ship of
      the length of ship k, on the grid of the ships before it. */
  lemma DrawnFirstFitSkips(start: Grid, cands: seq<Candidate>, fleet: seq<Placement>, picks: seq<nat>)
    requires IsGrid(start) && DrawnFirstFit(start, cands, fleet, picks)
    ensures |picks| == |fleet| && forall k :: 0 <= k < |picks| ==> picks[k] <= |cands|
    ensures forall k, n :: 0 <= k < |fleet| && (if k == 0 then 0 else picks[k - 1] + 1) <= n < picks[k] ==>
              !Fits(Overlay(start, fleet[..k]), FromCandidate(cands[n], fleet[k].len))
  {
    forall k | 0 <= k < |fleet|
      ensures picks[k] <= |cands|
      ensures forall n :: (if k == 0 then 0 else picks[k - 1] + 1) <= n < picks[k] ==>
                !Fits(Overlay(start, fleet[..k]), FromCandidate(cands[n], fleet[k].len))
    {
      SkipsAt(start, cands, fleet, picks, k);
    }
  }

  /** Two draws from lo on that both fit, each with every draw before it
      rejected, are the same draw. */
  lemma FirstPick(g: Grid, cands: seq<Candidate>, lo: nat, a: nat, b: nat, len: nat)
    requires IsGrid(g) && a < |cands| && b < |cands|
    requires Rejected(g, cands, lo, a, len) && Fits(g, FromCandidate(cands[a], len)) && lo <= a
    requires Rejected(g, cands, lo, b, len) && Fits(g, FromCandidate(cands[b], len)) && lo <= b
    ensures a == b
  {
    RejectedAll(g, cands, lo, a, len);
    RejectedAll(g, cands, lo, b, len);
  }

  /** First-fit drawing is deterministic: from the same start grid and the
      same draws, fleets of the same lengths are the same ships built from
      the same draws. */
  lemma {:induction false} FirstFitUnique(start: Grid, cands: seq<Candidate>,
                                          f1: seq<Placement>, p1: seq<nat>, f2: seq<Placement>, p2: seq<nat>)
    requires IsGrid(start)
    requires DrawnFirstFit(start, cands, f1, p1) && DrawnFirstFit(start, cands, f2, p2)
    requires Lengths(f1) == Lengths(f2)
    ensures f1 == f2 && p1 == p2
    decreases |f1|
  {
    if f1 != [] {
      var m := |f1| - 1;
      assert Lengths(f1[..m]) == Lengths(f1)[..m] && Lengths(f2[..m]) == Lengths(f2)[..m];
      FirstFitUnique(start, cands, f1[..m], p1[..m], f2[..m], p2[..m]);
      FirstPick(Overlay(start, f1[..m]), cands, Base(p1[..m]), p1[m], p2[m], f1[m].len);
      assert f1 == f1[..m] + [f1[m]] && f2 == f2[..m] + [f2[m]];
      assert p1 == p1[..m] + [p1[m]] && p2 == p2[..m] + [p2[m]];
    }
  }

  /** Progress of laying the fleet drawn first-fit from cands: g shows the
      fleet laid on start, ships counts its cells, the lengths laid so far
      are a prefix of FleetLengths, and the draws were taken first-fit. */
  ghost predicate Drawing(start: Grid, startShips: int, g: Grid, ships: int, cands: seq<Candidate>,
                          fleet: seq<Placement>, picks: seq<nat>, used: nat)
  {
    && Progress(start, startShips, g, ships, fleet)
    && |fleet| <= |FleetLengths| && Lengths(fleet) == FleetLengths[..|fleet|]
    && FirstFit(start, cands, fleet, picks, used, NextLength(|fleet|))
  }

  /** A draw that does not fit the current grid is skipped. */
  lemma DrawReject(start: Grid, startShips: int, g: Grid, ships: int, cands: seq<Candidate>,
                   fleet: seq<Placement>, picks: seq<nat>, used: nat)
    requires Drawing(start, startShips, g, ships, cands, fleet, picks, used)
    requires used < |cands| && !Fits(g, FromCandidate(cands[used], NextLength(|fleet|)))
    ensures Drawing(start, startShips, g, ships, cands, fleet, picks, used + 1)
  {
    LaidIsOverlay(start, g, fleet);
  }

  /** A draw that fits the current grid is laid as the next ship of the fleet. */
  lemma DrawAccept(start: Grid, startShips: int, g: Grid, ships: int, g': Grid,
                   cands: seq<Candidate>, fleet: seq<Placement>, picks: seq<nat>, used: nat, p: Placement)
    requires Drawing(start, startShips, g, ships, cands, fleet, picks, used)
    requires |fleet| < |FleetLengths| && p.len == FleetLengths[|fleet|] && p.len >= 1
    requires used < |cands| && p == FromCandidate(cands[used], p.len) && Fits(g, p)
    requires IsGrid(g')
    requires forall r, c :: InBounds(r, c) ==> g'[r][c] == if Covers(p, r, c) then Ship else g[r][c]
    ensures Drawing(start, startShips, g', ships + p.len, cands, fleet + [p], picks + [used], used + 1)
  {
    ExtendFleet(start, g, g', fleet, p);
    LengthsAppend(fleet, p);
    assert FleetLengths[..|fleet| + 1] == FleetLengths[..|fleet|] + [p.len];
    LaidIsOverlay(start, g, fleet);
    var fleet', picks' := fleet + [p], picks + [used];
    assert fleet'[..|fleet|] == fleet && picks'[..|picks|] == picks;
  }
}
