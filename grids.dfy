/**
 * Grid-level specification of the 2048 board engine.
 *
 * A grid is a sequence of rows. Every direction is reduced to "left" by
 * reorienting the grid (reverse each row, transpose, or both), running the
 * leftward slide and merge on every row, and undoing the reorientation.
 * This module defines that whole step as a function on values, the
 * game-over condition, and what spawning a tile may do; it proves the
 * properties the engine relies on.
 */
module Grids {
  import opened Rows

  type Grid = seq<seq<nat>>

  /** The direction of a move. */
  datatype Dir = Up | Down | Left | Right

  predicate Square(g: Grid)
  {
    forall i :: 0 <= i < |g| ==> |g[i]| == |g|
  }

  /** Every row compacted, as `move` does it. */
  function SlideAll(g: Grid): Grid
  {
    seq(|g|, i requires 0 <= i < |g| => Compact(g[i]))
  }

  /** No row holds a tile behind a gap. */
  predicate Slid(g: Grid)
  {
    forall i :: 0 <= i < |g| ==> Compacted(g[i])
  }

  /** Every row merged, as `merge` does it. */
  function MergeAll(g: Grid): Grid
  {
    seq(|g|, i requires 0 <= i < |g| => MergeRow(g[i]))
  }

  /** Some row holds two neighbouring equal tiles. */
  predicate AnyPair(g: Grid)
  {
    exists i :: 0 <= i < |g| && HasPair(g[i])
  }

  /** The score `merge` adds over the whole grid, row by row. */
  function GridGain(g: Grid): nat
  {
    if g == [] then 0 else GridGain(g[..|g| - 1]) + MergeGain(g[|g| - 1])
  }

  /** Every row reversed, as `reverse` does it. */
  function ReverseAll(g: Grid): Grid
  {
    seq(|g|, i requires 0 <= i < |g| => Reversed(g[i]))
  }

  /** The transpose of a square grid, as `transpose` does it. */
  function Transposed(g: Grid): (h: Grid)
    requires Square(g)
    ensures Square(h)
  {
    seq(|g|, i requires 0 <= i < |g| => seq(|g|, j requires 0 <= j < |g| => g[j][i]))
  }

  /** The reorientation `make_move` applies before the leftward step. */
  function Orient(g: Grid, d: Dir): (h: Grid)
    requires Square(g)
    ensures Square(h)
  {
    match d
    case Left => g
    case Right => ReverseAll(g)
    case Up => Transposed(g)
    case Down => ReverseAll(Transposed(g))
  }

  /** The reorientation `make_move` applies after the leftward step. */
  function Unorient(g: Grid, d: Dir): (h: Grid)
    requires Square(g)
    ensures Square(h)
  {
    match d
    case Left => g
    case Right => ReverseAll(g)
    case Up => Transposed(g)
    case Down => Transposed(ReverseAll(g))
  }

  /** What a move produces: the new grid, the score it adds, and whether it reports a change. */
  datatype Outcome = Outcome(grid: Grid, gain: nat, changed: bool)

  /**
   * The leftward step of `make_move`: slide, merge, and slide again only if
   * something merged. The change flag is "the first slide moved a tile or
   * the merge combined a pair". Each row is scanned across the board's
   * width, so the grid is square. The step keeps the grid's shape.
   */
  function SlideMerge(g: Grid): (o: Outcome)
    requires Square(g)
    ensures |o.grid| == |g|
    ensures forall i :: 0 <= i < |g| ==> |o.grid[i]| == |g[i]|
  {
    var slid := SlideAll(g);
    var merged := MergeAll(slid);
    Outcome(if AnyPair(slid) then SlideAll(merged) else merged,
            GridGain(slid),
            !Slid(g) || AnyPair(slid))
  }

  /** A whole move in direction d, before the new tile is spawned. */
  function MoveBoard(g: Grid, d: Dir): (o: Outcome)
    requires Square(g)
    ensures Square(o.grid) && |o.grid| == |g|
  {
    var o := SlideMerge(Orient(g, d));
    o.(grid := Unorient(o.grid, d))
  }

  predicate HasEmpty(g: Grid)
  {
    exists i, j :: 0 <= i < |g| && 0 <= j < |g[i]| && g[i][j] == 0
  }

  /** No two horizontally or vertically neighbouring cells are equal. */
  predicate NoNeighbourPair(g: Grid)
    requires Square(g)
  {
    (forall i, j :: 0 <= i < |g| && 0 <= j < |g| - 1 ==> g[i][j] != g[i][j + 1]) &&
    (forall i :: 0 <= i < |g| - 1 ==> Apart(g[i], g[i + 1]))
  }

  /** No cell of row a equals the cell below it in row b. */
  predicate Apart(a: Row, b: Row)
  {
    forall j :: 0 <= j < |a| && j < |b| ==> a[j] != b[j]
  }

  /** The game is over: the board is full and no two neighbours in a row or column are equal. */
  predicate GameOver(g: Grid)
    requires Square(g)
  {
    !HasEmpty(g) && NoNeighbourPair(g)
  }

  /** The grid g with cell (i, j) set to v. */
  function Place(g: Grid, i: nat, j: nat, v: nat): Grid
    requires i < |g| && j < |g[i]|
  {
    var row: seq<nat> := g[i][j := v];
    g[i := row]
  }

  /** h is g with exactly one empty cell turned into a 2 or a 4. */
  predicate SpawnedFrom(g: Grid, h: Grid)
  {
    exists i, j :: 0 <= i < |g| && 0 <= j < |g[i]| && g[i][j] == 0 &&
      (h == Place(g, i, j, 2) || h == Place(g, i, j, 4))
  }

  /** Exactly two cells hold a tile, each a 2 or a 4: the board `create_board` returns. */
  predicate TwoTiles(g: Grid)
  {
    exists i1, j1, i2, j2 ::
      0 <= i1 < |g| && 0 <= j1 < |g[i1]| && 0 <= i2 < |g| && 0 <= j2 < |g[i2]| &&
      (i1, j1) != (i2, j2) && g[i1][j1] in {2, 4} && g[i2][j2] in {2, 4} &&
      forall i, j :: 0 <= i < |g| && 0 <= j < |g[i]| && (i, j) != (i1, j1) && (i, j) != (i2, j2) ==> g[i][j] == 0
  }

  /** Two spawns on an empty grid, the second on a cell still empty, leave exactly two tiles. */
  lemma TwoSpawns(e: Grid, i1: nat, j1: nat, v1: nat, i2: nat, j2: nat, v2: nat)
    requires forall i, j :: 0 <= i < |e| && 0 <= j < |e[i]| ==> e[i][j] == 0
    requires i1 < |e| && j1 < |e[i1]| && i2 < |e| && j2 < |e[i2]|
    requires Place(e, i1, j1, v1)[i2][j2] == 0
    requires v1 in {2, 4} && v2 in {2, 4}
    ensures TwoTiles(Place(Place(e, i1, j1, v1), i2, j2, v2))
  {
    var h := Place(Place(e, i1, j1, v1), i2, j2, v2);
    assert (i1, j1) != (i2, j2);
    assert h[i1][j1] == v1 && h[i2][j2] == v2;
    forall i, j | 0 <= i < |h| && 0 <= j < |h[i]| && (i, j) != (i1, j1) && (i, j) != (i2, j2)
      ensures h[i][j] == 0
    {
      assert h[i][j] == e[i][j];
    }
  }

  // ---------------------------------------------------------------------
  // Slide and merge over a grid

  /** `move` changes the grid exactly when some row holds a tile behind a gap. */
  lemma SlideAllFixesSlid(g: Grid)
    ensures SlideAll(g) == g <==> Slid(g)
  {
    if Slid(g) {
      forall i | 0 <= i < |g| ensures SlideAll(g)[i] == g[i] {
        CompactFixesCompacted(g[i]);
      }
    }
    if SlideAll(g) == g {
      forall i | 0 <= i < |g| ensures Compacted(g[i]) {
        assert Compact(g[i]) == g[i];
      }
    }
  }

  /** After one `move` a second `move` reports no change and changes nothing. */
  lemma SlideAllIdempotent(g: Grid)
    ensures Slid(SlideAll(g))
    ensures SlideAll(SlideAll(g)) == SlideAll(g)
  {
    SlideAllFixesSlid(SlideAll(g));
  }

  /**
   * `merge` adds to the score exactly when some row holds two neighbouring
   * equal tiles, and without such a pair it changes no row.
   */
  lemma {:induction false} GridGainPositiveIff(g: Grid)
    ensures GridGain(g) > 0 <==> AnyPair(g)
    ensures !AnyPair(g) ==> MergeAll(g) == g
  {
    if g != [] {
      var n := |g|;
      var init := g[..n - 1];
      GridGainPositiveIff(init);
      MergeGainPositiveIff(g[n - 1]);
      if AnyPair(g) {
        var i :| 0 <= i < n && HasPair(g[i]);
        if i < n - 1 {
          assert HasPair(init[i]);
        }
      }
      if AnyPair(init) {
        var i :| 0 <= i < n - 1 && HasPair(init[i]);
        assert HasPair(g[i]);
      }
      if !AnyPair(g) {
        forall i | 0 <= i < n ensures MergeAll(g)[i] == g[i] {
          MergeGainPositiveIff(g[i]);
        }
      }
    }
  }

  /** The rows before i hold a pair exactly when the rows before i - 1 do or row i - 1 does. */
  lemma AnyPairPrefix(g: Grid, i: nat)
    requires i < |g|
    ensures AnyPair(g[..i + 1]) <==> AnyPair(g[..i]) || HasPair(g[i])
  {
    if AnyPair(g[..i + 1]) {
      var p :| 0 <= p < i + 1 && HasPair(g[..i + 1][p]);
      if p < i {
        assert HasPair(g[..i][p]);
      }
    }
    if AnyPair(g[..i]) {
      var p :| 0 <= p < i && HasPair(g[..i][p]);
      assert HasPair(g[..i + 1][p]);
    }
    if HasPair(g[i]) {
      assert HasPair(g[..i + 1][i]);
    }
  }

  /** The score of the rows before i + 1 is that of the rows before i plus row i's. */
  lemma GridGainPrefix(g: Grid, i: nat)
    requires i < |g|
    ensures GridGain(g[..i + 1]) == GridGain(g[..i]) + MergeGain(g[i])
  {
    assert g[..i + 1][..i] == g[..i];
  }

  /** A grid with more cells than tiles in some row has an empty cell there. */
  lemma RowHasEmpty(g: Grid, i: nat)
    requires i < |g| && |NonZeros(g[i])| < |g[i]|
    ensures HasEmpty(g)
  {
    FewerTilesHasEmpty(g[i]);
  }

  /** A row that is not compacted has fewer tiles than cells. */
  lemma UncompactedHasEmpty(s: Row)
    requires !Compacted(s)
    ensures |NonZeros(s)| < |s|
  {
    if |NonZeros(s)| == |s| {
      NonZerosCountsAll(s);
    }
  }

  /** A leftward step that reports no change leaves the grid and the score as they were. */
  lemma SlideMergeNoChange(g: Grid)
    requires Square(g)
    ensures !SlideMerge(g).changed ==> SlideMerge(g).grid == g && SlideMerge(g).gain == 0
  {
    var slid := SlideAll(g);
    if !SlideMerge(g).changed {
      SlideAllFixesSlid(g);
      GridGainPositiveIff(slid);
    }
  }

  /**
   * A leftward step that reports a change does change the grid, and leaves
   * at least one empty cell for the new tile.
   */
  lemma SlideMergeChanged(g: Grid)
    requires Square(g)
    ensures SlideMerge(g).changed ==> SlideMerge(g).grid != g && HasEmpty(SlideMerge(g).grid)
  {
    var slid := SlideAll(g);
    var merged := MergeAll(slid);
    var o := SlideMerge(g);
    if AnyPair(slid) {
      var i :| 0 <= i < |slid| && HasPair(slid[i]);
      MergeLosesTile(slid[i]);
      assert o.grid[i] == Compact(merged[i]);
      assert |NonZeros(o.grid[i])| < |NonZeros(g[i])|;
      RowHasEmpty(o.grid, i);
    } else if o.changed {
      GridGainPositiveIff(slid);
      var i :| 0 <= i < |g| && !Compacted(g[i]);
      assert o.grid[i] == Compact(g[i]);
      UncompactedHasEmpty(g[i]);
      RowHasEmpty(o.grid, i);
    }
  }

  // ---------------------------------------------------------------------
  // Reorientation

  /** `reverse` applied twice restores the grid. */
  lemma ReverseAllTwice(g: Grid)
    ensures ReverseAll(ReverseAll(g)) == g
  {
    forall i | 0 <= i < |g| ensures ReverseAll(ReverseAll(g))[i] == g[i] {
      ReversedTwice(g[i]);
    }
  }

  /** `transpose` applied twice restores a square grid. */
  lemma TransposedTwice(g: Grid)
    requires Square(g)
    ensures Transposed(Transposed(g)) == g
  {
    var t := Transposed(Transposed(g));
    forall i | 0 <= i < |g| ensures t[i] == g[i] {
      assert |t[i]| == |g[i]|;
      forall j | 0 <= j < |g| ensures t[i][j] == g[i][j] {
      }
    }
  }

  /** Undoing the reorientation after applying it gives the grid back. */
  lemma UnorientOrient(g: Grid, d: Dir)
    requires Square(g)
    ensures Unorient(Orient(g, d), d) == g
  {
    match d
    case Left =>
    case Right => ReverseAllTwice(g);
    case Up => TransposedTwice(g);
    case Down =>
      ReverseAllTwice(Transposed(g));
      TransposedTwice(g);
  }

  /** Applying the reorientation after undoing it gives the grid back. */
  lemma OrientUnorient(g: Grid, d: Dir)
    requires Square(g)
    ensures Orient(Unorient(g, d), d) == g
  {
    match d
    case Left =>
    case Right => ReverseAllTwice(g);
    case Up => TransposedTwice(g);
    case Down =>
      TransposedTwice(ReverseAll(g));
      ReverseAllTwice(g);
  }

  lemma ReverseAllKeepsEmpty(g: Grid)
    requires HasEmpty(g)
    ensures HasEmpty(ReverseAll(g))
  {
    var i, j :| 0 <= i < |g| && 0 <= j < |g[i]| && g[i][j] == 0;
    assert ReverseAll(g)[i][|g[i]| - 1 - j] == 0;
  }

  lemma TransposedKeepsEmpty(g: Grid)
    requires Square(g) && HasEmpty(g)
    ensures HasEmpty(Transposed(g))
  {
    var i, j :| 0 <= i < |g| && 0 <= j < |g[i]| && g[i][j] == 0;
    assert Transposed(g)[j][i] == 0;
  }

  lemma UnorientKeepsEmpty(g: Grid, d: Dir)
    requires Square(g) && HasEmpty(g)
    ensures HasEmpty(Unorient(g, d))
  {
    match d
    case Left =>
    case Right => ReverseAllKeepsEmpty(g);
    case Up => TransposedKeepsEmpty(g);
    case Down =>
      ReverseAllKeepsEmpty(g);
      TransposedKeepsEmpty(ReverseAll(g));
  }

  // ---------------------------------------------------------------------
  // Whole moves

  /**
   * A move reports a change exactly when it changes the board. A move that
   * reports no change adds nothing to the score; one that reports a change
   * leaves an empty cell, so the tile it spawns always has room.
   */
  lemma MoveBoardChange(g: Grid, d: Dir)
    requires Square(g)
    ensures MoveBoard(g, d).changed <==> MoveBoard(g, d).grid != g
    ensures !MoveBoard(g, d).changed ==> MoveBoard(g, d).gain == 0
    ensures MoveBoard(g, d).changed ==> HasEmpty(MoveBoard(g, d).grid)
  {
    var h := Orient(g, d);
    var o := SlideMerge(h);
    SlideMergeNoChange(h);
    SlideMergeChanged(h);
    UnorientOrient(g, d);
    if o.changed {
      OrientUnorient(o.grid, d);
      UnorientKeepsEmpty(o.grid, d);
    }
  }

  lemma GameOverNoPair(g: Grid)
    requires Square(g) && GameOver(g)
    ensures Slid(g) && !AnyPair(g)
  {
  }

  lemma GameOverReverseAll(g: Grid)
    requires Square(g) && GameOver(g)
    ensures Square(ReverseAll(g)) && GameOver(ReverseAll(g))
  {
    var r := ReverseAll(g);
    var n := |g|;
    if HasEmpty(r) {
      ReverseAllKeepsEmpty(r);
      ReverseAllTwice(g);
      assert false;
    }
    forall i, j | 0 <= i < n && 0 <= j < n - 1 ensures r[i][j] != r[i][j + 1] {
      assert r[i][j] == g[i][n - 1 - j] && r[i][j + 1] == g[i][n - 2 - j];
    }
    forall i | 0 <= i < n - 1 ensures Apart(r[i], r[i + 1]) {
      forall j | 0 <= j < n ensures r[i][j] != r[i + 1][j] {
        assert Apart(g[i], g[i + 1]);
        assert r[i][j] == g[i][n - 1 - j] && r[i + 1][j] == g[i + 1][n - 1 - j];
      }
    }
  }

  lemma GameOverTransposed(g: Grid)
    requires Square(g) && GameOver(g)
    ensures GameOver(Transposed(g))
  {
    var t := Transposed(g);
    if HasEmpty(t) {
      TransposedKeepsEmpty(t);
      TransposedTwice(g);
      assert false;
    }
    forall i, j | 0 <= i < |g| && 0 <= j < |g| - 1 ensures t[i][j] != t[i][j + 1] {
      assert t[i][j] == g[j][i] && t[i][j + 1] == g[j + 1][i];
    }
  }

  /** When the game is over, no direction changes the board: every move is a no-op. */
  lemma GameOverBlocksEveryMove(g: Grid, d: Dir)
    requires Square(g) && GameOver(g)
    ensures !MoveBoard(g, d).changed
  {
    var h := Orient(g, d);
    assert GameOver(h) by {
      match d
      case Left =>
      case Right => GameOverReverseAll(g);
      case Up => GameOverTransposed(g);
      case Down =>
        GameOverTransposed(g);
        GameOverReverseAll(Transposed(g));
    }
    GameOverNoPair(h);
    SlideAllFixesSlid(h);
  }

  // ---------------------------------------------------------------------
  // Where the values of a moved board come from

  /** The set of values the cells of g hold. */
  function Values(g: Grid): set<nat>
  {
    set i, j | 0 <= i < |g| && 0 <= j < |g[i]| :: g[i][j]
  }

  /** x is an empty cell, a value of vals, or the double of one. */
  predicate Formed(x: nat, vals: set<nat>)
  {
    x == 0 || x in vals || exists y :: y in vals && x == 2 * y
  }

  lemma RowValues(g: Grid, i: nat, x: nat)
    requires i < |g| && x in g[i]
    ensures x in Values(g)
  {
    var j :| 0 <= j < |g[i]| && g[i][j] == x;
  }

  /** Formed from a row of g means formed from the values of g. */
  lemma FormedFromRow(g: Grid, i: nat, x: nat)
    requires i < |g| && FormedFrom(x, g[i])
    ensures Formed(x, Values(g))
  {
    if x in g[i] {
      RowValues(g, i, x);
    } else if x != 0 {
      var y :| y in g[i] && x == 2 * y;
      RowValues(g, i, y);
    }
  }

  /** The leftward step brings no new value: each cell is empty, an old value, or the double of one. */
  lemma SlideMergeFormed(g: Grid)
    requires Square(g)
    ensures forall i, j :: 0 <= i < |g| && 0 <= j < |g| ==> Formed(SlideMerge(g).grid[i][j], Values(g))
  {
    var o := SlideMerge(g);
    forall i, j | 0 <= i < |g| && 0 <= j < |g| ensures Formed(o.grid[i][j], Values(g)) {
      LeftStepFrom(g[i]);
      assert o.grid[i][j] in o.grid[i];
      FormedFromRow(g, i, o.grid[i][j]);
    }
  }

  lemma ReverseAllValues(g: Grid)
    ensures Values(ReverseAll(g)) <= Values(g)
  {
    var r := ReverseAll(g);
    forall x | x in Values(r) ensures x in Values(g) {
      var i, j :| 0 <= i < |r| && 0 <= j < |r[i]| && r[i][j] == x;
      assert g[i][|g[i]| - 1 - j] == x;
    }
  }

  lemma TransposedValues(g: Grid)
    requires Square(g)
    ensures Values(Transposed(g)) <= Values(g)
  {
    var t := Transposed(g);
    forall x | x in Values(t) ensures x in Values(g) {
      var i, j :| 0 <= i < |t| && 0 <= j < |t[i]| && t[i][j] == x;
      assert g[j][i] == x;
    }
  }

  /** Reorienting the board brings in no new value, in either direction. */
  lemma OrientValues(g: Grid, d: Dir)
    requires Square(g)
    ensures Values(Orient(g, d)) <= Values(g)
    ensures Values(Unorient(g, d)) <= Values(g)
  {
    match d
    case Left =>
    case Right => ReverseAllValues(g);
    case Up => TransposedValues(g);
    case Down =>
      TransposedValues(g);
      ReverseAllValues(Transposed(g));
      ReverseAllValues(g);
      TransposedValues(ReverseAll(g));
  }

  /**
   * A move brings no new value onto the board: every cell of the moved
   * board is empty, holds a value the board held before, or holds the
   * double of such a value.
   */
  lemma MoveFormed(g: Grid, d: Dir)
    requires Square(g)
    ensures forall i, j :: 0 <= i < |g| && 0 <= j < |g| ==> Formed(MoveBoard(g, d).grid[i][j], Values(g))
  {
    var h := Orient(g, d);
    var o := SlideMerge(h);
    var res := MoveBoard(g, d).grid;
    OrientValues(g, d);
    OrientValues(o.grid, d);
    SlideMergeFormed(h);
    forall i, j | 0 <= i < |g| && 0 <= j < |g| ensures Formed(res[i][j], Values(g)) {
      var x := res[i][j];
      assert x in Values(res);
      assert x in Values(o.grid);
      var p, q :| 0 <= p < |o.grid| && 0 <= q < |o.grid[p]| && o.grid[p][q] == x;
      assert Formed(x, Values(h));
      if x != 0 && x !in Values(h) {
        var y :| y in Values(h) && x == 2 * y;
        assert y in Values(g);
      }
    }
  }

  /** Every cell of h except (i0, j0) is formed from vals. */
  predicate FormedBut(h: Grid, vals: set<nat>, i0: nat, j0: nat)
  {
    forall i, j :: 0 <= i < |h| && 0 <= j < |h[i]| && (i, j) != (i0, j0) ==> Formed(h[i][j], vals)
  }

  /** Every cell of h except (i0, j0) holds what it holds in m. */
  predicate SameBut(m: Grid, h: Grid, i0: nat, j0: nat)
    requires |h| == |m| && forall i :: 0 <= i < |h| ==> |h[i]| == |m[i]|
  {
    forall i, j :: 0 <= i < |h| && 0 <= j < |h[i]| && (i, j) != (i0, j0) ==> h[i][j] == m[i][j]
  }

  /** A spawn changes only the cell it fills, with a 2 or a 4. */
  lemma SpawnKeepsFormed(m: Grid, h: Grid, vals: set<nat>)
    requires forall i, j :: 0 <= i < |m| && 0 <= j < |m[i]| ==> Formed(m[i][j], vals)
    requires SpawnedFrom(m, h)
    ensures |h| == |m| && forall i :: 0 <= i < |h| ==> |h[i]| == |m[i]|
    ensures exists i0, j0 ::
      0 <= i0 < |h| && 0 <= j0 < |h[i0]| && m[i0][j0] == 0 && h[i0][j0] in {2, 4} &&
      FormedBut(h, vals, i0, j0) && SameBut(m, h, i0, j0)
  {
    var i0, j0 :| 0 <= i0 < |m| && 0 <= j0 < |m[i0]| && m[i0][j0] == 0 &&
      (h == Place(m, i0, j0, 2) || h == Place(m, i0, j0, 4));
    var v := if h == Place(m, i0, j0, 2) then 2 else 4;
    assert h == Place(m, i0, j0, v) && h[i0][j0] == v;
    forall i, j | 0 <= i < |h| && 0 <= j < |h[i]| && (i, j) != (i0, j0)
      ensures h[i][j] == m[i][j] && Formed(h[i][j], vals)
    {
    }
    assert FormedBut(h, vals, i0, j0) && SameBut(m, h, i0, j0);
  }

  /**
   * After a move and its spawn, every cell but one is empty, an old value
   * or the double of one; that one cell is the spawned 2 or 4.
   */
  lemma MoveThenSpawnFormed(g: Grid, d: Dir, h: Grid)
    requires Square(g) && SpawnedFrom(MoveBoard(g, d).grid, h)
    ensures exists i0, j0 :: 0 <= i0 < |h| && 0 <= j0 < |h[i0]| && h[i0][j0] in {2, 4} && FormedBut(h, Values(g), i0, j0)
  {
    MoveFormed(g, d);
    SpawnKeepsFormed(MoveBoard(g, d).grid, h, Values(g));
  }

  // ---------------------------------------------------------------------
  // The multiset of tiles

  /** The tiles of the first m rows, each cut to its first k cells. */
  function Block(g: Grid, m: nat, k: nat): multiset<nat>
    requires m <= |g| && forall i :: 0 <= i < m ==> k <= |g[i]|
  {
    if m == 0 then multiset{} else Block(g, m - 1, k) + multiset(g[m - 1][..k])
  }

  /** The tiles of column j in the first m rows. */
  function Column(g: Grid, j: nat, m: nat): multiset<nat>
    requires m <= |g| && forall i :: 0 <= i < m ==> j < |g[i]|
  {
    if m == 0 then multiset{} else Column(g, j, m - 1) + multiset{g[m - 1][j]}
  }

  /** The tiles of the first k columns in the first m rows, column by column. */
  function Columns(g: Grid, k: nat, m: nat): multiset<nat>
    requires m <= |g| && forall i :: 0 <= i < m ==> k <= |g[i]|
  {
    if k == 0 then multiset{} else Columns(g, k - 1, m) + Column(g, k - 1, m)
  }

  /** Every cell value of a square grid, with multiplicity. */
  function Tiles(g: Grid): multiset<nat>
    requires Square(g)
  {
    Block(g, |g|, |g|)
  }

  lemma {:induction false} BlockNoColumns(g: Grid, m: nat)
    requires m <= |g|
    ensures Block(g, m, 0) == multiset{}
  {
    if m > 0 {
      BlockNoColumns(g, m - 1);
    }
  }

  lemma {:induction false} BlockAddColumn(g: Grid, m: nat, k: nat)
    requires m <= |g| && forall i :: 0 <= i < m ==> k < |g[i]|
    ensures Block(g, m, k + 1) == Block(g, m, k) + Column(g, k, m)
  {
    if m > 0 {
      var row := g[m - 1];
      var a, b := Block(g, m - 1, k), Column(g, k, m - 1);
      var c, e := multiset(row[..k]), multiset{row[k]};
      assert Block(g, m, k + 1) == (a + b) + (c + e) by {
        BlockAddColumn(g, m - 1, k);
        assert row[..k + 1] == row[..k] + [row[k]];
      }
      assert Block(g, m, k) + Column(g, k, m) == (a + c) + (b + e);
      MultisetSwap(a, b, c, e);
    }
  }

  lemma MultisetSwap(a: multiset<nat>, b: multiset<nat>, c: multiset<nat>, e: multiset<nat>)
    ensures (a + b) + (c + e) == (a + c) + (b + e)
  {
  }

  /** Counting row by row or column by column gives the same tiles. */
  lemma {:induction false} BlockByColumns(g: Grid, m: nat, k: nat)
    requires m <= |g| && forall i :: 0 <= i < m ==> k <= |g[i]|
    ensures Block(g, m, k) == Columns(g, k, m)
  {
    if k == 0 {
      BlockNoColumns(g, m);
    } else {
      BlockByColumns(g, m, k - 1);
      BlockAddColumn(g, m, k - 1);
    }
  }

  /** t is the transpose of the square grid g, stated cell by cell. */
  predicate IsTransposeOf(t: Grid, g: Grid)
  {
    Square(g) && Square(t) && |t| == |g| &&
    forall i, j :: 0 <= i < |g| && 0 <= j < |g| ==> t[i][j] == g[j][i]
  }

  lemma {:induction false} TransposedRowIsColumn(g: Grid, t: Grid, i: nat, m: nat)
    requires IsTransposeOf(t, g) && i < |g| && m <= |g|
    ensures multiset(t[i][..m]) == Column(g, i, m)
  {
    if m > 0 {
      TransposedRowIsColumn(g, t, i, m - 1);
      var row := t[i];
      assert row[..m] == row[..m - 1] + [row[m - 1]];
    }
  }

  lemma {:induction false} BlockTransposed(g: Grid, t: Grid, m: nat)
    requires IsTransposeOf(t, g) && m <= |g|
    ensures Block(t, m, |g|) == Columns(g, m, |g|)
  {
    if m > 0 {
      BlockTransposed(g, t, m - 1);
      TransposedRowIsColumn(g, t, m - 1, |g|);
    }
  }

  /** `transpose` keeps the multiset of cell values. */
  lemma TransposedKeepsTiles(g: Grid)
    requires Square(g)
    ensures Tiles(Transposed(g)) == Tiles(g)
  {
    var t := Transposed(g);
    assert IsTransposeOf(t, g);
    BlockTransposed(g, t, |g|);
    BlockByColumns(g, |g|, |g|);
  }

  lemma {:induction false} BlockReversed(g: Grid, m: nat)
    requires Square(g) && m <= |g|
    ensures Block(ReverseAll(g), m, |g|) == Block(g, m, |g|)
  {
    if m > 0 {
      BlockReversed(g, m - 1);
      var row := g[m - 1];
      assert row[..|g|] == row;
      assert ReverseAll(g)[m - 1][..|g|] == Reversed(row);
      ReversedKeepsTiles(row);
    }
  }

  /** `reverse` keeps the multiset of cell values. */
  lemma ReverseAllKeepsTiles(g: Grid)
    requires Square(g)
    ensures Square(ReverseAll(g)) && Tiles(ReverseAll(g)) == Tiles(g)
  {
    BlockReversed(g, |g|);
  }

  // ---------------------------------------------------------------------
  // Worked examples

  /** `move` on a board of four rows, row by row. */
  lemma SlideAllFour(a: Row, b: Row, c: Row, e: Row)
    ensures SlideAll([a, b, c, e]) == [Compact(a), Compact(b), Compact(c), Compact(e)]
  {
  }

  /** `merge` on a board of four rows, row by row; a pair in the first row is a pair of the board. */
  lemma MergeAllFour(a: Row, b: Row, c: Row, e: Row)
    ensures MergeAll([a, b, c, e]) == [MergeRow(a), MergeRow(b), MergeRow(c), MergeRow(e)]
    ensures HasPair(a) ==> AnyPair([a, b, c, e])
  {
    if HasPair(a) {
      assert HasPair([a, b, c, e][0]);
    }
  }

  /** The score `merge` adds on a board of four rows is the sum of the rows' scores. */
  lemma GridGainFour(a: Row, b: Row, c: Row, e: Row)
    ensures GridGain([a, b, c, e]) == MergeGain(a) + MergeGain(b) + MergeGain(c) + MergeGain(e)
  {
    var g: Grid := [a, b, c, e];
    var g3: Grid := [a, b, c];
    var g2: Grid := [a, b];
    var g1: Grid := [a];
    assert g[..3] == g3 && g3[..2] == g2 && g2[..1] == g1 && g1[..0] == [];
    assert GridGain(g1) == MergeGain(a);
    assert GridGain(g2) == GridGain(g1) + MergeGain(b);
    assert GridGain(g3) == GridGain(g2) + MergeGain(c);
    assert GridGain(g) == GridGain(g3) + MergeGain(e);
  }

  /**
   * On a 4x4 board whose top row is [2, 0, 2, 0] and whose other rows are
   * empty, a move left turns the top row into [4, 0, 0, 0], scores 4 and
   * reports a change: the slide runs before the merge.
   */
  lemma GapThenMergeExample()
    ensures MoveBoard([[2, 0, 2, 0], [0, 0, 0, 0], [0, 0, 0, 0], [0, 0, 0, 0]], Left) ==
      Outcome([[4, 0, 0, 0], [0, 0, 0, 0], [0, 0, 0, 0], [0, 0, 0, 0]], 4, true)
  {
    var z: Row := [0, 0, 0, 0];
    var top: Row := [2, 0, 2, 0];
    var slid: Row := [2, 2, 0, 0];
    var merged: Row := [4, 0, 0, 0];
    GapThenMergeRows();
    EmptyRowStays();
    assert HasPair(slid) by { assert slid[0] == slid[1] != 0; }
    SlideAllFour(top, z, z, z);
    MergeAllFour(slid, z, z, z);
    GridGainFour(slid, z, z, z);
    SlideAllFour(merged, z, z, z);
  }

  /** The full 2x2 board [[2, 4], [4, 2]] is game over. */
  lemma FullCheckerboardIsOver()
    ensures GameOver([[2, 4], [4, 2]])
  {
  }
}
