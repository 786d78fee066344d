/**
 * The board engine of the 2048 game as the program runs it: a square
 * board of tiles updated in place by nested loops, and a score counter.
 *
 * Each method does what the corresponding function of the game does, step
 * by step on the array, and is proved to produce the grid that the
 * specification in modules Rows and Grids describes. The random choices of
 * `spawn_tile` are nondeterministic choices here.
 */
module Engine {
  import opened Rows
  import opened Grids

  /** The board read as a grid of rows. */
  ghost function Cells(b: array2<nat>): (g: Grid)
    reads b
    ensures |g| == b.Length0
    ensures forall i :: 0 <= i < b.Length0 ==> |g[i]| == b.Length1
    ensures forall i, j :: 0 <= i < b.Length0 && 0 <= j < b.Length1 ==> g[i][j] == b[i, j]
  {
    seq(b.Length0, i requires 0 <= i < b.Length0 reads b =>
      seq(b.Length1, j requires 0 <= j < b.Length1 reads b => b[i, j]))
  }

  /** A board equals a grid when they agree cell by cell. */
  lemma SameCells(b: array2<nat>, h: Grid)
    requires |h| == b.Length0
    requires forall i :: 0 <= i < |h| ==> |h[i]| == b.Length1
    requires forall i, j :: 0 <= i < b.Length0 && 0 <= j < b.Length1 ==> b[i, j] == h[i][j]
    ensures Cells(b) == h
  {
    var g := Cells(b);
    forall i | 0 <= i < |h| ensures g[i] == h[i] {
      assert |g[i]| == |h[i]|;
    }
  }

  /**
   * `move`: slides the tiles of every row to the left. Reports whether any
   * tile moved.
   */
  method Move(board: array2<nat>) returns (changed: bool)
    requires board.Length0 == board.Length1
    modifies board
    ensures Cells(board) == SlideAll(old(Cells(board)))
    ensures changed == !Slid(old(Cells(board)))
  {
    var size := board.Length0;
    ghost var g := Cells(board);
    changed := false;
    for i := 0 to size
      invariant forall p, q :: 0 <= p < i && 0 <= q < size ==> board[p, q] == Compact(g[p])[q]
      invariant forall p, q :: i <= p < size && 0 <= q < size ==> board[p, q] == g[p][q]
      invariant changed <==> exists p :: 0 <= p < i && !Compacted(g[p])
    {
      assert Cells(board)[i] == g[i];
      var rowChanged := MoveRow(board, i);
      changed := changed || rowChanged;
    }
    SameCells(board, SlideAll(g));
  }

  /**
   * The inner loop of `move` for row i: one scan in which `pos` is the
   * first free cell once one has been seen, and each later tile is moved
   * to `pos`.
   */
  method MoveRow(board: array2<nat>, i: nat) returns (changed: bool)
    requires i < board.Length0
    modifies board
    ensures forall q :: 0 <= q < board.Length1 ==> board[i, q] == Compact(old(Cells(board))[i])[q]
    ensures forall p, q :: 0 <= p < board.Length0 && p != i && 0 <= q < board.Length1 ==>
      board[p, q] == old(board[p, q])
    ensures changed == !Compacted(old(Cells(board))[i])
  {
    var size := board.Length1;
    ghost var r := Cells(board)[i];
    ghost var nz: Row := [];
    var pos := -1;
    changed := false;
    for j := 0 to size
      invariant nz == NonZeros(r[..j])
      invariant pos == -1 ==> |nz| == j
      invariant pos != -1 ==> 0 <= pos == |nz| < j
      invariant forall k :: 0 <= k < |nz| ==> board[i, k] == nz[k]
      invariant forall k :: |nz| <= k < j ==> board[i, k] == 0
      invariant forall k :: j <= k < size ==> board[i, k] == r[k]
      invariant forall p, q :: 0 <= p < board.Length0 && p != i && 0 <= q < size ==>
        board[p, q] == old(board[p, q])
      invariant changed == !Compacted(r[..j])
    {
      NonZerosSnoc(r, j);
      CompactedSnoc(r, j);
      if board[i, j] == 0 && pos == -1 {
        pos := j;
      } else if board[i, j] != 0 && pos >= 0 {
        board[i, pos] := board[i, j];
        board[i, j] := 0;
        pos := pos + 1;
        changed := true;
      }
      if r[j] != 0 {
        nz := nz + [r[j]];
      }
    }
    assert r[..size] == r;
  }

  /** `reverse`: reverses every row in place by swapping cells from both ends. */
  method Reverse(board: array2<nat>)
    requires board.Length0 == board.Length1
    modifies board
    ensures Cells(board) == ReverseAll(old(Cells(board)))
  {
    var size := board.Length0;
    ghost var g := Cells(board);
    for i := 0 to size
      invariant forall p, q :: 0 <= p < i && 0 <= q < size ==> board[p, q] == g[p][size - 1 - q]
      invariant forall p, q :: i <= p < size && 0 <= q < size ==> board[p, q] == g[p][q]
    {
      assert Cells(board)[i] == g[i];
      ReverseRow(board, i);
    }
    SameCells(board, ReverseAll(g));
  }

  /** The inner loop of `reverse` for row i: swaps cell j with its mirror for each j in the left half. */
  method ReverseRow(board: array2<nat>, i: nat)
    requires i < board.Length0
    modifies board
    ensures forall q :: 0 <= q < board.Length1 ==> board[i, q] == Reversed(old(Cells(board))[i])[q]
    ensures forall p, q :: 0 <= p < board.Length0 && p != i && 0 <= q < board.Length1 ==>
      board[p, q] == old(board[p, q])
  {
    var size := board.Length1;
    ghost var r := Cells(board)[i];
    for j := 0 to size / 2
      invariant forall q :: 0 <= q < j ==> board[i, q] == r[size - 1 - q]
      invariant forall q :: 0 <= q < j ==> board[i, size - 1 - q] == r[q]
      invariant forall q :: j <= q < size - j ==> board[i, q] == r[q]
      invariant forall p, q :: 0 <= p < board.Length0 && p != i && 0 <= q < size ==>
        board[p, q] == old(board[p, q])
    {
      var temp := board[i, j];
      board[i, j] := board[i, size - 1 - j];
      board[i, size - 1 - j] := temp;
    }
    forall q | 0 <= q < size ensures board[i, q] == r[size - 1 - q] {
      if size / 2 <= q < size - size / 2 {
        assert q == size - 1 - q;
      } else if q >= size - size / 2 {
        assert board[i, size - 1 - (size - 1 - q)] == r[size - 1 - q];
      }
    }
  }

  /** The cells the first loops of `transpose` have swapped: the top-left i x i square, then row and column i up to j. */
  ghost predicate Swapped(p: int, q: int, i: int, j: int)
  {
    (p < i && q < i) || (p == i && q < j) || (q == i && p < j)
  }

  /** `transpose`: transposes the board in place by swapping each cell below the diagonal with its mirror. */
  method Transpose(board: array2<nat>)
    requires board.Length0 == board.Length1
    modifies board
    ensures Square(old(Cells(board)))
    ensures Cells(board) == Transposed(old(Cells(board)))
  {
    var size := board.Length0;
    ghost var g := Cells(board);
    for i := 0 to size
      invariant forall p, q :: 0 <= p < size && 0 <= q < size ==>
        board[p, q] == if Swapped(p, q, i, 0) then g[q][p] else g[p][q]
    {
      for j := 0 to i
        invariant forall p, q :: 0 <= p < size && 0 <= q < size ==>
          board[p, q] == if Swapped(p, q, i, j) then g[q][p] else g[p][q]
      {
        var temp := board[i, j];
        board[i, j] := board[j, i];
        board[j, i] := temp;
      }
    }
    SameCells(board, Transposed(g));
  }

  /**
   * `is_game_over`: first looks for an empty cell, then for two equal
   * neighbours in each row i and each column i.
   */
  method IsGameOver(board: array2<nat>) returns (over: bool)
    requires board.Length0 == board.Length1
    ensures over == GameOver(Cells(board))
  {
    var size := board.Length0;
    for i := 0 to size
      invariant forall p, q :: 0 <= p < i && 0 <= q < size ==> board[p, q] != 0
    {
      for j := 0 to size
        invariant forall q :: 0 <= q < j ==> board[i, q] != 0
      {
        if board[i, j] == 0 {
          assert Cells(board)[i][j] == 0;
          return false;
        }
      }
    }
    ghost var g := Cells(board);
    for i := 0 to size
      invariant forall p, q :: 0 <= p < i && 0 <= q < size - 1 ==> g[p][q] != g[p][q + 1]
      invariant forall q :: 0 <= q < size - 1 ==> ColumnApart(g, q, i)
    {
      ghost var next := i + 1;
      for j := 0 to size - 1
        invariant forall q :: 0 <= q < j ==> g[i][q] != g[i][q + 1]
        invariant forall q :: 0 <= q < j ==> ColumnApart(g, q, next)
        invariant forall q :: j <= q < size - 1 ==> ColumnApart(g, q, i)
      {
        if board[i, j] == board[i, j + 1] {
          assert !NoNeighbourPair(g);
          return false;
        }
        if board[j, i] == board[j + 1, i] {
          assert !Apart(g[j], g[j + 1]);
          return false;
        }
        assert ColumnApart(g, j, next) by {
          assert ColumnApart(g, j, i);
          assert g[j][i] == board[j, i] && g[j + 1][i] == board[j + 1, i];
        }
      }
    }
    forall q | 0 <= q < size - 1 ensures Apart(g[q], g[q + 1]) {
      assert ColumnApart(g, q, size);
    }
    over := true;
  }

  /** Rows q and q + 1 of g differ in each of their first c columns. */
  ghost predicate ColumnApart(g: Grid, q: nat, c: nat)
    requires q + 1 < |g| && c <= |g[q]| && c <= |g[q + 1]|
  {
    forall p :: 0 <= p < c ==> g[q][p] != g[q + 1][p]
  }

  /**
   * `spawn_tile`: turns one empty cell into a 2 or a 4. Which cell, and
   * which of the two values, are chosen nondeterministically; the board
   * must have an empty cell.
   */
  method SpawnTile(board: array2<nat>) returns (x: nat, y: nat, v: nat)
    requires HasEmpty(Cells(board))
    modifies board
    ensures x < board.Length0 && y < board.Length1 && old(board[x, y]) == 0
    ensures v == 2 || v == 4
    ensures Cells(board) == Place(old(Cells(board)), x, y, v)
  {
    ghost var g := Cells(board);
    ghost var i, j :| 0 <= i < |g| && 0 <= j < |g[i]| && g[i][j] == 0;
    assert board[i, j] == 0;
    x, y :| x < board.Length0 && y < board.Length1 && board[x, y] == 0;
    var four: bool :| true;
    v := if four then 4 else 2;
    board[x, y] := v;
    SameCells(board, Place(g, x, y, v));
  }

  /**
   * `create_board`: a size x size board of empty cells with two tiles
   * spawned on it. The second spawn needs a second empty cell, so the
   * size must be at least 2.
   */
  method CreateBoard(size: nat) returns (board: array2<nat>)
    requires size >= 2
    ensures fresh(board) && board.Length0 == size && board.Length1 == size
    ensures TwoTiles(Cells(board))
  {
    board := new nat[size, size]((_, _) => 0);
    ghost var e := Cells(board);
    assert e[0][0] == 0;
    var x1, y1, v1 := SpawnTile(board);
    if (x1, y1) == (0, 0) {
      assert Cells(board)[0][1] == 0;
    } else {
      assert Cells(board)[0][0] == 0;
    }
    var x2, y2, v2 := SpawnTile(board);
    TwoSpawns(e, x1, y1, v1, x2, y2, v2);
  }

  /** The game session: the board and the score. */
  class Game {
    var board: array2<nat>
    var score: nat

    ghost predicate Valid()
      reads this
    {
      board.Length0 == board.Length1
    }

    /** A new game: a fresh board from `create_board` and the score reset to 0. */
    constructor (size: nat)
      requires size >= 2
      ensures Valid() && fresh(board) && board.Length0 == size
      ensures TwoTiles(Cells(board)) && score == 0
    {
      var b := CreateBoard(size);
      board := b;
      score := 0;
    }

    /**
     * `merge`: combines equal neighbours row by row, adding the doubled
     * values to the score. Reports whether anything merged.
     */
    method Merge() returns (changed: bool)
      requires Valid()
      modifies this`score, board
      ensures Cells(board) == MergeAll(old(Cells(board)))
      ensures score == old(score) + GridGain(old(Cells(board)))
      ensures changed == AnyPair(old(Cells(board)))
    {
      var size := board.Length0;
      ghost var g := Cells(board);
      changed := false;
      for i := 0 to size
        invariant forall p, q :: 0 <= p < i && 0 <= q < size ==> board[p, q] == MergeRow(g[p])[q]
        invariant forall p, q :: i <= p < size && 0 <= q < size ==> board[p, q] == g[p][q]
        invariant score == old(score) + GridGain(g[..i])
        invariant changed == AnyPair(g[..i])
      {
        assert Cells(board)[i] == g[i];
        var rowChanged := MergeRowAt(i);
        changed := changed || rowChanged;
        AnyPairPrefix(g, i);
        GridGainPrefix(g, i);
      }
      assert g[..size] == g;
      SameCells(board, MergeAll(g));
    }

    /**
     * The inner loop of `merge` for row i: a left-to-right pass that doubles
     * the left cell of each equal nonzero pair, empties the right cell and
     * adds the doubled value to the score.
     */
    method MergeRowAt(i: nat) returns (changed: bool)
      requires Valid() && i < board.Length0
      modifies this`score, board
      ensures forall q :: 0 <= q < board.Length1 ==> board[i, q] == MergeRow(old(Cells(board))[i])[q]
      ensures forall p, q :: 0 <= p < board.Length0 && p != i && 0 <= q < board.Length1 ==>
        board[p, q] == old(board[p, q])
      ensures score == old(score) + MergeGain(old(Cells(board))[i])
      ensures changed == HasPair(old(Cells(board))[i])
    {
      var b := board;
      var size := b.Length0;
      ghost var r := Cells(b)[i];
      ghost var cur := r;
      ghost var gain: nat := 0;
      changed := false;
      MergeStarts(r);
      assert r[..0] == [] && r[0..] == r;
      for j := 0 to size - 1
        invariant |cur| == size
        invariant forall k :: 0 <= k < size ==> b[i, k] == cur[k]
        invariant MergedUpTo(r, cur[..j], cur[j..], gain)
        invariant score == old(score) + gain
        invariant changed <==> gain > 0
        invariant forall p, q :: 0 <= p < size && p != i && 0 <= q < size ==> b[p, q] == old(b[p, q])
      {
        var merged;
        merged, cur, gain := MergeStepAt(i, j, r, cur, gain);
        if merged {
          changed := true;
        }
      }
      MergeDone(r, cur[..size - 1], cur[size - 1..], gain);
      assert cur[..size - 1] + cur[size - 1..] == cur;
      MergeGainPositiveIff(r);
    }

    /**
     * The body of the inner loop of `merge` at column j of row i: merges
     * cells j and j + 1 when they hold the same tile. The ghost cur is row i
     * before the step and gain what the pass has scored so far.
     */
    method MergeStepAt(i: nat, j: nat, ghost r: Row, ghost cur: Row, ghost gain: nat)
      returns (merged: bool, ghost next: Row, ghost gain': nat)
      requires i < board.Length0 && j + 1 < board.Length1 && |cur| == board.Length1
      requires forall k :: 0 <= k < board.Length1 ==> board[i, k] == cur[k]
      requires MergedUpTo(r, cur[..j], cur[j..], gain)
      modifies this`score, board
      ensures |next| == |cur|
      ensures forall k :: 0 <= k < board.Length1 ==> board[i, k] == next[k]
      ensures MergedUpTo(r, next[..j + 1], next[j + 1..], gain')
      ensures gain <= gain' && score == old(score) + (gain' - gain)
      ensures merged <==> gain < gain'
      ensures forall p, q :: 0 <= p < board.Length0 && p != i && 0 <= q < board.Length1 ==>
        board[p, q] == old(board[p, q])
    {
      var b := board;
      assert b[i, j] == cur[j] && b[i, j + 1] == cur[j + 1];
      if b[i, j] != 0 && b[i, j] == b[i, j + 1] {
        MergeStepPair(r, cur[..j], cur[j..], gain);
        PairSlices(cur, j);
        gain' := gain + 2 * cur[j];
        next := cur[j := 2 * cur[j]][j + 1 := 0];
        MergePair(i, j);
        merged := true;
      } else {
        MergeStepSkip(r, cur[..j], cur[j..], gain);
        SkipSlices(cur, j);
        next, gain', merged := cur, gain, false;
      }
    }

    /** One merge of `merge`: doubles cell (i, j), empties cell (i, j + 1) and adds the doubled value to the score. */
    method MergePair(i: nat, j: nat)
      requires i < board.Length0 && j + 1 < board.Length1
      modifies this`score, board
      ensures board[i, j] == 2 * old(board[i, j]) && board[i, j + 1] == 0
      ensures forall p, q :: 0 <= p < board.Length0 && 0 <= q < board.Length1 && (p, q) != (i, j) && (p, q) != (i, j + 1) ==>
        board[p, q] == old(board[p, q])
      ensures score == old(score) + 2 * old(board[i, j])
    {
      var b := board;
      b[i, j] := b[i, j] * 2;
      b[i, j + 1] := 0;
      score := score + b[i, j];
    }

    /**
     * The leftward step of `make_move`: slide, merge, and slide again only
     * if something merged. Reports whether the first slide or the merge
     * changed anything.
     */
    method SlideMergeLeft() returns (changed: bool)
      requires Valid()
      modifies this`score, board
      ensures Cells(board) == SlideMerge(old(Cells(board))).grid
      ensures score == old(score) + SlideMerge(old(Cells(board))).gain
      ensures changed == SlideMerge(old(Cells(board))).changed
    {
      changed := false;
      var moved := Move(board);
      changed := changed || moved;
      var changedIm := Merge();
      changed := changed || changedIm;
      if changedIm {
        var _ := Move(board);
      }
    }

    /**
     * `make_move`: reorients the board so that direction d becomes "left",
     * runs the leftward step, undoes the reorientation, and spawns one tile
     * if anything changed. A move that changes nothing leaves the board and
     * the score as they were.
     */
    method MakeMove(d: Dir)
      requires Valid()
      modifies this`score, board
      ensures Valid()
      ensures score == old(score) + MoveBoard(old(Cells(board)), d).gain
      ensures MoveBoard(old(Cells(board)), d).changed ==>
        SpawnedFrom(MoveBoard(old(Cells(board)), d).grid, Cells(board))
      ensures !MoveBoard(old(Cells(board)), d).changed ==>
        Cells(board) == old(Cells(board)) && score == old(score)
    {
      ghost var g := Cells(board);
      ghost var result := MoveBoard(g, d);
      ToLeft(board, d);
      var changed := SlideMergeLeft();
      FromLeft(board, d);
      MoveBoardChange(g, d);
      if changed {
        var x, y, v := SpawnTile(board);
        assert result.grid[x][y] == 0;
        assert Cells(board) == Place(result.grid, x, y, v);
      }
    }
  }

  /** The first part of `make_move`: transpose for up and down, then reverse for down and right. */
  method ToLeft(board: array2<nat>, d: Dir)
    requires board.Length0 == board.Length1
    modifies board
    ensures Square(old(Cells(board)))
    ensures Cells(board) == Orient(old(Cells(board)), d)
  {
    if d == Up || d == Down {
      Transpose(board);
    }
    if d == Down || d == Right {
      Reverse(board);
    }
  }

  /** The last part of `make_move`: reverse for down and right, then transpose for up and down. */
  method FromLeft(board: array2<nat>, d: Dir)
    requires board.Length0 == board.Length1
    modifies board
    ensures Square(old(Cells(board)))
    ensures Cells(board) == Unorient(old(Cells(board)), d)
  {
    if d == Down || d == Right {
      Reverse(board);
    }
    if d == Up || d == Down {
      Transpose(board);
    }
  }
}
