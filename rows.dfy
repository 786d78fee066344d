/**
 * Row-level specification of the 2048 board engine.
 *
 * A row is a sequence of tiles; 0 is an empty cell. The engine always works
 * on rows "to the left": `move` compacts a row and `merge` combines adjacent
 * equal tiles in one left-to-right pass. The functions here say what those
 * two loops compute for a single row; the imperative methods in module
 * Engine are proved against them.
 */
module Rows {

  type Row = seq<nat>

  /** The nonzero tiles of a row, in their original order. */
  function NonZeros(s: Row): (r: Row)
    ensures |r| <= |s|
    ensures forall k :: 0 <= k < |r| ==> r[k] != 0
  {
    if s == [] then []
    else if s[0] != 0 then [s[0]] + NonZeros(s[1..])
    else NonZeros(s[1..])
  }

  /** A row of n empty cells. */
  function Zeros(n: nat): (r: Row)
    ensures |r| == n
    ensures forall k :: 0 <= k < n ==> r[k] == 0
  {
    seq(n, _ => 0)
  }

  /** No tile stands to the right of an empty cell. */
  predicate Compacted(s: Row)
  {
    forall i, j :: 0 <= i < j < |s| && s[i] == 0 ==> s[j] == 0
  }

  /**
   * What `move` does to one row: the tiles slide to the left. The result
   * has the row's length, holds no tile behind a gap, and keeps exactly
   * the row's tiles in their order.
   */
  function Compact(s: Row): (r: Row)
    ensures |r| == |s|
    ensures Compacted(r)
    ensures NonZeros(r) == NonZeros(s)
  {
    var nz := NonZeros(s);
    var z := Zeros(|s| - |nz|);
    NonZerosAppend(nz, z);
    NonZerosOfTiles(nz);
    NonZerosOfEmpty(z);
    nz + z
  }

  /** Sum of the tiles of a row. */
  function Sum(s: Row): nat
  {
    if s == [] then 0 else s[0] + Sum(s[1..])
  }

  /** Two neighbouring cells hold the same tile. */
  predicate HasPair(s: Row)
  {
    exists k :: 0 <= k < |s| - 1 && s[k] != 0 && s[k] == s[k + 1]
  }

  /**
   * What `merge` does to one row: a single left-to-right pass that doubles
   * the left cell of an equal nonzero pair and empties the right cell. The
   * emptied cell is then compared with its right neighbour and, being 0,
   * never merges again in the same pass.
   */
  function MergeRow(s: Row): (r: Row)
    ensures |r| == |s|
  {
    if |s| < 2 then s
    else if s[0] != 0 && s[0] == s[1] then [2 * s[0], 0] + MergeRow(s[2..])
    else [s[0]] + MergeRow(s[1..])
  }

  /** The amount `merge` adds to the score for one row: the doubled values it writes. */
  function MergeGain(s: Row): nat
  {
    if |s| < 2 then 0
    else if s[0] != 0 && s[0] == s[1] then 2 * s[0] + MergeGain(s[2..])
    else MergeGain(s[1..])
  }

  /** Reversal of a row, as `reverse` does it to every row. */
  function Reversed(s: Row): (r: Row)
    ensures |r| == |s|
  {
    seq(|s|, k requires 0 <= k < |s| => s[|s| - 1 - k])
  }

  // ---------------------------------------------------------------------
  // NonZeros

  lemma {:induction false} NonZerosAppend(s: Row, t: Row)
    ensures NonZeros(s + t) == NonZeros(s) + NonZeros(t)
  {
    if s == [] {
      assert s + t == t;
    } else {
      assert (s + t)[1..] == s[1..] + t;
      NonZerosAppend(s[1..], t);
    }
  }

  /** Extending a prefix by one cell extends its tiles by that cell when it is a tile. */
  lemma NonZerosSnoc(s: Row, j: nat)
    requires j < |s|
    ensures NonZeros(s[..j + 1]) == NonZeros(s[..j]) + (if s[j] != 0 then [s[j]] else [])
  {
    assert s[..j + 1] == s[..j] + [s[j]];
    NonZerosAppend(s[..j], [s[j]]);
  }

  /** A row without empty cells is its own list of tiles. */
  lemma {:induction false} NonZerosOfTiles(s: Row)
    requires forall k :: 0 <= k < |s| ==> s[k] != 0
    ensures NonZeros(s) == s
  {
    if s != [] {
      NonZerosOfTiles(s[1..]);
    }
  }

  /** A row of empty cells has no tiles. */
  lemma {:induction false} NonZerosOfEmpty(s: Row)
    requires forall k :: 0 <= k < |s| ==> s[k] == 0
    ensures NonZeros(s) == []
  {
    if s != [] {
      NonZerosOfEmpty(s[1..]);
    }
  }

  /** A row with fewer tiles than cells has an empty cell. */
  lemma {:induction false} FewerTilesHasEmpty(s: Row)
    requires |NonZeros(s)| < |s|
    ensures exists k :: 0 <= k < |s| && s[k] == 0
  {
    if s[0] != 0 {
      FewerTilesHasEmpty(s[1..]);
      var k :| 0 <= k < |s[1..]| && s[1..][k] == 0;
      assert s[k + 1] == 0;
    }
  }

  // ---------------------------------------------------------------------
  // Compact

  /** A compacted row is its tiles followed by empty cells. */
  lemma {:induction false} CompactedIsTilesThenZeros(s: Row)
    requires Compacted(s)
    ensures s == NonZeros(s) + Zeros(|s| - |NonZeros(s)|)
  {
    if s == [] {
    } else if s[0] != 0 {
      assert Compacted(s[1..]) by {
        forall i, j | 0 <= i < j < |s[1..]| && s[1..][i] == 0
          ensures s[1..][j] == 0
        {
          assert s[i + 1] == 0;
        }
      }
      CompactedIsTilesThenZeros(s[1..]);
      assert s == [s[0]] + s[1..];
    } else {
      NonZerosOfEmpty(s);
      assert s == Zeros(|s|);
    }
  }

  /** `move` changes a row exactly when some tile stands behind a gap. */
  lemma CompactFixesCompacted(s: Row)
    ensures Compact(s) == s <==> Compacted(s)
  {
    if Compacted(s) {
      CompactedIsTilesThenZeros(s);
    }
  }

  /**
   * Compact is determined by its contract: any row of the same length that
   * is compacted and holds the same tiles in the same order is Compact(s).
   */
  lemma CompactUnique(s: Row, t: Row)
    requires |t| == |s| && Compacted(t) && NonZeros(t) == NonZeros(s)
    ensures t == Compact(s)
  {
    CompactedIsTilesThenZeros(t);
  }

  /** A longer prefix stays compacted unless it adds a tile behind an empty cell. */
  lemma CompactedSnoc(s: Row, j: nat)
    requires j < |s|
    ensures Compacted(s[..j + 1]) <==>
      Compacted(s[..j]) && (s[j] == 0 || |NonZeros(s[..j])| == j)
  {
    var t := s[..j + 1];
    assert forall k :: 0 <= k < j ==> t[k] == s[k] == s[..j][k];
    if |NonZeros(s[..j])| == j {
      NonZerosCountsAll(s[..j]);
    } else {
      FewerTilesHasEmpty(s[..j]);
    }
  }

  /** A row whose tiles fill every cell has no empty cell. */
  lemma {:induction false} NonZerosCountsAll(s: Row)
    requires |NonZeros(s)| == |s|
    ensures forall k :: 0 <= k < |s| ==> s[k] != 0
  {
    if s != [] {
      if s[0] == 0 {
        assert |NonZeros(s[1..])| <= |s| - 1;
      } else {
        NonZerosCountsAll(s[1..]);
        forall k | 1 <= k < |s| ensures s[k] != 0 {
          assert s[k] == s[1..][k - 1];
        }
      }
    }
  }

  /** Compacting twice is compacting once. */
  lemma CompactIdempotent(s: Row)
    ensures Compact(Compact(s)) == Compact(s)
  {
    CompactFixesCompacted(Compact(s));
  }

  /** The tiles of a row are exactly its nonzero cell values. */
  lemma {:induction false} NonZerosMembers(s: Row)
    ensures forall x :: x in NonZeros(s) <==> x in s && x != 0
  {
    if s != [] {
      NonZerosMembers(s[1..]);
      assert s == [s[0]] + s[1..];
    }
  }

  /** Sliding brings no new value into a row: every cell of the slid row is empty or a tile of the row. */
  lemma CompactFrom(s: Row)
    ensures forall x :: x in Compact(s) ==> x == 0 || x in s
  {
    NonZerosMembers(s);
    NonZerosMembers(Compact(s));
  }

  // ---------------------------------------------------------------------
  // MergeRow

  /** Merging moves no value out of the row: the sum of its tiles is kept. */
  lemma {:induction false} MergeConservesSum(s: Row)
    ensures Sum(MergeRow(s)) == Sum(s)
  {
    if |s| < 2 {
    } else if s[0] != 0 && s[0] == s[1] {
      MergeConservesSum(s[2..]);
      var r := MergeRow(s[2..]);
      assert ([2 * s[0], 0] + r)[1..] == [0] + r;
      assert ([0] + r)[1..] == r;
      assert s[1..][1..] == s[2..];
    } else {
      MergeConservesSum(s[1..]);
      assert ([s[0]] + MergeRow(s[1..]))[1..] == MergeRow(s[1..]);
    }
  }

  /** Dropping a first cell that cannot merge keeps exactly the pairs further right. */
  lemma HasPairTail(s: Row)
    requires |s| >= 2 && !(s[0] != 0 && s[0] == s[1])
    ensures HasPair(s) <==> HasPair(s[1..])
  {
    if HasPair(s) {
      var k :| 0 <= k < |s| - 1 && s[k] != 0 && s[k] == s[k + 1];
      assert s[1..][k - 1] == s[k];
    }
    if HasPair(s[1..]) {
      var k :| 0 <= k < |s[1..]| - 1 && s[1..][k] != 0 && s[1..][k] == s[1..][k + 1];
      assert s[k + 1] == s[1..][k];
    }
  }

  /**
   * `merge` raises the score for a row exactly when the row holds two
   * neighbouring equal tiles; otherwise it leaves the row as it is.
   */
  lemma {:induction false} MergeGainPositiveIff(s: Row)
    ensures MergeGain(s) > 0 <==> HasPair(s)
    ensures !HasPair(s) ==> MergeRow(s) == s
  {
    if |s| < 2 {
    } else if s[0] != 0 && s[0] == s[1] {
      assert HasPair(s) by { assert s[0] != 0 && s[0] == s[1]; }
    } else {
      HasPairTail(s);
      MergeGainPositiveIff(s[1..]);
      assert s == [s[0]] + s[1..];
    }
  }

  /**
   * Where cell k of the merged row r comes from: it is emptied, keeps the
   * value it had in s, or holds the double of an equal pair of s that
   * starts at k.
   */
  predicate MergedCellFrom(s: Row, r: Row, k: nat)
    requires k < |s| && |r| == |s|
  {
    r[k] == 0 || r[k] == s[k] || (k + 1 < |s| && s[k] == s[k + 1] && r[k] == 2 * s[k])
  }

  /** Every cell of a merged row is emptied, unchanged, or the double of an equal pair starting there. */
  lemma {:induction false} MergeRowOrigin(s: Row)
    ensures forall k :: 0 <= k < |s| ==> MergedCellFrom(s, MergeRow(s), k)
  {
    if |s| >= 2 {
      var r := MergeRow(s);
      if s[0] != 0 && s[0] == s[1] {
        var t := s[2..];
        MergeRowOrigin(t);
        assert r == [2 * s[0], 0] + MergeRow(t);
        forall k | 0 <= k < |s| ensures MergedCellFrom(s, r, k) {
          if k >= 2 {
            assert MergedCellFrom(t, MergeRow(t), k - 2);
            assert r[k] == MergeRow(t)[k - 2] && t[k - 2] == s[k];
            if k + 1 < |s| {
              assert t[k - 1] == s[k + 1];
            }
          }
        }
      } else {
        var t := s[1..];
        MergeRowOrigin(t);
        assert r == [s[0]] + MergeRow(t);
        forall k | 0 <= k < |s| ensures MergedCellFrom(s, r, k) {
          if k >= 1 {
            assert MergedCellFrom(t, MergeRow(t), k - 1);
            assert r[k] == MergeRow(t)[k - 1] && t[k - 1] == s[k];
            if k + 1 < |s| {
              assert t[k] == s[k + 1];
            }
          }
        }
      }
    }
  }

  /** x is an empty cell, a tile of s, or the double of a tile of s. */
  predicate FormedFrom(x: nat, s: Row)
  {
    x == 0 || x in s || exists y :: y in s && x == 2 * y
  }

  /**
   * The leftward step brings no new value into a row: after the slide and
   * the merge, and after the second slide too, every cell is empty, a tile
   * of the row, or the double of one.
   */
  lemma LeftStepFrom(s: Row)
    ensures forall x :: x in MergeRow(Compact(s)) ==> FormedFrom(x, s)
    ensures forall x :: x in Compact(MergeRow(Compact(s))) ==> FormedFrom(x, s)
  {
    var c := Compact(s);
    var m := MergeRow(c);
    CompactFrom(s);
    MergeRowOrigin(c);
    forall x | x in m ensures FormedFrom(x, s) {
      var k :| 0 <= k < |m| && m[k] == x;
      assert MergedCellFrom(c, m, k);
      assert c[k] in c;
    }
    CompactFrom(m);
  }

  /** Every merge leaves a hole: merging a row with a pair loses at least one tile. */
  lemma {:induction false} MergeLosesTile(s: Row)
    ensures |NonZeros(MergeRow(s))| <= |NonZeros(s)|
    ensures HasPair(s) ==> |NonZeros(MergeRow(s))| < |NonZeros(s)|
  {
    if |s| < 2 {
    } else if s[0] != 0 && s[0] == s[1] {
      MergeLosesTile(s[2..]);
      var r := MergeRow(s[2..]);
      NonZerosAppend([2 * s[0], 0], r);
      assert NonZeros([2 * s[0], 0]) == [2 * s[0]] by {
        assert [2 * s[0], 0][1..] == [0];
        assert [0][1..] == [];
      }
      assert s == [s[0], s[1]] + s[2..];
      NonZerosAppend([s[0], s[1]], s[2..]);
      assert NonZeros([s[0], s[1]]) == [s[0], s[1]] by {
        assert [s[0], s[1]][1..] == [s[1]];
        assert [s[1]][1..] == [];
      }
    } else {
      HasPairTail(s);
      MergeLosesTile(s[1..]);
      assert ([s[0]] + MergeRow(s[1..]))[1..] == MergeRow(s[1..]);
    }
  }

  /**
   * The state of the merge pass over row r: the cells in done are final,
   * and merging the cells in todo, while adding gain, gives the merged row
   * and its score.
   */
  ghost predicate MergedUpTo(r: Row, done: Row, todo: Row, gain: nat)
  {
    done + MergeRow(todo) == MergeRow(r) && gain + MergeGain(todo) == MergeGain(r)
  }

  /** Before the first step nothing is final and nothing is scored. */
  lemma MergeStarts(r: Row)
    ensures MergedUpTo(r, [], r, 0)
  {
    assert [] + MergeRow(r) == MergeRow(r);
  }

  /**
   * One step of the merge pass when the first two cells left to merge are
   * an equal pair: the doubled value is final and scored, and the pass
   * goes on from the emptied cell.
   */
  lemma MergeStepPair(r: Row, done: Row, todo: Row, gain: nat)
    requires MergedUpTo(r, done, todo, gain)
    requires |todo| >= 2 && todo[0] != 0 && todo[0] == todo[1]
    ensures MergedUpTo(r, done + [2 * todo[0]], [0] + todo[2..], gain + 2 * todo[0])
  {
    var rest := todo[2..];
    MergeRowEmptyFirst(rest);
    assert (done + [2 * todo[0]]) + ([0] + MergeRow(rest)) == done + ([2 * todo[0], 0] + MergeRow(rest));
  }

  /** An empty first cell never merges: the pass just goes on to the next cell. */
  lemma MergeRowEmptyFirst(u: Row)
    ensures MergeRow([0] + u) == [0] + MergeRow(u)
    ensures MergeGain([0] + u) == MergeGain(u)
  {
    assert ([0] + u)[1..] == u;
  }

  /** One step of the merge pass when the first two cells left to merge do not merge: the first is final as it is. */
  lemma MergeStepSkip(r: Row, done: Row, todo: Row, gain: nat)
    requires MergedUpTo(r, done, todo, gain)
    requires |todo| >= 2 && !(todo[0] != 0 && todo[0] == todo[1])
    ensures MergedUpTo(r, done + [todo[0]], todo[1..], gain)
  {
    assert (done + [todo[0]]) + MergeRow(todo[1..]) == done + ([todo[0]] + MergeRow(todo[1..]));
  }

  /** Writing a merged pair at cells j and j + 1 makes the first j + 1 cells final and leaves the emptied cell first. */
  lemma PairSlices(cur: Row, j: nat)
    requires j + 1 < |cur|
    ensures cur[j := 2 * cur[j]][j + 1 := 0][..j + 1] == cur[..j] + [2 * cur[j]]
    ensures cur[j := 2 * cur[j]][j + 1 := 0][j + 1..] == [0] + cur[j..][2..]
  {
  }

  /** Passing over cell j makes the first j + 1 cells final. */
  lemma SkipSlices(cur: Row, j: nat)
    requires j < |cur|
    ensures cur[..j + 1] == cur[..j] + [cur[j..][0]]
    ensures cur[j + 1..] == cur[j..][1..]
  {
  }

  /** When one cell is left the pass is complete: the row is the merged row and the gain its score. */
  lemma MergeDone(r: Row, done: Row, todo: Row, gain: nat)
    requires |todo| == 1 && MergedUpTo(r, done, todo, gain)
    ensures done + todo == MergeRow(r) && gain == MergeGain(r)
  {
  }

  /** A merge pass over a compacted [2, 2, 2, 2] gives [4, 0, 4, 0] and scores 8: no chained merges. */
  lemma MergeFourTwos()
    ensures MergeRow([2, 2, 2, 2]) == [4, 0, 4, 0]
    ensures MergeGain([2, 2, 2, 2]) == 8
  {
    assert [2, 2, 2, 2][2..] == [2, 2];
    assert [2, 2][2..] == [];
  }

  /** The row [2, 0, 2, 0] slides to [2, 2, 0, 0], which merges to [4, 0, 0, 0] for 4 points. */
  lemma GapThenMergeRows()
    ensures Compact([2, 0, 2, 0]) == [2, 2, 0, 0]
    ensures MergeRow([2, 2, 0, 0]) == [4, 0, 0, 0] && MergeGain([2, 2, 0, 0]) == 4
    ensures Compact([4, 0, 0, 0]) == [4, 0, 0, 0]
  {
    assert NonZeros([2, 0, 2, 0]) == [2, 2] by {
      NonZerosAppend([2, 0], [2, 0]);
      assert [2, 0] + [2, 0] == [2, 0, 2, 0];
      assert [2, 0][1..] == [0];
      assert [0][1..] == [];
    }
    CompactUnique([2, 0, 2, 0], [2, 2, 0, 0]);
    assert MergeRow([0, 0]) == [0, 0] && MergeGain([0, 0]) == 0 by {
      MergeRowEmptyFirst([0]);
      assert [0] + [0] == [0, 0];
    }
    assert [2, 2, 0, 0][2..] == [0, 0];
    CompactFixesCompacted([4, 0, 0, 0]);
  }

  /** An empty row of four cells stays empty under the slide and the merge, and scores nothing. */
  lemma EmptyRowStays()
    ensures Compact([0, 0, 0, 0]) == [0, 0, 0, 0]
    ensures MergeRow([0, 0, 0, 0]) == [0, 0, 0, 0] && MergeGain([0, 0, 0, 0]) == 0
  {
    CompactFixesCompacted([0, 0, 0, 0]);
    MergeRowEmptyFirst([0, 0, 0]);
    MergeRowEmptyFirst([0, 0]);
    assert [0] + [0, 0, 0] == [0, 0, 0, 0] && [0] + [0, 0] == [0, 0, 0];
  }

  // ---------------------------------------------------------------------
  // Reversed

  /** Reversing a row twice gives the row back. */
  lemma ReversedTwice(s: Row)
    ensures Reversed(Reversed(s)) == s
  {
  }

  /** Reversing a row keeps its multiset of tiles. */
  lemma {:induction false} ReversedKeepsTiles(s: Row)
    ensures multiset(Reversed(s)) == multiset(s)
  {
    if s != [] {
      var n := |s|;
      ReversedKeepsTiles(s[..n - 1]);
      assert Reversed(s) == [s[n - 1]] + Reversed(s[..n - 1]);
      assert s == s[..n - 1] + [s[n - 1]];
    }
  }
}
