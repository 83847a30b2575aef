/**
 * Gravity after a removal. `StateCheckPlayfield` scans each column from the
 * bottom up to its floor; every block with a gap under it is taken out of its
 * cell and recorded as a move down onto the first free row, and the column's
 * floor becomes the number of blocks in it. This module states that scan on
 * one column (a sequence of cells, row 0 first) and proves what it achieves:
 * once every recorded block has arrived, the column holds the same blocks in
 * the same order, packed at the bottom.
 */
module Gravity {
  import opened Wrappers
  import opened Helpers
  import opened Grid

  /** The number of occupied cells. */
  function CountSome(s: seq<Option<int>>): (n: nat)
    ensures n <= |s|
  {
    if |s| == 0 then 0
    else CountSome(s[..|s| - 1]) + (if s[|s| - 1].Some? then 1 else 0)
  }

  /** The occupants, bottom first. */
  function Somes(s: seq<Option<int>>): (r: seq<int>)
    ensures |r| == CountSome(s)
  {
    if |s| == 0 then []
    else Somes(s[..|s| - 1]) + (if s[|s| - 1].Some? then [s[|s| - 1].value] else [])
  }

  /** The column gravity should produce: the occupants in order from row 0, then empty cells. */
  function Packed(s: seq<Option<int>>): (r: seq<Option<int>>)
    ensures |r| == |s|
  {
    seq(|s|, r requires 0 <= r < |s| => if r < CountSome(s) then Some(Somes(s)[r]) else None)
  }

  /** A block the scan sends down: `gap` rows, onto row `dest`. */
  datatype Move = Move(gap: nat, dest: nat, block: int)

  /**
   * The moves the scan records, bottom to top: a block with fewer blocks
   * below it than its row number falls onto the row that count names.
   */
  function Moves(s: seq<Option<int>>): seq<Move> {
    if |s| == 0 then []
    else
      var p := s[..|s| - 1];
      var k := CountSome(p);
      Moves(p) + (if s[|s| - 1].Some? && k < |p| then [Move(|p| - k, k, s[|s| - 1].value)] else [])
  }

  /** The block in row `r` has a gap under it and is moved. */
  predicate Moved(s: seq<Option<int>>, r: int)
    requires 0 <= r < |s|
  {
    s[r].Some? && CountSome(s[..r]) < r
  }

  /** The column once the moved blocks have been taken out of their cells. */
  function Cleared(s: seq<Option<int>>): (c: seq<Option<int>>)
    ensures |c| == |s|
  {
    seq(|s|, r requires 0 <= r < |s| => if Moved(s, r) then None else s[r])
  }

  /** The column once each move has put its block in its destination row, in order. */
  function Settle(c: seq<Option<int>>, ms: seq<Move>): (r: seq<Option<int>>)
    ensures |r| == |c|
  {
    if |ms| == 0 then c
    else
      var m := ms[|ms| - 1];
      var r := Settle(c, ms[..|ms| - 1]);
      if m.dest < |r| then r[m.dest := Some(m.block)] else r
  }

  lemma PrefixOfPrefix<T>(s: seq<T>, r: int)
    requires 0 <= r < |s|
    ensures s[..|s| - 1][..r] == s[..r]
  {
  }

  /**
   * What one recorded move says: it comes from the occupied row `dest + gap`
   * above its destination, carries that row's block, and lands on the row
   * whose number is the count of blocks below its source, below the new floor.
   */
  lemma {:induction false} MoveAt(s: seq<Option<int>>, j: int)
    requires 0 <= j < |Moves(s)|
    ensures var m := Moves(s)[j];
      && m.gap > 0
      && m.dest + m.gap < |s|
      && s[m.dest + m.gap] == Some(m.block)
      && Moved(s, m.dest + m.gap)
      && m.dest == CountSome(s[..m.dest + m.gap])
      && m.dest < CountSome(s)
  {
    var p := s[..|s| - 1];
    if j < |Moves(p)| {
      assert Moves(s)[j] == Moves(p)[j];
      MoveAt(p, j);
      PrefixOfPrefix(s, Moves(p)[j].dest + Moves(p)[j].gap);
    } else {
      assert s[..|s| - 1] == p;
    }
  }

  /** The destinations of the recorded moves strictly increase. */
  lemma {:induction false} MovesIncreasing(s: seq<Option<int>>, i: int, j: int)
    requires 0 <= i < j < |Moves(s)|
    ensures Moves(s)[i].dest < Moves(s)[j].dest
  {
    var p := s[..|s| - 1];
    assert Moves(s)[i] == Moves(p)[i];
    if j < |Moves(p)| {
      assert Moves(s)[j] == Moves(p)[j];
      MovesIncreasing(p, i, j);
    } else {
      MoveAt(p, i);
    }
  }

  /** Appending a cell above every destination commutes with settling. */
  lemma {:induction false} SettleAppend(c: seq<Option<int>>, y: Option<int>, ms: seq<Move>)
    requires forall j :: 0 <= j < |ms| ==> ms[j].dest < |c|
    ensures Settle(c + [y], ms) == Settle(c, ms) + [y]
  {
    if |ms| > 0 {
      SettleAppend(c, y, ms[..|ms| - 1]);
    }
  }

  /** Taking the moved blocks out of a column works row by row. */
  lemma ClearedAppend(s: seq<Option<int>>)
    requires |s| > 0
    ensures Cleared(s) == Cleared(s[..|s| - 1]) + [if Moved(s, |s| - 1) then None else s[|s| - 1]]
  {
    var p := s[..|s| - 1];
    forall r | 0 <= r < |p|
      ensures Cleared(s)[r] == Cleared(p)[r]
    {
      PrefixOfPrefix(s, r);
    }
  }

  /**
   * Gravity packs the column: taking the moved blocks out and then putting
   * each at its destination gives the column's blocks, in their original
   * order, in rows 0 up to the count, with the rows above empty.
   */
  lemma {:induction false} GravityPacks(s: seq<Option<int>>)
    ensures Settle(Cleared(s), Moves(s)) == Packed(s)
  {
    if |s| > 0 {
      var p, x := s[..|s| - 1], s[|s| - 1];
      assert s == p + [x];
      GravityPacks(p);
      forall j | 0 <= j < |Moves(p)|
        ensures Moves(p)[j].dest < |p|
      {
        MoveAt(p, j);
      }
      if x.None? || CountSome(p) == |p| {
        PacksStaying(p, x);
      } else {
        PacksFalling(p, x.value);
      }
    }
  }

  /** The scan of a column with one more cell on top: the moves below, then a move for that cell if it has a gap under it. */
  lemma {:induction false} MovesAppend(p: seq<Option<int>>, x: Option<int>)
    ensures var k := CountSome(p);
      && CountSome(p + [x]) == k + (if x.Some? then 1 else 0)
      && Somes(p + [x]) == Somes(p) + (if x.Some? then [x.value] else [])
      && Moves(p + [x]) == Moves(p) + (if x.Some? && k < |p| then [Move(|p| - k, k, x.value)] else [])
  {
    var s := p + [x];
    assert s[..|s| - 1] == p && s[|s| - 1] == x;
  }

  /** The step of `GravityPacks` for a top cell that stays: it is empty, or every cell below it is full. */
  lemma {:induction false} PacksStaying(p: seq<Option<int>>, x: Option<int>)
    requires x.None? || CountSome(p) == |p|
    requires Settle(Cleared(p), Moves(p)) == Packed(p)
    requires forall j :: 0 <= j < |Moves(p)| ==> Moves(p)[j].dest < |p|
    ensures Settle(Cleared(p + [x]), Moves(p + [x])) == Packed(p + [x])
  {
    var s := p + [x];
    var n, k := |s|, CountSome(p);
    assert s[..n - 1] == p;
    ClearedAppend(s);
    assert Cleared(s) == Cleared(p) + [x];
    MovesAppend(p, x);
    assert Moves(s) == Moves(p);
    SettleAppend(Cleared(p), x, Moves(p));
    forall r | 0 <= r < n
      ensures Packed(s)[r] == (Packed(p) + [x])[r]
    {
      if r < n - 1 && r < k {
        assert Somes(s)[r] == Somes(p)[r];
      } else if r == n - 1 && x.Some? {
        assert Somes(s)[r] == x.value;
      }
    }
    assert Packed(s) == Packed(p) + [x];
  }

  /** The step of `GravityPacks` for an occupied top cell with a gap below it: its block falls onto row `CountSome(p)`. */
  lemma {:induction false} PacksFalling(p: seq<Option<int>>, b: int)
    requires CountSome(p) < |p|
    requires Settle(Cleared(p), Moves(p)) == Packed(p)
    requires forall j :: 0 <= j < |Moves(p)| ==> Moves(p)[j].dest < |p|
    ensures Settle(Cleared(p + [Some(b)]), Moves(p + [Some(b)])) == Packed(p + [Some(b)])
  {
    var s := p + [Some(b)];
    var n, k := |s|, CountSome(p);
    assert s[..n - 1] == p;
    ClearedAppend(s);
    assert Cleared(s) == Cleared(p) + [None];
    MovesAppend(p, Some(b));
    var m := Move(n - 1 - k, k, b);
    assert (Moves(p) + [m])[..|Moves(p)|] == Moves(p);
    SettleAppend(Cleared(p), None, Moves(p));
    forall r | 0 <= r < n
      ensures Packed(s)[r] == (Packed(p) + [None])[k := Some(b)][r]
    {
      if r < k {
        assert Somes(s)[r] == Somes(p)[r];
      }
    }
  }

  /** After the moved blocks are taken out, every row at or above the new floor is empty. */
  lemma ClearedAboveCount(s: seq<Option<int>>, r: int)
    requires CountSome(s) <= r < |s|
    ensures Cleared(s)[r].None?
  {
    if s[r].Some? {
      CountBelowSome(s, r);
    }
  }

  /** An occupied row has fewer blocks below it than the whole column holds. */
  lemma {:induction false} CountBelowSome(s: seq<Option<int>>, r: int)
    requires 0 <= r < |s| && s[r].Some?
    ensures CountSome(s[..r]) < CountSome(s)
    decreases |s|
  {
    var p := s[..|s| - 1];
    if r < |s| - 1 {
      CountBelowSome(p, r);
      PrefixOfPrefix(s, r);
    } else {
      assert s[..r] == p;
    }
  }

  /** One more row of the bottom-up scan: the count and the moves over a prefix one row longer. */
  lemma ScanStep(s: seq<Option<int>>, row: int)
    requires 0 <= row < |s|
    ensures CountSome(s[..row + 1]) == CountSome(s[..row]) + (if s[row].Some? then 1 else 0)
    ensures Moves(s[..row + 1]) == Moves(s[..row])
      + (if Moved(s, row) then [Move(row - CountSome(s[..row]), CountSome(s[..row]), s[row].value)] else [])
  {
    assert s[..row + 1][..row] == s[..row];
  }

  /** Column `c` of a grid, rows 0 up to `h`. */
  function ColumnOf(g: seq<GridCell>, cols: int, rows: int, c: int, h: int): (s: seq<Option<int>>)
    requires |g| == cols * rows && 0 <= c < cols && 0 <= h <= rows
    ensures |s| == h
    ensures forall r :: 0 <= r < h ==> s[r] == Occupant(g, cols, rows, c, r)
  {
    seq(h, r requires 0 <= r < h => Occupant(g, cols, rows, c, r))
  }

  /**
   * The repositioning records the scan of column `c` adds: one per move,
   * timed at `moveTime` per row fallen, aimed at the destination cell.
   */
  function ColumnRecords(cols: int, rows: int, c: int, ms: seq<Move>, moveTime: real): (rs: seq<RepositioningBlock>)
    ensures |rs| == |ms|
    ensures forall j :: 0 <= j < |ms| ==> rs[j] == Record(cols, rows, c, ms[j], moveTime)
  {
    seq(|ms|, j requires 0 <= j < |ms| => Record(cols, rows, c, ms[j], moveTime))
  }

  lemma ColumnRecordsAppend(cols: int, rows: int, c: int, ms: seq<Move>, m: Move, moveTime: real)
    ensures ColumnRecords(cols, rows, c, ms + [m], moveTime)
         == ColumnRecords(cols, rows, c, ms, moveTime) + [Record(cols, rows, c, m, moveTime)]
  {
  }

  /** One more row of the scan: the records grow by the record of the row's move, if the row has one. */
  lemma RecordsStep(cols: int, rows: int, c: int, s: seq<Option<int>>, row: int, moveTime: real)
    requires 0 <= row < |s|
    ensures ColumnRecords(cols, rows, c, Moves(s[..row + 1]), moveTime)
         == ColumnRecords(cols, rows, c, Moves(s[..row]), moveTime)
            + if Moved(s, row) then [Record(cols, rows, c, Move(row - CountSome(s[..row]), CountSome(s[..row]), s[row].value), moveTime)] else []
  {
    ScanStep(s, row);
    if Moved(s, row) {
      ColumnRecordsAppend(cols, rows, c, Moves(s[..row]), Move(row - CountSome(s[..row]), CountSome(s[..row]), s[row].value), moveTime);
    } else {
      assert Moves(s[..row + 1]) == Moves(s[..row]);
    }
  }

  /** The repositioning record of one move in column `c`. */
  function Record(cols: int, rows: int, c: int, m: Move, moveTime: real): (r: RepositioningBlock)
    ensures r.timing == Timing(m.gap as real * moveTime, 0.0) && !r.finished
    ensures r.cellIndex == CellIndex(cols, rows, c, m.dest) && r.block == m.block
  {
    NewRepositioning(m.gap as real * moveTime, CellIndex(cols, rows, c, m.dest), m.block)
  }

  /** The records of the scan of columns 0 up to `n`, in column order. */
  function AllRecords(g: seq<GridCell>, cols: int, rows: int, fl: seq<int>, n: int, moveTime: real): seq<RepositioningBlock>
    requires |g| == cols * rows && |fl| == cols && 0 <= n <= cols
    requires forall c :: 0 <= c < cols ==> 0 <= fl[c] <= rows
  {
    if n == 0 then []
    else AllRecords(g, cols, rows, fl, n - 1, moveTime)
         + ColumnRecords(cols, rows, n - 1, Moves(ColumnOf(g, cols, rows, n - 1, fl[n - 1])), moveTime)
  }
}
