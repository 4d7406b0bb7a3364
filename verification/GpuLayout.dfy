/** The blocks of a kernel as reOrganize lays them out on an SM, and the state in which its first pass starts. */
module GpuLayout {
  import opened Common
  import opened GpuThreads
  import opened GpuBarrier

  /** warp_block_map. */
  function BlockMap(rows: seq<Row>, bs: nat): (m: seq<nat>)
    requires bs > 0 && Blockwise(rows, bs)
    ensures |m| == |rows| && forall w | 0 <= w < |rows| :: m[w] == rows[w][0] / bs
  {
    if rows == [] then [] else
    assert OneBlock(rows[0], bs) && Blockwise(rows[1..], bs);
    [rows[0][0] / bs] + BlockMap(rows[1..], bs)
  }

  /** The warps added to every block: those of the timed rows. */
  function BlockWarps(m: seq<nat>, blocks: nat, timed: nat): (ws: seq<seq<nat>>)
    requires timed <= |m|
    ensures |ws| == blocks && forall b | 0 <= b < blocks :: ws[b] == RowsOf(m, b, timed)
  {
    seq(blocks, b requires 0 <= b < blocks => RowsOf(m, b, timed))
  }

  function LayoutOf(rows: seq<Row>, bs: nat, blocks: nat, timed: nat, barriers: set<nat>): Layout
    requires bs > 0 && Blockwise(rows, bs) && timed <= |rows|
  {
    Layout(BlockWarps(BlockMap(rows, bs), blocks, timed), BlockMap(rows, bs), bs, barriers)
  }

  /** A thread that may run stands at the block its trace begins with. */
  function CellOf(id: int, bb: int -> nat): Cell { Cell(StatusOf(id), bb(id), false) }

  function Cells(row: Row, bb: int -> nat): (r: seq<Cell>)
    ensures |r| == |row| && forall pe | 0 <= pe < |row| :: r[pe] == CellOf(row[pe], bb)
  {
    seq(|row|, pe requires 0 <= pe < |row| => CellOf(row[pe], bb))
  }

  function AllCells(rows: seq<Row>, bb: int -> nat): (r: seq<seq<Cell>>)
    ensures |r| == |rows| && forall w | 0 <= w < |rows| :: r[w] == Cells(rows[w], bb)
  {
    seq(|rows|, w requires 0 <= w < |rows| => Cells(rows[w], bb))
  }

  function StartOf(rows: seq<Row>, blocks: nat, bb: int -> nat): State
  {
    State(AllCells(rows, bb), seq(blocks, _ => 0), seq(|rows|, _ => 0))
  }

  // ---------------------------------------------------------------------------
  // The layout is valid
  // ---------------------------------------------------------------------------

  lemma LayoutValid(rows: seq<Row>, bs: nat, blocks: nat, timed: nat, barriers: set<nat>)
    requires bs > 0 && Blockwise(rows, bs) && timed <= |rows|
    ensures LayoutOf(rows, bs, blocks, timed, barriers).Valid(|rows|)
  {
    var l, m := LayoutOf(rows, bs, blocks, timed, barriers), BlockMap(rows, bs);
    forall b | 0 <= b < blocks ensures Ascending(l.warps[b]) {
      RowsOfAre(m, b, timed);
    }
  }

  // ---------------------------------------------------------------------------
  // Nothing is counted yet
  // ---------------------------------------------------------------------------

  lemma {:induction false} TallyNone(row: Row, bb: int -> nat)
    ensures Tally(Cells(row, bb), IsPaused) == 0 && Tally(Cells(row, bb), IsComplete) == 0
  {
    if row != [] {
      assert Cells(row, bb)[1..] == Cells(row[1..], bb);
      TallyNone(row[1..], bb);
    }
  }

  lemma {:induction false} TallyBlockNone(rows: seq<Row>, bb: int -> nat, ws: seq<nat>)
    requires forall i | 0 <= i < |ws| :: ws[i] < |rows|
    ensures TallyBlock(AllCells(rows, bb), ws, IsPaused) == 0
  {
    if ws != [] {
      TallyNone(rows[ws[0]], bb);
      TallyBlockNone(rows, bb, ws[1..]);
    }
  }

  // ---------------------------------------------------------------------------
  // No block has more threads than the block size
  // ---------------------------------------------------------------------------

  /** The threads in the first n rows that belong to block b. */
  function BlockIds(rows: seq<Row>, m: seq<nat>, b: nat, n: nat): seq<int>
    requires n <= |rows| == |m|
  {
    if n == 0 then []
    else if m[n - 1] == b then BlockIds(rows, m, b, n - 1) + Occupied(rows[n - 1])
    else BlockIds(rows, m, b, n - 1)
  }

  lemma {:induction false} TallyThreads(row: Row, bb: int -> nat)
    ensures Tally(Cells(row, bb), IsThread) == |Occupied(row)|
  {
    if row != [] {
      assert Cells(row, bb)[1..] == Cells(row[1..], bb);
      TallyThreads(row[1..], bb);
    }
  }

  lemma {:induction false} TallyBlockSnoc(rows: seq<seq<Cell>>, ws: seq<nat>, w: nat, p: Cell -> bool)
    requires w < |rows| && forall i | 0 <= i < |ws| :: ws[i] < |rows|
    ensures TallyBlock(rows, ws + [w], p) == TallyBlock(rows, ws, p) + Tally(rows[w], p)
  {
    if ws == [] {
      assert [] + [w] == [w] && [w][1..] == [];
    } else {
      assert (ws + [w])[1..] == ws[1..] + [w];
      TallyBlockSnoc(rows, ws[1..], w, p);
    }
  }

  lemma {:induction false} BlockThreads(rows: seq<Row>, m: seq<nat>, b: nat, n: nat, bb: int -> nat)
    requires n <= |rows| == |m|
    ensures TallyBlock(AllCells(rows, bb), RowsOf(m, b, n), IsThread) == |BlockIds(rows, m, b, n)|
  {
    if n > 0 {
      BlockThreads(rows, m, b, n - 1, bb);
      if m[n - 1] == b {
        TallyBlockSnoc(AllCells(rows, bb), RowsOf(m, b, n - 1), n - 1, IsThread);
        TallyThreads(rows[n - 1], bb);
      }
    }
  }

  predicate Among(id: int, all: seq<int>)
  {
    exists k | 0 <= k < |all| :: all[k] == id
  }

  predicate From(ids: seq<int>, all: seq<int>)
  {
    forall i | 0 <= i < |ids| :: Among(ids[i], all)
  }

  predicate OfBlock(ids: seq<int>, bs: nat, b: int)
    requires bs > 0
  {
    forall i | 0 <= i < |ids| :: ids[i] / bs == b
  }

  /** They ascend, come from the rows, and belong to the block. */
  lemma {:induction false} BlockIdsAre(rows: seq<Row>, bs: nat, b: nat, n: nat)
    requires bs > 0 && Blockwise(rows, bs) && n <= |rows| && Ascending(Ids(rows[..n]))
    ensures var ids := BlockIds(rows, BlockMap(rows, bs), b, n);
            Ascending(ids) && From(ids, Ids(rows[..n])) && OfBlock(ids, bs, b)
  {
    if n > 0 {
      var m, row := BlockMap(rows, bs), rows[n - 1];
      assert rows[..n] == rows[..n - 1] + [row];
      IdsConcat(rows[..n - 1], [row]);
      IdsOne(row);
      AscendingParts(Ids(rows[..n - 1]), Occupied(row));
      BlockIdsAre(rows, bs, b, n - 1);
      FromMore(BlockIds(rows, m, b, n - 1), Ids(rows[..n - 1]), Occupied(row));
      if m[n - 1] == b {
        assert OneBlock(row, bs);
        OccupiedInBlock(row, bs, b);
        AscendingJoin(BlockIds(rows, m, b, n - 1), Occupied(row), Ids(rows[..n - 1]));
      }
    }
  }

  lemma FromMore(a: seq<int>, all: seq<int>, b: seq<int>)
    requires From(a, all)
    ensures From(a, all + b) && From(a + b, all + b)
  {
    forall i | 0 <= i < |a| ensures Among(a[i], all + b) {
      var k :| 0 <= k < |all| && all[k] == a[i];
      assert (all + b)[k] == a[i];
    }
    forall i | 0 <= i < |b| ensures Among(b[i], all + b) {
      assert (all + b)[|all| + i] == b[i];
    }
  }

  lemma IdsOne(row: Row)
    ensures Ids([row]) == Occupied(row)
  {
    assert [row][1..] == [];
    assert Ids([row]) == Occupied(row) + Ids([]);
  }

  lemma {:induction false} OccupiedInBlock(row: Row, bs: nat, b: int)
    requires bs > 0 && forall pe | 0 <= pe < |row| && row[pe] != NO_THREAD :: row[pe] / bs == b
    ensures OfBlock(Occupied(row), bs, b)
  {
    if row != [] { OccupiedInBlock(row[1..], bs, b); }
  }

  /** `a` picks from `all`, every element of which lies below those of `b`. */
  lemma AscendingJoin(a: seq<int>, b: seq<int>, all: seq<int>)
    requires Ascending(a) && Ascending(all + b) && From(a, all)
    ensures Ascending(a + b)
  {
    forall i, j | 0 <= i < j < |a + b| ensures (a + b)[i] < (a + b)[j] {
      if i < |a| <= j {
        assert Among(a[i], all);
        var k :| 0 <= k < |all| && all[k] == a[i];
        assert (all + b)[k] < (all + b)[|all| + (j - |a|)];
      } else if |a| <= i {
        assert (all + b)[|all| + (i - |a|)] < (all + b)[|all| + (j - |a|)];
      }
    }
  }

  /** No more numbers than the range has room for. */
  lemma {:induction false} AscendingFits(s: seq<int>, lo: int, hi: int)
    requires lo <= hi && Ascending(s) && forall i | 0 <= i < |s| :: lo <= s[i] < hi
    ensures |s| <= hi - lo
    decreases |s|
  {
    if s != [] {
      var n := |s| - 1;
      AscendingFits(s[..n], lo, s[n]);
    }
  }

  lemma InRange(id: int, bs: nat, b: nat)
    requires bs > 0 && id / bs == b
    ensures b * bs <= id < b * bs + bs
  {
  }

  lemma BlockFits(rows: seq<Row>, bs: nat, b: nat, n: nat)
    requires bs > 0 && Blockwise(rows, bs) && n <= |rows| && Ascending(Ids(rows[..n]))
    ensures |BlockIds(rows, BlockMap(rows, bs), b, n)| <= bs
  {
    BlockIdsAre(rows, bs, b, n);
    var ids := BlockIds(rows, BlockMap(rows, bs), b, n);
    forall i | 0 <= i < |ids| ensures b * bs <= ids[i] < b * bs + bs {
      InRange(ids[i], bs, b);
    }
    AscendingFits(ids, b * bs, b * bs + bs);
  }

  // ---------------------------------------------------------------------------
  // The start of a kernel
  // ---------------------------------------------------------------------------

  /** Nothing is counted, and nothing is to be counted. */
  lemma StartsCounted(rows: seq<Row>, bs: nat, blocks: nat, timed: nat, barriers: set<nat>, bb: int -> nat, b: nat)
    requires bs > 0 && Blockwise(rows, bs) && timed <= |rows| && b < blocks
    ensures var l, s := LayoutOf(rows, bs, blocks, timed, barriers), StartOf(rows, blocks, bb);
            Sane(l, s) && Counted(l, s, b)
  {
    var l, s := LayoutOf(rows, bs, blocks, timed, barriers), StartOf(rows, blocks, bb);
    LayoutValid(rows, bs, blocks, timed, barriers);
    forall v | 0 <= v < |rows| ensures s.warpComplete[v] == Tally(s.rows[v], IsComplete) {
      TallyNone(rows[v], bb);
    }
    TallyBlockNone(rows, bb, l.warps[b]);
  }

  /** Rows in order, laid out as blocks, start with right counts and without an overfull block. */
  lemma StartsRight(rows: seq<Row>, bs: nat, blocks: nat, timed: nat, barriers: set<nat>, bb: int -> nat, b: nat)
    requires bs > 0 && Blockwise(rows, bs) && Ascending(Ids(rows)) && timed <= |rows| && b < blocks
    ensures var l, s := LayoutOf(rows, bs, blocks, timed, barriers), StartOf(rows, blocks, bb);
            Right(l, s, b) && Threads(l, s, b) == |BlockIds(rows, BlockMap(rows, bs), b, |rows|)|
  {
    StartsCounted(rows, bs, blocks, timed, barriers, bb, b);
    assert rows[..|rows|] == rows;
    BlockThreads(rows, BlockMap(rows, bs), b, |rows|, bb);
    BlockFits(rows, bs, b, |rows|);
  }

  /** That is how the distribution leaves every SM: what barrier safety asks of the state before the first pass. */
  lemma KernelStartsRight(sm: SmThreads, rows: seq<Row>, k: nat, n: nat, chunk: nat, numSM: nat, bs: nat, w: nat,
                          blocks: nat, timed: nat, barriers: set<nat>, bb: int -> nat, b: nat)
    requires chunk > 0 && numSM > 0 && bs > 0 && HoldsShare(sm, rows, k, n, chunk, numSM, bs, w) && timed <= |rows|
    requires b < blocks
    ensures Right(LayoutOf(rows, bs, blocks, timed, barriers), StartOf(rows, blocks, bb), b)
  {
    MineAscending(k, n, chunk, numSM);
    StartsRight(rows, bs, blocks, timed, barriers, bb, b);
  }

  /** All rows of a block were added to it exactly when all of them are timed. */
  lemma CoveredIffTimed(rows: seq<Row>, bs: nat, blocks: nat, timed: nat, barriers: set<nat>, b: nat)
    requires bs > 0 && Blockwise(rows, bs) && timed <= |rows| && b < blocks
    ensures Covered(LayoutOf(rows, bs, blocks, timed, barriers), b) <==>
            forall w | timed <= w < |rows| :: rows[w][0] / bs != b
  {
    var m := BlockMap(rows, bs);
    RowsOfAre(m, b, timed);
    assert forall w | 0 <= w < |rows| :: m[w] == rows[w][0] / bs;
    if Covered(LayoutOf(rows, bs, blocks, timed, barriers), b) {
      forall w | timed <= w < |rows| ensures rows[w][0] / bs != b {
        assert w !in RowsOf(m, b, timed);
      }
    }
  }

  /**
   From the distribution on, the barrier of a block all of whose rows are timed opens exactly when it should, over
   all passes without a reset upon a paused thread of the block, and whatever the other blocks do.
   */
  lemma KernelIsSafe(sm: SmThreads, rows: seq<Row>, k: nat, n: nat, chunk: nat, numSM: nat, bs: nat, w: nat,
                     blocks: nat, timed: nat, barriers: set<nat>, bb: int -> nat, b: nat, acts: seq<Action>)
    requires chunk > 0 && numSM > 0 && bs > 0 && HoldsShare(sm, rows, k, n, chunk, numSM, bs, w) && timed <= |rows|
    requires b < blocks && forall v | timed <= v < |rows| :: rows[v][0] / bs != b
    requires var l, s := LayoutOf(rows, bs, blocks, timed, barriers), StartOf(rows, blocks, bb);
             Shaped(l, s) && Clean(l, s, b, acts)
    ensures AlwaysOpensRightly(LayoutOf(rows, bs, blocks, timed, barriers), StartOf(rows, blocks, bb), b, acts)
  {
    KernelStartsRight(sm, rows, k, n, chunk, numSM, bs, w, blocks, timed, barriers, bb, b);
    CoveredIffTimed(rows, bs, blocks, timed, barriers, b);
    AllPassesAreSafe(LayoutOf(rows, bs, blocks, timed, barriers), StartOf(rows, blocks, bb), b, acts);
  }

  // ---------------------------------------------------------------------------
  // How many rows there are, and how many are timed
  // ---------------------------------------------------------------------------

  /** How many groups of w it takes to hold x. */
  function Groups(x: nat, w: nat): nat
    requires w > 0
  {
    if x == 0 then 0 else if x <= w then 1 else 1 + Groups(x - w, w)
  }

  /** The rest of a block after the row begun with `part`. */
  lemma {:induction false} RowsInBlock(part: Row, start: nat, count: nat, left: nat, bs: nat, w: nat)
    requires |part| < w && 1 <= left <= bs && count <= left
    ensures |Rows(part, start, count, left, bs, w)| == Groups(|part| + count, w)
    decreases count
  {
    if count > 0 {
      if left == 1 {
        assert Rows([], start + 1, 0, bs, bs, w) == [];
      } else if |part| + 1 == w {
        RowsInBlock([], start + 1, count - 1, left - 1, bs, w);
      } else {
        RowsInBlock(part + [start], start + 1, count - 1, left - 1, bs, w);
      }
    }
  }

  /** Threads that reach the end of the block fill its rows, and then those of the blocks that follow. */
  lemma {:induction false} RowsPastBlock(part: Row, start: nat, count: nat, left: nat, bs: nat, w: nat)
    requires |part| < w && 1 <= left <= bs && left <= count
    ensures Rows(part, start, count, left, bs, w)
         == Rows(part, start, left, left, bs, w) + Rows([], start + left, count - left, bs, bs, w)
    decreases left
  {
    if left == 1 {
      assert Rows([], start + 1, 0, bs, bs, w) == [];
    } else if |part| + 1 == w {
      RowsPastBlock([], start + 1, count - 1, left - 1, bs, w);
    } else {
      RowsPastBlock(part + [start], start + 1, count - 1, left - 1, bs, w);
    }
  }

  /** Every whole block takes as many rows as its threads need. */
  lemma {:induction false} RowsOfBlocks(start: nat, blocks: nat, bs: nat, w: nat)
    requires bs > 0 && w > 0
    ensures |Rows([], start, blocks * bs, bs, bs, w)| == blocks * Groups(bs, w)
    decreases blocks
  {
    if blocks > 0 {
      var g := Groups(bs, w);
      assert blocks * bs == (blocks - 1) * bs + bs && blocks * g == (blocks - 1) * g + g;
      MulMono(0, blocks - 1, bs);
      RowsPastBlock([], start, blocks * bs, bs, bs, w);
      RowsInBlock([], start, bs, bs, bs, w);
      RowsOfBlocks(start + bs, blocks - 1, bs, w);
    }
  }

  /** addTimingThreads for an SM that takes all threads: one timed warp for every warp's worth of threads. */
  function TimedWarps(threads: nat, warpsize: nat): nat
    requires warpsize > 0
  {
    threads / warpsize + if threads % warpsize > 0 then 1 else 0
  }

  /** Some row is not timed exactly when some block is not covered, for a kernel of whole blocks on one SM. */
  lemma AllCoveredIffAllTimed(blocks: nat, bs: nat, w: nat, timed: nat, barriers: set<nat>, rows: seq<Row>)
    requires bs > 0 && w > 0 && rows == Rows([], 0, blocks * bs, bs, bs, w) && timed <= |rows|
    ensures Blockwise(rows, bs)
    ensures timed == |rows| <==> forall b | 0 <= b < blocks :: Covered(LayoutOf(rows, bs, blocks, timed, barriers), b)
  {
    RowsBlockwise([], 0, blocks * bs, bs, bs, w, 0);
    forall b | 0 <= b < blocks
      ensures Covered(LayoutOf(rows, bs, blocks, timed, barriers), b) <==>
              forall v | timed <= v < |rows| :: rows[v][0] / bs != b
    {
      CoveredIffTimed(rows, bs, blocks, timed, barriers, b);
    }
    if timed < |rows| {
      FirstBelow(rows, timed, blocks, bs, w);
      assert !Covered(LayoutOf(rows, bs, blocks, timed, barriers), rows[timed][0] / bs);
    }
  }

  lemma FirstBelow(rows: seq<Row>, v: nat, blocks: nat, bs: nat, w: nat)
    requires bs > 0 && w > 0 && rows == Rows([], 0, blocks * bs, bs, bs, w) && Blockwise(rows, bs) && v < |rows|
    ensures 0 <= rows[v][0] / bs < blocks
  {
    FirstId(rows, v, blocks * bs, bs, w);
    QuotientBelow(rows[v][0], blocks, bs);
  }

  lemma FirstId(rows: seq<Row>, v: nat, n: nat, bs: nat, w: nat)
    requires bs > 0 && w > 0 && rows == Rows([], 0, n, bs, bs, w) && Blockwise(rows, bs) && v < |rows|
    ensures 0 <= rows[v][0] < n
  {
    var id := rows[v][0];
    assert OneBlock(rows[v], bs);
    RowsIds([], 0, n, bs, bs, w);
    assert [] + Range(0, n) == Range(0, n);
    IdsHas(rows, id);
    assert Sits(rows, v, 0, id);
  }

  lemma QuotientBelow(x: nat, k: nat, d: nat)
    requires d > 0 && x < k * d
    ensures x / d < k
  {
    var q := x / d;
    assert q * d <= x;
    MulMono(k, q, d);
  }

  /** Three blocks of 48 threads on 32 columns, all to be timed: six rows, of which five are. */
  lemma LastRowLeftOut(rows: seq<Row>, barriers: set<nat>)
    requires rows == Rows([], 0, 3 * 48, 48, 48, 32)
    ensures |rows| == 6 && TimedWarps(3 * 48, 32) == 5 && Blockwise(rows, 48)
    ensures !forall b | 0 <= b < 3 :: Covered(LayoutOf(rows, 48, 3, 5, barriers), b)
  {
    RowsOfBlocks(0, 3, 48, 32);
    AllCoveredIffAllTimed(3, 48, 32, 5, barriers, rows);
  }
}
