/** The blocks of a kernel and the warpsets of an SM: when the warps of a block share a set, and what follows. */
module GpuSets {
  import opened Common
  import opened GpuThreads
  import opened GpuBarrier
  import opened GpuLayout
  import opened GpuTiming

  // ---------------------------------------------------------------------------
  // Where the rows of a block lie
  // ---------------------------------------------------------------------------

  predicate RowOfBlock(row: Row, bs: nat, b: nat)
    requires bs > 0
  {
    row != [] && row[0] >= 0 && row[0] / bs == b
  }

  predicate AllOfBlock(rows: seq<Row>, bs: nat, b: nat)
    requires bs > 0
  {
    forall v | 0 <= v < |rows| :: RowOfBlock(rows[v], bs, b)
  }

  /** The row begun with `part` is in block b, whose last `left` threads begin with `start`. */
  predicate Filling(part: Row, start: nat, left: nat, bs: nat, w: nat, b: nat)
  {
    && |part| < w && 1 <= left <= bs && start + left == (b + 1) * bs
    && forall i | 0 <= i < |part| :: b * bs <= part[i] < (b + 1) * bs
  }

  lemma FilledRow(part: Row, start: nat, left: nat, bs: nat, w: nat, b: nat)
    requires Filling(part, start, left, bs, w, b)
    ensures RowOfBlock(Padded(part + [start], w), bs, b) && (part != [] ==> RowOfBlock(Padded(part, w), bs, b))
  {
    assert (b + 1) * bs == b * bs + bs;
    var x := (part + [start])[0];
    assert b * bs >= 0;
    SameQuotient(x, b, bs);
  }

  /** Threads that do not go beyond the block fill rows of that block only. */
  lemma {:induction false} WithinBlock(part: Row, start: nat, count: nat, left: nat, bs: nat, w: nat, b: nat)
    requires Filling(part, start, left, bs, w, b) && count <= left
    ensures AllOfBlock(Rows(part, start, count, left, bs, w), bs, b)
    decreases count
  {
    FilledRow(part, start, left, bs, w, b);
    var row := part + [start];
    assert (b + 1) * bs == b * bs + bs;
    if count > 0 {
      if left == 1 {
        assert Rows([], start + 1, 0, bs, bs, w) == [];
      } else if |row| == w {
        assert Padded(row, w) == row;
        WithinBlock([], start + 1, count - 1, left - 1, bs, w, b);
      } else {
        WithinBlock(row, start + 1, count - 1, left - 1, bs, w, b);
      }
    }
  }

  lemma {:induction false} GroupsGrow(x: nat, y: nat, w: nat)
    requires w > 0 && x <= y
    ensures Groups(x, w) <= Groups(y, w) && (y > 0 ==> Groups(y, w) > 0)
    decreases y
  {
    if x > w { GroupsGrow(x - w, y - w, w); } else if y > w { GroupsGrow(0, y - w, w); }
  }

  /** Every block takes the same number of rows, except that the last one may take fewer. */
  lemma {:induction false} RowInGroup(b0: nat, count: nat, bs: nat, w: nat, v: nat) returns (j: nat)
    requires bs > 0 && w > 0 && v < |Rows([], b0 * bs, count, bs, bs, w)|
    ensures RowOfBlock(Rows([], b0 * bs, count, bs, bs, w)[v], bs, b0 + j) && InGroup(j, Groups(bs, w), v)
    decreases count
  {
    var start, g := b0 * bs, Groups(bs, w);
    assert start + bs == (b0 + 1) * bs;
    if count <= bs {
      WithinBlock([], start, count, bs, bs, w, b0);
      RowsInBlock([], start, count, bs, bs, w);
      GroupsGrow(count, bs, w);
      j := 0;
    } else {
      RowsPastBlock([], start, count, bs, bs, w);
      WithinBlock([], start, bs, bs, bs, w, b0);
      RowsInBlock([], start, bs, bs, bs, w);
      if v < g {
        j := 0;
      } else {
        j := RowInGroup(b0 + 1, count - bs, bs, w, v - g);
        BaseUp(j, g, v);
        j := j + 1;
      }
    }
  }

  lemma BaseUp(j: nat, g: nat, v: nat)
    requires g <= v && InGroup(j, g, v - g)
    ensures InGroup(j + 1, g, v)
  {
  }

  // ---------------------------------------------------------------------------
  // Blocks within a warpset
  // ---------------------------------------------------------------------------

  lemma {:induction false} BaseGrows(i: nat, j: nat, g: nat)
    requires i <= j
    ensures Base(i, g) <= Base(j, g)
    decreases j
  {
    if i < j { BaseGrows(i, j - 1, g); }
  }

  /** A group of rows is the only one a row lies in. */
  lemma SameGroup(i: nat, j: nat, g: nat, v: nat)
    requires InGroup(i, g, v) && InGroup(j, g, v)
    ensures i == j
  {
    if i < j { BaseGrows(i + 1, j, g); } else if j < i { BaseGrows(j + 1, i, g); }
  }

  /** Sets of q groups do not cut a group. */
  lemma GroupWithinSet(q: nat, g: nat, k: nat, j: nat, w: nat, v: nat)
    requires InGroup(j, g, w) && InGroup(j, g, v) && InGroup(k, q * g, w)
    ensures InGroup(k, q * g, v)
  {
    SetIsGroups(k, q, g);
    SetIsGroups(k + 1, q, g);
    assert (k + 1) * q == k * q + q;
    if j < k * q { BaseGrows(j + 1, k * q, g); } else { BaseGrows(k * q, j, g); }
    if j < (k + 1) * q { BaseGrows(j + 1, (k + 1) * q, g); } else { BaseGrows((k + 1) * q, j, g); }
  }

  lemma {:induction false} SetIsGroups(k: nat, q: nat, g: nat)
    ensures Base(k, q * g) == Base(k * q, g)
  {
    BaseIsProduct(k, q * g);
    BaseIsProduct(k * q, g);
    assert k * (q * g) == (k * q) * g;
  }

  /** Row v of block number j lies in group number j of g rows. */
  predicate Grouped(m: seq<nat>, g: nat)
  {
    forall v | 0 <= v < |m| :: InGroup(m[v], g, v)
  }

  lemma MapGrouped(count: nat, bs: nat, w: nat, rows: seq<Row>)
    requires bs > 0 && w > 0 && rows == Rows([], 0, count, bs, bs, w) && Blockwise(rows, bs)
    ensures Grouped(BlockMap(rows, bs), Groups(bs, w))
  {
    var m, g := BlockMap(rows, bs), Groups(bs, w);
    forall v | 0 <= v < |m| ensures InGroup(m[v], g, v) {
      assert 0 * bs == 0;
      var j := RowInGroup(0, count, bs, w, v);
      assert m[v] == j;
    }
  }

  /** Set 0 holds all rows. */
  lemma OneSetOfAll(c: Config, b: nat)
    requires |c.l.blockOf| <= c.n
    ensures OneSet(c, b)
  {
    var m := c.l.blockOf;
    assert Base(0, c.n) == 0 && Base(1, c.n) == c.n;
    forall k: nat, w: nat, v: nat | w < |m| && v < |m| && m[w] == m[v] == b && InGroup(k, c.n, w)
      ensures InGroup(k, c.n, v)
    {
      SameGroup(0, k, c.n, w);
    }
  }

  lemma WholeGroups(c: Config, b: nat, g: nat, q: nat)
    requires Grouped(c.l.blockOf, g) && c.n == q * g
    ensures OneSet(c, b)
  {
    var m := c.l.blockOf;
    forall k: nat, w: nat, v: nat | w < |m| && v < |m| && m[w] == m[v] == b && InGroup(k, c.n, w)
      ensures InGroup(k, c.n, v)
    {
      GroupWithinSet(q, g, k, b, w, v);
    }
  }

  lemma {:induction false} NoMultiple(n: nat, j: nat, g: nat)
    requires g > 0 && n % g != 0
    ensures Base(j, g) != n
  {
    BaseIsProduct(j, g);
    if n == j * g {
      assert (j + 1) * g == j * g + g;
      SameQuotient(n, j, g);
    }
  }

  /** The end of set 0 cuts a block unless it is the end of a group. */
  lemma CutBlock(c: Config, g: nat)
    requires Grouped(c.l.blockOf, g) && g > 0 && 0 < c.n < |c.l.blockOf| && c.n % g != 0
    ensures !OneSet(c, c.l.blockOf[c.n])
  {
    var m, n := c.l.blockOf, c.n;
    NoMultiple(n, m[n], g);
    SameGroup(m[n - 1], m[n], g, n - 1);
    assert Base(0, n) == 0 && Base(1, n) == n;
    assert InGroup(0, n, n - 1) && !InGroup(0, n, n);
  }

  lemma Together(c: Config, b: nat, g: nat)
    requires Grouped(c.l.blockOf, g) && g > 0 && (|c.l.blockOf| <= c.n || c.n % g == 0)
    ensures OneSet(c, b)
  {
    if |c.l.blockOf| <= c.n {
      OneSetOfAll(c, b);
    } else {
      WholeGroups(c, b, g, c.n / g);
    }
  }

  /**
   For a kernel on one SM: no block is split over two warpsets if and only if one set holds all warps or the warps
   that share the SM are those of whole blocks.
   */
  lemma BlocksStayTogetherIff(c: Config, count: nat, bs: nat, w: nat, rows: seq<Row>)
    requires bs > 0 && w > 0 && rows == Rows([], 0, count, bs, bs, w) && Blockwise(rows, bs) && c.n > 0
    requires c.l.blockOf == BlockMap(rows, bs)
    ensures Groups(bs, w) > 0
    ensures (forall b: nat :: OneSet(c, b)) <==> |rows| <= c.n || c.n % Groups(bs, w) == 0
  {
    MapGrouped(count, bs, w, rows);
    GroupsGrow(0, bs, w);
    if |rows| <= c.n || c.n % Groups(bs, w) == 0 {
      forall b: nat ensures OneSet(c, b) {
        Together(c, b, Groups(bs, w));
      }
    } else {
      CutBlock(c, Groups(bs, w));
    }
  }

  lemma NextQuotient(a: nat, w: nat)
    requires w > 0
    ensures (a + w) / w == a / w + 1
  {
    var q := a / w;
    assert a == q * w + a % w;
    assert (q + 1) * w == q * w + w && (q + 2) * w == q * w + w + w;
    SameQuotient(a + w, q + 1, w);
  }

  /** A block takes as many rows as the occupancy calculation says when a row has a warp's width. */
  lemma {:induction false} GroupsAreWarps(bs: nat, w: nat)
    requires w > 0
    ensures Groups(bs, w) == (bs + w - 1) / w
  {
    if bs == 0 {
      SameQuotient(w - 1, 0, w);
    } else {
      NextQuotient(bs - 1, w);
      if bs <= w {
        SameQuotient(bs - 1, 0, w);
      } else {
        GroupsAreWarps(bs - w, w);
      }
    }
  }

  lemma QuotientIff(x: nat, k: nat, w: nat)
    requires w > 0
    ensures x / w == k <==> k * w <= x < k * w + w
  {
    var q := x / w;
    assert x == q * w + x % w && (k + 1) * w == k * w + w;
    if k * w <= x < k * w + w { SameQuotient(x, k, w); }
  }

  /** Warps for n threads, when k warps leave e slots empty. */
  lemma TimedIff(n: nat, k: nat, e: nat, w: nat)
    requires w > 0 && k * w == n + e
    ensures TimedWarps(n, w) <= k && (TimedWarps(n, w) == k <==> e < w)
  {
    var t := TimedWarps(n, w);
    CeilingDivision(n, w);
    QuotientIff(n + w - 1, k, w);
    QuotientIff(n + w - 1, t, w);
    MulMono(k + 1, t, w);
    assert (k + 1) * w == k * w + w;
  }

  lemma {:induction false} EmptySlots(blocks: nat, bs: nat, g: nat, w: nat, p: nat)
    requires g * w == bs + p
    ensures (blocks * g) * w == blocks * bs + blocks * p
    decreases blocks
  {
    if blocks > 0 {
      EmptySlots(blocks - 1, bs, g, w, p);
      DistributeOne(blocks - 1, g, w);
      DistributeOne(blocks - 1, bs, 1);
      DistributeOne(blocks - 1, p, 1);
    }
  }

  lemma DistributeOne(x: nat, y: nat, z: nat)
    ensures ((x + 1) * y) * z == (x * y) * z + y * z
  {
    assert (x + 1) * y == x * y + y;
  }

  /** All warps of whole blocks are timed exactly if the empty slots of all blocks together are fewer than a warp. */
  lemma AllTimedIff(blocks: nat, bs: nat, w: nat, g: nat)
    requires bs > 0 && w > 0 && g == Groups(bs, w)
    ensures g * w >= bs && TimedWarps(blocks * bs, w) <= blocks * g
    ensures TimedWarps(blocks * bs, w) == blocks * g <==> blocks * (g * w - bs) < w
  {
    GroupsAreWarps(bs, w);
    QuotientIff(bs + w - 1, g, w);
    EmptySlots(blocks, bs, g, w, g * w - bs);
    TimedIff(blocks * bs, blocks * g, blocks * (g * w - bs), w);
  }

  /**
   So a kernel of whole blocks, all of them timed on one SM in one go, has every row added to its block if and only if
   the empty slots of all its blocks together are fewer than a warp.
   */
  lemma AllCoveredIffLittlePadding(blocks: nat, bs: nat, w: nat, g: nat, barriers: set<nat>, rows: seq<Row>)
    requires bs > 0 && w > 0 && g == Groups(bs, w) && rows == Rows([], 0, blocks * bs, bs, bs, w)
    ensures Blockwise(rows, bs) && TimedWarps(blocks * bs, w) <= |rows|
    ensures blocks * (g * w - bs) < w <==>
            forall b | 0 <= b < blocks ::
              Covered(LayoutOf(rows, bs, blocks, TimedWarps(blocks * bs, w), barriers), b)
  {
    RowsOfBlocks(0, blocks, bs, w);
    AllTimedIff(blocks, bs, w, g);
    AllCoveredIffAllTimed(blocks, bs, w, TimedWarps(blocks * bs, w), barriers, rows);
  }

  /** updateCurrentWarps: the warps of as many blocks as fit, or all warps if these are fewer. */
  function ConcurrentWarps(fitting: nat, bs: nat, w: nat, rows: nat): nat
    requires w > 0
  {
    var occupancy := fitting * ((bs + w - 1) / w);
    if occupancy > rows then rows else occupancy
  }

  /** So the occupancy calculation never splits a block. */
  lemma OccupancyKeepsTogether(c: Config, fitting: nat, count: nat, bs: nat, w: nat, rows: seq<Row>, b: nat)
    requires bs > 0 && w > 0 && rows == Rows([], 0, count, bs, bs, w) && Blockwise(rows, bs)
    requires c.l.blockOf == BlockMap(rows, bs) && c.n == ConcurrentWarps(fitting, bs, w, |rows|)
    ensures OneSet(c, b)
  {
    MapGrouped(count, bs, w, rows);
    GroupsAreWarps(bs, w);
    if c.n == |rows| {
      OneSetOfAll(c, b);
    } else {
      WholeGroups(c, b, Groups(bs, w), fitting);
    }
  }

  // ---------------------------------------------------------------------------
  // Which blocks are full
  // ---------------------------------------------------------------------------

  lemma {:induction false} BlockIdsHas(rows: seq<Row>, m: seq<nat>, b: nat, n: nat, v: nat, x: int)
    requires v < n <= |rows| == |m| && m[v] == b && x in Occupied(rows[v])
    ensures x in BlockIds(rows, m, b, n)
  {
    if v < n - 1 { BlockIdsHas(rows, m, b, n - 1, v, x); }
  }

  /** Every thread of the kernel that belongs to block b is in one of its rows. */
  lemma ThreadInBlock(rows: seq<Row>, count: nat, bs: nat, w: nat, b: nat, x: nat)
    requires bs > 0 && w > 0 && rows == Rows([], 0, count, bs, bs, w) && Blockwise(rows, bs)
    requires x < count && x / bs == b
    ensures x in BlockIds(rows, BlockMap(rows, bs), b, |rows|)
  {
    RowsIds([], 0, count, bs, bs, w);
    assert ([] + Range(0, count))[x] == x;
    IdsHas(rows, x);
    var r: nat, pe: nat :| Sits(rows, r, pe, x);
    assert OneBlock(rows[r], bs);
    OccupiedHas(rows[r], x);
    BlockIdsHas(rows, BlockMap(rows, bs), b, |rows|, r, x);
  }

  /** An ascending sequence that has n consecutive numbers has at least n elements. */
  lemma {:induction false} AtLeast(s: seq<int>, lo: int, n: nat)
    requires Ascending(s) && forall x | lo <= x < lo + n :: x in s
    ensures |s| >= n
    decreases n
  {
    if n > 0 {
      var last := lo + n - 1;
      assert last in s;
      var i :| 0 <= i < |s| && s[i] == last;
      forall x | lo <= x < last ensures x in s[..i] {
        assert x in s;
        var k :| 0 <= k < |s| && s[k] == x;
        assert s[..i][k] == x;
      }
      AtLeast(s[..i], lo, n - 1);
    }
  }

  lemma OrderedIds(rows: seq<Row>, count: nat, bs: nat, w: nat)
    requires bs > 0 && w > 0 && rows == Rows([], 0, count, bs, bs, w)
    ensures Ids(rows) == Range(0, count) && Ascending(Ids(rows))
  {
    RowsIds([], 0, count, bs, bs, w);
    assert [] + Range(0, count) == Range(0, count);
  }

  /** The threads of block b, of which the first is number lo. */
  lemma WholeBlock(rows: seq<Row>, count: nat, bs: nat, w: nat, b: nat, lo: nat)
    requires bs > 0 && w > 0 && rows == Rows([], 0, count, bs, bs, w) && Blockwise(rows, bs)
    requires lo == b * bs && lo + bs <= count
    ensures |BlockIds(rows, BlockMap(rows, bs), b, |rows|)| >= bs
  {
    var ids := BlockIds(rows, BlockMap(rows, bs), b, |rows|);
    assert (b + 1) * bs == lo + bs;
    forall x | lo <= x < lo + bs ensures x in ids {
      SameQuotient(x, b, bs);
      ThreadInBlock(rows, count, bs, w, b, x);
    }
    OrderedBlockIds(rows, count, bs, w, b);
    AtLeast(ids, lo, bs);
  }

  lemma OrderedBlockIds(rows: seq<Row>, count: nat, bs: nat, w: nat, b: nat)
    requires bs > 0 && w > 0 && rows == Rows([], 0, count, bs, bs, w) && Blockwise(rows, bs)
    ensures var ids := BlockIds(rows, BlockMap(rows, bs), b, |rows|);
            Ascending(ids) && |ids| <= bs && forall i | 0 <= i < |ids| :: 0 <= ids[i] < count && ids[i] / bs == b
  {
    var ids := BlockIds(rows, BlockMap(rows, bs), b, |rows|);
    assert rows[..|rows|] == rows;
    OrderedIds(rows, count, bs, w);
    BlockIdsAre(rows, bs, b, |rows|);
    BlockFits(rows, bs, b, |rows|);
    forall i | 0 <= i < |ids| ensures 0 <= ids[i] < count {
      assert Among(ids[i], Ids(rows));
    }
  }

  lemma ShortBlock(rows: seq<Row>, count: nat, bs: nat, w: nat, b: nat, lo: nat)
    requires bs > 0 && w > 0 && rows == Rows([], 0, count, bs, bs, w) && Blockwise(rows, bs)
    requires lo == b * bs && count < lo + bs
    ensures |BlockIds(rows, BlockMap(rows, bs), b, |rows|)| < bs
  {
    var ids, hi := BlockIds(rows, BlockMap(rows, bs), b, |rows|), if lo <= count then count else lo;
    OrderedBlockIds(rows, count, bs, w, b);
    forall i | 0 <= i < |ids| ensures lo <= ids[i] < hi {
      InRange(ids[i], bs, b);
    }
    AscendingFits(ids, lo, hi);
  }

  /** A kernel on one SM fills block b if and only if it has that many threads. */
  lemma FullIffWhole(rows: seq<Row>, count: nat, bs: nat, w: nat, b: nat)
    requires bs > 0 && w > 0 && rows == Rows([], 0, count, bs, bs, w) && Blockwise(rows, bs)
    ensures |BlockIds(rows, BlockMap(rows, bs), b, |rows|)| == bs <==> (b + 1) * bs <= count
  {
    var lo := b * bs;
    assert (b + 1) * bs == lo + bs;
    if lo + bs <= count {
      WholeBlock(rows, count, bs, w, b, lo);
      OrderedBlockIds(rows, count, bs, w, b);
    } else {
      ShortBlock(rows, count, bs, w, b, lo);
    }
  }

  // ---------------------------------------------------------------------------
  // Tests of waiting warps, from the launch of a kernel on
  // ---------------------------------------------------------------------------

  /**
   On an SM as the distribution leaves it, for a block whose rows are timed and share a warpset: over every run
   without a reset upon a paused thread of the block, the tests of its waiting warps succeed exactly if it is full.
   */
  lemma ShareTestsOpenIffFull(sm: SmThreads, rows: seq<Row>, k: nat, n: nat, chunk: nat, numSM: nat, bs: nat, w: nat,
                              blocks: nat, timed: nat, bb: int -> nat, b: nat, c: Config, acts: seq<SmAction>)
    requires chunk > 0 && numSM > 0 && bs > 0 && HoldsShare(sm, rows, k, n, chunk, numSM, bs, w) && timed <= |rows|
    requires b < blocks && c.l == LayoutOf(rows, bs, blocks, timed, c.l.barrierBlocks) && 0 < c.n <= |rows|
    requires (forall v | timed <= v < |rows| :: rows[v][0] / bs != b) && OneSet(c, b)
    requires var s := StartOf(rows, blocks, bb); Formed(c, Start(s)) && CalmRun(c, Start(s), b, acts)
    ensures var s := StartOf(rows, blocks, bb); EveryTest(c, Start(s), b, acts, Full(c.l, s, b))
  {
    KernelStartsRight(sm, rows, k, n, chunk, numSM, bs, w, blocks, timed, c.l.barrierBlocks, bb, b);
    CoveredIffTimed(rows, bs, blocks, timed, c.l.barrierBlocks, b);
    EveryTestOpensIffFull(c, StartOf(rows, blocks, bb), b, acts);
  }

  /**
   A kernel on one SM whose columns make up a warp, with as many concurrent warps as the occupancy calculation finds:
   every test of a waiting warp of block b succeeds if the kernel has all threads of the block, and fails otherwise.
   */
  lemma KernelTestsOpenIffWhole(rows: seq<Row>, count: nat, bs: nat, w: nat, fitting: nat, blocks: nat, timed: nat,
                                bb: int -> nat, b: nat, c: Config, acts: seq<SmAction>)
    requires bs > 0 && w > 0 && rows == Rows([], 0, count, bs, bs, w) && Blockwise(rows, bs) && timed <= |rows|
    requires b < blocks && c.l == LayoutOf(rows, bs, blocks, timed, c.l.barrierBlocks)
    requires 0 < c.n == ConcurrentWarps(fitting, bs, w, |rows|) && Covered(c.l, b)
    requires var s := StartOf(rows, blocks, bb); Formed(c, Start(s)) && CalmRun(c, Start(s), b, acts)
    ensures EveryTest(c, Start(StartOf(rows, blocks, bb)), b, acts, (b + 1) * bs <= count)
  {
    OrderedIds(rows, count, bs, w);
    StartsRight(rows, bs, blocks, timed, c.l.barrierBlocks, bb, b);
    FullIffWhole(rows, count, bs, w, b);
    OccupancyKeepsTogether(c, fitting, count, bs, w, rows, b);
    EveryTestOpensIffFull(c, StartOf(rows, blocks, bb), b, acts);
  }
}
