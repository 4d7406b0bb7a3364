/**
 How kernel threads are spread over the streaming multiprocessors (SMs) of a
 GPU: an SM has one column of slots per processing element (PE); slot r of all
 columns together form warp row r. Each SM gets whole chunks of thread blocks.
 */
module GpuThreads {
  import opened Common

  datatype ThreadStatus = Running | PausedOnMemAccess | PausedOnBarrier | BlockDone | ExecutionDone | Invalid

  /** An empty slot holds this instead of a thread id. */
  const NO_THREAD := -1

  /** The slots of one SM, column by column, as the source keeps them. */
  datatype SmThreads = SmThreads(threads: seq<seq<int>>, status: seq<seq<ThreadStatus>>, total: nat)

  type Row = seq<int>

  // ---------------------------------------------------------------------------
  // Rows: the same slots warp by warp
  // ---------------------------------------------------------------------------

  predicate Wide(rows: seq<Row>, w: nat)
  {
    forall r | 0 <= r < |rows| :: |rows[r]| == w
  }

  function Column(rows: seq<Row>, w: nat, pe: nat): (c: seq<int>)
    requires Wide(rows, w) && pe < w
    ensures |c| == |rows| && forall r | 0 <= r < |rows| :: c[r] == rows[r][pe]
  {
    seq(|rows|, r requires 0 <= r < |rows| => rows[r][pe])
  }

  function StatusOf(id: int): ThreadStatus { if id == NO_THREAD then Invalid else Running }

  function Statuses(c: seq<int>): (s: seq<ThreadStatus>)
    ensures |s| == |c| && forall r | 0 <= r < |c| :: s[r] == StatusOf(c[r])
  {
    seq(|c|, r requires 0 <= r < |c| => StatusOf(c[r]))
  }

  /** The SM's columns are the columns of `rows`, with the first k of them one slot further into row `part`. */
  ghost predicate Holds(sm: SmThreads, rows: seq<Row>, part: Row, w: nat)
  {
    && Wide(rows, w) && |part| <= w && |sm.threads| == |sm.status| == w
    && forall pe | 0 <= pe < w ::
         && sm.threads[pe] == Column(rows, w, pe) + (if pe < |part| then [part[pe]] else [])
         && sm.status[pe] == Statuses(sm.threads[pe])
  }

  function Padded(part: Row, w: nat): (row: Row)
    requires |part| <= w
    ensures |row| == w
    ensures forall i | 0 <= i < w :: row[i] == if i < |part| then part[i] else NO_THREAD
  {
    part + seq(w - |part|, i => NO_THREAD)
  }

  /** The rows that threads start..start+count fill after the row begun with `part`; the block ends in `left`. */
  function Rows(part: Row, start: nat, count: nat, left: nat, bs: nat, w: nat): (rows: seq<Row>)
    requires |part| < w && 1 <= left <= bs
    ensures Wide(rows, w)
    decreases count
  {
    if count == 0 then (if part == [] then [] else [Padded(part, w)])
    else if left == 1 then [Padded(part + [start], w)] + Rows([], start + 1, count - 1, bs, bs, w)
    else if |part| + 1 == w then [part + [start]] + Rows([], start + 1, count - 1, left - 1, bs, w)
    else Rows(part + [start], start + 1, count - 1, left - 1, bs, w)
  }

  // ---------------------------------------------------------------------------
  // addThreads
  // ---------------------------------------------------------------------------

  /** Append one slot to column pe. */
  function Push(sm: SmThreads, pe: nat, id: int): SmThreads
    requires pe < |sm.threads| == |sm.status|
  {
    sm.(threads := sm.threads[pe := sm.threads[pe] + [id]],
        status := sm.status[pe := sm.status[pe] + [StatusOf(id)]])
  }

  lemma PushHolds(sm: SmThreads, rows: seq<Row>, part: Row, w: nat, id: int)
    requires Holds(sm, rows, part, w) && |part| < w
    ensures Holds(Push(sm, |part|, id), rows, part + [id], w)
  {
  }

  lemma RowDone(sm: SmThreads, rows: seq<Row>, part: Row, w: nat)
    requires Holds(sm, rows, part, w) && |part| == w
    ensures Holds(sm, rows + [part], [], w)
  {
    forall pe | 0 <= pe < w
      ensures sm.threads[pe] == Column(rows + [part], w, pe)
    {
      assert sm.threads[pe] == Column(rows, w, pe) + [part[pe]];
    }
  }

  /** Fill the rest of a row with empty slots. */
  method PadRow(sm: SmThreads, w: nat, ghost rows: seq<Row>, ghost part: Row, pe: nat)
    returns (sm': SmThreads)
    requires Holds(sm, rows, part, w) && pe == |part|
    ensures Holds(sm', rows + [Padded(part, w)], [], w) && sm'.total == sm.total
  {
    sm' := sm;
    var k := pe;
    ghost var row := part;
    while k < w
      invariant |part| <= k <= w && |row| == k && row <= Padded(part, w)
      invariant Holds(sm', rows, row, w) && sm'.total == sm.total
    {
      PushHolds(sm', rows, row, w, NO_THREAD);
      sm' := Push(sm', k, NO_THREAD);
      row := row + [NO_THREAD];
      k := k + 1;
    }
    assert row == Padded(part, w);
    RowDone(sm', rows, row, w);
  }

  method AddThreads(sm: SmThreads, startfid: nat, count: nat, bs: nat, numSP: nat, ghost rows: seq<Row>)
    returns (sm': SmThreads)
    requires numSP > 0 && bs > 0 && Holds(sm, rows, [], numSP)
    ensures Holds(sm', rows + Rows([], startfid, count, bs, bs, numSP), [], numSP)
    ensures sm'.total == sm.total + count
  {
    sm' := sm;
    var fid, n, blockend, pe := startfid, count, bs, 0;
    ghost var goal := rows + Rows([], startfid, count, bs, bs, numSP);
    ghost var full, part := rows, [];
    while n > 0
      invariant 0 <= n <= count && 1 <= blockend <= bs && pe == |part| < numSP
      invariant Holds(sm', full, part, numSP) && sm'.total == sm.total + (count - n)
      invariant goal == full + Rows(part, fid, n, blockend, bs, numSP)
    {
      PushHolds(sm', full, part, numSP, fid);
      ghost var rest := Rows(part, fid, n, blockend, bs, numSP);
      sm' := Push(sm', pe, fid);
      part := part + [fid];
      fid := fid + 1;
      sm' := sm'.(total := sm'.total + 1);
      pe := pe + 1;
      if blockend == 1 {
        sm' := PadRow(sm', numSP, full, part, pe);
        full, part := full + [Padded(part, numSP)], [];
        pe := numSP;
        blockend := bs;
      } else {
        blockend := blockend - 1;
        if pe == numSP {
          RowDone(sm', full, part, numSP);
          full, part := full + [part], [];
        }
      }
      if pe >= numSP {
        pe := 0;
      }
      n := n - 1;
    }
    if pe != 0 {
      sm' := PadRow(sm', numSP, full, part, pe);
    }
  }

  // ---------------------------------------------------------------------------
  // What the rows hold
  // ---------------------------------------------------------------------------

  /** The thread ids of a row, without the empty slots. */
  function Occupied(row: Row): seq<int>
  {
    if row == [] then [] else (if row[0] == NO_THREAD then [] else [row[0]]) + Occupied(row[1..])
  }

  /** The thread ids of all rows, in row-major order. */
  function Ids(rows: seq<Row>): seq<int>
  {
    if rows == [] then [] else Occupied(rows[0]) + Ids(rows[1..])
  }

  function Range(a: int, n: nat): (s: seq<int>)
    ensures |s| == n && forall i | 0 <= i < n :: s[i] == a + i
  {
    seq(n, i => a + i)
  }

  predicate Real(part: Row)
  {
    forall i | 0 <= i < |part| :: part[i] >= 0
  }

  lemma {:induction false} OccupiedPadded(part: Row, w: nat)
    requires |part| <= w && Real(part)
    ensures Occupied(Padded(part, w)) == part
    decreases w
  {
    var row := Padded(part, w);
    if w > 0 {
      if part == [] {
        assert row[1..] == Padded([], w - 1);
        OccupiedPadded([], w - 1);
      } else {
        assert row[1..] == Padded(part[1..], w - 1);
        OccupiedPadded(part[1..], w - 1);
      }
    }
  }

  /** Every thread lands in exactly one slot, in order; all other slots are empty. */
  lemma {:induction false} RowsIds(part: Row, start: nat, count: nat, left: nat, bs: nat, w: nat)
    requires |part| < w && 1 <= left <= bs && Real(part)
    ensures Ids(Rows(part, start, count, left, bs, w)) == part + Range(start, count)
    decreases count
  {
    if count == 0 {
      OccupiedPadded(part, w);
      if part != [] { assert Rows(part, start, 0, left, bs, w)[1..] == []; }
    } else {
      var row := part + [start];
      assert part + Range(start, count) == row + Range(start + 1, count - 1);
      if left == 1 {
        RowsIds([], start + 1, count - 1, bs, bs, w);
        FullRowIds(row, Rows([], start + 1, count - 1, bs, bs, w), w, Range(start + 1, count - 1));
      } else if |row| == w {
        assert Padded(row, w) == row;
        RowsIds([], start + 1, count - 1, left - 1, bs, w);
        FullRowIds(row, Rows([], start + 1, count - 1, left - 1, bs, w), w, Range(start + 1, count - 1));
      } else {
        RowsIds(row, start + 1, count - 1, left - 1, bs, w);
      }
    }
  }

  lemma FullRowIds(part: Row, rest: seq<Row>, w: nat, ids: seq<int>)
    requires |part| <= w && Real(part) && Ids(rest) == [] + ids
    ensures Ids([Padded(part, w)] + rest) == part + ids
  {
    OccupiedPadded(part, w);
    IdsCons(Padded(part, w), rest);
    assert [] + ids == ids;
  }

  lemma IdsCons(row: Row, rest: seq<Row>)
    ensures Ids([row] + rest) == Occupied(row) + Ids(rest)
  {
    assert ([row] + rest)[1..] == rest;
  }

  lemma {:induction false} IdsConcat(a: seq<Row>, b: seq<Row>)
    ensures Ids(a + b) == Ids(a) + Ids(b)
  {
    if a == [] {
      assert a + b == b;
    } else {
      assert a + b == [a[0]] + (a[1..] + b);
      IdsCons(a[0], a[1..] + b);
      IdsConcat(a[1..], b);
    }
  }

  /** The threads of a row come first, without a gap. */
  predicate Packed(row: Row)
  {
    forall i, j | 0 <= i < j < |row| && row[i] == NO_THREAD :: row[j] == NO_THREAD
  }

  /** A row starts with a thread, has no gap, and all its threads belong to the same block. */
  predicate OneBlock(row: Row, bs: nat)
    requires bs > 0
  {
    row != [] && row[0] >= 0 && Packed(row) &&
    forall pe | 0 <= pe < |row| && row[pe] != NO_THREAD :: row[pe] >= 0 && row[pe] / bs == row[0] / bs
  }

  predicate Blockwise(rows: seq<Row>, bs: nat)
    requires bs > 0
  {
    forall r | 0 <= r < |rows| :: OneBlock(rows[r], bs)
  }

  lemma MulMono(a: nat, b: nat, c: nat)
    ensures a <= b ==> a * c <= b * c
  {
  }

  lemma SameQuotient(x: nat, b: nat, bs: nat)
    requires bs > 0 && b * bs <= x < (b + 1) * bs
    ensures x / bs == b
  {
    var q := x / bs;
    assert q * bs <= x < (q + 1) * bs;
    MulMono(q + 1, b, bs);
    MulMono(b + 1, q, bs);
  }

  lemma {:induction false} RowsBlockwise(part: Row, start: nat, count: nat, left: nat, bs: nat, w: nat, b: nat)
    requires |part| < w && 1 <= left <= bs && start + left == (b + 1) * bs
    requires forall i | 0 <= i < |part| :: b * bs <= part[i] < (b + 1) * bs
    ensures Blockwise(Rows(part, start, count, left, bs, w), bs)
    decreases count
  {
    if count == 0 {
      if part != [] { PaddedOneBlock(part, w, bs, b); }
    } else {
      var row := part + [start];
      assert (b + 1) * bs == b * bs + bs;
      if left == 1 {
        PaddedOneBlock(row, w, bs, b);
        assert (b + 2) * bs == (b + 1) * bs + bs;
        RowsBlockwise([], start + 1, count - 1, bs, bs, w, b + 1);
      } else if |row| == w {
        PaddedOneBlock(row, w, bs, b);
        assert Padded(row, w) == row;
        RowsBlockwise([], start + 1, count - 1, left - 1, bs, w, b);
      } else {
        RowsBlockwise(row, start + 1, count - 1, left - 1, bs, w, b);
      }
    }
  }

  lemma PaddedOneBlock(part: Row, w: nat, bs: nat, b: nat)
    requires 0 < |part| <= w && bs > 0
    requires forall i | 0 <= i < |part| :: b * bs <= part[i] < (b + 1) * bs
    ensures OneBlock(Padded(part, w), bs)
  {
    forall i | 0 <= i < |part| ensures part[i] >= 0 && part[i] / bs == b {
      assert b * bs >= 0;
      SameQuotient(part[i], b, bs);
    }
  }

  // ---------------------------------------------------------------------------
  // The distribution over SMs
  // ---------------------------------------------------------------------------

  /** The threads below n that belong on SM k: those whose chunk number is k modulo the number of SMs. */
  function Mine(k: nat, n: nat, chunk: nat, numSM: nat): seq<int>
    requires chunk > 0 && numSM > 0
  {
    if n == 0 then []
    else Mine(k, n - 1, chunk, numSM) + if ((n - 1) / chunk) % numSM == k then [n - 1] else []
  }

  lemma {:induction false} MineChunk(k: nat, j: nat, c: nat, chunk: nat, numSM: nat)
    requires 0 <= c <= chunk && chunk > 0 && numSM > 0
    ensures Mine(k, j * chunk + c, chunk, numSM) ==
            Mine(k, j * chunk, chunk, numSM) + if j % numSM == k then Range(j * chunk, c) else []
  {
    if c > 0 {
      MineChunk(k, j, c - 1, chunk, numSM);
      assert (j + 1) * chunk == j * chunk + chunk;
      SameQuotient(j * chunk + c - 1, j, chunk);
      assert Range(j * chunk, c) == Range(j * chunk, c - 1) + [j * chunk + c - 1];
    } else {
      assert Range(j * chunk, 0) == [];
    }
  }

  /** SM k holds its share of the first n threads, each exactly once and block by block. */
  ghost predicate HoldsShare(sm: SmThreads, rows: seq<Row>, k: nat, n: nat, chunk: nat, numSM: nat, bs: nat, w: nat)
    requires chunk > 0 && numSM > 0 && bs > 0
  {
    && Holds(sm, rows, [], w) && Blockwise(rows, bs)
    && Ids(rows) == Mine(k, n, chunk, numSM)
    && sm.total == |Mine(k, n, chunk, numSM)|
  }

  ghost predicate AllHoldShares(sms: seq<SmThreads>, rows: seq<seq<Row>>, n: nat, chunk: nat, bs: nat, w: nat)
    requires chunk > 0 && bs > 0
  {
    && |sms| == |rows| > 0
    && forall k | 0 <= k < |sms| :: HoldsShare(sms[k], rows[k], k, n, chunk, |sms|, bs, w)
  }

  /** Where group number k of n begins: k times n, kept as a repeated sum. */
  function Base(k: nat, n: nat): nat
  {
    if k == 0 then 0 else Base(k - 1, n) + n
  }

  lemma {:induction false} BaseIsProduct(k: nat, n: nat)
    ensures Base(k, n) == k * n
  {
    if k > 0 { BaseIsProduct(k - 1, n); }
  }

  lemma {:induction false} BaseAdd(b: nat, m: nat, n: nat)
    ensures Base(b + m, n) == Base(b, n) + m * n
  {
    if m > 0 { BaseAdd(b, m - 1, n); }
  }

  /** One round of the distribution: chunk number j goes to SM j modulo their number. */
  method AddChunk(sms: seq<SmThreads>, tmpnum: nat, numThreads: nat, chunk: nat, bs: nat, numSP: nat,
                  ghost rows: seq<seq<Row>>, ghost j: nat, ghost b: nat, ghost upto: nat)
    returns (sms': seq<SmThreads>, ghost rows': seq<seq<Row>>)
    requires chunk > 0 && bs > 0 && numSP > 0 && tmpnum < numThreads
    requires tmpnum == Base(j, chunk) && tmpnum + bs == Base(b + 1, bs)
    requires AllHoldShares(sms, rows, tmpnum, chunk, bs, numSP)
    requires upto == if tmpnum + chunk < numThreads then tmpnum + chunk else numThreads
    ensures |sms'| == |sms| && AllHoldShares(sms', rows', upto, chunk, bs, numSP)
  {
    ChunkNumber(tmpnum, j, chunk);
    var losmid := (tmpnum / chunk) % |sms|;
    var count := if chunk > numThreads - tmpnum then numThreads - tmpnum else chunk;
    var sm := AddThreads(sms[losmid], tmpnum, count, bs, numSP, rows[losmid]);
    sms' := sms[losmid := sm];
    rows' := rows[losmid := rows[losmid] + Rows([], tmpnum, count, bs, bs, numSP)];
    SharesAfter(sms, rows, losmid, j, tmpnum, count, chunk, bs, numSP, b, sms', rows', upto);
  }

  lemma ChunkNumber(start: nat, j: nat, chunk: nat)
    requires chunk > 0 && start == Base(j, chunk)
    ensures start / chunk == j
  {
    BaseIsProduct(j, chunk);
    assert (j + 1) * chunk == j * chunk + chunk;
    SameQuotient(start, j, chunk);
  }

  /** The shares of all SMs after SM j modulo their number got chunk j. */
  lemma SharesAfter(sms: seq<SmThreads>, rows: seq<seq<Row>>, n: nat, j: nat, start: nat, count: nat, chunk: nat,
                    bs: nat, w: nat, b: nat, sms': seq<SmThreads>, rows': seq<seq<Row>>, upto: nat)
    requires chunk > 0 && bs > 0 && w > 0 && count <= chunk && start == Base(j, chunk) && start + bs == Base(b + 1, bs)
    requires AllHoldShares(sms, rows, start, chunk, bs, w) && n == j % |sms| && upto == start + count
    requires |sms'| == |sms| && sms' == sms[n := sms'[n]]
    requires rows' == rows[n := rows[n] + Rows([], start, count, bs, bs, w)]
    requires Holds(sms'[n], rows'[n], [], w) && sms'[n].total == sms[n].total + count
    ensures AllHoldShares(sms', rows', upto, chunk, bs, w)
  {
    BaseIsProduct(j, chunk);
    BaseIsProduct(b + 1, bs);
    ChunkShare(rows[n], j, start, count, chunk, |sms|, bs, w, b);
    forall k | 0 <= k < |sms| ensures HoldsShare(sms'[k], rows'[k], k, upto, chunk, |sms|, bs, w) {
      if k != n { ShareKept(sms[k], rows[k], k, j, start, count, chunk, |sms|, bs, w); }
    }
  }

  /** A chunk that goes to another SM leaves this SM's share as it is. */
  lemma ShareKept(sm: SmThreads, rows: seq<Row>, k: nat, j: nat, start: nat, count: nat, chunk: nat, numSM: nat,
                  bs: nat, w: nat)
    requires chunk > 0 && numSM > 0 && bs > 0 && start == j * chunk && count <= chunk && j % numSM != k
    requires HoldsShare(sm, rows, k, start, chunk, numSM, bs, w)
    ensures HoldsShare(sm, rows, k, start + count, chunk, numSM, bs, w)
  {
    MineChunk(k, j, count, chunk, numSM);
    assert Mine(k, start, chunk, numSM) + [] == Mine(k, start, chunk, numSM);
  }

  /** The loop of reOrganize that hands chunks of whole blocks to the SMs in turn. */
  method Distribute(numThreads: nat, blocksPerSm: nat, bs: nat, numSP: nat, numSM: nat)
    returns (sms: seq<SmThreads>, ghost rows: seq<seq<Row>>)
    requires bs > 0 && numSP > 0 && numSM > 0 && blocksPerSm * bs > 0
    ensures |sms| == numSM
    ensures AllHoldShares(sms, rows, numThreads, blocksPerSm * bs, bs, numSP)
  {
    var chunk: nat := blocksPerSm * bs;
    var empty := SmThreads(seq(numSP, i => []), seq(numSP, i => []), 0);
    sms := seq(numSM, i => empty);
    rows := seq(numSM, i => []);
    assert Ids([]) == [];
    var tmpnum := 0;
    ghost var j: nat, b: nat, upto: nat := 0, 0, 0;
    while tmpnum < numThreads
      invariant tmpnum == Base(j, chunk) && tmpnum + bs == Base(b + 1, bs) && |sms| == numSM
      invariant upto == (if tmpnum < numThreads then tmpnum else numThreads)
      invariant AllHoldShares(sms, rows, upto, chunk, bs, numSP)
      decreases numThreads - tmpnum
    {
      upto := if tmpnum + chunk < numThreads then tmpnum + chunk else numThreads;
      sms, rows := AddChunk(sms, tmpnum, numThreads, chunk, bs, numSP, rows, j, b, upto);
      BaseAdd(b + 1, blocksPerSm, bs);
      tmpnum := tmpnum + chunk;
      j, b := j + 1, b + blocksPerSm;
    }
  }

  /** A chunk that starts at a block boundary extends the share of the SM that receives it. */
  lemma ChunkShare(rows: seq<Row>, j: nat, start: nat, count: nat, chunk: nat, numSM: nat, bs: nat, w: nat, b: nat)
    requires bs > 0 && w > 0 && numSM > 0 && chunk > 0 && count <= chunk
    requires start == j * chunk && start + bs == (b + 1) * bs
    requires Blockwise(rows, bs) && Ids(rows) == Mine(j % numSM, start, chunk, numSM)
    ensures var all, mine := rows + Rows([], start, count, bs, bs, w), Mine(j % numSM, start + count, chunk, numSM);
            Blockwise(all, bs) && Ids(all) == mine && |mine| == |Ids(rows)| + count
  {
    RowsBlockwise([], start, count, bs, bs, w, b);
    BlockwiseConcat(rows, Rows([], start, count, bs, bs, w), bs);
    ChunkIds(rows, j, start, count, chunk, numSM, bs, w);
  }

  lemma ChunkIds(rows: seq<Row>, j: nat, start: nat, count: nat, chunk: nat, numSM: nat, bs: nat, w: nat)
    requires bs > 0 && w > 0 && numSM > 0 && chunk > 0 && count <= chunk && start == j * chunk
    requires Ids(rows) == Mine(j % numSM, start, chunk, numSM)
    ensures Ids(rows + Rows([], start, count, bs, bs, w)) == Mine(j % numSM, start + count, chunk, numSM)
    ensures |Mine(j % numSM, start + count, chunk, numSM)| == |Ids(rows)| + count
  {
    RowsIds([], start, count, bs, bs, w);
    assert [] + Range(start, count) == Range(start, count);
    IdsConcat(rows, Rows([], start, count, bs, bs, w));
    MineChunk(j % numSM, j, count, chunk, numSM);
  }

  lemma BlockwiseConcat(a: seq<Row>, b: seq<Row>, bs: nat)
    requires bs > 0 && Blockwise(a, bs) && Blockwise(b, bs)
    ensures Blockwise(a + b, bs)
  {
    forall r | 0 <= r < |a + b| ensures OneBlock((a + b)[r], bs) {
      assert r < |a| ==> OneBlock(a[r], bs);
      assert r >= |a| ==> OneBlock(b[r - |a|], bs);
    }
  }

  // ---------------------------------------------------------------------------
  // One slot per thread
  // ---------------------------------------------------------------------------

  lemma {:induction false} MineHas(k: nat, n: nat, chunk: nat, numSM: nat, id: int)
    requires chunk > 0 && numSM > 0
    ensures id in Mine(k, n, chunk, numSM) <==> 0 <= id < n && (id / chunk) % numSM == k
  {
    if n > 0 { MineHas(k, n - 1, chunk, numSM, id); }
  }

  lemma {:induction false} MineAscending(k: nat, n: nat, chunk: nat, numSM: nat)
    requires chunk > 0 && numSM > 0
    ensures Ascending(Mine(k, n, chunk, numSM))
  {
    if n > 0 {
      MineAscending(k, n - 1, chunk, numSM);
      var before := Mine(k, n - 1, chunk, numSM);
      forall i | 0 <= i < |before| ensures before[i] < n - 1 {
        MineHas(k, n - 1, chunk, numSM, before[i]);
      }
    }
  }

  /** Thread `id` sits in row r, column pe. */
  predicate Sits(rows: seq<Row>, r: nat, pe: nat, id: int)
  {
    r < |rows| && pe < |rows[r]| && rows[r][pe] == id
  }

  lemma {:induction false} OccupiedHas(row: Row, id: int)
    requires id != NO_THREAD
    ensures id in Occupied(row) <==> id in row
  {
    if row != [] { OccupiedHas(row[1..], id); }
  }

  lemma {:induction false} IdsHas(rows: seq<Row>, id: int)
    requires id != NO_THREAD
    ensures id in Ids(rows) <==> exists r: nat, pe: nat :: Sits(rows, r, pe, id)
  {
    if rows != [] {
      OccupiedHas(rows[0], id);
      IdsHas(rows[1..], id);
      if id in rows[0] {
        var pe :| 0 <= pe < |rows[0]| && rows[0][pe] == id;
        assert Sits(rows, 0, pe, id);
      }
      if r: nat, pe: nat :| Sits(rows[1..], r, pe, id) {
        assert Sits(rows, r + 1, pe, id);
      }
      if r: nat, pe: nat :| Sits(rows, r, pe, id) && r > 0 {
        assert Sits(rows[1..], r - 1, pe, id);
      }
    }
  }

  lemma {:induction false} OccupiedOnce(row: Row, i: nat, j: nat)
    requires i < j < |row| && row[i] == row[j] && row[i] != NO_THREAD
    ensures !Ascending(Occupied(row))
  {
    var o, rest := Occupied(row), Occupied(row[1..]);
    if i == 0 {
      OccupiedHas(row[1..], row[0]);
      assert row[1..][j - 1] == row[0];
      var k :| 0 <= k < |rest| && rest[k] == row[0];
      assert o[0] == o[k + 1];
    } else {
      OccupiedOnce(row[1..], i - 1, j - 1);
      var a, b :| 0 <= a < b < |rest| && rest[a] >= rest[b];
      var shift := |o| - |rest|;
      assert o[a + shift] == rest[a] && o[b + shift] == rest[b];
    }
  }

  /** The parts of an ascending sequence are ascending and share no element. */
  lemma AscendingParts(a: seq<int>, b: seq<int>)
    requires Ascending(a + b)
    ensures Ascending(a) && Ascending(b)
    ensures forall x :: !(x in a && x in b)
  {
    var c := a + b;
    assert forall i | 0 <= i < |a| :: a[i] == c[i];
    assert forall i | 0 <= i < |b| :: b[i] == c[|a| + i];
  }

  lemma {:induction false} IdsOnce(rows: seq<Row>, id: int, r: nat, pe: nat, s: nat, qe: nat)
    requires id != NO_THREAD && Ascending(Ids(rows)) && Sits(rows, r, pe, id) && Sits(rows, s, qe, id)
    ensures r == s && pe == qe
  {
    AscendingParts(Occupied(rows[0]), Ids(rows[1..]));
    OccupiedHas(rows[0], id);
    IdsHas(rows[1..], id);
    if r > 0 { assert Sits(rows[1..], r - 1, pe, id); }
    if s > 0 { assert Sits(rows[1..], s - 1, qe, id); }
    if r > 0 && s > 0 {
      IdsOnce(rows[1..], id, r - 1, pe, s - 1, qe);
    } else if pe < qe {
      OccupiedOnce(rows[0], pe, qe);
    } else if qe < pe {
      OccupiedOnce(rows[0], qe, pe);
    }
  }

  /** The threads of the kernel, distributed: row lists per SM that hold their shares. */
  predicate Distributed(rows: seq<seq<Row>>, n: nat, chunk: nat)
    requires chunk > 0
  {
    |rows| > 0 && forall k | 0 <= k < |rows| :: Ids(rows[k]) == Mine(k, n, chunk, |rows|)
  }

  /** Every thread of the kernel has exactly one slot on exactly one SM. */
  lemma OneSlotPerThread(rows: seq<seq<Row>>, n: nat, chunk: nat, id: int)
    returns (k: nat, r: nat, pe: nat)
    requires chunk > 0 && Distributed(rows, n, chunk) && 0 <= id < n
    ensures k < |rows| && Sits(rows[k], r, pe, id)
    ensures forall k': nat, r': nat, pe': nat | k' < |rows| && Sits(rows[k'], r', pe', id) ::
              k' == k && r' == r && pe' == pe
  {
    k := (id / chunk) % |rows|;
    MineHas(k, n, chunk, |rows|, id);
    MineAscending(k, n, chunk, |rows|);
    IdsHas(rows[k], id);
    r, pe :| Sits(rows[k], r, pe, id);
    forall k': nat, r': nat, pe': nat | k' < |rows| && Sits(rows[k'], r', pe', id)
      ensures k' == k && r' == r && pe' == pe
    {
      MineHas(k', n, chunk, |rows|, id);
      IdsHas(rows[k'], id);
      IdsOnce(rows[k], id, r, pe, r', pe');
    }
  }

  /** Only threads of the kernel have slots, each on the SM its chunk goes to. */
  lemma OnlyThreadsSit(rows: seq<seq<Row>>, n: nat, chunk: nat, k: nat, r: nat, pe: nat)
    requires chunk > 0 && Distributed(rows, n, chunk) && k < |rows| && r < |rows[k]| && pe < |rows[k][r]|
    requires rows[k][r][pe] != NO_THREAD
    ensures var id := rows[k][r][pe]; 0 <= id < n && (id / chunk) % |rows| == k
  {
    MineHas(k, n, chunk, |rows|, rows[k][r][pe]);
    IdsHas(rows[k], rows[k][r][pe]);
    assert Sits(rows[k], r, pe, rows[k][r][pe]);
  }

  /** The sizes of the first m shares, added up. */
  function ShareSizes(m: nat, n: nat, chunk: nat, numSM: nat): nat
    requires chunk > 0 && numSM > 0
  {
    if m == 0 then 0 else ShareSizes(m - 1, n, chunk, numSM) + |Mine(m - 1, n, chunk, numSM)|
  }

  lemma {:induction false} ShareSizesStep(m: nat, n: nat, chunk: nat, numSM: nat)
    requires chunk > 0 && numSM > 0
    ensures ShareSizes(m, n + 1, chunk, numSM) ==
            ShareSizes(m, n, chunk, numSM) + if (n / chunk) % numSM < m then 1 else 0
  {
    if m > 0 { ShareSizesStep(m - 1, n, chunk, numSM); }
  }

  lemma {:induction false} NoThreads(m: nat, chunk: nat, numSM: nat)
    requires chunk > 0 && numSM > 0
    ensures ShareSizes(m, 0, chunk, numSM) == 0
  {
    if m > 0 { NoThreads(m - 1, chunk, numSM); }
  }

  /** The per-SM thread totals add up to the number of threads. */
  lemma {:induction false} TotalsAddUp(n: nat, chunk: nat, numSM: nat)
    requires chunk > 0 && numSM > 0
    ensures ShareSizes(numSM, n, chunk, numSM) == n
  {
    if n == 0 {
      NoThreads(numSM, chunk, numSM);
    } else {
      TotalsAddUp(n - 1, chunk, numSM);
      ShareSizesStep(numSM, n - 1, chunk, numSM);
    }
  }

  // ---------------------------------------------------------------------------
  // How many blocks fit on one SM
  // ---------------------------------------------------------------------------

  function RoundUp(n: nat, multiple: nat): nat
  {
    if multiple == 0 || n % multiple == 0 then n else n + multiple - n % multiple
  }

  /** The least multiple at or above n. */
  lemma RoundUpIs(n: nat, multiple: nat, other: nat)
    requires multiple > 0 && n <= other && other % multiple == 0
    ensures n <= RoundUp(n, multiple) <= other && RoundUp(n, multiple) % multiple == 0
  {
    var q, k := n / multiple, other / multiple;
    assert n == q * multiple + n % multiple && other == k * multiple;
    MulMono(k, q, multiple);
    assert (q + 1) * multiple == q * multiple + multiple;
    if n % multiple > 0 {
      SameQuotient(RoundUp(n, multiple), q + 1, multiple);
      assert (q + 2) * multiple == q * multiple + multiple + multiple;
      MulMono(q + 1, k, multiple);
    }
  }

  /** What i blocks of a kernel need, against the limits of an SM. */
  datatype Limits = Limits(maxBlocks: nat, maxWarps: nat, maxShmem: nat, maxRegs: nat)
  datatype BlockNeeds = BlockNeeds(warps: nat, shmem: nat, regs: nat)

  predicate Fit(i: nat, need: BlockNeeds, max: Limits)
  {
    && i <= max.maxBlocks && need.warps * i <= max.maxWarps
    && need.shmem * i <= max.maxShmem && need.regs * i <= max.maxRegs
  }

  /** If i blocks fit, so do fewer: the occupancy below is the greatest number that fits. */
  lemma FewerFit(i: nat, j: nat, need: BlockNeeds, max: Limits)
    requires Fit(i, need, max) && j <= i
    ensures Fit(j, need, max)
  {
    MulMono(j, i, need.warps);
    MulMono(j, i, need.shmem);
    MulMono(j, i, need.regs);
  }

  /** The loop of calcOccupancy: one more block at a time, until a limit is passed. */
  method BlocksThatFit(need: BlockNeeds, max: Limits) returns (blocks: nat)
    ensures Fit(blocks, need, max) && !Fit(blocks + 1, need, max)
  {
    var i := 1;
    while i <= max.maxBlocks
      invariant 1 <= i <= max.maxBlocks + 1 && Fit(i - 1, need, max)
    {
      if need.warps * i > max.maxWarps || need.shmem * i > max.maxShmem || need.regs * i > max.maxRegs {
        return i - 1;
      }
      i := i + 1;
    }
    return i - 1;
  }

  method CalcOccupancy(bs: nat, warpsize: nat, regsPerThread: nat, threadGranularity: nat,
                       shmemPerKernel: nat, shmemGranularity: nat, max: Limits)
    returns (concWarps: nat, warpsPerBlock: nat, ghost blocks: nat)
    requires warpsize > 0
    ensures warpsPerBlock == (bs + warpsize - 1) / warpsize
    ensures var need := BlockNeeds(warpsPerBlock, RoundUp(shmemPerKernel, shmemGranularity),
                                   RoundUp(regsPerThread * warpsize, threadGranularity) * warpsPerBlock);
            concWarps == blocks * warpsPerBlock && Fit(blocks, need, max) && !Fit(blocks + 1, need, max)
  {
    warpsPerBlock := bs / warpsize;
    if bs % warpsize > 0 {
      warpsPerBlock := warpsPerBlock + 1;
    }
    CeilingDivision(bs, warpsize);
    var regsPerBlock := RoundUp(regsPerThread * warpsize, threadGranularity) * warpsPerBlock;
    var shmemPerBlock := RoundUp(shmemPerKernel, shmemGranularity);
    var n := BlocksThatFit(BlockNeeds(warpsPerBlock, shmemPerBlock, regsPerBlock), max);
    concWarps := n * warpsPerBlock;
    blocks := n;
  }

  lemma CeilingDivision(a: nat, w: nat)
    requires w > 0
    ensures (a + w - 1) / w == a / w + if a % w > 0 then 1 else 0
  {
    var q := a / w + if a % w > 0 then 1 else 0;
    assert a == (a / w) * w + a % w;
    assert (a / w + 1) * w == (a / w) * w + w;
    assert (q + 1) * w == q * w + w;
    SameQuotient(a + w - 1, q, w);
  }
}
