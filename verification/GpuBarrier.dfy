/**
 Block-wide barriers in a timing pass. The threads of a block fill some warp rows
 of one SM; each row is stepped thread by thread, threads pause when they reach a
 barrier block, and a count decides when the whole block goes on.
 */
module GpuBarrier {
  import opened Common
  import opened GpuThreads

  /** One slot: its status, the basic block its trace stands at (0: none), and whether it was counted complete. */
  datatype Cell = Cell(status: ThreadStatus, bb: nat, complete: bool)

  predicate IsThread(c: Cell) { c.status != Invalid }
  predicate IsPaused(c: Cell) { c.status == PausedOnBarrier }
  predicate IsComplete(c: Cell) { c.complete }
  predicate AtBarrierOrDone(c: Cell) { IsPaused(c) || IsComplete(c) }

  /**
   The layout of the kernel on this SM: the rows that were added to every block, in order, and the block of every
   row. A row need not have been added to its block.
   */
  datatype Layout = Layout(warps: seq<seq<nat>>, blockOf: seq<nat>, blockSize: nat, barrierBlocks: set<nat>) {
    predicate Valid(rows: nat)
    {
      && |blockOf| == rows
      && (forall b | 0 <= b < |warps| :: Ascending(warps[b]))
      && (forall b, i | 0 <= b < |warps| && 0 <= i < |warps[b]| :: warps[b][i] < rows && blockOf[warps[b][i]] == b)
    }
  }

  /** The first n rows that belong to block b, in order. */
  function RowsOf(m: seq<nat>, b: nat, n: nat): (ws: seq<nat>)
    requires n <= |m|
    ensures forall i | 0 <= i < |ws| :: ws[i] < n && m[ws[i]] == b
  {
    if n == 0 then [] else if m[n - 1] == b then RowsOf(m, b, n - 1) + [n - 1] else RowsOf(m, b, n - 1)
  }

  /** Every row of the block once, and only those. */
  lemma {:induction false} RowsOfAre(m: seq<nat>, b: nat, n: nat)
    requires n <= |m|
    ensures Ascending(RowsOf(m, b, n))
    ensures forall w: nat | w < n :: w in RowsOf(m, b, n) <==> m[w] == b
  {
    if n > 0 { RowsOfAre(m, b, n - 1); }
  }

  /** All rows of block b, added to it or not. */
  function Members(l: Layout, b: nat): (ws: seq<nat>)
    ensures forall i | 0 <= i < |ws| :: ws[i] < |l.blockOf| && l.blockOf[ws[i]] == b
  {
    RowsOf(l.blockOf, b, |l.blockOf|)
  }

  /** Every row of block b was added to it. */
  predicate Covered(l: Layout, b: nat)
    requires b < |l.warps|
  {
    forall w | 0 <= w < |l.blockOf| && l.blockOf[w] == b :: w in l.warps[b]
  }

  lemma {:induction false} SameAscending(a: seq<nat>, b: seq<nat>)
    requires Ascending(a) && Ascending(b) && forall x :: x in a <==> x in b
    ensures a == b
    decreases |a|
  {
    if a == [] {
      FirstIn(b);
    } else {
      assert a[|a| - 1] in b;
      var n, m := |a| - 1, |b| - 1;
      assert b[m] in a && a[n] == b[m];
      var a', b' := a[..n], b[..m];
      forall x ensures x in a' <==> x in b' {
        LastApart(a, x);
        LastApart(b, x);
      }
      SameAscending(a', b');
    }
  }

  lemma FirstIn(b: seq<nat>)
    ensures b != [] ==> b[0] in b
  {
  }

  lemma LastApart(a: seq<nat>, x: nat)
    requires Ascending(a) && a != []
    ensures x in a[..|a| - 1] <==> x in a && x != a[|a| - 1]
  {
    if x in a && x != a[|a| - 1] {
      var i :| 0 <= i < |a| && a[i] == x;
      assert a[..|a| - 1][i] == x;
    }
  }

  lemma CoveredMembers(l: Layout, b: nat)
    requires l.Valid(|l.blockOf|) && b < |l.warps| && Covered(l, b)
    ensures l.warps[b] == Members(l, b)
  {
    RowsOfAre(l.blockOf, b, |l.blockOf|);
    SameAscending(l.warps[b], Members(l, b));
  }

  datatype State = State(rows: seq<seq<Cell>>, threadsAtBarrier: seq<nat>, warpComplete: seq<nat>)

  // ---------------------------------------------------------------------------
  // Counting slots
  // ---------------------------------------------------------------------------

  function Tally(row: seq<Cell>, p: Cell -> bool): nat
  {
    if row == [] then 0 else One(p(row[0])) + Tally(row[1..], p)
  }

  /** The slots of all rows of a block that satisfy p. */
  function TallyBlock(rows: seq<seq<Cell>>, warps: seq<nat>, p: Cell -> bool): nat
    requires forall i | 0 <= i < |warps| :: warps[i] < |rows|
  {
    if warps == [] then 0 else Tally(rows[warps[0]], p) + TallyBlock(rows, warps[1..], p)
  }

  lemma {:induction false} TallyUpdate(row: seq<Cell>, p: Cell -> bool, i: nat, c: Cell)
    requires i < |row|
    ensures Tally(row[i := c], p) + One(p(row[i])) == Tally(row, p) + One(p(c))
  {
    if i == 0 {
      assert row[0 := c][1..] == row[1..];
    } else {
      assert row[i := c][1..] == row[1..][i - 1 := c];
      TallyUpdate(row[1..], p, i - 1, c);
    }
  }

  lemma {:induction false} TallyBlockOther(rows: seq<seq<Cell>>, rows': seq<seq<Cell>>, warps: seq<nat>,
                                           p: Cell -> bool)
    requires |rows'| == |rows| && forall i | 0 <= i < |warps| :: warps[i] < |rows| && rows'[warps[i]] == rows[warps[i]]
    ensures TallyBlock(rows', warps, p) == TallyBlock(rows, warps, p)
  {
    if warps != [] { TallyBlockOther(rows, rows', warps[1..], p); }
  }

  /** Replacing row w of a block changes the count by the difference of the two rows. */
  lemma {:induction false} TallyBlockReplace(rows: seq<seq<Cell>>, warps: seq<nat>, p: Cell -> bool, w: nat,
                                             row: seq<Cell>)
    requires (forall k | 0 <= k < |warps| :: warps[k] < |rows|) && NoRepeat(warps) && w in warps && w < |rows|
    ensures TallyBlock(rows[w := row], warps, p) + Tally(rows[w], p) == TallyBlock(rows, warps, p) + Tally(row, p)
  {
    assert forall k | 0 <= k < |warps[1..]| :: warps[1..][k] == warps[k + 1];
    if warps[0] == w {
      TallyBlockOther(rows, rows[w := row], warps[1..], p);
    } else {
      TallyBlockReplace(rows, warps[1..], p, w, row);
    }
  }

  /** Counting paused and complete threads against all threads of a row. */
  lemma {:induction false} RowSettled(row: seq<Cell>)
    requires forall i | 0 <= i < |row| :: row[i].complete ==> !IsPaused(row[i]) && IsThread(row[i])
    ensures Tally(row, IsPaused) + Tally(row, IsComplete) <= Tally(row, IsThread)
    ensures Tally(row, IsPaused) + Tally(row, IsComplete) == Tally(row, IsThread) <==>
            forall i | 0 <= i < |row| && IsThread(row[i]) :: AtBarrierOrDone(row[i])
  {
    if row != [] {
      RowSettled(row[1..]);
      assert forall i | 0 <= i < |row[1..]| :: row[1..][i] == row[i + 1];
      if forall i | 0 <= i < |row[1..]| && IsThread(row[1..][i]) :: AtBarrierOrDone(row[1..][i]) {
        forall i | 0 < i < |row| && IsThread(row[i]) ensures AtBarrierOrDone(row[i]) {
          assert row[i] == row[1..][i - 1];
        }
      }
    }
  }

  predicate RowDone(row: seq<Cell>)
  {
    forall pe | 0 <= pe < |row| && IsThread(row[pe]) :: AtBarrierOrDone(row[pe])
  }

  predicate AllSettled(rows: seq<seq<Cell>>, warps: seq<nat>)
    requires forall i | 0 <= i < |warps| :: warps[i] < |rows|
  {
    forall i | 0 <= i < |warps| :: RowDone(rows[warps[i]])
  }

  lemma {:induction false} BlockSettled(rows: seq<seq<Cell>>, warps: seq<nat>)
    requires forall i | 0 <= i < |warps| :: warps[i] < |rows|
    requires forall i, pe | 0 <= i < |warps| && 0 <= pe < |rows[warps[i]]| :: Orderly(rows[warps[i]][pe])
    ensures TallyBlock(rows, warps, IsPaused) + TallyBlock(rows, warps, IsComplete) <= TallyBlock(rows, warps, IsThread)
    ensures TallyBlock(rows, warps, IsPaused) + TallyBlock(rows, warps, IsComplete) == TallyBlock(rows, warps, IsThread)
            <==> AllSettled(rows, warps)
  {
    if warps != [] {
      assert forall pe | 0 <= pe < |rows[warps[0]]| :: Orderly(rows[warps[0]][pe]);
      RowSettled(rows[warps[0]]);
      assert forall i | 0 <= i < |warps[1..]| :: warps[1..][i] == warps[i + 1];
      BlockSettled(rows, warps[1..]);
      if AllSettled(rows, warps[1..]) {
        forall i | 0 < i < |warps| ensures RowDone(rows[warps[i]]) {
          assert warps[i] == warps[1..][i - 1];
        }
      }
    }
  }

  // ---------------------------------------------------------------------------
  // Right counts
  // ---------------------------------------------------------------------------

  /** A thread counted complete is a thread, is not waiting, and has no block left to run. */
  predicate Orderly(c: Cell)
  {
    c.complete ==> IsThread(c) && !IsPaused(c) && c.bb == 0
  }

  predicate Shaped(l: Layout, s: State)
  {
    l.Valid(|s.rows|) && |s.threadsAtBarrier| == |l.warps| && |s.warpComplete| == |s.rows|
  }

  predicate AllOrderly(s: State)
  {
    forall w, pe | 0 <= w < |s.rows| && 0 <= pe < |s.rows[w]| :: Orderly(s.rows[w][pe])
  }

  /** The completion count of every warp is its number of finished threads. */
  predicate CompletionsCounted(s: State)
    requires |s.warpComplete| == |s.rows|
  {
    forall w | 0 <= w < |s.rows| :: s.warpComplete[w] == Tally(s.rows[w], IsComplete)
  }

  predicate Sane(l: Layout, s: State)
  {
    Shaped(l, s) && AllOrderly(s) && CompletionsCounted(s)
  }

  /** The barrier count of block b is the number of paused threads in the rows added to it. */
  predicate Counted(l: Layout, s: State, b: nat)
    requires Shaped(l, s) && b < |l.warps|
  {
    s.threadsAtBarrier[b] == TallyBlock(s.rows, l.warps[b], IsPaused)
  }

  /** The threads of block b. */
  function Threads(l: Layout, s: State, b: nat): nat
    requires Shaped(l, s)
  {
    TallyBlock(s.rows, Members(l, b), IsThread)
  }

  /** The block has as many threads as the block size says. */
  predicate Full(l: Layout, s: State, b: nat)
    requires Shaped(l, s)
  {
    Threads(l, s, b) == l.blockSize
  }

  /** Right counts for block b, and no more threads in it than the block size. */
  predicate Right(l: Layout, s: State, b: nat)
  {
    Sane(l, s) && b < |l.warps| && Counted(l, s, b) && Threads(l, s, b) <= l.blockSize
  }

  /** Every thread of block b is paused at the barrier or finished. */
  predicate Settled(l: Layout, s: State, b: nat)
    requires |l.blockOf| == |s.rows|
  {
    forall w | 0 <= w < |s.rows| && l.blockOf[w] == b :: RowDone(s.rows[w])
  }

  /** No thread of block b is paused at the barrier. */
  predicate Freed(l: Layout, s: State, b: nat)
    requires |l.blockOf| == |s.rows|
  {
    forall w, pe | 0 <= w < |s.rows| && l.blockOf[w] == b && 0 <= pe < |s.rows[w]| :: !IsPaused(s.rows[w][pe])
  }

  /** The loop that adds up the finished threads of a block. */
  function CompleteThreads(s: State, warps: seq<nat>): nat
    requires forall i | 0 <= i < |warps| :: warps[i] < |s.warpComplete|
  {
    if warps == [] then 0 else s.warpComplete[warps[0]] + CompleteThreads(s, warps[1..])
  }

  lemma {:induction false} CompleteThreadsCounted(s: State, warps: seq<nat>)
    requires |s.warpComplete| == |s.rows| && CompletionsCounted(s) && forall i | 0 <= i < |warps| :: warps[i] < |s.rows|
    ensures CompleteThreads(s, warps) == TallyBlock(s.rows, warps, IsComplete)
  {
    if warps != [] { CompleteThreadsCounted(s, warps[1..]); }
  }

  /** checkThreadCount: at least a block's worth of threads is paused or complete. */
  predicate CheckThreadCount(l: Layout, s: State, b: nat)
    requires Shaped(l, s) && b < |l.warps|
  {
    l.blockSize <= s.threadsAtBarrier[b] + CompleteThreads(s, l.warps[b])
  }

  /**
   With right counts, and all rows of the block added to it, the test is exact: it succeeds if and only if the block
   is full and no thread of it is missing. So a block with fewer threads than the block size, the last one of a
   kernel, is not released while the counts are right.
   */
  lemma ReleaseIffSettled(l: Layout, s: State, b: nat)
    requires Right(l, s, b) && Covered(l, b)
    ensures CheckThreadCount(l, s, b) <==> Full(l, s, b) && Settled(l, s, b)
  {
    CompleteThreadsCounted(s, l.warps[b]);
    BlockSettled(s.rows, l.warps[b]);
    CoveredMembers(l, b);
    assert AllSettled(s.rows, l.warps[b]) <==> Settled(l, s, b) by {
      RowsOfAre(l.blockOf, b, |l.blockOf|);
      if AllSettled(s.rows, l.warps[b]) {
        forall w | 0 <= w < |s.rows| && l.blockOf[w] == b ensures RowDone(s.rows[w]) {
          assert w in l.warps[b];
        }
      }
    }
  }

  // ---------------------------------------------------------------------------
  // Steps of a pass
  // ---------------------------------------------------------------------------

  /** What one visit to a slot, or to a warp that waits, can do. */
  datatype Event =
    | Idle(w: nat, pe: nat)      // nothing recorded for this thread
    | Arrive(w: nat, pe: nat)    // the thread's block is a barrier block
    | EndBlock(w: nat, pe: nat)  // its last instruction issued, another block follows
    | Complete(w: nat, pe: nat)  // its last instruction issued, nothing follows
    | Recheck(w: nat)            // the scheduler comes back to a warp stuck at the barrier

  /** Any row may act whose block exists; it need not have been added to it. */
  predicate Enabled(l: Layout, s: State, e: Event)
  {
    && e.w < |s.rows| == |l.blockOf| && l.blockOf[e.w] < |l.warps|
    && (!e.Recheck? ==>
          && e.pe < |s.rows[e.w]| && s.rows[e.w][e.pe].status == Running
          && (e.Idle? <==> s.rows[e.w][e.pe].bb == 0)
          && (e.Arrive? ==> s.rows[e.w][e.pe].bb in l.barrierBlocks)
          && (e.EndBlock? || e.Complete? ==> s.rows[e.w][e.pe].bb !in l.barrierBlocks))
  }

  function Put(s: State, w: nat, pe: nat, c: Cell): State
    requires w < |s.rows| && pe < |s.rows[w]|
  {
    s.(rows := s.rows[w := s.rows[w][pe := c]])
  }

  function ReleasedRow(row: seq<Cell>): (r: seq<Cell>)
    ensures |r| == |row|
    ensures forall i | 0 <= i < |row| :: r[i] == if IsThread(row[i]) then row[i].(status := BlockDone) else row[i]
  {
    seq(|row|, i requires 0 <= i < |row| => if IsThread(row[i]) then row[i].(status := BlockDone) else row[i])
  }

  /** clearBarrier and the loop over the block's warps. */
  function Release(l: Layout, s: State, b: nat): (s': State)
    requires Shaped(l, s) && b < |l.warps|
    ensures |s'.rows| == |s.rows|
    ensures forall w | 0 <= w < |s.rows| :: s'.rows[w] == if w in l.warps[b] then ReleasedRow(s.rows[w]) else s.rows[w]
  {
    s.(rows := seq(|s.rows|, w requires 0 <= w < |s.rows| =>
                     if w in l.warps[b] then ReleasedRow(s.rows[w]) else s.rows[w]),
       threadsAtBarrier := s.threadsAtBarrier[b := 0])
  }

  /** The thread in slot (w, pe) is counted at its block's barrier and pauses. */
  function Arrived(l: Layout, s: State, w: nat, pe: nat): State
    requires Shaped(l, s) && Enabled(l, s, Arrive(w, pe))
  {
    var b := l.blockOf[w];
    Put(s, w, pe, s.rows[w][pe].(status := PausedOnBarrier)).(
      threadsAtBarrier := s.threadsAtBarrier[b := s.threadsAtBarrier[b] + 1])
  }

  /** The state at the moment the count is tested. */
  function BeforeTest(l: Layout, s: State, e: Event): State
    requires Shaped(l, s) && Enabled(l, s, e)
  {
    match e
    case Arrive(w, pe) => Arrived(l, s, w, pe)
    case _ => s
  }

  /** This step releases its block's barrier. */
  predicate Releases(l: Layout, s: State, e: Event)
    requires Shaped(l, s) && Enabled(l, s, e)
  {
    (e.Arrive? || e.Recheck?) && CheckThreadCount(l, BeforeTest(l, s, e), l.blockOf[e.w])
  }

  function Step(l: Layout, s: State, e: Event): State
    requires Shaped(l, s) && Enabled(l, s, e)
  {
    match e
    case Idle(w, pe) => Put(s, w, pe, s.rows[w][pe].(status := BlockDone))
    case EndBlock(w, pe) => Put(s, w, pe, s.rows[w][pe].(status := BlockDone))
    case Complete(w, pe) =>
      Put(s, w, pe, Cell(ExecutionDone, 0, true)).(warpComplete := s.warpComplete[w := s.warpComplete[w] + 1])
    case _ =>
      var t := BeforeTest(l, s, e);
      if Releases(l, s, e) then Release(l, t, l.blockOf[e.w]) else t
  }

  /** Rewriting one slot moves the count of its row, and of the given rows if it is among them. */
  lemma PutCounts(s: State, w: nat, pe: nat, c: Cell, p: Cell -> bool, ws: seq<nat>)
    requires w < |s.rows| && pe < |s.rows[w]| && NoRepeat(ws) && forall i | 0 <= i < |ws| :: ws[i] < |s.rows|
    ensures var s', d := Put(s, w, pe, c), One(p(c)) - One(p(s.rows[w][pe]));
            && Tally(s'.rows[w], p) == Tally(s.rows[w], p) + d
            && TallyBlock(s'.rows, ws, p) == TallyBlock(s.rows, ws, p) + if w in ws then d else 0
  {
    TallyUpdate(s.rows[w], p, pe, c);
    if w in ws {
      TallyBlockReplace(s.rows, ws, p, w, s.rows[w][pe := c]);
    } else {
      TallyBlockOther(s.rows, Put(s, w, pe, c).rows, ws, p);
    }
  }

  /** A rewritten slot whose completion is recorded keeps the state sane. */
  lemma PutSane(l: Layout, s: State, w: nat, pe: nat, c: Cell, s': State)
    requires Sane(l, s) && w < |s.rows| && pe < |s.rows[w]| && Orderly(c)
    requires s'.rows == Put(s, w, pe, c).rows && |s'.threadsAtBarrier| == |s.threadsAtBarrier|
    requires s.rows[w][pe].complete ==> c.complete
    requires s'.warpComplete == if c.complete && !s.rows[w][pe].complete
                                then s.warpComplete[w := s.warpComplete[w] + 1] else s.warpComplete
    ensures Sane(l, s')
  {
    PutCounts(s, w, pe, c, IsComplete, []);
  }

  lemma {:induction false} ReleasedRowCounts(row: seq<Cell>)
    ensures Tally(ReleasedRow(row), IsPaused) == 0
    ensures Tally(ReleasedRow(row), IsComplete) == Tally(row, IsComplete)
  {
    if row != [] {
      assert ReleasedRow(row)[1..] == ReleasedRow(row[1..]);
      ReleasedRowCounts(row[1..]);
    }
  }

  lemma {:induction false} NonePaused(rows: seq<seq<Cell>>, warps: seq<nat>)
    requires forall i | 0 <= i < |warps| :: warps[i] < |rows| && Tally(rows[warps[i]], IsPaused) == 0
    ensures TallyBlock(rows, warps, IsPaused) == 0
  {
    if warps != [] { NonePaused(rows, warps[1..]); }
  }

  lemma {:induction false} ReleasedRowThreads(row: seq<Cell>)
    ensures Tally(ReleasedRow(row), IsThread) == Tally(row, IsThread)
  {
    if row != [] {
      assert ReleasedRow(row)[1..] == ReleasedRow(row[1..]);
      ReleasedRowThreads(row[1..]);
    }
  }

  lemma {:induction false} SameThreads(rows: seq<seq<Cell>>, rows': seq<seq<Cell>>, warps: seq<nat>)
    requires |rows'| == |rows| && forall i | 0 <= i < |warps| :: warps[i] < |rows|
    requires forall w | 0 <= w < |rows| :: Tally(rows'[w], IsThread) == Tally(rows[w], IsThread)
    ensures TallyBlock(rows', warps, IsThread) == TallyBlock(rows, warps, IsThread)
  {
    if warps != [] { SameThreads(rows, rows', warps[1..]); }
  }

  lemma ReleaseSane(l: Layout, s: State, b: nat)
    requires Sane(l, s) && b < |l.warps|
    ensures Sane(l, Release(l, s, b))
  {
    var t := Release(l, s, b);
    forall w | 0 <= w < |s.rows| ensures Tally(t.rows[w], IsComplete) == Tally(s.rows[w], IsComplete) {
      ReleasedRowCounts(s.rows[w]);
    }
  }

  lemma StepSane(l: Layout, s: State, e: Event)
    requires Sane(l, s) && Enabled(l, s, e)
    ensures Sane(l, BeforeTest(l, s, e)) && Sane(l, Step(l, s, e))
  {
    var t, s' := BeforeTest(l, s, e), Step(l, s, e);
    if !e.Recheck? {
      assert Orderly(s.rows[e.w][e.pe]);
      PutSane(l, s, e.w, e.pe, if e.Arrive? then t.rows[e.w][e.pe] else s'.rows[e.w][e.pe],
              if e.Arrive? then t else s');
    }
    if Releases(l, s, e) { ReleaseSane(l, t, l.blockOf[e.w]); }
  }

  // ---------------------------------------------------------------------------
  // The counts of one block
  // ---------------------------------------------------------------------------

  lemma RowLists(l: Layout, s: State, b: nat)
    requires Shaped(l, s)
    ensures NoRepeat(Members(l, b)) && (b < |l.warps| ==> NoRepeat(l.warps[b]))
  {
    RowsOfAre(l.blockOf, b, |l.blockOf|);
  }

  /** An arrival keeps the count of its block right if and only if its row was added to the block. */
  lemma ArriveKeepsCountIff(l: Layout, s: State, w: nat, pe: nat)
    requires Sane(l, s) && Enabled(l, s, Arrive(w, pe)) && Counted(l, s, l.blockOf[w])
    ensures Counted(l, Arrived(l, s, w, pe), l.blockOf[w]) <==> w in l.warps[l.blockOf[w]]
  {
    RowLists(l, s, l.blockOf[w]);
    PutCounts(s, w, pe, s.rows[w][pe].(status := PausedOnBarrier), IsPaused, l.warps[l.blockOf[w]]);
  }

  /** The state before the test has right counts for block b, and as many threads in it. */
  lemma BeforeTestRight(l: Layout, s: State, e: Event, b: nat)
    requires Right(l, s, b) && Covered(l, b) && Enabled(l, s, e)
    ensures Right(l, BeforeTest(l, s, e), b) && Threads(l, BeforeTest(l, s, e), b) == Threads(l, s, b)
  {
    StepSane(l, s, e);
    RowLists(l, s, b);
    if e.Arrive? {
      var c := s.rows[e.w][e.pe].(status := PausedOnBarrier);
      PutCounts(s, e.w, e.pe, c, IsThread, Members(l, b));
      if l.blockOf[e.w] == b {
        ArriveKeepsCountIff(l, s, e.w, e.pe);
      } else {
        PutCounts(s, e.w, e.pe, c, IsPaused, l.warps[b]);
      }
    }
  }

  /** A release of any block keeps the counts of block b right, and one of b frees all its threads. */
  lemma ReleaseRight(l: Layout, s: State, r: nat, b: nat)
    requires Right(l, s, b) && Covered(l, b) && r < |l.warps|
    ensures Right(l, Release(l, s, r), b) && Threads(l, Release(l, s, r), b) == Threads(l, s, b)
    ensures r == b ==> Freed(l, Release(l, s, r), b)
  {
    var t := Release(l, s, r);
    ReleaseSane(l, s, r);
    forall w | 0 <= w < |s.rows|
      ensures Tally(t.rows[w], IsThread) == Tally(s.rows[w], IsThread)
      ensures w in l.warps[r] ==> Tally(t.rows[w], IsPaused) == 0
    {
      ReleasedRowThreads(s.rows[w]);
      ReleasedRowCounts(s.rows[w]);
    }
    SameThreads(s.rows, t.rows, Members(l, b));
    if r == b {
      NonePaused(t.rows, l.warps[b]);
    } else {
      TallyBlockOther(s.rows, t.rows, l.warps[b], IsPaused);
    }
  }

  /** A slot that neither was nor becomes paused. */
  lemma QuietPutRight(l: Layout, s: State, e: Event, b: nat)
    requires Right(l, s, b) && Enabled(l, s, e) && !e.Arrive? && !e.Recheck?
    ensures Right(l, Step(l, s, e), b) && Threads(l, Step(l, s, e), b) == Threads(l, s, b)
  {
    StepSane(l, s, e);
    RowLists(l, s, b);
    var c := Step(l, s, e).rows[e.w][e.pe];
    PutCounts(s, e.w, e.pe, c, IsPaused, l.warps[b]);
    PutCounts(s, e.w, e.pe, c, IsThread, Members(l, b));
  }

  /** Every event of any row keeps the counts of a covered block right, and its number of threads. */
  lemma StepRight(l: Layout, s: State, e: Event, b: nat)
    requires Right(l, s, b) && Covered(l, b) && Enabled(l, s, e)
    ensures Right(l, BeforeTest(l, s, e), b) && Threads(l, BeforeTest(l, s, e), b) == Threads(l, s, b)
    ensures Right(l, Step(l, s, e), b) && Threads(l, Step(l, s, e), b) == Threads(l, s, b)
    ensures l.blockOf[e.w] == b && Releases(l, s, e) ==> Freed(l, Step(l, s, e), b)
  {
    BeforeTestRight(l, s, e, b);
    if Releases(l, s, e) {
      ReleaseRight(l, BeforeTest(l, s, e), l.blockOf[e.w], b);
    } else if !e.Arrive? && !e.Recheck? {
      QuietPutRight(l, s, e, b);
    }
  }

  // ---------------------------------------------------------------------------
  // A pass ends
  // ---------------------------------------------------------------------------

  predicate IsRunning(c: Cell) { c.status == Running }

  /** The slots whose thread may still go on in this pass. */
  function RunningSlots(rows: seq<seq<Cell>>): nat
  {
    if rows == [] then 0 else Tally(rows[0], IsRunning) + RunningSlots(rows[1..])
  }

  lemma {:induction false} FewerRunning(rows: seq<seq<Cell>>, rows': seq<seq<Cell>>)
    requires |rows'| == |rows| && forall w | 0 <= w < |rows| :: Tally(rows'[w], IsRunning) <= Tally(rows[w], IsRunning)
    ensures RunningSlots(rows') <= RunningSlots(rows)
  {
    if rows != [] { FewerRunning(rows[1..], rows'[1..]); }
  }

  lemma {:induction false} OneFewerRunning(rows: seq<seq<Cell>>, w: nat, row: seq<Cell>)
    requires w < |rows| && Tally(row, IsRunning) < Tally(rows[w], IsRunning)
    ensures RunningSlots(rows[w := row]) < RunningSlots(rows)
    decreases rows
  {
    if w == 0 {
      assert rows[0 := row][1..] == rows[1..];
    } else {
      assert rows[w := row][1..] == rows[1..][w - 1 := row];
      OneFewerRunning(rows[1..], w - 1, row);
    }
  }

  lemma {:induction false} ReleasedRowStops(row: seq<Cell>)
    ensures Tally(ReleasedRow(row), IsRunning) == 0
  {
    if row != [] {
      assert ReleasedRow(row)[1..] == ReleasedRow(row[1..]);
      ReleasedRowStops(row[1..]);
    }
  }

  lemma ReleaseStops(l: Layout, s: State, b: nat)
    requires Shaped(l, s) && b < |l.warps|
    ensures RunningSlots(Release(l, s, b).rows) <= RunningSlots(s.rows)
  {
    var t := Release(l, s, b);
    forall w | 0 <= w < |s.rows| ensures Tally(t.rows[w], IsRunning) <= Tally(s.rows[w], IsRunning) {
      ReleasedRowStops(s.rows[w]);
    }
    FewerRunning(s.rows, t.rows);
  }

  /** Every visit to a slot uses a running thread up, whether it ends its block, arrives, completes or has nothing. */
  lemma VisitUsesUp(l: Layout, s: State, e: Event)
    requires Shaped(l, s) && Enabled(l, s, e) && !e.Recheck?
    ensures Shaped(l, Step(l, s, e)) && RunningSlots(Step(l, s, e).rows) < RunningSlots(s.rows)
  {
    var t := if e.Arrive? then BeforeTest(l, s, e) else Step(l, s, e);
    var row := t.rows[e.w];
    PutCounts(s, e.w, e.pe, row[e.pe], IsRunning, []);
    assert t.rows == s.rows[e.w := row];
    OneFewerRunning(s.rows, e.w, row);
    if Releases(l, s, e) { ReleaseStops(l, t, l.blockOf[e.w]); }
  }

  /** The visits are possible one after the other. */
  predicate Visits(l: Layout, s: State, es: seq<Event>)
    requires Shaped(l, s)
    decreases es
  {
    es == [] ||
    (&& Enabled(l, s, es[0]) && !es[0].Recheck? && Shaped(l, Step(l, s, es[0]))
     && Visits(l, Step(l, s, es[0]), es[1..]))
  }

  /** A pass comes to an end: it has no more visits than there are running threads at its start. */
  lemma {:induction false} PassEnds(l: Layout, s: State, es: seq<Event>)
    requires Shaped(l, s) && Visits(l, s, es)
    ensures |es| <= RunningSlots(s.rows)
    decreases es
  {
    if es != [] {
      VisitUsesUp(l, s, es[0]);
      PassEnds(l, Step(l, s, es[0]), es[1..]);
    }
  }

  // ---------------------------------------------------------------------------
  // Between passes
  // ---------------------------------------------------------------------------

  predicate Wakes(c: Cell) { c.status != ExecutionDone && c.status != Invalid }

  function ResetRow(row: seq<Cell>): (r: seq<Cell>)
    ensures |r| == |row|
    ensures forall i | 0 <= i < |row| :: r[i] == if Wakes(row[i]) then row[i].(status := Running) else row[i]
  {
    seq(|row|, i requires 0 <= i < |row| => if Wakes(row[i]) then row[i].(status := Running) else row[i])
  }

  /** reset_nextTimingBB on the current warp w of the SM. */
  function Reset(s: State, w: nat): State
    requires w < |s.rows|
  {
    s.(rows := s.rows[w := ResetRow(s.rows[w])])
  }

  lemma {:induction false} ResetRowCounts(row: seq<Cell>)
    ensures Tally(ResetRow(row), IsPaused) == 0
    ensures Tally(ResetRow(row), IsComplete) == Tally(row, IsComplete)
    ensures Tally(row, IsPaused) == 0 <==> forall i | 0 <= i < |row| :: !IsPaused(row[i])
  {
    if row != [] {
      assert ResetRow(row)[1..] == ResetRow(row[1..]);
      ResetRowCounts(row[1..]);
      if forall i | 0 <= i < |row[1..]| :: !IsPaused(row[1..][i]) {
        assert forall i | 0 < i < |row| :: row[i] == row[1..][i - 1];
      }
      if forall i | 0 <= i < |row| :: !IsPaused(row[i]) {
        assert forall i | 0 <= i < |row[1..]| :: row[1..][i] == row[i + 1];
      }
    }
  }

  predicate NoPaused(row: seq<Cell>)
  {
    forall pe | 0 <= pe < |row| :: !IsPaused(row[pe])
  }

  /** The reset keeps the count of a block right exactly when no thread of the reset warp, if counted, is paused. */
  lemma ResetKeepsCountIff(l: Layout, s: State, w: nat, b: nat)
    requires Sane(l, s) && w < |s.rows| && b < |l.warps| && Counted(l, s, b)
    ensures Counted(l, Reset(s, w), b) <==> (w in l.warps[b] ==> NoPaused(s.rows[w]))
  {
    var t, row := Reset(s, w), ResetRow(s.rows[w]);
    ResetRowCounts(s.rows[w]);
    RowLists(l, s, b);
    if w in l.warps[b] {
      TallyBlockReplace(s.rows, l.warps[b], IsPaused, w, row);
    } else {
      TallyBlockOther(s.rows, t.rows, l.warps[b], IsPaused);
    }
  }

  // ---------------------------------------------------------------------------
  // Any number of passes
  // ---------------------------------------------------------------------------

  lemma {:induction false} TallySame(row: seq<Cell>, row': seq<Cell>, p: Cell -> bool)
    requires |row'| == |row| && forall i | 0 <= i < |row| :: p(row'[i]) == p(row[i])
    ensures Tally(row', p) == Tally(row, p)
  {
    if row != [] { TallySame(row[1..], row'[1..], p); }
  }

  /** The GPU has run the threads that may run, and their traces stand at new blocks. */
  function Retraced(row: seq<Cell>, blocks: seq<nat>): (r: seq<Cell>)
    requires |blocks| == |row|
    ensures |r| == |row|
    ensures forall i | 0 <= i < |row| ::
              r[i] == if row[i].status == Running && !row[i].complete then row[i].(bb := blocks[i]) else row[i]
  {
    seq(|row|, i requires 0 <= i < |row| =>
      if row[i].status == Running && !row[i].complete then row[i].(bb := blocks[i]) else row[i])
  }

  /** What happens on an SM: a visit of a pass, or the reset of the current warp and a new trace for it. */
  datatype Action = Visit(e: Event) | NextPass(w: nat, blocks: seq<nat>)

  predicate Possible(l: Layout, s: State, a: Action)
    requires Shaped(l, s)
  {
    match a
    case Visit(e) => Enabled(l, s, e)
    case NextPass(w, blocks) => w < |s.rows| && |blocks| == |s.rows[w]|
  }

  function Act(l: Layout, s: State, a: Action): State
    requires Shaped(l, s) && Possible(l, s, a)
  {
    match a
    case Visit(e) => Step(l, s, e)
    case NextPass(w, blocks) => s.(rows := s.rows[w := Retraced(ResetRow(s.rows[w]), blocks)])
  }

  /** A reset of a row of block b comes only while none of its threads is paused. */
  predicate CleanStep(l: Layout, s: State, b: nat, a: Action)
    requires Shaped(l, s) && Possible(l, s, a)
  {
    a.NextPass? && l.blockOf[a.w] == b ==> NoPaused(s.rows[a.w])
  }

  /** The actions are possible one after the other, and no reset comes upon a paused thread of block b. */
  predicate Clean(l: Layout, s: State, b: nat, acts: seq<Action>)
    requires Shaped(l, s)
    decreases acts
  {
    acts == [] ||
    (&& Possible(l, s, acts[0]) && CleanStep(l, s, b, acts[0])
     && Clean(l, Act(l, s, acts[0]), b, acts[1..]))
  }

  /** A test of block b's count opens the barrier if and only if it should, and then all threads of b go on. */
  predicate OpensRightly(l: Layout, s: State, b: nat, e: Event)
    requires Shaped(l, s) && Enabled(l, s, e)
  {
    (e.Arrive? || e.Recheck?) && l.blockOf[e.w] == b ==>
      var t := BeforeTest(l, s, e);
      && (Releases(l, s, e) <==> Full(l, t, b) && Settled(l, t, b))
      && (Releases(l, s, e) ==> Freed(l, Step(l, s, e), b))
  }

  /** Whenever the count of block b is tested. */
  predicate AlwaysOpensRightly(l: Layout, s: State, b: nat, acts: seq<Action>)
    requires Shaped(l, s) && Clean(l, s, b, acts)
    decreases acts
  {
    acts == [] ||
    (&& (acts[0].Visit? ==> OpensRightly(l, s, b, acts[0].e))
     && AlwaysOpensRightly(l, Act(l, s, acts[0]), b, acts[1..]))
  }

  lemma NextRowCounts(row: seq<Cell>, blocks: seq<nat>)
    requires |blocks| == |row|
    ensures var r := Retraced(ResetRow(row), blocks);
            && (NoPaused(row) ==> Tally(r, IsPaused) == Tally(row, IsPaused))
            && Tally(r, IsComplete) == Tally(row, IsComplete) && Tally(r, IsThread) == Tally(row, IsThread)
  {
    var r := Retraced(ResetRow(row), blocks);
    if NoPaused(row) { TallySame(row, r, IsPaused); }
    TallySame(row, r, IsComplete);
    TallySame(row, r, IsThread);
  }

  lemma RowSwapped(s: State, w: nat, row: seq<Cell>, p: Cell -> bool, ws: seq<nat>)
    requires w < |s.rows| && NoRepeat(ws) && forall i | 0 <= i < |ws| :: ws[i] < |s.rows|
    requires w in ws ==> Tally(row, p) == Tally(s.rows[w], p)
    ensures TallyBlock(s.rows[w := row], ws, p) == TallyBlock(s.rows, ws, p)
  {
    if w in ws {
      TallyBlockReplace(s.rows, ws, p, w, row);
    } else {
      TallyBlockOther(s.rows, s.rows[w := row], ws, p);
    }
  }

  lemma NextPassRight(l: Layout, s: State, a: Action, b: nat)
    requires Right(l, s, b) && a.NextPass? && Possible(l, s, a) && CleanStep(l, s, b, a)
    ensures Right(l, Act(l, s, a), b) && Threads(l, Act(l, s, a), b) == Threads(l, s, b)
  {
    var row := Retraced(ResetRow(s.rows[a.w]), a.blocks);
    NextRowCounts(s.rows[a.w], a.blocks);
    RowLists(l, s, b);
    RowSwapped(s, a.w, row, IsPaused, l.warps[b]);
    RowSwapped(s, a.w, row, IsThread, Members(l, b));
    assert forall pe | 0 <= pe < |row| :: Orderly(s.rows[a.w][pe]) && Orderly(row[pe]);
  }

  lemma ActRight(l: Layout, s: State, a: Action, b: nat)
    requires Right(l, s, b) && Covered(l, b) && Possible(l, s, a) && CleanStep(l, s, b, a)
    ensures Right(l, Act(l, s, a), b) && Threads(l, Act(l, s, a), b) == Threads(l, s, b)
  {
    match a
    case Visit(e) => StepRight(l, s, e, b);
    case NextPass(_, _) => NextPassRight(l, s, a, b);
  }

  lemma TestIsRight(l: Layout, s: State, e: Event, b: nat)
    requires Right(l, s, b) && Covered(l, b) && Enabled(l, s, e)
    ensures OpensRightly(l, s, b, e)
  {
    StepRight(l, s, e, b);
    ReleaseIffSettled(l, BeforeTest(l, s, e), b);
  }

  /**
   Barrier safety of a block over any number of passes, whatever any threads do and in whatever order, as long as
   no reset comes upon a paused thread of the block.
   */
  lemma {:induction false} AllPassesAreSafe(l: Layout, s: State, b: nat, acts: seq<Action>)
    requires Right(l, s, b) && Covered(l, b) && Clean(l, s, b, acts)
    ensures AlwaysOpensRightly(l, s, b, acts)
    decreases acts
  {
    if acts != [] {
      if acts[0].Visit? { TestIsRight(l, s, acts[0].e, b); }
      ActRight(l, s, acts[0], b);
      AllPassesAreSafe(l, Act(l, s, acts[0]), b, acts[1..]);
    }
  }

  // ---------------------------------------------------------------------------
  // A row that was not added to its block
  // ---------------------------------------------------------------------------

  lemma {:induction false} TallyFinished(n: nat, row: seq<Cell>)
    requires |row| == n && forall i | 0 <= i < n :: row[i] == FINISHED
    ensures Tally(row, IsThread) == n && Tally(row, IsComplete) == n && Tally(row, IsPaused) == 0
  {
    if n > 0 { TallyFinished(n - 1, row[1..]); }
  }

  const FINISHED := Cell(ExecutionDone, 0, true)

  /** A first thread in front of n finished ones. */
  function Finishing(c: Cell, n: nat): (row: seq<Cell>)
    ensures |row| == n + 1 && row[0] == c && forall i | 0 < i <= n :: row[i] == FINISHED
  {
    [c] + seq(n, _ => FINISHED)
  }

  lemma FinishingCounts(c: Cell, n: nat)
    requires IsThread(c) && !c.complete
    ensures Tally(Finishing(c, n), IsThread) == n + 1 && Tally(Finishing(c, n), IsComplete) == n
    ensures Tally(Finishing(c, n), IsPaused) == One(IsPaused(c))
  {
    assert Finishing(c, n)[1..] == seq(n, _ => FINISHED);
    TallyFinished(n, seq(n, _ => FINISHED));
  }

  function Lone(n: nat, w: nat, row: seq<Cell>): (rows: seq<seq<Cell>>)
    requires w < n
    ensures |rows| == n && forall i | 0 <= i < n :: rows[i] == if i == w then row else []
  {
    seq(n, i => if i == w then row else [])
  }

  lemma {:induction false} TallyEmpty(rows: seq<seq<Cell>>, ws: seq<nat>, p: Cell -> bool)
    requires forall i | 0 <= i < |ws| :: ws[i] < |rows| && rows[ws[i]] == []
    ensures TallyBlock(rows, ws, p) == 0
  {
    if ws != [] { TallyEmpty(rows, ws[1..], p); }
  }

  lemma TallyLone(n: nat, w: nat, row: seq<Cell>, ws: seq<nat>, p: Cell -> bool)
    requires w < n && NoRepeat(ws) && forall i | 0 <= i < |ws| :: ws[i] < n
    ensures TallyBlock(Lone(n, w, row), ws, p) == if w in ws then Tally(row, p) else 0
  {
    var none := Lone(n, w, []);
    TallyEmpty(none, ws, p);
    assert none[w := row] == Lone(n, w, row);
    if w in ws {
      TallyBlockReplace(none, ws, p, w, row);
    } else {
      TallyBlockOther(none, Lone(n, w, row), ws, p);
    }
  }

  lemma {:induction false} CompleteNone(s: State, ws: seq<nat>)
    requires forall i | 0 <= i < |ws| :: ws[i] < |s.warpComplete| && s.warpComplete[ws[i]] == 0
    ensures CompleteThreads(s, ws) == 0
  {
    if ws != [] { CompleteNone(s, ws[1..]); }
  }

  /** The whole block sits in row w: one thread c, and all others finished. */
  function AlmostDone(l: Layout, w: nat, c: Cell, atBarrier: seq<nat>): State
    requires w < |l.blockOf| && l.blockSize > 0
  {
    State(Lone(|l.blockOf|, w, Finishing(c, l.blockSize - 1)), atBarrier,
          seq(|l.blockOf|, i => if i == w then l.blockSize - 1 else 0))
  }

  predicate Uncovered(l: Layout, w: nat)
  {
    && l.Valid(|l.blockOf|) && l.blockSize > 0
    && w < |l.blockOf| && l.blockOf[w] < |l.warps| && w !in l.warps[l.blockOf[w]]
  }

  lemma AlmostDoneSane(l: Layout, w: nat, c: Cell, atBarrier: seq<nat>)
    requires Uncovered(l, w) && |atBarrier| == |l.warps| && IsThread(c) && !c.complete
    ensures Sane(l, AlmostDone(l, w, c, atBarrier))
  {
    FinishingCounts(c, l.blockSize - 1);
  }

  lemma AlmostDoneIs(l: Layout, w: nat, c: Cell, atBarrier: seq<nat>)
    requires Uncovered(l, w) && |atBarrier| == |l.warps| && IsThread(c) && !c.complete
    ensures var s, b := AlmostDone(l, w, c, atBarrier), l.blockOf[w];
            && Sane(l, s) && Full(l, s, b) && (Counted(l, s, b) <==> atBarrier[b] == 0)
            && CompleteThreads(s, l.warps[b]) == 0 && (IsPaused(c) ==> Settled(l, s, b))
  {
    var s, b, n, row := AlmostDone(l, w, c, atBarrier), l.blockOf[w], |l.blockOf|, Finishing(c, l.blockSize - 1);
    AlmostDoneSane(l, w, c, atBarrier);
    FinishingCounts(c, l.blockSize - 1);
    RowLists(l, s, b);
    assert w in Members(l, b) by { RowsOfAre(l.blockOf, b, n); }
    TallyLone(n, w, row, Members(l, b), IsThread);
    TallyLone(n, w, row, l.warps[b], IsPaused);
    CompleteNone(s, l.warps[b]);
    assert IsPaused(c) ==> RowDone(row);
  }

  /** The first thread arrives and the rest is finished: the row is not among those counted, and the barrier stays. */
  lemma UncoveredFails(l: Layout, w: nat, bb: nat) returns (s: State, acts: seq<Action>)
    requires Uncovered(l, w) && bb in l.barrierBlocks && bb != 0
    ensures var b := l.blockOf[w]; Right(l, s, b) && Clean(l, s, b, acts) && !AlwaysOpensRightly(l, s, b, acts)
  {
    var b, c := l.blockOf[w], Cell(Running, bb, false);
    var zeros := seq(|l.warps|, _ => 0);
    s := AlmostDone(l, w, c, zeros);
    AlmostDoneIs(l, w, c, zeros);
    var a1, a2 := Visit(Arrive(w, 0)), Visit(Recheck(w));
    acts := [a1, a2];
    assert acts[1..] == [a2] && [a2][1..] == [];
    var s1 := UncoveredArrival(l, w, bb, s);
    assert Clean(l, s1, b, [a2]);
  }

  lemma UncoveredArrival(l: Layout, w: nat, bb: nat, s: State) returns (s1: State)
    requires Uncovered(l, w) && bb in l.barrierBlocks && bb != 0
    requires s == AlmostDone(l, w, Cell(Running, bb, false), seq(|l.warps|, _ => 0))
    ensures Shaped(l, s) && Enabled(l, s, Arrive(w, 0)) && s1 == Step(l, s, Arrive(w, 0))
    ensures Shaped(l, s1) && Enabled(l, s1, Recheck(w)) && !OpensRightly(l, s1, l.blockOf[w], Recheck(w))
  {
    var b, n, c := l.blockOf[w], |l.blockOf|, Cell(PausedOnBarrier, bb, false);
    var zeros := seq(|l.warps|, _ => 0);
    AlmostDoneIs(l, w, Cell(Running, bb, false), zeros);
    var t, row := Arrived(l, s, w, 0), Finishing(Cell(Running, bb, false), l.blockSize - 1);
    assert row[0 := c] == Finishing(c, l.blockSize - 1);
    assert t == AlmostDone(l, w, c, zeros[b := 1]);
    AlmostDoneIs(l, w, c, zeros[b := 1]);
    s1 := Step(l, s, Arrive(w, 0));
    if l.blockSize == 1 {
      assert s1.rows == t.rows && s1.threadsAtBarrier == zeros;
      AlmostDoneIs(l, w, c, zeros);
    }
  }

  /**
   A block is safe from every state with right counts, over every clean run, if and only if all its rows were added
   to it.
   */
  lemma SafeIffCovered(l: Layout, b: nat, bb: nat)
    requires l.Valid(|l.blockOf|) && l.blockSize > 0 && b < |l.warps| && bb in l.barrierBlocks && bb != 0
    ensures Covered(l, b) <==>
            forall s, acts | Right(l, s, b) && Clean(l, s, b, acts) :: AlwaysOpensRightly(l, s, b, acts)
  {
    if Covered(l, b) {
      forall s, acts | Right(l, s, b) && Clean(l, s, b, acts) ensures AlwaysOpensRightly(l, s, b, acts) {
        AllPassesAreSafe(l, s, b, acts);
      }
    } else {
      var w :| 0 <= w < |l.blockOf| && l.blockOf[w] == b && w !in l.warps[b];
      var s, acts := UncoveredFails(l, w, bb);
    }
  }
}
