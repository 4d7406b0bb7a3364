/** Concrete states on which barriers go wrong. */
module GpuBarrierCases {
  import opened Common
  import opened GpuThreads
  import opened GpuBarrier

  // ---------------------------------------------------------------------------
  // Two threads in one warp
  // ---------------------------------------------------------------------------

  lemma TallyTwo(a: Cell, b: Cell, p: Cell -> bool)
    ensures Tally([a, b], p) == One(p(a)) + One(p(b))
    ensures TallyBlock([[a, b]], [0], p) == One(p(a)) + One(p(b))
  {
    assert [a, b][1..] == [b] && [b][1..] == [];
    assert Tally([b], p) == One(p(b)) + Tally([], p);
    assert TallyBlock([[a, b]], [0], p) == Tally([a, b], p) + TallyBlock([[a, b]], [], p);
  }

  /** One block in one warp, with room for `size` threads; block 7 of the kernel is a barrier. */
  function OneWarp(size: nat): Layout { Layout([[0]], [0], size, {7}) }

  /** Two threads have slots. */
  function Two(a: Cell, b: Cell, atBarrier: nat): State { State([[a, b]], [atBarrier], [0]) }

  const AT_BARRIER := Cell(Running, 7, false)
  const AT_WORK := Cell(Running, 3, false)
  const WAITING := Cell(PausedOnBarrier, 7, false)
  const WORKED := Cell(BlockDone, 3, false)

  lemma PutTwo(a: Cell, b: Cell, n: nat, c: Cell)
    ensures Put(Two(a, b, n), 0, 0, c) == Two(c, b, n)
    ensures Put(Two(a, b, n), 0, 1, c) == Two(a, c, n)
  {
    assert [a, b][0 := c] == [c, b] && [a, b][1 := c] == [a, c];
    assert [[a, b]][0 := [c, b]] == [[c, b]] && [[a, b]][0 := [a, c]] == [[a, c]];
  }

  /** The arrival of the first thread is counted; whether it opens the barrier depends on the count before. */
  lemma ArriveTwo(size: nat, b: Cell, n: nat)
    ensures var l, s := OneWarp(size), Two(AT_BARRIER, b, n);
            && Shaped(l, s) && Enabled(l, s, Arrive(0, 0))
            && BeforeTest(l, s, Arrive(0, 0)) == Two(WAITING, b, n + 1)
            && (Releases(l, s, Arrive(0, 0)) <==> n + 1 >= size)
  {
    PutTwo(AT_BARRIER, b, n, WAITING);
    assert [n][0 := n + 1] == [n + 1];
    var t := Two(WAITING, b, n + 1);
    assert CompleteThreads(t, [0]) == t.warpComplete[0] + CompleteThreads(t, []);
  }

  lemma CountTwo(size: nat, a: Cell, b: Cell, n: nat)
    requires !a.complete && !b.complete && IsThread(a) && IsThread(b)
    ensures var l, s := OneWarp(size), Two(a, b, n);
            && Shaped(l, s) && Covered(l, 0) && (Full(l, s, 0) <==> size == 2)
            && (size >= 2 && n == One(IsPaused(a)) + One(IsPaused(b)) ==> Right(l, s, 0))
  {
    assert RowsOf([0], 0, 1) == [0];
    TallyTwo(a, b, IsPaused);
    TallyTwo(a, b, IsComplete);
    TallyTwo(a, b, IsThread);
  }

  /** The pass goes through: thread 0 arrives and does not open the barrier, thread 1 ends its block. */
  predicate PassGoes(l: Layout, s: State)
  {
    && Shaped(l, s) && Enabled(l, s, Arrive(0, 0)) && !Releases(l, s, Arrive(0, 0))
    && var t := Step(l, s, Arrive(0, 0)); Shaped(l, t) && Enabled(l, t, EndBlock(0, 1))
  }

  /** That pass, and the reset after it. */
  function PassAndReset(l: Layout, s: State): State
    requires PassGoes(l, s)
  {
    Reset(Step(l, Step(l, s, Arrive(0, 0)), EndBlock(0, 1)), 0)
  }

  /** Everything is as before, except that thread 0 has been counted once more. */
  lemma CountedAgain(size: nat, n: nat)
    requires n + 1 < size
    ensures var l, s := OneWarp(size), Two(AT_BARRIER, AT_WORK, n);
            PassGoes(l, s) && PassAndReset(l, s) == Two(AT_BARRIER, AT_WORK, n + 1)
  {
    ArriveTwo(size, AT_WORK, n);
    PutTwo(WAITING, AT_WORK, n + 1, WORKED);
    assert ResetRow([WAITING, WORKED]) == [AT_BARRIER, AT_WORK];
    assert [[WAITING, WORKED]][0 := [AT_BARRIER, AT_WORK]] == [[AT_BARRIER, AT_WORK]];
  }

  /** The first thread's arrival opens the barrier although the second never reached it. */
  predicate OpensEarly(l: Layout, s: State)
  {
    && Shaped(l, s) && Enabled(l, s, Arrive(0, 0)) && Releases(l, s, Arrive(0, 0))
    && !Settled(l, BeforeTest(l, s, Arrive(0, 0)), 0)
  }

  lemma OpensAt(size: nat, n: nat)
    requires n + 1 >= size
    ensures OpensEarly(OneWarp(size), Two(AT_BARRIER, AT_WORK, n))
  {
    ArriveTwo(size, AT_WORK, n);
    assert !AtBarrierOrDone([WAITING, AT_WORK][1]);
  }

  /**
   Barrier safety does not survive the reset between passes. Thread 0 waits at the
   barrier and thread 1 runs block 3; after the reset thread 0 is counted a second
   time, and the barrier opens although thread 1 never reached it.
   */
  lemma BarrierOpensEarlyAfterReset()
    ensures var l, s := OneWarp(2), Two(AT_BARRIER, AT_WORK, 0);
            Right(l, s, 0) && Covered(l, 0) && Full(l, s, 0) && PassGoes(l, s) && OpensEarly(l, PassAndReset(l, s))
  {
    CountTwo(2, AT_BARRIER, AT_WORK, 0);
    CountedAgain(2, 0);
    OpensAt(2, 1);
  }

  /** A block with a thread fewer than the block size: both its threads wait at the barrier, and it does not open. */
  lemma ShortBlockWaits()
    ensures var l, s := OneWarp(3), Two(AT_BARRIER, WAITING, 1);
            && Right(l, s, 0) && Covered(l, 0) && !Full(l, s, 0) && Enabled(l, s, Arrive(0, 0))
            && Settled(l, BeforeTest(l, s, Arrive(0, 0)), 0) && !Releases(l, s, Arrive(0, 0))
  {
    CountTwo(3, AT_BARRIER, WAITING, 1);
    ArriveTwo(3, WAITING, 1);
  }

  /** Two resets upon a waiting thread make up for the missing one, and open the barrier of such a block as well. */
  lemma ShortBlockOpensAfterResets()
    ensures var l, s := OneWarp(3), Two(AT_BARRIER, AT_WORK, 0);
            && Right(l, s, 0) && Covered(l, 0) && !Full(l, s, 0) && PassGoes(l, s)
            && PassGoes(l, PassAndReset(l, s)) && OpensEarly(l, PassAndReset(l, PassAndReset(l, s)))
  {
    CountTwo(3, AT_BARRIER, AT_WORK, 0);
    CountedAgain(3, 0);
    CountedAgain(3, 1);
    OpensAt(3, 2);
  }

  // ---------------------------------------------------------------------------
  // Two warps, of which only the first was added to the block
  // ---------------------------------------------------------------------------

  function HalfAdded(): Layout { Layout([[0]], [0, 0], 2, {7}) }

  function Pair(a: Cell, b: Cell, n: nat): State { State([[a], [b]], [n], [0, 0]) }

  lemma BothMembers()
    ensures Members(HalfAdded(), 0) == [0, 1]
  {
    TwoRows(HalfAdded().blockOf);
  }

  lemma TwoRows(m: seq<nat>)
    requires |m| == 2 && m[0] == m[1] == 0
    ensures RowsOf(m, 0, 2) == [0, 1]
  {
    assert RowsOf(m, 0, 0) == [];
    assert RowsOf(m, 0, 1) == [] + [0];
  }

  lemma PairIs(a: Cell, b: Cell, n: nat)
    requires IsThread(a) && IsThread(b) && !a.complete && !b.complete
    ensures var l, s := HalfAdded(), Pair(a, b, n);
            && Sane(l, s) && Full(l, s, 0) && (Right(l, s, 0) <==> n == One(IsPaused(a)))
            && CompleteThreads(s, [0]) == 0
  {
    var s := Pair(a, b, n);
    BothMembers();
    TallySingles([a], [b], IsThread);
    TallySingles([a], [b], IsPaused);
    TallySingles([a], [b], IsComplete);
    assert CompleteThreads(s, [0]) == s.warpComplete[0] + CompleteThreads(s, []);
  }

  lemma PairArrives()
    ensures var l, s := HalfAdded(), Pair(WAITING, AT_BARRIER, 1);
            Sane(l, s) && Enabled(l, s, Arrive(1, 0)) && BeforeTest(l, s, Arrive(1, 0)) == Pair(WAITING, WAITING, 2)
  {
    PairIs(WAITING, AT_BARRIER, 1);
    var s := Pair(WAITING, AT_BARRIER, 1);
    assert [AT_BARRIER][0 := WAITING] == [WAITING] && [1][0 := 2] == [2];
    assert s.rows[1 := [WAITING]] == [[WAITING], [WAITING]];
  }

  /**
   The thread of the first row waits, that of the second arrives and opens the barrier. The release passes the second
   row over: its thread stays paused, and the count is back at zero.
   */
  lemma ReleaseMissesRow()
    ensures var l, s := HalfAdded(), Pair(WAITING, AT_BARRIER, 1);
            && Right(l, s, 0) && Full(l, s, 0) && !Covered(l, 0)
            && Enabled(l, s, Arrive(1, 0)) && Releases(l, s, Arrive(1, 0))
            && Step(l, s, Arrive(1, 0)) == Pair(Cell(BlockDone, 7, false), WAITING, 0)
  {
    var l, t := HalfAdded(), Pair(WAITING, WAITING, 2);
    PairIs(WAITING, AT_BARRIER, 1);
    PairArrives();
    PairIs(WAITING, WAITING, 2);
    assert l.blockOf[1] == 0 && 1 !in l.warps[0];
    assert ReleasedRow([WAITING]) == [Cell(BlockDone, 7, false)];
    assert Release(l, t, 0).rows == [[Cell(BlockDone, 7, false)], [WAITING]];
    assert [2][0 := 0] == [0];
  }

  lemma TallySingles(a: seq<Cell>, b: seq<Cell>, p: Cell -> bool)
    requires |a| == |b| == 1
    ensures Tally(a, p) == One(p(a[0])) && Tally(b, p) == One(p(b[0]))
    ensures TallyBlock([a, b], [0], p) == Tally(a, p) && TallyBlock([a, b], [0, 1], p) == Tally(a, p) + Tally(b, p)
  {
    assert a[1..] == [] && b[1..] == [];
    assert [0][1..] == [] && [0, 1][1..] == [1] && [1][1..] == [];
    assert TallyBlock([a, b], [1], p) == Tally(b, p) + TallyBlock([a, b], [], p);
    assert TallyBlock([a, b], [0], p) == Tally(a, p) + TallyBlock([a, b], [], p);
  }
}
