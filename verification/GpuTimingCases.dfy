/** Blocks for which the test of a waiting warp fails. */
module GpuTimingCases {
  import opened Common
  import opened GpuBarrier
  import opened GpuTiming
  import Cases = GpuBarrierCases
  import Sched = GpuScheduler
  import Gpu = GpuThreads

  /** The SM runs one warp at a time; row r has one slot, and its block has room for more. */
  predicate Alone(c: Config, s: State, r: nat)
  {
    && Shaped(c.l, s) && c.n == 1 && r < |s.rows| && c.l.blockSize > 1
    && |s.rows[r]| == 1 && s.warpComplete[r] == 0 && c.l.blockOf[r] < |c.l.warps|
  }

  /** The arrival of the row's thread does not open the barrier. */
  predicate Arrives(c: Config, s: State, r: nat)
  {
    Alone(c, s, r) && Enabled(c.l, s, Arrive(r, 0)) && !Releases(c.l, s, Arrive(r, 0))
  }

  /** The state after such an arrival. */
  predicate Counts(c: Config, t: State, r: nat)
  {
    Alone(c, t, r) && IsThread(t.rows[r][0]) && !CheckThreadCount(c.l, t, c.l.blockOf[r])
  }

  /** The SM is at row r, in the given phase and with the given status of the row. */
  predicate At(c: Config, m: Sm, r: nat, st: WarpStatus, phase: Phase)
  {
    && Formed(c, m) && Here(c, m) == r && (HasNext(c, m) ==> r + 1 < |m.status|)
    && r < |m.status| && m.status[r] == st && m.phase == phase
  }

  /** The action, neither a reset nor a test, leads from m to m'. */
  predicate Goes(c: Config, m: Sm, a: SmAction, m': Sm)
  {
    Formed(c, m) && Can(c, m, a) && !a.Next? && !a.Test? && Do(c, m, a) == m' && Formed(c, m')
  }

  lemma AfterArrival(c: Config, m: Sm, r: nat) returns (m': Sm)
    requires At(c, m, r, Sched.TraceReady, Inside) && Arrives(c, m.s, r) && m.blocked[r] == 0
    ensures Goes(c, m, Slot(Arrive(r, 0)), m')
    ensures At(c, m', r, Sched.TraceReady, Inside) && Counts(c, m'.s, r) && m'.blocked[r] == 1
  {
    m' := Do(c, m, Slot(Arrive(r, 0)));
  }

  lemma AfterEnd(c: Config, m: Sm, r: nat) returns (m': Sm)
    requires At(c, m, r, Sched.TraceReady, Inside) && Counts(c, m.s, r) && m.blocked[r] == 1
    ensures Goes(c, m, End(true, false), m')
    ensures At(c, m', r, Sched.WaitingBarrier, Leaving) && Counts(c, m'.s, r)
  {
    m' := Do(c, m, End(true, false));
    var row := m.s.rows[r];
    assert row[1..] == [];
    assert Tally(row, IsThread) == One(IsThread(row[0])) + Tally([], IsThread);
  }

  /** No other warp can run, so the scheduler stays with the one that waits. */
  lemma AfterSwitch(c: Config, m: Sm, r: nat) returns (m': Sm)
    requires At(c, m, r, Sched.WaitingBarrier, Leaving) && Counts(c, m.s, r)
    ensures Goes(c, m, Switch, m')
    ensures At(c, m', r, Sched.WaitingBarrier, Outside) && Counts(c, m'.s, r)
  {
    var st := Sched.SetOf(m.status, m.cur.warpset, 1);
    assert st == [m.status[r]];
    assert Sched.FindFrom(st, 0, 1, true) == 2 by { assert Sched.Rot(0, 1, 1) == 0; }
    m' := Do(c, m, Switch);
  }

  lemma LastTest(c: Config, m: Sm, r: nat)
    requires At(c, m, r, Sched.WaitingBarrier, Outside) && Counts(c, m.s, r)
    ensures Fails(c, m, c.l.blockOf[r], [Test])
  {
    assert Tested(c, m) == m;
    assert [Test][1..] == [];
  }

  /** The run is possible, and every test in it of a warp of block b fails. */
  predicate Fails(c: Config, m: Sm, b: nat, acts: seq<SmAction>)
    requires Formed(c, m)
  {
    CalmRun(c, m, b, acts) && EveryTest(c, m, b, acts, false)
  }

  lemma Before(c: Config, m: Sm, b: nat, a: SmAction, m': Sm, acts: seq<SmAction>)
    requires Goes(c, m, a, m') && Fails(c, m', b, acts)
    ensures Fails(c, m, b, [a] + acts)
  {
    assert ([a] + acts)[1..] == acts;
  }

  const LEAVE_AND_TEST := [Switch] + [Test]
  const END_AND_TEST := [End(true, false)] + LEAVE_AND_TEST

  /** The arrival of the thread in row r, and the test that follows when the scheduler has found no other warp. */
  function ArriveAndTest(r: nat): seq<SmAction> { [Slot(Arrive(r, 0))] + END_AND_TEST }

  lemma LeavingFails(c: Config, m: Sm, r: nat)
    requires At(c, m, r, Sched.WaitingBarrier, Leaving) && Counts(c, m.s, r)
    ensures Fails(c, m, c.l.blockOf[r], LEAVE_AND_TEST)
  {
    var m' := AfterSwitch(c, m, r);
    LastTest(c, m', r);
    Before(c, m, c.l.blockOf[r], Switch, m', [Test]);
  }

  lemma EndingFails(c: Config, m: Sm, r: nat)
    requires At(c, m, r, Sched.TraceReady, Inside) && Counts(c, m.s, r) && m.blocked[r] == 1
    ensures Fails(c, m, c.l.blockOf[r], END_AND_TEST)
  {
    var m' := AfterEnd(c, m, r);
    LeavingFails(c, m', r);
    Before(c, m, c.l.blockOf[r], End(true, false), m', LEAVE_AND_TEST);
  }

  lemma ArrivingFails(c: Config, m: Sm, r: nat)
    requires At(c, m, r, Sched.TraceReady, Inside) && Arrives(c, m.s, r) && m.blocked[r] == 0
    ensures Fails(c, m, c.l.blockOf[r], ArriveAndTest(r))
  {
    var m' := AfterArrival(c, m, r);
    EndingFails(c, m', r);
    Before(c, m, c.l.blockOf[r], Slot(Arrive(r, 0)), m', END_AND_TEST);
  }

  lemma AtFirst(c: Config, m: Sm)
    requires Shaped(c.l, m.s) && |m.status| == |m.blocked| == |m.s.rows| >= 1 == c.n && m.cur == Sched.Cursor(0, 0)
    ensures Formed(c, m) && Here(c, m) == 0
  {
    assert Gpu.Base(0, 1) == 0 && Gpu.Base(1, 1) == 1;
  }

  lemma AfterBegin(c: Config, s: State) returns (m: Sm)
    requires Arrives(c, s, 0) && (c.sets > 1 ==> |s.rows| > 1)
    ensures Goes(c, Start(s), Begin, m) && m.s == s && At(c, m, 0, Sched.TraceReady, Inside) && m.blocked[0] == 0
  {
    AtFirst(c, Start(s));
    m := Do(c, Start(s), Begin);
    AtFirst(c, m);
  }

  /** The run ends with a test that fails. */
  lemma FirstGetsStuck(c: Config, s: State)
    requires Arrives(c, s, 0) && (c.sets > 1 ==> |s.rows| > 1)
    ensures Formed(c, Start(s)) && Fails(c, Start(s), c.l.blockOf[0], [Begin] + ArriveAndTest(0))
  {
    var m := AfterBegin(c, s);
    ArrivingFails(c, m, 0);
    Before(c, Start(s), c.l.blockOf[0], Begin, m, ArriveAndTest(0));
  }

  // ---------------------------------------------------------------------------
  // A block that is not full, and one that is split over two warpsets
  // ---------------------------------------------------------------------------

  function Single(x: Cell, n: nat): State { State([[x]], [n], [0]) }

  lemma SingleIs(x: Cell, n: nat)
    requires IsThread(x) && !x.complete
    ensures var l, s := Cases.OneWarp(2), Single(x, n);
            && Sane(l, s) && Covered(l, 0) && !Full(l, s, 0) && (Right(l, s, 0) <==> n == One(IsPaused(x)))
            && CompleteThreads(s, [0]) == 0
  {
    var s := Single(x, n);
    assert RowsOf([0], 0, 1) == [0];
    Cases.TallySingles([x], [x], IsThread);
    Cases.TallySingles([x], [x], IsPaused);
    Cases.TallySingles([x], [x], IsComplete);
    TallyFirst([x], IsThread);
    TallyFirst([x], IsPaused);
    assert CompleteThreads(s, [0]) == s.warpComplete[0] + CompleteThreads(s, []);
  }

  lemma TallyFirst(a: seq<Cell>, p: Cell -> bool)
    ensures TallyBlock([a], [0], p) == Tally(a, p)
  {
    assert TallyBlock([a], [0], p) == Tally(a, p) + TallyBlock([a], [], p);
  }

  lemma SingleArrives()
    ensures Arrives(Config(Cases.OneWarp(2), 1, 1), Single(Cases.AT_BARRIER, 0), 0)
  {
    var l, s := Cases.OneWarp(2), Single(Cases.AT_BARRIER, 0);
    SingleIs(Cases.AT_BARRIER, 0);
    SingleIs(Cases.WAITING, 1);
    assert s.rows[0][0 := Cases.WAITING] == [Cases.WAITING] && [0][0 := 1] == [1];
    assert s.rows[0 := [Cases.WAITING]] == [[Cases.WAITING]];
    assert Arrived(l, s, 0, 0) == Single(Cases.WAITING, 1);
  }

  /** A block with one thread and room for two: its only warp waits, and the test of it fails. */
  lemma ShortBlockGetsStuck()
    ensures var c, s := Config(Cases.OneWarp(2), 1, 1), Single(Cases.AT_BARRIER, 0);
            && Right(c.l, s, 0) && Covered(c.l, 0) && OneSet(c, 0) && !Full(c.l, s, 0)
            && Formed(c, Start(s)) && Fails(c, Start(s), 0, [Begin] + ArriveAndTest(0))
  {
    SingleIs(Cases.AT_BARRIER, 0);
    SingleArrives();
    FirstGetsStuck(Config(Cases.OneWarp(2), 1, 1), Single(Cases.AT_BARRIER, 0));
  }

  /** One block in two warps, both added to it. */
  function TwoWarps(): Layout { Layout([[0, 1]], [0, 0], 2, {7}) }

  lemma PairIs(x: Cell, y: Cell, n: nat)
    requires IsThread(x) && IsThread(y) && !x.complete && !y.complete
    ensures var l, s := TwoWarps(), Cases.Pair(x, y, n);
            && Sane(l, s) && Covered(l, 0) && Full(l, s, 0)
            && (Right(l, s, 0) <==> n == One(IsPaused(x)) + One(IsPaused(y)))
            && CompleteThreads(s, [0, 1]) == 0
  {
    var s := Cases.Pair(x, y, n);
    Cases.TwoRows(TwoWarps().blockOf);
    Cases.TallySingles([x], [y], IsThread);
    Cases.TallySingles([x], [y], IsPaused);
    Cases.TallySingles([x], [y], IsComplete);
    CompleteNone(s, [0, 1]);
  }

  lemma PairArrives()
    ensures Arrives(Config(TwoWarps(), 1, 2), Cases.Pair(Cases.AT_BARRIER, Cases.AT_BARRIER, 0), 0)
  {
    var l, s := TwoWarps(), Cases.Pair(Cases.AT_BARRIER, Cases.AT_BARRIER, 0);
    PairIs(Cases.AT_BARRIER, Cases.AT_BARRIER, 0);
    PairIs(Cases.WAITING, Cases.AT_BARRIER, 1);
    assert s.rows[0][0 := Cases.WAITING] == [Cases.WAITING] && [0][0 := 1] == [1];
    assert s.rows[0 := [Cases.WAITING]] == [[Cases.WAITING], [Cases.AT_BARRIER]];
    assert Arrived(l, s, 0, 0) == Cases.Pair(Cases.WAITING, Cases.AT_BARRIER, 1);
  }

  lemma Apart()
    ensures !OneSet(Config(TwoWarps(), 1, 2), 0)
  {
    assert Gpu.Base(0, 1) == 0 && Gpu.Base(1, 1) == 1;
    assert InGroup(0, 1, 0) && !InGroup(0, 1, 1);
    assert TwoWarps().blockOf[0] == TwoWarps().blockOf[1] == 0;
  }

  /** A full block, whose second warp belongs to the next warpset: the first one waits for it, and its test fails. */
  lemma SplitBlockGetsStuck()
    ensures var c, s := Config(TwoWarps(), 1, 2), Cases.Pair(Cases.AT_BARRIER, Cases.AT_BARRIER, 0);
            && Right(c.l, s, 0) && Covered(c.l, 0) && !OneSet(c, 0) && Full(c.l, s, 0)
            && Formed(c, Start(s)) && Fails(c, Start(s), 0, [Begin] + ArriveAndTest(0))
  {
    PairIs(Cases.AT_BARRIER, Cases.AT_BARRIER, 0);
    PairArrives();
    Apart();
    FirstGetsStuck(Config(TwoWarps(), 1, 2), Cases.Pair(Cases.AT_BARRIER, Cases.AT_BARRIER, 0));
  }
}
