/**
 Timing on one SM, as far as warps, barriers and the scheduler act on each other: a warp that waits at a barrier is
 left, and when the scheduler has come back to a waiting warp its block's count is tested once more.
 */
module GpuTiming {
  import opened Common
  import opened GpuBarrier
  import Gpu = GpuThreads
  import Sched = GpuScheduler

  type WarpStatus = Sched.WarpStatus

  /** The layout, the number of warps that share the SM, and the number of warpsets. */
  datatype Config = Config(l: Layout, n: nat, sets: nat)

  /** Not in a warp, issuing from the current warp, or about to switch to another one. */
  datatype Phase = Outside | Inside | Leaving

  /** The threads and counts, and per warp its status and warp_blocked. */
  datatype Sm = Sm(s: State, status: seq<WarpStatus>, blocked: seq<nat>, cur: Sched.Cursor, phase: Phase)

  /** The current row. */
  function Here(c: Config, m: Sm): nat { Sched.RowOf(m.cur, c.n) }

  predicate Formed(c: Config, m: Sm)
  {
    && Shaped(c.l, m.s) && |m.status| == |m.blocked| == |m.s.rows|
    && m.cur.warpid < c.n && Gpu.Base(m.cur.warpset + 1, c.n) <= |m.status|
  }

  function Start(s: State): Sm
  {
    Sm(s, seq(|s.rows|, _ => Sched.TraceReady), seq(|s.rows|, _ => 0), Sched.Cursor(0, 0), Outside)
  }

  // ---------------------------------------------------------------------------
  // What happens
  // ---------------------------------------------------------------------------

  datatype SmAction =
    | Begin                               // the current warp has instructions to issue
    | Slot(e: Event)                      // one visit to a slot of it
    | Fifo                                // its queue is full
    | End(done: bool, memory: bool)       // all its slots were visited
    | Switch                              // the scheduler looks for another warp
    | Test                                // the current warp waits at a barrier: is it over?
    | Next(blocks: seq<nat>)              // the pass is over: reset of the current warp, and its new trace

  predicate HasNext(c: Config, m: Sm) { m.cur.warpset + 1 < c.sets }

  function NextFirst(c: Config, m: Sm): WarpStatus
    requires HasNext(c, m) ==> Gpu.Base(m.cur.warpset + 1, c.n) < |m.status|
  {
    if HasNext(c, m) then m.status[Gpu.Base(m.cur.warpset + 1, c.n)] else Sched.WarpComplete
  }

  function Switching(c: Config, m: Sm): (Sched.Cursor, bool)
    requires Formed(c, m) && (HasNext(c, m) ==> Gpu.Base(m.cur.warpset + 1, c.n) < |m.status|)
  {
    Sched.Switched(m.cur, Sched.SetOf(m.status, m.cur.warpset, c.n), HasNext(c, m), NextFirst(c, m))
  }

  predicate Can(c: Config, m: Sm, a: SmAction)
    requires Formed(c, m)
  {
    match a
    case Begin =>
      m.phase == Outside && m.status[Here(c, m)] in {Sched.TraceReady, Sched.WaitingMemory, Sched.WaitingTsfifo}
    case Slot(e) => m.phase == Inside && e.w == Here(c, m) && !e.Recheck? && Enabled(c.l, m.s, e)
    case Fifo => m.phase == Inside
    case End(_, _) => m.phase == Inside
    case Switch =>
      && m.phase == Leaving && (HasNext(c, m) ==> Gpu.Base(m.cur.warpset + 1, c.n) < |m.status|)
      && Gpu.Base(Switching(c, m).0.warpset + 1, c.n) <= |m.status|
    case Test =>
      && m.phase == Outside && m.status[Here(c, m)] == Sched.WaitingBarrier
      && Enabled(c.l, m.s, Recheck(Here(c, m)))
    case Next(blocks) => m.phase == Outside && |blocks| == |m.s.rows[Here(c, m)]|
  }

  /** The listed warps with the given value. */
  function Marked<T>(s: seq<T>, ws: seq<nat>, v: T): (r: seq<T>)
    ensures |r| == |s| && forall w | 0 <= w < |s| :: r[w] == if w in ws then v else s[w]
  {
    seq(|s|, w requires 0 <= w < |s| => if w in ws then v else s[w])
  }

  /** A visit to a slot: an arrival counts for its warp, and a release relaunches the warps of the block. */
  function SlotDone(c: Config, m: Sm, e: Event): Sm
    requires Formed(c, m) && Can(c, m, Slot(e))
  {
    var s', w := Step(c.l, m.s, e), e.w;
    if e.Arrive? then
      if Releases(c.l, m.s, e) then
        var ws := c.l.warps[c.l.blockOf[w]];
        m.(s := s', status := Marked(m.status, ws, Sched.RelaunchReady),
           blocked := Marked(m.blocked, ws, 0)[w := c.l.blockSize])
      else m.(s := s', blocked := m.blocked[w := m.blocked[w] + 1])
    else if e.Complete? && s'.warpComplete[w] >= |s'.rows[w]| then
      m.(s := s', status := m.status[w := Sched.WarpComplete])
    else m.(s := s')
  }

  /** After the last slot: the status and warp_blocked of the warp, and whether to leave it. */
  function Verdict(st: WarpStatus, blocked: nat, complete: nat, active: nat, size: nat, done: bool)
    : (WarpStatus, nat, bool)
  {
    if blocked > 0 then
      if blocked + complete >= active then
        if blocked + complete >= size then (Sched.RelaunchReady, 0, true) else (Sched.WaitingBarrier, blocked, true)
      else if done then (Sched.RelaunchReady, blocked, false) else (st, blocked, false)
    else if complete >= active then (Sched.WarpComplete, blocked, true)
    else if done then (Sched.RelaunchReady, blocked, false) else (st, blocked, false)
  }

  function Ended(c: Config, m: Sm, done: bool, memory: bool): Sm
    requires Formed(c, m)
  {
    var w := Here(c, m);
    var (st, bl, leave) := Verdict(m.status[w], m.blocked[w], m.s.warpComplete[w], Tally(m.s.rows[w], IsThread),
                                   c.l.blockSize, done);
    m.(status := m.status[w := if memory then Sched.WaitingMemory else st], blocked := m.blocked[w := bl],
       phase := if memory || leave then Leaving else Outside)
  }

  /** The test of a waiting warp. Where it fails the code has an assertion that is meant not to be reached. */
  function Tested(c: Config, m: Sm): Sm
    requires Formed(c, m) && Can(c, m, Test)
  {
    var w := Here(c, m);
    var ws := c.l.warps[c.l.blockOf[w]];
    if Releases(c.l, m.s, Recheck(w)) then
      m.(s := Step(c.l, m.s, Recheck(w)), status := Marked(m.status, ws, Sched.RelaunchReady)[w := Sched.RelaunchReady],
         blocked := Marked(m.blocked, ws, 0)[w := 0])
    else m
  }

  function Do(c: Config, m: Sm, a: SmAction): Sm
    requires Formed(c, m) && Can(c, m, a)
  {
    var w := Here(c, m);
    match a
    case Begin => m.(status := m.status[w := Sched.TraceReady], phase := Inside)
    case Slot(e) => SlotDone(c, m, e)
    case Fifo => m.(status := m.status[w := Sched.WaitingTsfifo])
    case End(done, memory) => Ended(c, m, done, memory)
    case Switch => m.(cur := Switching(c, m).0, phase := Outside)
    case Test => Tested(c, m)
    case Next(blocks) => m.(s := Act(c.l, m.s, NextPass(w, blocks)), status := m.status[w := Sched.TraceReady])
  }

  // ---------------------------------------------------------------------------
  // What every action keeps, for one block
  // ---------------------------------------------------------------------------

  predicate Over(st: WarpStatus) { st == Sched.WarpComplete || st == Sched.WaitingBarrier }

  /** A warp that is complete or waits has no thread left to run; warp_blocked counts at most its paused threads. */
  predicate RowTied(st: WarpStatus, blocked: nat, row: seq<Cell>, here: bool, size: nat)
  {
    && (Over(st) ==> RowDone(row))
    && (blocked <= Tally(row, IsPaused) || (here && blocked >= size))
  }

  predicate Tied(c: Config, m: Sm, b: nat)
    requires Formed(c, m)
  {
    forall w | 0 <= w < |m.status| && c.l.blockOf[w] == b ::
      RowTied(m.status[w], m.blocked[w], m.s.rows[w], m.phase == Inside && w == Here(c, m), c.l.blockSize)
  }

  /** Row w lies in group number k of n rows. */
  predicate InGroup(k: nat, n: nat, w: nat) { Gpu.Base(k, n) <= w < Gpu.Base(k + 1, n) }

  predicate InSet(c: Config, m: Sm, w: nat) { InGroup(m.cur.warpset, c.n, w) }

  /** No warp of a later set waits; issuing warps do not wait; who comes to rest at a waiting warp finds all over. */
  predicate Scheduled(c: Config, m: Sm)
    requires Formed(c, m)
  {
    && (forall w | Gpu.Base(m.cur.warpset + 1, c.n) <= w < |m.status| :: m.status[w] != Sched.WaitingBarrier)
    && (m.phase == Inside ==> m.status[Here(c, m)] != Sched.WaitingBarrier)
    && (m.phase == Outside && m.status[Here(c, m)] == Sched.WaitingBarrier ==>
          forall w | 0 <= w < |m.status| && InSet(c, m, w) :: Over(m.status[w]))
  }

  predicate Good(c: Config, m: Sm, b: nat)
  {
    Formed(c, m) && Right(c.l, m.s, b) && Tied(c, m, b) && Scheduled(c, m)
  }

  lemma HereIn(c: Config, m: Sm)
    requires Formed(c, m)
    ensures InSet(c, m, Here(c, m)) && Here(c, m) < |m.status|
  {
  }

  // One row of the block ---------------------------------------------------

  /** A row without a thread left to run stays so whatever is visited in it: only finished threads can be visited. */
  lemma VisitedRowDone(l: Layout, s: State, e: Event)
    requires Sane(l, s) && Enabled(l, s, e) && !e.Recheck? && !Releases(l, s, e) && RowDone(s.rows[e.w])
    ensures RowDone(Step(l, s, e).rows[e.w])
  {
    var c := s.rows[e.w][e.pe];
    assert IsThread(c) && Orderly(c) && AtBarrierOrDone(c);
    assert e.Idle?;
  }

  /** A warp all of whose threads are complete or counted as blocked has no thread left to run. */
  lemma CountedOut(l: Layout, s: State, w: nat, blocked: nat)
    requires Sane(l, s) && w < |s.rows| && blocked <= Tally(s.rows[w], IsPaused)
    requires blocked + s.warpComplete[w] >= Tally(s.rows[w], IsThread)
    ensures RowDone(s.rows[w])
  {
    assert forall pe | 0 <= pe < |s.rows[w]| :: Orderly(s.rows[w][pe]);
    RowSettled(s.rows[w]);
  }

  lemma {:induction false} TallyAtMost(row: seq<Cell>, p: Cell -> bool)
    ensures Tally(row, p) <= |row|
  {
    if row != [] { TallyAtMost(row[1..], p); }
  }

  lemma {:induction false} RowInBlock(rows: seq<seq<Cell>>, ws: seq<nat>, w: nat, p: Cell -> bool)
    requires (forall i | 0 <= i < |ws| :: ws[i] < |rows|) && w in ws
    ensures Tally(rows[w], p) <= TallyBlock(rows, ws, p)
  {
    if ws[0] != w { RowInBlock(rows, ws[1..], w, p); }
  }

  /** A warp has at most a block's worth of threads. */
  lemma RowBelowSize(l: Layout, s: State, b: nat, w: nat)
    requires Right(l, s, b) && w < |s.rows| && l.blockOf[w] == b
    ensures Tally(s.rows[w], IsThread) <= l.blockSize
  {
    RowsOfAre(l.blockOf, b, |l.blockOf|);
    RowInBlock(s.rows, Members(l, b), w, IsThread);
  }

  // The actions ------------------------------------------------------------

  /** The row that is visited, when the barrier does not open. */
  lemma OwnRowTied(c: Config, m: Sm, e: Event, b: nat)
    requires Good(c, m, b) && Can(c, m, Slot(e)) && c.l.blockOf[e.w] == b && !Releases(c.l, m.s, e)
    ensures var m' := SlotDone(c, m, e);
            RowTied(m'.status[e.w], m'.blocked[e.w], m'.s.rows[e.w], true, c.l.blockSize)
  {
    var s', w := Step(c.l, m.s, e), e.w;
    PutCounts(m.s, w, e.pe, s'.rows[w][e.pe], IsPaused, []);
    if RowDone(m.s.rows[w]) { VisitedRowDone(c.l, m.s, e); }
    if e.Complete? && s'.warpComplete[w] >= |s'.rows[w]| {
      StepSane(c.l, m.s, e);
      TallyAtMost(s'.rows[w], IsThread);
      CountedOut(c.l, s', w, 0);
    }
  }

  lemma SlotTied(c: Config, m: Sm, e: Event, b: nat, w: nat)
    requires Good(c, m, b) && Covered(c.l, b) && Can(c, m, Slot(e)) && w < |m.status| && c.l.blockOf[w] == b
    ensures var m' := SlotDone(c, m, e);
            RowTied(m'.status[w], m'.blocked[w], m'.s.rows[w], w == Here(c, m), c.l.blockSize)
  {
    if w == e.w && !Releases(c.l, m.s, e) { OwnRowTied(c, m, e, b); }
  }

  lemma SlotScheduled(c: Config, m: Sm, e: Event)
    requires Formed(c, m) && Scheduled(c, m) && Can(c, m, Slot(e)) && Shaped(c.l, Step(c.l, m.s, e))
    ensures Formed(c, SlotDone(c, m, e)) && Scheduled(c, SlotDone(c, m, e))
  {
    HereIn(c, m);
  }

  lemma SlotGood(c: Config, m: Sm, e: Event, b: nat)
    requires Good(c, m, b) && Covered(c.l, b) && Can(c, m, Slot(e))
    ensures Good(c, SlotDone(c, m, e), b) && Threads(c.l, SlotDone(c, m, e).s, b) == Threads(c.l, m.s, b)
  {
    StepRight(c.l, m.s, e, b);
    SlotScheduled(c, m, e);
    assert Tied(c, SlotDone(c, m, e), b) by {
      forall w | 0 <= w < |m.status| && c.l.blockOf[w] == b
        ensures var m' := SlotDone(c, m, e);
                RowTied(m'.status[w], m'.blocked[w], m'.s.rows[w], w == Here(c, m), c.l.blockSize)
      {
        SlotTied(c, m, e, b, w);
      }
    }
  }

  lemma EndGood(c: Config, m: Sm, done: bool, memory: bool, b: nat)
    requires Good(c, m, b) && m.phase == Inside
    ensures Good(c, Ended(c, m, done, memory), b)
  {
    var w := Here(c, m);
    if c.l.blockOf[w] == b {
      RowBelowSize(c.l, m.s, b, w);
      var row := m.s.rows[w];
      if m.blocked[w] <= Tally(row, IsPaused) && m.blocked[w] + m.s.warpComplete[w] >= Tally(row, IsThread) {
        CountedOut(c.l, m.s, w, m.blocked[w]);
      }
    }
  }

  /** The warps of the current set are over if its statuses say so. */
  lemma SetOver(c: Config, m: Sm)
    requires Formed(c, m)
    requires forall i | 0 <= i < c.n :: Over(Sched.SetOf(m.status, m.cur.warpset, c.n)[i])
    ensures forall w | 0 <= w < |m.status| && InSet(c, m, w) :: Over(m.status[w])
  {
    var base := Gpu.Base(m.cur.warpset, c.n);
    forall w | 0 <= w < |m.status| && InSet(c, m, w) ensures Over(m.status[w]) {
      assert m.status[w] == Sched.SetOf(m.status, m.cur.warpset, c.n)[w - base];
    }
  }

  /** The scheduler comes to rest at a warp that waits only when every warp of the set is over. */
  lemma SwitchesTo(c: Config, m: Sm)
    requires Formed(c, m) && Can(c, m, Switch)
    ensures var next, st := Switching(c, m).0, Sched.SetOf(m.status, m.cur.warpset, c.n);
            && (next.warpset != m.cur.warpset ==> next == Sched.Cursor(m.cur.warpset + 1, 0))
            && (next.warpset == m.cur.warpset ==>
                  && next.warpid < c.n
                  && (st[next.warpid] == Sched.WaitingBarrier ==> forall i | 0 <= i < c.n :: Over(st[i])))
  {
    var st := Sched.SetOf(m.status, m.cur.warpset, c.n);
    Sched.SwitchPromises(m.cur, st, HasNext(c, m), NextFirst(c, m));
  }

  /** Going to a warp of the set, or to the next set, none of whose warps waits. */
  lemma RestScheduled(c: Config, m: Sm, next: Sched.Cursor)
    requires Formed(c, m) && Scheduled(c, m) && next.warpid < c.n && Gpu.Base(next.warpset + 1, c.n) <= |m.status|
    requires next.warpset == m.cur.warpset || next.warpset == m.cur.warpset + 1
    requires next.warpset == m.cur.warpset && m.status[Sched.RowOf(next, c.n)] == Sched.WaitingBarrier ==>
               forall w | 0 <= w < |m.status| && InSet(c, m, w) :: Over(m.status[w])
    ensures var m' := m.(cur := next, phase := Outside); Formed(c, m') && Scheduled(c, m')
  {
  }

  lemma SwitchScheduled(c: Config, m: Sm)
    requires Formed(c, m) && Scheduled(c, m) && Can(c, m, Switch)
    ensures Formed(c, Do(c, m, Switch)) && Scheduled(c, Do(c, m, Switch))
  {
    var st, next := Sched.SetOf(m.status, m.cur.warpset, c.n), Switching(c, m).0;
    SwitchesTo(c, m);
    if next.warpset == m.cur.warpset && m.status[Sched.RowOf(next, c.n)] == Sched.WaitingBarrier {
      assert m.status[Sched.RowOf(next, c.n)] == st[next.warpid];
      SetOver(c, m);
    }
    RestScheduled(c, m, next);
  }

  lemma SwitchGood(c: Config, m: Sm, b: nat)
    requires Good(c, m, b) && Can(c, m, Switch)
    ensures Good(c, Do(c, m, Switch), b)
  {
    SwitchScheduled(c, m);
  }

  lemma TestScheduled(c: Config, m: Sm)
    requires Formed(c, m) && Scheduled(c, m) && Can(c, m, Test) && Shaped(c.l, Step(c.l, m.s, Recheck(Here(c, m))))
    ensures Formed(c, Tested(c, m)) && Scheduled(c, Tested(c, m))
  {
    HereIn(c, m);
  }

  lemma TestTied(c: Config, m: Sm, b: nat, w: nat)
    requires Good(c, m, b) && Covered(c.l, b) && Can(c, m, Test) && w < |m.status| && c.l.blockOf[w] == b
    ensures var m' := Tested(c, m);
            RowTied(m'.status[w], m'.blocked[w], m'.s.rows[w], false, c.l.blockSize)
  {
  }

  lemma TestGood(c: Config, m: Sm, b: nat)
    requires Good(c, m, b) && Covered(c.l, b) && Can(c, m, Test)
    ensures Good(c, Tested(c, m), b) && Threads(c.l, Tested(c, m).s, b) == Threads(c.l, m.s, b)
  {
    StepRight(c.l, m.s, Recheck(Here(c, m)), b);
    TestScheduled(c, m);
    assert Tied(c, Tested(c, m), b) by {
      forall w | 0 <= w < |m.status| && c.l.blockOf[w] == b
        ensures var m' := Tested(c, m); RowTied(m'.status[w], m'.blocked[w], m'.s.rows[w], false, c.l.blockSize)
      {
        TestTied(c, m, b, w);
      }
    }
  }

  /** No reset comes upon a paused thread of block b. */
  predicate Calm(c: Config, m: Sm, b: nat, a: SmAction)
    requires Formed(c, m) && Can(c, m, a)
  {
    a.Next? && c.l.blockOf[Here(c, m)] == b ==> NoPaused(m.s.rows[Here(c, m)])
  }

  lemma NextGood(c: Config, m: Sm, blocks: seq<nat>, b: nat)
    requires Good(c, m, b) && Can(c, m, Next(blocks)) && Calm(c, m, b, Next(blocks))
    ensures Good(c, Do(c, m, Next(blocks)), b) && Threads(c.l, Do(c, m, Next(blocks)).s, b) == Threads(c.l, m.s, b)
  {
    var w := Here(c, m);
    NextPassRight(c.l, m.s, NextPass(w, blocks), b);
    NextRowCounts(m.s.rows[w], blocks);
  }

  lemma DoGood(c: Config, m: Sm, a: SmAction, b: nat)
    requires Good(c, m, b) && Covered(c.l, b) && Can(c, m, a) && Calm(c, m, b, a)
    ensures Good(c, Do(c, m, a), b) && Threads(c.l, Do(c, m, a).s, b) == Threads(c.l, m.s, b)
  {
    match a
    case Slot(e) => SlotGood(c, m, e, b);
    case End(done, memory) => EndGood(c, m, done, memory, b);
    case Switch => SwitchGood(c, m, b);
    case Test => TestGood(c, m, b);
    case Next(blocks) => NextGood(c, m, blocks, b);
    case _ =>
  }

  // ---------------------------------------------------------------------------
  // Tests of waiting warps
  // ---------------------------------------------------------------------------

  /** All rows of block b lie in one warpset. */
  ghost predicate OneSet(c: Config, b: nat)
  {
    forall k: nat, w: nat, v: nat |
      w < |c.l.blockOf| && v < |c.l.blockOf| && c.l.blockOf[w] == c.l.blockOf[v] == b && InGroup(k, c.n, w) ::
      InGroup(k, c.n, v)
  }

  /** The test of a waiting warp succeeds if and only if its block is full. */
  lemma TestOpensIffFull(c: Config, m: Sm, b: nat)
    requires Good(c, m, b) && Covered(c.l, b) && OneSet(c, b) && Can(c, m, Test) && c.l.blockOf[Here(c, m)] == b
    ensures Releases(c.l, m.s, Recheck(Here(c, m))) <==> Full(c.l, m.s, b)
  {
    HereIn(c, m);
    forall w | 0 <= w < |m.s.rows| && c.l.blockOf[w] == b ensures RowDone(m.s.rows[w]) {
      assert InSet(c, m, w);
    }
    ReleaseIffSettled(c.l, m.s, b);
  }

  /** The actions are possible one after the other, and no reset comes upon a paused thread of block b. */
  predicate CalmRun(c: Config, m: Sm, b: nat, acts: seq<SmAction>)
    requires Formed(c, m)
    decreases acts
  {
    acts == [] ||
    (&& Can(c, m, acts[0]) && Calm(c, m, b, acts[0]) && Formed(c, Do(c, m, acts[0]))
     && CalmRun(c, Do(c, m, acts[0]), b, acts[1..]))
  }

  /** Whenever a waiting warp of block b is tested, the test has the given outcome. */
  predicate EveryTest(c: Config, m: Sm, b: nat, acts: seq<SmAction>, opens: bool)
    requires Formed(c, m) && CalmRun(c, m, b, acts)
    decreases acts
  {
    acts == [] ||
    (&& (acts[0].Test? && c.l.blockOf[Here(c, m)] == b ==> Releases(c.l, m.s, Recheck(Here(c, m))) == opens)
     && EveryTest(c, Do(c, m, acts[0]), b, acts[1..], opens))
  }

  lemma {:induction false} TestsFrom(c: Config, m: Sm, b: nat, acts: seq<SmAction>)
    requires Good(c, m, b) && Covered(c.l, b) && OneSet(c, b) && CalmRun(c, m, b, acts)
    ensures EveryTest(c, m, b, acts, Full(c.l, m.s, b))
    decreases acts
  {
    if acts != [] {
      if acts[0].Test? && c.l.blockOf[Here(c, m)] == b { TestOpensIffFull(c, m, b); }
      DoGood(c, m, acts[0], b);
      TestsFrom(c, Do(c, m, acts[0]), b, acts[1..]);
    }
  }

  lemma StartGood(c: Config, s: State, b: nat)
    requires Right(c.l, s, b) && 0 < c.n <= |s.rows|
    ensures Good(c, Start(s), b)
  {
  }

  /**
   From a start with right counts, and over every run of the SM without a reset upon a paused thread of the block:
   if all rows of the block were added to it and share a warpset, then every test of one of its warps that waits
   succeeds when the block is full, and fails when it has fewer threads than the block size.
   */
  lemma EveryTestOpensIffFull(c: Config, s: State, b: nat, acts: seq<SmAction>)
    requires Right(c.l, s, b) && Covered(c.l, b) && OneSet(c, b) && 0 < c.n <= |s.rows|
    requires CalmRun(c, Start(s), b, acts)
    ensures EveryTest(c, Start(s), b, acts, Full(c.l, s, b))
  {
    StartGood(c, s, b);
    TestsFrom(c, Start(s), b, acts);
  }
}
