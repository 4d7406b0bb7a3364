/**
 The warp scheduler of an SM: which warp runs next, and which threads may run
 while it does. A warpset is a group of consecutive warps that share the SM.
 */
module GpuScheduler {
  import opened GpuThreads

  datatype WarpStatus = TraceReady | WaitingTsfifo | WaitingBarrier | WaitingMemory | RelaunchReady | WarpComplete

  // ---------------------------------------------------------------------------
  // The search for the next warp
  // ---------------------------------------------------------------------------

  /** The warp m places after warp c, going round a set of n. */
  function Rot(c: nat, m: nat, n: nat): nat
    requires c < n && m <= n
  {
    if c + m < n then c + m else c + m - n
  }

  /** The first search passes over warps stuck at a barrier, the second only over complete ones. */
  predicate Usable(s: WarpStatus, avoidBarrier: bool)
  {
    s != WarpComplete && !(avoidBarrier && s == WaitingBarrier)
  }

  /** How many places after warp c the first usable one is, at least m; |st| + 1 if there is none. */
  function FindFrom(st: seq<WarpStatus>, c: nat, m: nat, avoidBarrier: bool): (k: nat)
    requires c < |st| && m <= |st| + 1
    ensures m <= k <= |st| + 1
    ensures k <= |st| ==> Usable(st[Rot(c, k, |st|)], avoidBarrier)
    ensures forall i | m <= i < k && i <= |st| :: !Usable(st[Rot(c, i, |st|)], avoidBarrier)
    decreases |st| + 1 - m
  {
    if m > |st| then m
    else if Usable(st[Rot(c, m, |st|)], avoidBarrier) then m
    else FindFrom(st, c, m + 1, avoidBarrier)
  }

  lemma FindStep(st: seq<WarpStatus>, c: nat, m: nat, avoidBarrier: bool)
    requires c < |st| && 1 <= m <= |st|
    ensures Rot(Rot(c, m - 1, |st|), 1, |st|) == Rot(c, m, |st|)
    ensures FindFrom(st, c, m, avoidBarrier) ==
            if Usable(st[Rot(c, m, |st|)], avoidBarrier) then m else FindFrom(st, c, m + 1, avoidBarrier)
  {
  }

  /** One more than the number of moves of a search, and the warp it stops at. */
  function Searched(st: seq<WarpStatus>, c: nat, avoidBarrier: bool): (nat, nat)
    requires c < |st|
  {
    var m := FindFrom(st, c, 1, avoidBarrier);
    if m <= |st| then (m + 1, Rot(c, m, |st|)) else (|st| + 1, c)
  }

  /** The current warp: number `warpid` of warpset number `warpset`. */
  datatype Cursor = Cursor(warpset: nat, warpid: nat)

  /** What switch2nextwarp decides, from the statuses st of the current set and of the first warp of the next. */
  function Switched(cur: Cursor, st: seq<WarpStatus>, hasNext: bool, nextFirst: WarpStatus): (Cursor, bool)
    requires cur.warpid < |st|
  {
    var n := |st|;
    var m1 := FindFrom(st, cur.warpid, 1, true);
    var m2 := FindFrom(st, cur.warpid, 1, false);
    if m1 <= n then (Cursor(cur.warpset, Rot(cur.warpid, m1, n)), true)
    else if st[cur.warpid] != WarpComplete then (cur, true)
    else if m2 <= n then (Cursor(cur.warpset, Rot(cur.warpid, m2, n)), true)
    else if !hasNext then (cur, false)
    else (Cursor(cur.warpset + 1, 0), nextFirst != WarpComplete)
  }

  /** Going round visits every warp of the set. */
  lemma EveryWarpVisited(c: nat, i: nat, n: nat) returns (m: nat)
    requires c < n && i < n
    ensures 1 <= m <= n && Rot(c, m, n) == i
  {
    m := if i > c then i - c else i + n - c;
  }

  lemma NoneUsable(st: seq<WarpStatus>, c: nat, avoidBarrier: bool, i: nat)
    requires c < |st| && i < |st| && FindFrom(st, c, 1, avoidBarrier) == |st| + 1
    ensures !Usable(st[i], avoidBarrier)
  {
    var m := EveryWarpVisited(c, i, |st|);
  }

  /**
   The scheduler's promises: it never settles on a complete warp, takes one that
   waits at a barrier only when no other can run, and leaves a warpset only when all
   its warps are complete. It gives up exactly when they are and either there is no
   next set or the first warp of the next set is complete, whatever the others are.
   */
  lemma SwitchPromises(cur: Cursor, st: seq<WarpStatus>, hasNext: bool, nextFirst: WarpStatus)
    requires cur.warpid < |st|
    ensures var (next, ok) := Switched(cur, st, hasNext, nextFirst);
            && (next.warpset == cur.warpset ==> next.warpid < |st|)
            && (next.warpset != cur.warpset ==> next == Cursor(cur.warpset + 1, 0) && hasNext)
            && (ok && next.warpset == cur.warpset ==> st[next.warpid] != WarpComplete)
            && (ok && next.warpset != cur.warpset ==> nextFirst != WarpComplete)
            && (ok && next.warpset == cur.warpset && st[next.warpid] == WaitingBarrier ==>
                  forall i | 0 <= i < |st| :: st[i] == WarpComplete || st[i] == WaitingBarrier)
            && ((next.warpset != cur.warpset || !ok) ==> forall i | 0 <= i < |st| :: st[i] == WarpComplete)
            && (ok <==> (exists i | 0 <= i < |st| :: st[i] != WarpComplete) || (hasNext && nextFirst != WarpComplete))
  {
    if FindFrom(st, cur.warpid, 1, true) == |st| + 1 {
      forall i | 0 <= i < |st| ensures st[i] == WarpComplete || st[i] == WaitingBarrier {
        NoneUsable(st, cur.warpid, true, i);
      }
    }
    if FindFrom(st, cur.warpid, 1, false) == |st| + 1 {
      forall i | 0 <= i < |st| ensures st[i] == WarpComplete {
        NoneUsable(st, cur.warpid, false, i);
      }
    }
  }

  /** Going round is counting on, modulo the number of warps of the set. */
  lemma RotIsModulo(c: nat, m: nat, n: nat)
    requires c < n && m <= n
    ensures Rot(c, m, n) == (c + m) % n
  {
    if c + m < n {
      SameQuotient(c + m, 0, n);
    } else {
      SameQuotient(c + m, 1, n);
    }
  }

  /** The warp m places after warp c is usable, and none in between is. */
  predicate FirstAt(st: seq<WarpStatus>, c: nat, avoidBarrier: bool, m: nat)
    requires c < |st|
  {
    && 1 <= m <= |st| && Usable(st[Rot(c, m, |st|)], avoidBarrier)
    && forall i | 1 <= i < m :: !Usable(st[Rot(c, i, |st|)], avoidBarrier)
  }

  /** Warp w is the first usable one after warp c, going round; c itself comes last. */
  ghost predicate Nearest(st: seq<WarpStatus>, c: nat, avoidBarrier: bool, w: nat)
    requires c < |st|
  {
    exists m: nat :: FirstAt(st, c, avoidBarrier, m) && w == Rot(c, m, |st|)
  }

  lemma FoundIsNearest(st: seq<WarpStatus>, c: nat, avoidBarrier: bool)
    requires c < |st| && FindFrom(st, c, 1, avoidBarrier) <= |st|
    ensures Nearest(st, c, avoidBarrier, Rot(c, FindFrom(st, c, 1, avoidBarrier), |st|))
  {
    assert FirstAt(st, c, avoidBarrier, FindFrom(st, c, 1, avoidBarrier));
  }

  predicate SomeUsable(st: seq<WarpStatus>, avoidBarrier: bool)
  {
    exists i | 0 <= i < |st| :: Usable(st[i], avoidBarrier)
  }

  lemma FoundIffUsable(st: seq<WarpStatus>, c: nat, avoidBarrier: bool)
    requires c < |st|
    ensures FindFrom(st, c, 1, avoidBarrier) <= |st| <==> SomeUsable(st, avoidBarrier)
  {
    if FindFrom(st, c, 1, avoidBarrier) == |st| + 1 {
      forall i | 0 <= i < |st| ensures !Usable(st[i], avoidBarrier) {
        NoneUsable(st, c, avoidBarrier, i);
      }
    }
  }

  /**
   Which warp the scheduler takes: the first one going round that neither is complete nor waits at a barrier, the
   current one last. Without such a warp it stays where it waits, and leaves a complete warp for the first one going
   round that waits. With all warps complete it goes to the next set, if there is one.
   */
  lemma SwitchChoice(cur: Cursor, st: seq<WarpStatus>, hasNext: bool, nextFirst: WarpStatus)
    requires cur.warpid < |st|
    ensures var (next, ok), c := Switched(cur, st, hasNext, nextFirst), cur.warpid;
            if SomeUsable(st, true) then
              ok && next.warpset == cur.warpset && Nearest(st, c, true, next.warpid)
            else if st[c] == WaitingBarrier then
              ok && next == cur
            else if SomeUsable(st, false) then
              ok && next.warpset == cur.warpset && Nearest(st, c, false, next.warpid)
            else if hasNext then
              ok == (nextFirst != WarpComplete) && next == Cursor(cur.warpset + 1, 0)
            else
              !ok && next == cur
  {
    FoundIffUsable(st, cur.warpid, true);
    FoundIffUsable(st, cur.warpid, false);
    if SomeUsable(st, true) {
      FoundIsNearest(st, cur.warpid, true);
    } else if SomeUsable(st, false) {
      FoundIsNearest(st, cur.warpid, false);
    }
  }

  /** That rule fixes the warp. */
  lemma NearestIsUnique(st: seq<WarpStatus>, c: nat, avoidBarrier: bool, w: nat, v: nat)
    requires c < |st| && Nearest(st, c, avoidBarrier, w) && Nearest(st, c, avoidBarrier, v)
    ensures w == v
  {
    var m: nat :| FirstAt(st, c, avoidBarrier, m) && w == Rot(c, m, |st|);
    var k: nat :| FirstAt(st, c, avoidBarrier, k) && v == Rot(c, k, |st|);
  }

  // ---------------------------------------------------------------------------
  // The SM
  // ---------------------------------------------------------------------------

  /** The statuses of set number k. */
  function SetOf(status: seq<WarpStatus>, k: nat, n: nat): seq<WarpStatus>
    requires Base(k + 1, n) <= |status|
  {
    status[Base(k, n)..Base(k + 1, n)]
  }

  class Sm {
    const rows: seq<Row>
    const concurrentWarpCount: nat
    const warpsets: nat
    var warpStatus: seq<WarpStatus>
    var currentwarpid: nat
    var currentwarpset: nat

    ghost function Cur(): Cursor
      reads this
    {
      Cursor(currentwarpset, currentwarpid)
    }

    /** The rows of the current set, and the first row of the next one, exist. */
    ghost predicate Valid()
      reads this
    {
      && currentwarpid < concurrentWarpCount
      && Base(currentwarpset + 1, concurrentWarpCount) <= |warpStatus|
      && (HasNext() ==> Base(currentwarpset + 1, concurrentWarpCount) < |warpStatus|)
    }

    ghost predicate HasNext()
      reads this
    {
      currentwarpset + 1 < warpsets
    }

    /** Statuses of the warps of the current set. */
    ghost function SetStatus(): (st: seq<WarpStatus>)
      reads this
      requires Valid()
    {
      SetOf(warpStatus, currentwarpset, concurrentWarpCount)
    }

    ghost function NextFirst(): WarpStatus
      reads this
      requires Valid()
    {
      if HasNext() then warpStatus[Base(currentwarpset + 1, concurrentWarpCount)] else WarpComplete
    }

    function GetCurrentWarp(): (w: nat)
      reads this
    {
      currentwarpset * concurrentWarpCount + currentwarpid
    }

    method Move2NextWarp()
      requires Valid()
      modifies this`currentwarpid
      ensures Valid() && currentwarpid == Rot(old(currentwarpid), 1, concurrentWarpCount)
    {
      currentwarpid := currentwarpid + 1;
      if currentwarpid >= concurrentWarpCount {
        currentwarpid := 0;
      }
    }

    method Move2NextWarpSet() returns (ok: bool)
      requires Valid()
      modifies this`currentwarpid, this`currentwarpset
      ensures ok == old(HasNext())
      ensures Cur() == if ok then Cursor(old(currentwarpset) + 1, 0) else old(Cur())
    {
      currentwarpset := currentwarpset + 1;
      if currentwarpset >= warpsets {
        currentwarpset := currentwarpset - 1;
        return false;
      }
      currentwarpid := 0;
      return true;
    }

    lemma CurrentRow()
      ensures GetCurrentWarp() == RowOf(Cur(), concurrentWarpCount)
    {
      BaseIsProduct(currentwarpset, concurrentWarpCount);
    }

    method CurrentStatus() returns (s: WarpStatus)
      requires Valid()
      ensures s == SetStatus()[currentwarpid]
    {
      CurrentRow();
      s := warpStatus[GetCurrentWarp()];
    }

    /** One round of the search; localwarpcount is one more than the number of moves made. */
    method Search(avoidBarrier: bool) returns (localwarpcount: nat)
      requires Valid()
      modifies this`currentwarpid
      ensures Valid() && SetStatus() == old(SetStatus())
      ensures (localwarpcount, currentwarpid) == Searched(old(SetStatus()), old(currentwarpid), avoidBarrier)
    {
      ghost var c, n, st := currentwarpid, concurrentWarpCount, SetStatus();
      localwarpcount := 1;
      while localwarpcount <= concurrentWarpCount
        invariant 1 <= localwarpcount <= n + 1 && Valid() && SetStatus() == st
        invariant currentwarpid == Rot(c, localwarpcount - 1, n)
        invariant FindFrom(st, c, 1, avoidBarrier) == FindFrom(st, c, localwarpcount, avoidBarrier)
      {
        FindStep(st, c, localwarpcount, avoidBarrier);
        Move2NextWarp();
        localwarpcount := localwarpcount + 1;
        var s := CurrentStatus();
        if Usable(s, avoidBarrier) {
          return;
        }
      }
    }

    /** A search and the test of where it ended: at a usable warp, or back at a warp that is not complete. */
    method Try(avoidBarrier: bool) returns (found: bool)
      requires Valid()
      modifies this`currentwarpid
      ensures Valid() && SetStatus() == old(SetStatus())
      ensures var st, c := old(SetStatus()), old(currentwarpid);
              var m := FindFrom(st, c, 1, avoidBarrier);
              && found == (m <= |st| || st[c] != WarpComplete)
              && currentwarpid == if m <= |st| then Rot(c, m, |st|) else c
    {
      var before := currentwarpid;
      var localwarpcount := Search(avoidBarrier);
      var s := CurrentStatus();
      found := (currentwarpid == before && s != WarpComplete) || localwarpcount <= concurrentWarpCount;
    }

    /** The search part of switch2nextwarp. */
    method FindNextWarp() returns (found: bool)
      requires Valid()
      modifies this`currentwarpid, this`currentwarpset
      ensures (Cur(), found) == Switched(old(Cur()), old(SetStatus()), old(HasNext()), old(NextFirst()))
    {
      found := Try(true);
      if found {
        return;
      }
      found := Try(false);
      if found {
        return;
      }
      found := EnterNextSet();
    }

    method EnterNextSet() returns (found: bool)
      requires Valid()
      modifies this`currentwarpid, this`currentwarpset
      ensures found == (old(HasNext()) && old(NextFirst()) != WarpComplete)
      ensures Cur() == if old(HasNext()) then Cursor(old(currentwarpset) + 1, 0) else old(Cur())
    {
      var more := Move2NextWarpSet();
      if !more {
        return false;
      }
      CurrentRow();
      return warpStatus[GetCurrentWarp()] != WarpComplete;
    }

    /** switch2nextwarp: pause the threads of the old warp, find the next one, resume its threads. */
    method Switch2NextWarp(pause: array<int>) returns (ok: bool)
      requires Valid() && Within(rows, pause.Length)
      modifies this`currentwarpid, this`currentwarpset, pause
      ensures (Cur(), ok) == Switched(old(Cur()), old(SetStatus()), old(HasNext()), old(NextFirst()))
      ensures pause[..] == Handover(old(pause[..]), RowAt(rows, RowOf(old(Cur()), concurrentWarpCount)),
                                    RowAt(rows, RowOf(Cur(), concurrentWarpCount)), ok)
    {
      CurrentRow();
      var warpid := GetCurrentWarp();
      if warpid < |rows| {
        WriteRow(pause, rows[warpid], 1);
      }
      ok := FindNextWarp();
      if !ok {
        return;
      }
      CurrentRow();
      var newwarpid := GetCurrentWarp();
      if newwarpid < |rows| {
        WriteRow(pause, rows[newwarpid], 0);
      }
    }
  }

  // ---------------------------------------------------------------------------
  // Pause words: one per thread, 0 when the GPU may run it
  // ---------------------------------------------------------------------------

  function RowAt(rows: seq<Row>, w: nat): Row
  {
    if w < |rows| then rows[w] else []
  }

  /** Every slot is empty or holds a thread below n. */
  predicate Within(rows: seq<Row>, n: nat)
  {
    forall r, pe | 0 <= r < |rows| && 0 <= pe < |rows[r]| :: NO_THREAD <= rows[r][pe] < n
  }

  /** The pause words with those of the row's threads set to v. */
  function Written(pause: seq<int>, row: Row, v: int): (p: seq<int>)
    ensures |p| == |pause|
    ensures forall t | 0 <= t < |pause| :: p[t] == if t in row then v else pause[t]
  {
    seq(|pause|, t requires 0 <= t < |pause| => if t in row then v else pause[t])
  }

  function Handover(pause: seq<int>, from: Row, to: Row, ok: bool): seq<int>
  {
    var paused := Written(pause, from, 1);
    if ok then Written(paused, to, 0) else paused
  }

  method WriteRow(pause: array<int>, row: Row, v: int)
    requires forall pe | 0 <= pe < |row| :: NO_THREAD <= row[pe] < pause.Length
    modifies pause
    ensures pause[..] == Written(old(pause[..]), row, v)
  {
    for pe := 0 to |row|
      invariant forall t | 0 <= t < pause.Length :: pause[t] == if t in row[..pe] then v else old(pause[t])
    {
      if row[pe] >= 0 {
        pause[row[pe]] := v;
      }
      assert row[..pe + 1] == row[..pe] + [row[pe]];
    }
    assert row[..|row|] == row;
  }

  /** On every SM, a thread that may run belongs to the current warp. */
  predicate OnlyCurrentRuns(rows: seq<seq<Row>>, current: seq<nat>, pause: seq<int>)
    requires |current| == |rows|
  {
    forall k, r, pe | 0 <= k < |rows| && 0 <= r < |rows[k]| && 0 <= pe < |rows[k][r]| &&
                      0 <= rows[k][r][pe] < |pause| && pause[rows[k][r][pe]] == 0 ::
      r == current[k]
  }

  /** Pausing more threads never breaks it. */
  lemma PausingKeeps(rows: seq<seq<Row>>, current: seq<nat>, pause: seq<int>, pause': seq<int>)
    requires |current| == |rows| && OnlyCurrentRuns(rows, current, pause) && |pause'| == |pause|
    requires forall t | 0 <= t < |pause| && pause'[t] == 0 :: pause[t] == 0
    ensures OnlyCurrentRuns(rows, current, pause')
  {
  }

  /** Handing over from the current warp of SM k to row w keeps it: slots are not shared. */
  lemma HandoverKeeps(rows: seq<seq<Row>>, current: seq<nat>, pause: seq<int>, k: nat, w: nat, ok: bool,
                      chunk: nat)
    requires chunk > 0 && Distributed(rows, |pause|, chunk)
    requires |current| == |rows| && k < |rows| && OnlyCurrentRuns(rows, current, pause)
    ensures OnlyCurrentRuns(rows, current[k := w],
                            Handover(pause, RowAt(rows[k], current[k]), RowAt(rows[k], w), ok))
  {
    var from, to := RowAt(rows[k], current[k]), RowAt(rows[k], w);
    var pause' := Handover(pause, from, to, ok);
    forall k', r, pe | 0 <= k' < |rows| && 0 <= r < |rows[k']| && 0 <= pe < |rows[k'][r]| &&
                       0 <= rows[k'][r][pe] < |pause'| && pause'[rows[k'][r][pe]] == 0
      ensures r == current[k := w][k']
    {
      var t := rows[k'][r][pe];
      var _, _, _ := OneSlotPerThread(rows, |pause|, chunk, t);
      assert Sits(rows[k'], r, pe, t);
      if ok && t in to {
        var qe :| 0 <= qe < |to| && to[qe] == t;
        assert Sits(rows[k], w, qe, t);
      } else {
        assert t !in from && pause[t] == 0;
        assert r == current[k'];
      }
    }
  }

  /**
   What a switch on SM k leaves running there: the threads of the new warp, if one was found, and no others. The
   threads of the other SMs keep their pause words.
   */
  lemma HandoverRuns(rows: seq<seq<Row>>, current: seq<nat>, pause: seq<int>, k: nat, w: nat, ok: bool, chunk: nat,
                     j: nat, r: nat, pe: nat)
    requires chunk > 0 && Distributed(rows, |pause|, chunk)
    requires |current| == |rows| && k < |rows| && OnlyCurrentRuns(rows, current, pause)
    requires j < |rows| && r < |rows[j]| && pe < |rows[j][r]| && 0 <= rows[j][r][pe] < |pause|
    ensures var t, pause' := rows[j][r][pe], Handover(pause, RowAt(rows[k], current[k]), RowAt(rows[k], w), ok);
            if j == k then pause'[t] == 0 <==> ok && r == w else pause'[t] == pause[t]
  {
    var t, from, to := rows[j][r][pe], RowAt(rows[k], current[k]), RowAt(rows[k], w);
    var _, _, _ := OneSlotPerThread(rows, |pause|, chunk, t);
    assert Sits(rows[j], r, pe, t);
    RowHolds(rows, k, current[k], t, |pause|, chunk, j, r, pe);
    RowHolds(rows, k, w, t, |pause|, chunk, j, r, pe);
    HandoverKeeps(rows, current, pause, k, w, ok, chunk);
  }

  /** A thread is in row w of SM k exactly if that is where it sits. */
  lemma RowHolds(rows: seq<seq<Row>>, k: nat, w: nat, t: int, n: nat, chunk: nat, j: nat, r: nat, pe: nat)
    requires chunk > 0 && Distributed(rows, n, chunk) && k < |rows| && j < |rows| && 0 <= t < n
    requires Sits(rows[j], r, pe, t)
    ensures t in RowAt(rows[k], w) <==> j == k && r == w
  {
    var _, _, _ := OneSlotPerThread(rows, n, chunk, t);
    if t in RowAt(rows[k], w) {
      var qe :| 0 <= qe < |RowAt(rows[k], w)| && RowAt(rows[k], w)[qe] == t;
      assert Sits(rows[k], w, qe, t);
    }
  }

  // ---------------------------------------------------------------------------
  // Kernel launch
  // ---------------------------------------------------------------------------

  /** The part of a row that resumeSelectivethreads and pauseSelectivethreads look at. */
  function Selected(row: Row, numSP: nat, total: nat): Row
    requires |row| == numSP
  {
    row[..if numSP > total then total else numSP]
  }

  /** What is launched: the rows of every SM, how many of them are timed, and how many threads it has. */
  datatype Launch = Launch(rows: seq<seq<Row>>, timing: seq<nat>, totals: seq<nat>, numSP: nat) {
    predicate Valid()
    {
      && |rows| == |timing| == |totals|
      && (forall k | 0 <= k < |rows| :: Wide(rows[k], numSP))
      && (forall k | 0 <= k < |rows| && totals[k] > 0 :: rows[k] != [])
    }

    /** The threads of SM k that may run first: those of its first warp, if it is timed. */
    function First(k: nat): Row
      requires Valid() && k < |rows|
    {
      if totals[k] > 0 && timing[k] > 0 then Selected(rows[k][0], numSP, totals[k]) else []
    }
  }

  /** Exactly the first warps of the first k SMs may run. */
  predicate Started(l: Launch, k: nat, pause: seq<int>)
    requires l.Valid() && k <= |l.rows|
  {
    forall t | 0 <= t < |pause| :: pause[t] == 0 <==> exists j | 0 <= j < k :: t in l.First(j)
  }

  /** A row behind the first warp shares no thread with any first warp. */
  lemma FirstWarpsApart(l: Launch, n: nat, chunk: nat, k: nat, r: nat, j: nat, t: int)
    requires l.Valid() && chunk > 0 && Distributed(l.rows, n, chunk)
    requires k < |l.rows| && j < |l.rows| && 0 < r < |l.rows[k]| && 0 <= t < n && t in l.rows[k][r]
    ensures t !in l.First(j)
  {
    var _, _, _ := OneSlotPerThread(l.rows, n, chunk, t);
    var pe :| 0 <= pe < |l.rows[k][r]| && l.rows[k][r][pe] == t;
    assert Sits(l.rows[k], r, pe, t);
    if t in l.First(j) {
      var qe :| 0 <= qe < |l.First(j)| && l.First(j)[qe] == t;
      assert Sits(l.rows[j], 0, qe, t);
    }
  }

  /** init_trace when some threads are timed. */
  method InitTrace(l: Launch, pause: array<int>, ghost chunk: nat)
    requires l.Valid() && chunk > 0 && Distributed(l.rows, pause.Length, chunk)
    modifies pause
    ensures Started(l, |l.rows|, pause[..])
  {
    for t := 0 to pause.Length
      invariant forall i | 0 <= i < t :: pause[i] == 1
    {
      pause[t] := 1;
    }
    for k := 0 to |l.rows|
      invariant Started(l, k, pause[..])
    {
      if l.totals[k] > 0 {
        RowsWithin(l.rows, pause.Length, chunk, k);
        ghost var before := pause[..];
        if l.timing[k] > 0 {
          WriteRow(pause, Selected(l.rows[k][0], l.numSP, l.totals[k]), 0);
        }
        StartOne(l, k, before, pause[..]);
        PauseRabbits(l, k, pause, chunk);
      } else {
        StartOne(l, k, pause[..], pause[..]);
      }
    }
  }

  lemma RowsWithin(rows: seq<seq<Row>>, n: nat, chunk: nat, k: nat)
    requires chunk > 0 && Distributed(rows, n, chunk) && k < |rows|
    ensures Within(rows[k], n)
  {
    forall r, pe | 0 <= r < |rows[k]| && 0 <= pe < |rows[k][r]| ensures NO_THREAD <= rows[k][r][pe] < n {
      if rows[k][r][pe] != NO_THREAD { OnlyThreadsSit(rows, n, chunk, k, r, pe); }
    }
  }

  lemma StartOne(l: Launch, k: nat, before: seq<int>, after: seq<int>)
    requires l.Valid() && k < |l.rows| && Started(l, k, before) && after == Written(before, l.First(k), 0)
    ensures Started(l, k + 1, after)
  {
    forall t | 0 <= t < |after|
      ensures after[t] == 0 <==> exists j | 0 <= j < k + 1 :: t in l.First(j)
    {
      if t in l.First(k) { assert after[t] == 0; }
      if j :| 0 <= j < k && t in l.First(j) { assert before[t] == 0; }
    }
  }

  /** The warps that are not timed stay paused. */
  method PauseRabbits(l: Launch, k: nat, pause: array<int>, ghost chunk: nat)
    requires l.Valid() && chunk > 0 && Distributed(l.rows, pause.Length, chunk)
    requires k < |l.rows| && Started(l, k + 1, pause[..]) && Within(l.rows[k], pause.Length)
    modifies pause
    ensures Started(l, k + 1, pause[..])
  {
    var w := l.timing[k];
    while w < |l.rows[k]|
      invariant Started(l, k + 1, pause[..])
    {
      ghost var before := pause[..];
      var row := Selected(l.rows[k][w], l.numSP, l.totals[k]);
      WriteRow(pause, row, 1);
      forall t | 0 <= t < pause.Length && t in row ensures forall j | 0 <= j < k + 1 :: t !in l.First(j) {
        forall j | 0 <= j < k + 1 ensures t !in l.First(j) {
          if w > 0 {
            FirstWarpsApart(l, pause.Length, chunk, k, w, j, t);
          } else {
            FirstOfUntimed(l, pause.Length, chunk, k, j, t);
          }
        }
      }
      w := w + 1;
    }
  }

  lemma FirstOfUntimed(l: Launch, n: nat, chunk: nat, k: nat, j: nat, t: int)
    requires l.Valid() && chunk > 0 && Distributed(l.rows, n, chunk)
    requires k < |l.rows| && j < |l.rows| && l.timing[k] == 0 && l.rows[k] != [] && 0 <= t < n && t in l.rows[k][0]
    ensures t !in l.First(j)
  {
    var _, _, _ := OneSlotPerThread(l.rows, n, chunk, t);
    var pe :| 0 <= pe < |l.rows[k][0]| && l.rows[k][0][pe] == t;
    assert Sits(l.rows[k], 0, pe, t);
    if t in l.First(j) {
      var qe :| 0 <= qe < |l.First(j)| && l.First(j)[qe] == t;
      assert Sits(l.rows[j], 0, qe, t);
    }
  }

  /** A gapless row with no more threads than m has them in its first m slots. */
  lemma {:induction false} PackedLeft(row: Row, m: nat, pe: nat)
    requires Packed(row) && |Occupied(row)| <= m && pe < |row| && row[pe] != NO_THREAD
    ensures pe < m
    decreases row
  {
    if pe > 0 {
      assert row[0] != NO_THREAD;
      assert forall i | 0 <= i < |row[1..]| :: row[1..][i] == row[i + 1];
      PackedLeft(row[1..], m - 1, pe - 1);
    }
  }

  /** The first warp is resumed whole: looking at no more slots than the SM has threads leaves none of them out. */
  lemma FirstIsWhole(l: Launch, k: nat, t: nat)
    requires l.Valid() && k < |l.rows| && l.totals[k] == |Ids(l.rows[k])|
    requires l.rows[k] != [] ==> Packed(l.rows[k][0])
    ensures t in l.First(k) <==> l.timing[k] > 0 && t in RowAt(l.rows[k], 0)
  {
    if l.rows[k] != [] {
      var row := l.rows[k][0];
      assert Ids(l.rows[k]) == Occupied(row) + Ids(l.rows[k][1..]);
      if t in row {
        var pe :| 0 <= pe < |row| && row[pe] == t;
        PackedLeft(row, l.totals[k], pe);
        assert Selected(row, l.numSP, l.totals[k])[pe] == t;
      }
    }
  }

  /** What the distribution hands to the launch. */
  ghost predicate LaunchOf(l: Launch, sms: seq<SmThreads>, n: nat, chunk: nat, bs: nat)
    requires chunk > 0 && bs > 0
  {
    && l.Valid() && AllHoldShares(sms, l.rows, n, chunk, bs, l.numSP)
    && forall k | 0 <= k < |sms| :: l.totals[k] == sms[k].total
  }

  /** After the launch a thread may run exactly if it sits in the first warp of an SM that is timed. */
  lemma LaunchRunsExactly(l: Launch, sms: seq<SmThreads>, pause: seq<int>, chunk: nat, bs: nat, t: nat)
    requires chunk > 0 && bs > 0 && LaunchOf(l, sms, |pause|, chunk, bs) && Started(l, |l.rows|, pause) && t < |pause|
    ensures pause[t] == 0 <==> exists k | 0 <= k < |l.rows| :: l.timing[k] > 0 && t in RowAt(l.rows[k], 0)
  {
    forall k | 0 <= k < |l.rows| ensures t in l.First(k) <==> l.timing[k] > 0 && t in RowAt(l.rows[k], 0) {
      assert HoldsShare(sms[k], l.rows[k], k, |pause|, chunk, |sms|, bs, l.numSP);
      assert l.rows[k] != [] ==> OneBlock(l.rows[k][0], bs);
      FirstIsWhole(l, k, t);
    }
  }

  /** A fresh launch lets only current warps run. */
  lemma LaunchRunsCurrent(l: Launch, pause: seq<int>, chunk: nat)
    requires l.Valid() && chunk > 0 && Distributed(l.rows, |pause|, chunk) && Started(l, |l.rows|, pause)
    ensures OnlyCurrentRuns(l.rows, seq(|l.rows|, k => 0), pause)
  {
    forall k, r, pe | 0 <= k < |l.rows| && 0 <= r < |l.rows[k]| && 0 <= pe < |l.rows[k][r]| &&
                      0 <= l.rows[k][r][pe] < |pause| && pause[l.rows[k][r][pe]] == 0
      ensures r == 0
    {
      var t := l.rows[k][r][pe];
      var j :| 0 <= j < |l.rows| && t in l.First(j);
      if r > 0 { FirstWarpsApart(l, |pause|, chunk, k, r, j, t); }
    }
  }

  // ---------------------------------------------------------------------------
  // Runs
  // ---------------------------------------------------------------------------

  /** Where every SM stands, and the pause words. */
  datatype Gpu = Gpu(current: seq<Cursor>, pause: seq<int>)

  /**
   A timing pass may pause any threads and change warp statuses as it likes; a
   switch on SM k decides from whatever statuses it finds.
   */
  datatype Event =
    | Pass(paused: set<int>)
    | Switch(k: nat, st: seq<WarpStatus>, hasNext: bool, nextFirst: WarpStatus)

  function RowOf(c: Cursor, n: nat): nat { Base(c.warpset, n) + c.warpid }

  function CurrentRows(g: Gpu, conc: seq<nat>): (r: seq<nat>)
    requires |conc| == |g.current|
    ensures |r| == |conc| && forall k | 0 <= k < |r| :: r[k] == RowOf(g.current[k], conc[k])
  {
    seq(|conc|, k requires 0 <= k < |conc| => RowOf(g.current[k], conc[k]))
  }

  predicate Enabled(g: Gpu, e: Event, conc: seq<nat>)
    requires |conc| == |g.current|
  {
    e.Switch? ==> e.k < |conc| && g.current[e.k].warpid < |e.st| == conc[e.k]
  }

  function Paused(pause: seq<int>, ts: set<int>): (p: seq<int>)
    ensures |p| == |pause| && forall t | 0 <= t < |pause| :: p[t] == if t in ts then 1 else pause[t]
  {
    seq(|pause|, t requires 0 <= t < |pause| => if t in ts then 1 else pause[t])
  }

  function Step(g: Gpu, e: Event, rows: seq<seq<Row>>, conc: seq<nat>): Gpu
    requires |conc| == |g.current| == |rows| && Enabled(g, e, conc)
  {
    match e
    case Pass(paused) => g.(pause := Paused(g.pause, paused))
    case Switch(k, st, hasNext, nextFirst) =>
      var (next, ok) := Switched(g.current[k], st, hasNext, nextFirst);
      Gpu(g.current[k := next],
          Handover(g.pause, RowAt(rows[k], RowOf(g.current[k], conc[k])), RowAt(rows[k], RowOf(next, conc[k])), ok))
  }

  /** The SMs stand where g says, and the pause words are g's. */
  ghost predicate Stands(g: Gpu, sms: seq<Sm>, pause: array<int>)
    reads sms, pause
  {
    && |g.current| == |sms| && g.pause == pause[..]
    && forall k | 0 <= k < |sms| :: g.current[k] == sms[k].Cur()
  }

  function AllRows(sms: seq<Sm>): (rows: seq<seq<Row>>)
    ensures |rows| == |sms| && forall k | 0 <= k < |sms| :: rows[k] == sms[k].rows
  {
    seq(|sms|, k requires 0 <= k < |sms| => sms[k].rows)
  }

  function Concurrency(sms: seq<Sm>): (conc: seq<nat>)
    ensures |conc| == |sms| && forall k | 0 <= k < |sms| :: conc[k] == sms[k].concurrentWarpCount
  {
    seq(|sms|, k requires 0 <= k < |sms| => sms[k].concurrentWarpCount)
  }

  /**
   A switch on SM k, with all SMs in view, is a Switch event of the runs below: it takes the GPU from g to the
   state that event leads to, and so keeps every running thread in its SM's current warp.
   */
  method SwitchOn(sm: Sm, pause: array<int>, ghost sms: seq<Sm>, ghost k: nat, ghost g: Gpu, ghost chunk: nat)
    returns (ok: bool, ghost e: Event, ghost g': Gpu)
    requires k < |sms| && sms[k] == sm && (forall i | 0 <= i < |sms| && i != k :: sms[i] != sm)
    requires sm.Valid() && Within(sm.rows, pause.Length) && Stands(g, sms, pause)
    requires chunk > 0 && Distributed(AllRows(sms), pause.Length, chunk)
    requires OnlyCurrentRuns(AllRows(sms), CurrentRows(g, Concurrency(sms)), g.pause)
    modifies sm`currentwarpid, sm`currentwarpset, pause
    ensures e == Switch(k, old(sm.SetStatus()), old(sm.HasNext()), old(sm.NextFirst()))
    ensures Enabled(g, e, Concurrency(sms)) && g' == Step(g, e, AllRows(sms), Concurrency(sms))
    ensures Stands(g', sms, pause)
    ensures OnlyCurrentRuns(AllRows(sms), CurrentRows(g', Concurrency(sms)), g'.pause)
  {
    e := Switch(k, sm.SetStatus(), sm.HasNext(), sm.NextFirst());
    g' := Step(g, e, AllRows(sms), Concurrency(sms));
    StepKeeps(g, e, AllRows(sms), Concurrency(sms), chunk);
    ok := sm.Switch2NextWarp(pause);
  }

  predicate Legal(g: Gpu, es: seq<Event>, rows: seq<seq<Row>>, conc: seq<nat>)
    requires |conc| == |g.current| == |rows|
    decreases es
  {
    es == [] || (Enabled(g, es[0], conc) && Legal(Step(g, es[0], rows, conc), es[1..], rows, conc))
  }

  function Run(g: Gpu, es: seq<Event>, rows: seq<seq<Row>>, conc: seq<nat>): (g': Gpu)
    requires |conc| == |g.current| == |rows| && Legal(g, es, rows, conc)
    ensures |g'.current| == |g.current| && |g'.pause| == |g.pause|
    decreases es
  {
    if es == [] then g else Run(Step(g, es[0], rows, conc), es[1..], rows, conc)
  }

  lemma StepKeeps(g: Gpu, e: Event, rows: seq<seq<Row>>, conc: seq<nat>, chunk: nat)
    requires |conc| == |g.current| == |rows| && Enabled(g, e, conc)
    requires chunk > 0 && Distributed(rows, |g.pause|, chunk) && OnlyCurrentRuns(rows, CurrentRows(g, conc), g.pause)
    ensures var g' := Step(g, e, rows, conc);
            |g'.pause| == |g.pause| && OnlyCurrentRuns(rows, CurrentRows(g', conc), g'.pause)
  {
    var g' := Step(g, e, rows, conc);
    match e
    case Pass(paused) =>
      PausingKeeps(rows, CurrentRows(g, conc), g.pause, g'.pause);
    case Switch(k, st, hasNext, nextFirst) =>
      var (next, ok) := Switched(g.current[k], st, hasNext, nextFirst);
      HandoverKeeps(rows, CurrentRows(g, conc), g.pause, k, RowOf(next, conc[k]), ok, chunk);
      assert CurrentRows(g', conc) == CurrentRows(g, conc)[k := RowOf(next, conc[k])];
  }

  lemma {:induction false} RunKeeps(g: Gpu, es: seq<Event>, rows: seq<seq<Row>>, conc: seq<nat>, chunk: nat)
    requires |conc| == |g.current| == |rows| && Legal(g, es, rows, conc)
    requires chunk > 0 && Distributed(rows, |g.pause|, chunk) && OnlyCurrentRuns(rows, CurrentRows(g, conc), g.pause)
    ensures OnlyCurrentRuns(rows, CurrentRows(Run(g, es, rows, conc), conc), Run(g, es, rows, conc).pause)
    decreases es
  {
    if es != [] {
      StepKeeps(g, es[0], rows, conc, chunk);
      RunKeeps(Step(g, es[0], rows, conc), es[1..], rows, conc, chunk);
    }
  }

  /**
   From the launch of a kernel through every sequence of timing passes and warp
   switches, any thread that may run belongs to its SM's current warp.
   */
  lemma OnlyCurrentWarpsEverRun(l: Launch, pause: seq<int>, conc: seq<nat>, es: seq<Event>, chunk: nat)
    requires l.Valid() && chunk > 0 && Distributed(l.rows, |pause|, chunk) && Started(l, |l.rows|, pause)
    requires |conc| == |l.rows|
    requires Legal(Gpu(seq(|conc|, k => Cursor(0, 0)), pause), es, l.rows, conc)
    ensures var g := Run(Gpu(seq(|conc|, k => Cursor(0, 0)), pause), es, l.rows, conc);
            OnlyCurrentRuns(l.rows, CurrentRows(g, conc), g.pause)
  {
    var g := Gpu(seq(|conc|, k => Cursor(0, 0)), pause);
    LaunchRunsCurrent(l, pause, chunk);
    assert CurrentRows(g, conc) == seq(|l.rows|, k => 0);
    RunKeeps(g, es, l.rows, conc, chunk);
  }
}
