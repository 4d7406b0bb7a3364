/** Progress of the reservation table: a lock that is held can always be given back, and every operation can finish. */
module AHashProgress {
  import opened AHash

  /** A lock is held only by a flow inside its critical section. */
  predicate Owned(t: Table)
    requires Sizes(t)
  {
    forall h | 0 <= h < HASH_SIZE && t.lock[h] :: HasOwner(t, h)
  }

  predicate HasOwner(t: Table, h: nat)
  {
    exists f | f in t.flows :: Holds(t, f, h)
  }

  predicate Holds(t: Table, f: nat, h: nat)
  {
    f in t.flows && Inside(t.flows[f]) && t.flows[f].h == h
  }

  lemma AccessStaysInside(s: Slot, op: Op, h: nat, at: nat, f: nat)
    ensures var pc := Access(s, op, h, at, f).1; Inside(pc) && pc.h == h && pc.op == op
  {
  }

  lemma OwnedStep(t: Table, init: seq<Slot>, e: Event)
    requires Inv(t, init) && Owned(t)
    ensures Sizes(Step(t, e)) && Owned(Step(t, e))
  {
    var t' := Step(t, e);
    if e.Move? && At(t, e.f).Body? {
      var pc := At(t, e.f);
      AccessStaysInside(t.slots[pc.h], pc.op, pc.h, pc.at, e.f);
    }
    StepSizes(t, e);
    forall h | 0 <= h < HASH_SIZE && t'.lock[h] ensures HasOwner(t', h) {
      if t.lock[h] {
        var f :| f in t.flows && Holds(t, f, h);
        assert Holds(t', f, h);
      } else {
        assert Holds(t', e.f, h);
      }
    }
  }

  // ---------------------------------------------------------------------------
  // A flow on its own
  // ---------------------------------------------------------------------------

  /** How many moves a flow inside the critical section is away from the end of its operation, at most. */
  function Rank(pc: Pc): nat
  {
    match pc
    case Idle => 0
    case Leave(_, _, _) => 1
    case Body(op, _, at) =>
      if op.SetSC? || op.CheckSC? then (if at == 0 then 4 else if at == 1 then 3 else 2)
      else if at == 0 then 3 else 2
    case Spin(_, _) => 5
  }

  lemma AccessCounts(s: Slot, op: Op, h: nat, at: nat, f: nat)
    ensures Rank(Access(s, op, h, at, f).1) < Rank(Body(op, h, at)) <= 4
  {
  }

  function Alone(f: nat, n: nat): (es: seq<Event>)
    ensures |es| == n
  {
    seq(n, _ => Move(f))
  }

  lemma OneMove(t: Table, f: nat, n: nat)
    requires Sizes(t)
    ensures Sizes(Step(t, Move(f))) && Run(t, Alone(f, n + 1)) == Run(Step(t, Move(f)), Alone(f, n))
  {
    StepSizes(t, Move(f));
    assert Alone(f, n + 1)[1..] == Alone(f, n);
  }

  /** The table t' after flow f has finished the operation it had begun in t. */
  ghost predicate Finished(t: Table, init: seq<Slot>, f: nat, op: Op, h: nat, t': Table)
    requires Inv(t, init) && h < HASH_SIZE
  {
    && Inv(t', init) && At(t', f) == Idle && t'.lock == t.lock[h := false]
    && t'.log == t.log[h := t.log[h] + [Entry(op, f, Apply(Replay(t.log[h], init[h]), op, f).1)]]
    && forall g | g != f :: At(t', g) == At(t, g)
  }

  lemma LeaveFinishes(t: Table, init: seq<Slot>, f: nat)
    requires Inv(t, init) && At(t, f).Leave?
    ensures Finished(t, init, f, At(t, f).op, At(t, f).h, Step(t, Move(f)))
  {
    StepInv(t, init, Move(f));
  }

  /** Inside the critical section a flow is done after at most four moves of its own, with the right answer. */
  lemma {:induction false} InsideFinishes(t: Table, init: seq<Slot>, f: nat) returns (n: nat)
    requires Inv(t, init) && Inside(At(t, f))
    ensures n <= Rank(At(t, f)) <= 4 && Finished(t, init, f, At(t, f).op, At(t, f).h, Run(t, Alone(f, n)))
    decreases Rank(At(t, f))
  {
    var pc, t1 := At(t, f), Step(t, Move(f));
    StepInv(t, init, Move(f));
    if pc.Leave? {
      LeaveFinishes(t, init, f);
      n := 1;
      OneMove(t, f, 0);
      assert Run(t1, Alone(f, 0)) == t1;
    } else {
      AccessStaysInside(t.slots[pc.h], pc.op, pc.h, pc.at, f);
      AccessCounts(t.slots[pc.h], pc.op, pc.h, pc.at, f);
      var m := InsideFinishes(t1, init, f);
      OneMove(t, f, m);
      n := m + 1;
    }
  }

  /** So is a flow that finds the lock free, after one more. */
  lemma SpinFinishes(t: Table, init: seq<Slot>, f: nat) returns (n: nat)
    requires Inv(t, init) && At(t, f).Spin? && !t.lock[At(t, f).h]
    ensures n <= 5 && Finished(t, init, f, At(t, f).op, At(t, f).h, Run(t, Alone(f, n)))
  {
    var pc, t1 := At(t, f), Step(t, Move(f));
    StepInv(t, init, Move(f));
    var m := InsideFinishes(t1, init, f);
    OneMove(t, f, m);
    n := m + 1;
    assert t1.lock[pc.h := false] == t.lock[pc.h := false];
  }

  // ---------------------------------------------------------------------------
  // From every state a run can reach
  // ---------------------------------------------------------------------------

  lemma {:induction false} RunOwned(t: Table, init: seq<Slot>, es: seq<Event>)
    requires Inv(t, init) && Owned(t)
    ensures Inv(Run(t, es), init) && Owned(Run(t, es))
    decreases es
  {
    if es != [] {
      StepInv(t, init, es[0]);
      OwnedStep(t, init, es[0]);
      RunOwned(Step(t, es[0]), init, es[1..]);
    }
  }

  lemma {:induction false} RunConcat(t: Table, init: seq<Slot>, es: seq<Event>, fs: seq<Event>)
    requires Inv(t, init)
    ensures Sizes(Run(t, es)) && Run(t, es + fs) == Run(Run(t, es), fs)
    decreases es
  {
    if es == [] {
      assert es + fs == fs;
    } else {
      StepInv(t, init, es[0]);
      RunConcat(Step(t, es[0]), init, es[1..], fs);
      assert (es + fs)[1..] == es[1..] + fs;
    }
  }

  /** Flow f is done, and the last entry of slot h is the operation it had begun. */
  predicate Done(t: Table, f: nat, op: Op, h: nat)
  {
    At(t, f) == Idle && h < |t.log| && t.log[h] != [] && t.log[h][|t.log[h]| - 1] == Entry(op, f, LastAnswer(t, h))
  }

  function LastAnswer(t: Table, h: nat): bool
    requires h < |t.log| && t.log[h] != []
  {
    t.log[h][|t.log[h]| - 1].answer
  }

  /** A flow that waits can finish: after at most four moves of the lock's owner, if any, and five of its own. */
  lemma WaiterCanFinish(t: Table, init: seq<Slot>, f: nat) returns (es: seq<Event>)
    requires Inv(t, init) && Owned(t) && At(t, f).Spin?
    ensures |es| <= 9 && Done(Run(t, es), f, At(t, f).op, At(t, f).h)
  {
    var h := At(t, f).h;
    if t.lock[h] {
      assert HasOwner(t, h);
      var g :| g in t.flows && Holds(t, g, h);
      var n := InsideFinishes(t, init, g);
      var t1 := Run(t, Alone(g, n));
      var m := SpinFinishes(t1, init, f);
      es := Alone(g, n) + Alone(f, m);
      RunConcat(t, init, Alone(g, n), Alone(f, m));
    } else {
      var m := SpinFinishes(t, init, f);
      es := Alone(f, m);
    }
  }

  lemma CanFinish(t: Table, init: seq<Slot>, f: nat) returns (es: seq<Event>)
    requires Inv(t, init) && Owned(t) && At(t, f) != Idle
    ensures |es| <= 9 && Done(Run(t, es), f, At(t, f).op, At(t, f).h)
  {
    if At(t, f).Spin? {
      es := WaiterCanFinish(t, init, f);
    } else {
      var n := InsideFinishes(t, init, f);
      es := Alone(f, n);
    }
  }

  lemma FreshOwned(init: seq<Slot>)
    requires |init| == HASH_SIZE
    ensures Inv(Fresh(init), init) && Owned(Fresh(init))
  {
  }

  /**
   No run of any flows ends in a deadlock: whatever happened, every flow with an operation under way has a
   continuation of at most nine moves after which that operation is finished and logged.
   */
  lemma EveryOperationCanFinish(init: seq<Slot>, es: seq<Event>, f: nat) returns (more: seq<Event>)
    requires |init| == HASH_SIZE && At(Run(Fresh(init), es), f) != Idle
    ensures var pc := At(Run(Fresh(init), es), f);
            |more| <= 9 && Done(Run(Fresh(init), es + more), f, pc.op, pc.h)
  {
    FreshOwned(init);
    RunOwned(Fresh(init), init, es);
    more := CanFinish(Run(Fresh(init), es), init, f);
    RunConcat(Fresh(init), init, es, more);
  }
}
