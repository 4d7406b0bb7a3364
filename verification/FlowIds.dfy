/** The pool of flow ids: which id a request gets, and that no two holders ever share one. */
module FlowIds {
  import opened Common

  datatype Status = NotAvailable | Free | Taken | Freed

  const FID_NULL := 0xFFFF_FFFF

  predicate Available(s: Status) { s == Free || s == Freed }

  predicate Has(pool: seq<Status>, s: Status)
  {
    exists i | 0 <= i < |pool| :: pool[i] == s
  }

  /** The lowest id with the given status. */
  predicate Lowest(pool: seq<Status>, s: Status, fid: nat)
  {
    fid < |pool| && pool[fid] == s && forall i | 0 <= i < fid :: pool[i] != s
  }

  /** The id a request should get: its last one if that is free, else the lowest freed, else the lowest unused. */
  predicate RightChoice(pool: seq<Status>, last: nat, r: Option<nat>)
  {
    match r
    case Some(fid) =>
      if last < |pool| && Available(pool[last]) then fid == last
      else if Has(pool, Freed) then Lowest(pool, Freed, fid)
      else Lowest(pool, Free, fid)
    case None => forall i | 0 <= i < |pool| :: !Available(pool[i])
  }

  /** One pass over the pool: the lowest id with status `s`, or `last` if it has it. */
  method Scan(pool: seq<Status>, s: Status, last: nat) returns (fid: nat, hit: bool)
    requires |pool| < FID_NULL
    ensures hit <==> last < |pool| && pool[last] == s
    ensures hit ==> fid == last
    ensures !hit ==> if Has(pool, s) then Lowest(pool, s, fid) else fid == FID_NULL
  {
    fid, hit := FID_NULL, false;
    for i := 0 to |pool|
      invariant last < i ==> pool[last] != s
      invariant if fid == FID_NULL then forall k | 0 <= k < i :: pool[k] != s else fid < i && Lowest(pool, s, fid)
    {
      if pool[i] == s {
        if fid == FID_NULL {
          fid := i;
        }
        if last == i {
          return i, true;
        }
      }
    }
  }

  /** A choice is never an id that is taken, and there is one whenever any id is left. */
  lemma ChoiceIsFree(pool: seq<Status>, last: nat, r: Option<nat>)
    requires RightChoice(pool, last, r)
    ensures r.Some? <==> exists i | 0 <= i < |pool| :: Available(pool[i])
    ensures r.Some? ==> r.value < |pool| && Available(pool[r.value])
  {
  }

  /** Two right choices are the same choice. */
  lemma ChoiceIsUnique(pool: seq<Status>, last: nat, r: Option<nat>, r': Option<nat>)
    requires RightChoice(pool, last, r) && RightChoice(pool, last, r')
    ensures r == r'
  {
    ChoiceIsFree(pool, last, r);
    ChoiceIsFree(pool, last, r');
  }

  // ---------------------------------------------------------------------------
  // Runs
  // ---------------------------------------------------------------------------

  /** A pool, and how many hold each id. */
  datatype State = State(pool: seq<Status>, held: multiset<nat>)

  datatype Event = Get(last: nat, r: Option<nat>) | Release(fid: nat)

  /** Every id is held by exactly as many as it should be: one if taken, none otherwise. */
  ghost predicate Sound(s: State)
  {
    && (forall i | 0 <= i < |s.pool| :: s.held[i] == if s.pool[i] == Taken then 1 else 0)
    && (forall i | i in s.held :: i < |s.pool|)
  }

  predicate Step(s: State, e: Event, s': State)
  {
    match e
    case Get(last, None) => RightChoice(s.pool, last, None) && s' == s
    case Get(last, Some(fid)) =>
      && RightChoice(s.pool, last, Some(fid)) && fid < |s.pool|
      && s' == State(s.pool[fid := Taken], s.held + multiset{fid})
    case Release(fid) =>
      fid in s.held && fid < |s.pool| && s' == State(s.pool[fid := Freed], s.held - multiset{fid})
  }

  lemma StepSound(s: State, e: Event, s': State)
    requires Sound(s) && Step(s, e, s')
    ensures Sound(s')
    ensures e.Get? && e.r.Some? ==> s.held[e.r.value] == 0
  {
    if e.Get? { ChoiceIsFree(s.pool, e.last, e.r); }
  }

  /** A flow that gives its id back and asks again gets it back, and the pool is as before. */
  lemma ReturnedIdComesBack(s: State, fid: nat, s1: State, r: Option<nat>, s2: State)
    requires Sound(s) && Step(s, Release(fid), s1) && Step(s1, Get(fid, r), s2)
    ensures r == Some(fid) && s2 == s
  {
    assert s1.pool[fid] == Freed;
    assert s2.pool == s.pool;
  }

  /** An id that was in use before is handed out in front of all that never were. */
  lemma UsedBeforeUnused(s: State, last: nat, fid: nat, s': State, other: nat)
    requires Step(s, Get(last, Some(fid)), s') && other < |s.pool| && s.pool[other] == Freed
    requires last < |s.pool| ==> !Available(s.pool[last])
    ensures s.pool[fid] == Freed && fid <= other
  {
  }

  /** Over every run of requests and returns by holders, no id ever has two holders. */
  lemma {:induction false} NoTwoHoldersEver(run: seq<State>, events: seq<Event>)
    requires |run| == |events| + 1 && Sound(run[0])
    requires forall k, k' | 0 <= k < |events| && k' == k + 1 :: Step(run[k], events[k], run[k'])
    ensures forall k, i: nat | 0 <= k < |run| :: run[k].held[i] <= 1
    ensures Sound(run[|run| - 1])
    decreases events
  {
    if events != [] {
      var n := |events| - 1;
      NoTwoHoldersEver(run[..n + 1], events[..n]);
      StepSound(run[n], events[n], run[n + 1]);
      forall k, i: nat | 0 <= k < |run| ensures run[k].held[i] <= 1 {
        if k <= n { assert run[k] == run[..n + 1][k]; } else { AtMostOne(run[k], i); }
      }
    } else {
      forall k, i: nat | 0 <= k < |run| ensures run[k].held[i] <= 1 { AtMostOne(run[k], i); }
    }
  }

  lemma AtMostOne(s: State, i: nat)
    requires Sound(s)
    ensures s.held[i] <= 1
  {
  }

  class FlowPool {
    var fidFreePool: seq<Status>
    /** How many hold each id. */
    ghost var held: multiset<nat>

    ghost predicate Valid()
      reads this
    {
      |fidFreePool| < FID_NULL && Sound(State(fidFreePool, held))
    }

    /** Ids of another emulator type are not in the pool; id 0 is taken from the start, by the emulator itself. */
    constructor (ours: seq<bool>)
      requires |ours| < FID_NULL
      ensures Valid() && |fidFreePool| == |ours|
      ensures forall i | 0 <= i < |ours| ::
                fidFreePool[i] == if !ours[i] then NotAvailable else if i == 0 then Taken else Free
      ensures held == if ours != [] && ours[0] then multiset{0} else multiset{}
    {
      var pool: seq<Status> := [];
      for i := 0 to |ours|
        invariant |pool| == i
        invariant forall k | 0 <= k < i :: pool[k] == if !ours[k] then NotAvailable else if k == 0 then Taken else Free
      {
        pool := pool + [if ours[i] then if i == 0 then Taken else Free else NotAvailable];
      }
      fidFreePool := pool;
      held := if ours != [] && ours[0] then multiset{0} else multiset{};
    }

    /** Asks for an id; where the code stops the program because none is left, the answer is None. */
    method GetFid(last: nat) returns (r: Option<nat>)
      requires Valid()
      modifies this
      ensures Valid() && Step(old(State(fidFreePool, held)), Get(last, r), State(fidFreePool, held))
      ensures RightChoice(old(fidFreePool), last, r)
      ensures r.Some? ==> r.value !in old(held) && fidFreePool == old(fidFreePool)[r.value := Taken]
      ensures r.None? ==> fidFreePool == old(fidFreePool)
    {
      var fid2, hit := Scan(fidFreePool, Freed, last);
      var fid := fid2;
      if !hit {
        var fid1;
        fid1, hit := Scan(fidFreePool, Free, last);
        fid := if hit || fid2 == FID_NULL then fid1 else fid2;
      }
      if fid == FID_NULL {
        r := None;
      } else {
        r := Some(fid);
        fidFreePool := fidFreePool[fid := Taken];
        held := held + multiset{fid};
      }
      ChoiceIsFree(old(fidFreePool), last, r);
    }

    /** Gives an id back; only a holder may. */
    method FreeFid(fid: nat)
      requires Valid() && fid in held
      modifies this
      ensures Valid() && Step(old(State(fidFreePool, held)), Release(fid), State(fidFreePool, held))
      ensures old(fid < |fidFreePool| && fidFreePool[fid] == Taken) && fid !in held
      ensures fidFreePool == old(fidFreePool)[fid := Freed]
    {
      fidFreePool := fidFreePool[fid := Freed];
      held := held - multiset{fid};
    }
  }
}
