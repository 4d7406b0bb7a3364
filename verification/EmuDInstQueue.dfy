/**
 The replayable instruction queue of one flow: a power-of-two ring with a tail
 (next to retire), a head (next to hand out) and an insert point, which grows by
 doubling and can rewind its head to its tail for a replay.
 */
module EmuDInstQueues {
  import opened Bits

  /** What clone copies from one dynamic instruction to another. */
  datatype Op = Op(fid: nat, inst: nat, pc: nat, addr: nat, data: nat, keepStats: bool)

  /** A vector element: nothing yet, or a dynamic instruction with its unique id. */
  datatype DInst = NoInst | DInst(id: nat, op: Op)

  predicate AllReal(s: seq<DInst>)
  {
    forall i | 0 <= i < |s| :: s[i].DInst?
  }

  /** Abstract queue: the un-retired instructions, how many are handed out, how many retirements to swallow. */
  datatype Queue = Queue(contents: seq<DInst>, offset: nat, ndrop: nat, nextId: nat) {
    predicate Valid()
    {
      offset <= |contents| && AllReal(contents)
    }
  }

  /** x after one wrap around n. */
  function Wrap(x: nat, n: nat): nat
    requires x < 2 * n
  {
    if x < n then x else x - n
  }

  /** The first k elements replaced by clones with fresh ids. */
  function Cloned(s: seq<DInst>, k: nat, nextId: nat): (c: seq<DInst>)
    requires k <= |s| && AllReal(s)
    ensures |c| == |s|
    ensures forall i | 0 <= i < |s| :: c[i] == if i < k then DInst(nextId + i, s[i].op) else s[i]
  {
    seq(|s|, i requires 0 <= i < |s| => if i < k then DInst(nextId + i, s[i].op) else s[i])
  }

  function Pushed(q: Queue, d: DInst): Queue { q.(contents := q.contents + [d]) }

  function Popped(q: Queue): Queue { q.(offset := q.offset + 1) }

  /** A retirement has something to retire, or nothing at all to go past. */
  predicate MayRetire(q: Queue) { q.ndrop > 0 || q.offset > 0 || q.contents == [] }

  /** advanceTail: swallow a retirement, or let the oldest instruction go; false if there is none. */
  function Retired(q: Queue): (Queue, bool)
    requires MayRetire(q)
  {
    if q.ndrop > 0 then (q.(ndrop := q.ndrop - 1), true)
    else if q.contents == [] then (q, false)
    else (q.(contents := q.contents[1..], offset := q.offset - 1), true)
  }

  /** moveHead2Tail: everything handed out is replaced by clones and will be handed out again. */
  function Rewound(q: Queue): Queue
    requires q.Valid()
  {
    Queue(Cloned(q.contents, q.offset, q.nextId), 0, q.ndrop + q.offset, q.nextId + q.offset)
  }

  /** The c slots of the ring s from position t on. */
  function Ring(s: seq<DInst>, t: nat, c: nat): (r: seq<DInst>)
    requires t < |s| && c <= |s|
    ensures |r| == c && forall i | 0 <= i < c :: r[i] == s[Wrap(t + i, |s|)]
  {
    seq(c, i requires 0 <= i < c => s[Wrap(t + i, |s|)])
  }

  lemma RingExtend(s: seq<DInst>, t: nat, c: nat)
    requires t < |s| && c < |s|
    ensures Ring(s, t, c + 1) == Ring(s, t, c) + [s[Wrap(t + c, |s|)]]
  {
  }

  /** Writing the first free slot leaves the used ones alone. */
  lemma RingBeyond(s: seq<DInst>, t: nat, c: nat, d: DInst)
    requires t < |s| && c < |s|
    ensures Ring(s[Wrap(t + c, |s|) := d], t, c) == Ring(s, t, c)
  {
  }

  lemma RingDropFirst(s: seq<DInst>, t: nat, c: nat)
    requires t < |s| && 0 < c <= |s|
    ensures Ring(s, Wrap(t + 1, |s|), c - 1) == Ring(s, t, c)[1..]
  {
  }

  /** Replacing slot k replaces element k. */
  lemma RingUpdate(s: seq<DInst>, t: nat, c: nat, k: nat, d: DInst)
    requires t < |s| && k < c <= |s|
    ensures Ring(s[Wrap(t + k, |s|) := d], t, c) == Ring(s, t, c)[k := d]
  {
  }

  /** A full ring copied behind itself, unrolled from its tail, is the same queue. */
  lemma RingGrown(s: seq<DInst>, t: nat, grown: seq<DInst>)
    requires t < |s| && |grown| == 2 * |s|
    requires forall k | 0 <= k < |s| :: grown[|s| + k] == Ring(s, t, |s|)[k]
    ensures Ring(grown, |s|, |s|) == Ring(s, t, |s|)
  {
  }

  lemma CloneNext(s: seq<DInst>, k: nat, nextId: nat)
    requires k < |s| && AllReal(s)
    ensures Cloned(s, k + 1, nextId) == Cloned(s, k, nextId)[k := DInst(nextId + k, s[k].op)]
  {
  }

  /** The index x masked with the ring size minus one. */
  method Masked(x: nat, n: nat) returns (r: nat)
    requires IsPower2(n) && x < 2 * n
    ensures r == Wrap(x, n)
  {
    MaskWraps(x, n);
    r := And(x, n - 1);
  }

  /** How far position h lies behind position t in a ring of n slots. */
  function Distance(t: nat, h: nat, n: nat): (d: nat)
    requires t < n && h < n
    ensures d < n && Wrap(t + d, n) == h
  {
    if h >= t then h - t else h + n - t
  }

  lemma CursorAdvance(tail: nat, head: nat, c: nat, n: nat)
    requires tail < n && head < n && 0 < Distance(tail, head, n) <= c < n
    ensures Wrap(Wrap(tail + 1, n) + (c - 1), n) == Wrap(tail + c, n)
    ensures Distance(Wrap(tail + 1, n), head, n) == Distance(tail, head, n) - 1
  {
  }

  /** A tail one past the head has the head all the way round the ring. */
  lemma PastHead(tail: nat, n: nat)
    requires tail < n
    ensures Distance(Wrap(tail + 1, n), tail, n) == n - 1
  {
  }

  lemma WrapStep(t: nat, k: nat, n: nat)
    requires t < n && k < n
    ensures Wrap(t + k, n) < n && Wrap(Wrap(t + k, n) + 1, n) == Wrap(t + k + 1, n)
  {
  }

  lemma WrapInjective(t: nat, j: nat, k: nat, n: nat)
    requires t < n && j < n && k < n && Wrap(t + j, n) == Wrap(t + k, n)
    ensures j == k
  {
  }

  class EmuDInstQueue {
    var head: nat
    var tail: nat
    var ndrop: nat
    var insertpoint: nat
    var nFreeElems: nat
    var trace: array<DInst>
    var currentID: nat  // the counter all instructions share

    /** The cursors fit the ring; used slots run from the tail to the insert point. */
    ghost predicate Shape()
      reads this
    {
      && IsPower2(trace.Length) && nFreeElems <= trace.Length
      && head < trace.Length && tail < trace.Length
      && insertpoint == Wrap(tail + (trace.Length - nFreeElems), trace.Length)
      && Distance(tail, head, trace.Length) <= trace.Length - nFreeElems
    }

    ghost function Contents(): seq<DInst>
      reads this, trace
      requires Shape()
    {
      Ring(trace[..], tail, trace.Length - nFreeElems)
    }

    /** At least one slot is always free, so head and insert point meet only when nothing is left to hand out. */
    ghost predicate Valid()
      reads this, trace
    {
      && Shape() && nFreeElems >= 1
      && View().Valid()
    }

    ghost function View(): (q: Queue)
      reads this, trace
      requires Shape()
    {
      Queue(Contents(), Distance(tail, head, trace.Length), ndrop, currentID)
    }

    constructor (nextId: nat)
      ensures Valid() && fresh(trace) && View() == Queue([], 0, 0, nextId)
    {
      head, tail, insertpoint, nFreeElems, ndrop := 0, 0, 0, 1024, 0;
      trace := new DInst[1024](i => NoInst);
      currentID := nextId;
    }

    method Empty() returns (e: bool)
      requires Valid()
      ensures e <==> View().offset == |View().contents|
    {
      e := head == insertpoint;
    }

    method Size() returns (n: nat)
      requires Valid()
      ensures n == |View().contents|
    {
      n := trace.Length - nFreeElems;
    }

    method GetHead() returns (d: DInst)
      requires Valid() && View().offset < |View().contents|
      ensures d == View().contents[View().offset]
    {
      d := trace[head];
    }

    method PopHead()
      requires Valid() && View().offset < |View().contents|
      modifies this`head
      ensures Valid() && View() == Popped(old(View()))
    {
      head := Masked(head + 1, trace.Length);
    }

    method Add(d: DInst)
      requires Valid() && d.DInst?
      modifies this`insertpoint, this`nFreeElems, this`head, this`tail, this`trace, trace
      ensures Valid() && View() == Pushed(old(View()), d)
      ensures trace == old(trace) || fresh(trace)
    {
      RingBeyond(trace[..], tail, trace.Length - nFreeElems, d);
      ghost var slots := trace[..];
      trace[insertpoint] := d;
      assert trace[..] == slots[insertpoint := d];
      AddFilled();
    }

    /** The overload of add for a slot already filled through getInsertPointRef. */
    method AddFilled()
      requires Valid() && trace[insertpoint].DInst?
      modifies this`insertpoint, this`nFreeElems, this`head, this`tail, this`trace
      ensures Valid() && View() == Pushed(old(View()), old(trace[insertpoint]))
      ensures trace == old(trace) || fresh(trace)
    {
      ClaimSlot();
      if nFreeElems == 0 {
        AdjustTrace();
      }
    }

    /** The slot at the insert point becomes part of the queue; the ring may be full after that. */
    method ClaimSlot()
      requires Valid() && trace[insertpoint].DInst?
      modifies this`insertpoint, this`nFreeElems
      ensures Shape() && nFreeElems == old(nFreeElems) - 1
      ensures View() == Pushed(old(View()), old(trace[insertpoint])) && View().Valid()
    {
      RingExtend(trace[..], tail, trace.Length - nFreeElems);
      WrapStep(tail, trace.Length - nFreeElems, trace.Length);
      insertpoint := Masked(insertpoint + 1, trace.Length);
      nFreeElems := nFreeElems - 1;
    }

    /** Growth happens when the ring has just become full, with the head not yet all the way round. */
    method AdjustTrace()
      requires Shape() && nFreeElems == 0
      modifies this`insertpoint, this`nFreeElems, this`head, this`tail, this`trace
      ensures Shape() && nFreeElems >= 1 && fresh(trace)
      ensures View() == old(View())
    {
      var newTail := trace.Length;
      var bigger := Unrolled(trace, tail);
      RingGrown(trace[..], tail, bigger[..]);
      if head >= tail {
        head := newTail + head - tail;
      } else {
        head := newTail + newTail - (tail - head);
      }
      tail := newTail;
      insertpoint := 0;
      nFreeElems := newTail;
      trace := bigger;
    }

    /** The resized vector: the old slots, and behind them the same slots in order from the tail. */
    static method Unrolled(trace: array<DInst>, tail: nat) returns (bigger: array<DInst>)
      requires IsPower2(trace.Length) && tail < trace.Length
      ensures fresh(bigger) && bigger.Length == 2 * trace.Length
      ensures forall k | 0 <= k < trace.Length ::
                bigger[..][trace.Length + k] == Ring(trace[..], tail, trace.Length)[k]
    {
      var newTail := trace.Length;
      bigger := new DInst[newTail * 2](i => NoInst);
      forall i | 0 <= i < newTail {
        bigger[i] := trace[i];
      }
      ghost var full := Ring(trace[..], tail, newTail);
      var i := 0;
      while i < newTail
        invariant 0 <= i <= newTail
        invariant forall k | 0 <= k < newTail :: bigger[k] == trace[k]
        invariant forall k | newTail <= k < newTail + i :: bigger[k] == full[k - newTail]
      {
        var from := Masked(tail + i, newTail);
        bigger[newTail + i] := bigger[from];
        i := i + 1;
      }
    }

    /** A retirement with nothing handed out takes the tail past the head, and only that breaks the queue. */
    method AdvanceTail() returns (ok: bool)
      requires Valid()
      modifies this`ndrop, this`tail, this`nFreeElems
      ensures Valid() <==> old(MayRetire(View()))
      ensures old(MayRetire(View())) ==> (View(), ok) == Retired(old(View()))
      ensures !old(MayRetire(View())) ==>
                ok && tail == Wrap(old(tail) + 1, trace.Length) && nFreeElems == old(nFreeElems) + 1 && ndrop == 0
    {
      if ndrop > 0 {
        ndrop := ndrop - 1;
        return true;
      }
      if insertpoint == tail {
        return false;
      }
      DropOldest();
      return true;
    }

    method DropOldest()
      requires Valid() && View().contents != []
      modifies this`tail, this`nFreeElems
      ensures tail == Wrap(old(tail) + 1, trace.Length) && nFreeElems == old(nFreeElems) + 1
      ensures Valid() <==> old(View()).offset > 0
      ensures old(View()).offset > 0 ==>
                View() == old(View()).(contents := old(View()).contents[1..], offset := old(View()).offset - 1)
    {
      ghost var q := View();
      if q.offset > 0 {
        RingDropFirst(trace[..], tail, trace.Length - nFreeElems);
        CursorAdvance(tail, head, trace.Length - nFreeElems, trace.Length);
      } else {
        PastHead(tail, trace.Length);
      }
      StepTail();
      if q.offset > 0 {
        assert Shape();
        assert Contents() == q.contents[1..];
        assert View() == q.(contents := q.contents[1..], offset := q.offset - 1);
      }
    }

    method StepTail()
      requires IsPower2(trace.Length) && tail < trace.Length
      modifies this`tail, this`nFreeElems
      ensures tail == Wrap(old(tail) + 1, trace.Length) < trace.Length && nFreeElems == old(nFreeElems) + 1
    {
      tail := Masked(tail + 1, trace.Length);
      nFreeElems := nFreeElems + 1;
    }

    method MoveHead2Tail()
      requires Valid()
      modifies this`head, this`tail, this`ndrop, this`currentID, trace
      ensures Valid() && View() == Rewound(old(View()))
    {
      var tailCopy := tail;
      tail, ndrop, currentID := CloneUpTo(trace, tail, head, ndrop, currentID, trace.Length - nFreeElems);
      head := tailCopy;
      tail := tailCopy;
    }

    /** The replay loop: clone in place from the tail up to the head, counting what will retire twice. */
    static method CloneUpTo(trace: array<DInst>, tail: nat, head: nat, ndrop: nat, currentID: nat, ghost c: nat)
      returns (tail': nat, ndrop': nat, currentID': nat)
      requires IsPower2(trace.Length) && tail < trace.Length && head < trace.Length
      requires Distance(tail, head, trace.Length) <= c <= trace.Length
      requires AllReal(Ring(trace[..], tail, c))
      modifies trace
      ensures tail' == head
      ensures ndrop' == ndrop + Distance(tail, head, trace.Length)
      ensures currentID' == currentID + Distance(tail, head, trace.Length)
      ensures Ring(trace[..], tail, c) ==
              Cloned(old(Ring(trace[..], tail, c)), Distance(tail, head, trace.Length), currentID)
    {
      ghost var n, s := trace.Length, Ring(trace[..], tail, c);
      ghost var k, off := 0, Distance(tail, head, n);
      tail', ndrop', currentID' := tail, ndrop, currentID;
      assert s == Cloned(s, 0, currentID);
      while head != tail'
        invariant 0 <= k <= off && tail' == Wrap(tail + k, n)
        invariant ndrop' == ndrop + k && currentID' == currentID + k
        invariant Ring(trace[..], tail, c) == Cloned(s, k, currentID)
        decreases off - k
      {
        CloneSlot(trace, tail', currentID', tail, c, k, s, currentID);
        WrapStep(tail, k, n);
        currentID' := currentID' + 1;
        tail' := Masked(tail' + 1, trace.Length);
        ndrop' := ndrop' + 1;
        k := k + 1;
      }
      WrapInjective(tail, k, off, n);
    }

    static method CloneSlot(trace: array<DInst>, at: nat, id: nat,
                            ghost tail: nat, ghost c: nat, ghost k: nat, ghost s: seq<DInst>, ghost first: nat)
      requires tail < trace.Length && k < c == |s| <= trace.Length && AllReal(s)
      requires at == Wrap(tail + k, trace.Length) && id == first + k
      requires Ring(trace[..], tail, c) == Cloned(s, k, first)
      modifies trace
      ensures Ring(trace[..], tail, c) == Cloned(s, k + 1, first)
    {
      ghost var slots := trace[..];
      assert slots[at] == Ring(slots, tail, c)[k] == s[k];
      RingUpdate(slots, tail, c, k, DInst(id, s[k].op));
      CloneNext(s, k, first);
      trace[at] := DInst(id, trace[at].op);
      assert trace[..] == slots[at := DInst(id, s[k].op)];
    }
  }
}
