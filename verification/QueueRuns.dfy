/**
 Whole runs of the instruction queue: instructions are fetched into it, handed
 out, retired once each, and replays may rewind it at any time.
 */
module QueueRuns {
  import opened EmuDInstQueues

  /** Retire(k) retires the k-th instruction still in flight; k is 0 for in-order retirement. */
  datatype Event = Fetch(op: Op) | HandOut | Retire(k: nat) | Replay

  /**
   The queue and its users: the instructions handed out and not yet retired, in
   hand-out order, all that was ever fetched, and all whose slot was given up.
   */
  datatype Session = Session(q: Queue, inflight: seq<DInst>, fetched: seq<Op>, committed: seq<Op>)

  function Ops(s: seq<DInst>): (r: seq<Op>)
    requires AllReal(s)
    ensures |r| == |s| && forall i | 0 <= i < |s| :: r[i] == s[i].op
  {
    seq(|s|, i requires 0 <= i < |s| => s[i].op)
  }

  predicate OlderThan(s: seq<DInst>, id: nat)
    requires AllReal(s)
  {
    forall i | 0 <= i < |s| :: s[i].id < id
  }

  /**
   Holds in every run: the retirements still to come are exactly those the queue
   expects, and no fetched instruction is lost, repeated or reordered.
   */
  predicate Sound(s: Session)
  {
    && s.q.Valid() && AllReal(s.inflight)
    && |s.inflight| == s.q.offset + s.q.ndrop
    && s.fetched == s.committed + Ops(s.q.contents)
    && OlderThan(s.q.contents, s.q.nextId) && OlderThan(s.inflight, s.q.nextId)
  }

  /** Holds in every run with in-order retirement: the handed-out part of the queue is what is in flight. */
  predicate InOrder(s: Session)
  {
    && s.q.ndrop <= |s.inflight| && s.q.offset <= |s.q.contents|
    && s.inflight[s.q.ndrop..] == s.q.contents[..s.q.offset]
  }

  predicate Enabled(s: Session, e: Event)
  {
    match e
    case Fetch(_) => true
    case HandOut => s.q.offset < |s.q.contents|
    case Retire(k) => k < |s.inflight|
    case Replay => true
  }

  function Step(s: Session, e: Event): Session
    requires Sound(s) && Enabled(s, e)
  {
    match e
    case Fetch(op) =>
      s.(q := Pushed(s.q, DInst(s.q.nextId, op)).(nextId := s.q.nextId + 1), fetched := s.fetched + [op])
    case HandOut =>
      s.(q := Popped(s.q), inflight := s.inflight + [s.q.contents[s.q.offset]])
    case Retire(k) =>
      var left := s.inflight[..k] + s.inflight[k + 1..];
      if s.q.ndrop > 0 then s.(q := Retired(s.q).0, inflight := left)
      else s.(q := Retired(s.q).0, inflight := left, committed := s.committed + [s.q.contents[0].op])
    case Replay =>
      s.(q := Rewound(s.q))
  }

  lemma FetchSound(s: Session, op: Op)
    requires Sound(s)
    ensures Sound(Step(s, Fetch(op)))
  {
    var c := s.q.contents;
    assert Ops(c + [DInst(s.q.nextId, op)]) == Ops(c) + [op];
  }

  lemma WithoutOne(s: seq<DInst>, k: nat, id: nat)
    requires AllReal(s) && OlderThan(s, id) && k < |s|
    ensures var left := s[..k] + s[k + 1..]; AllReal(left) && OlderThan(left, id) && |left| == |s| - 1
  {
  }

  /** The oldest instruction leaves the queue and joins what was committed. */
  lemma CommitOldest(fetched: seq<Op>, committed: seq<Op>, c: seq<DInst>)
    requires AllReal(c) && c != [] && fetched == committed + Ops(c)
    ensures AllReal(c[1..]) && fetched == committed + [c[0].op] + Ops(c[1..])
  {
    OpsCons(c);
    assert committed + ([c[0].op] + Ops(c[1..])) == committed + [c[0].op] + Ops(c[1..]);
  }

  lemma OpsCons(c: seq<DInst>)
    requires AllReal(c) && c != []
    ensures AllReal(c[1..]) && Ops(c) == [c[0].op] + Ops(c[1..])
  {
  }

  lemma RetireSound(s: Session, k: nat)
    requires Sound(s) && k < |s.inflight|
    ensures Sound(Step(s, Retire(k)))
  {
    WithoutOne(s.inflight, k, s.q.nextId);
    if s.q.ndrop == 0 {
      CommitOldest(s.fetched, s.committed, s.q.contents);
    }
  }

  lemma ReplaySound(s: Session)
    requires Sound(s)
    ensures Sound(Step(s, Replay))
  {
    assert AllReal(Rewound(s.q).contents);
    assert Ops(Rewound(s.q).contents) == Ops(s.q.contents);
  }

  lemma StepSound(s: Session, e: Event)
    requires Sound(s) && Enabled(s, e)
    ensures Sound(Step(s, e))
  {
    match e
    case Fetch(op) => FetchSound(s, op);
    case HandOut =>
    case Retire(k) => RetireSound(s, k);
    case Replay => ReplaySound(s);
  }

  predicate Legal(s: Session, es: seq<Event>)
    requires Sound(s)
    decreases es
  {
    es == [] || (Enabled(s, es[0]) && (StepSound(s, es[0]); Legal(Step(s, es[0]), es[1..])))
  }

  function Run(s: Session, es: seq<Event>): Session
    requires Sound(s) && Legal(s, es)
    decreases es
  {
    if es == [] then s else
    StepSound(s, es[0]);
    Run(Step(s, es[0]), es[1..])
  }

  lemma {:induction false} RunSound(s: Session, es: seq<Event>)
    requires Sound(s) && Legal(s, es)
    ensures Sound(Run(s, es))
    decreases es
  {
    if es != [] {
      StepSound(s, es[0]);
      RunSound(Step(s, es[0]), es[1..]);
    }
  }

  function Start(): Session
  {
    Session(Queue([], 0, 0, 0), [], [], [])
  }

  /**
   Whatever the order of retirement, every retirement in a run finds work to do:
   the tail never passes the head, and the queue's books balance.
   */
  lemma TailNeverPassesHead(es: seq<Event>, k: nat)
    requires Legal(Start(), es)
    requires Enabled(Run(Start(), es), Retire(k))
    ensures var s := Run(Start(), es);
            && Sound(s)
            && Retired(s.q).1
            && (s.q.ndrop > 0 || 0 < s.q.offset <= |s.q.contents|)
  {
    RunSound(Start(), es);
  }

  lemma InOrderStep(s: Session, e: Event)
    requires Sound(s) && InOrder(s) && Enabled(s, e) && (e.Retire? ==> e.k == 0)
    ensures InOrder(Step(s, e))
    ensures e.Retire? && s.q.ndrop == 0 ==>
              s.inflight[0] == s.q.contents[0] && Step(s, e).committed == s.committed + [s.inflight[0].op]
  {
    var s' := Step(s, e);
    match e
    case Fetch(_) =>
      assert s'.q.contents[..s'.q.offset] == s.q.contents[..s.q.offset];
    case HandOut =>
      assert s'.q.contents[..s'.q.offset] == s.q.contents[..s.q.offset] + [s.q.contents[s.q.offset]];
      assert s'.inflight[s'.q.ndrop..] == s.inflight[s.q.ndrop..] + [s.q.contents[s.q.offset]];
    case Retire(k) =>
      if s.q.ndrop == 0 {
        assert s.inflight[0..] == s.inflight;
        assert s'.q.contents[..s'.q.offset] == s.q.contents[..s.q.offset][1..];
      }
    case Replay =>
  }

  /** With in-order retirement, in every reachable state the slots given out are the instructions in flight. */
  lemma {:induction false} InOrderRun(s: Session, es: seq<Event>)
    requires Sound(s) && InOrder(s) && Legal(s, es)
    requires forall i | 0 <= i < |es| :: es[i].Retire? ==> es[i].k == 0
    ensures InOrder(Run(s, es))
    decreases es
  {
    if es != [] {
      StepSound(s, es[0]);
      InOrderStep(s, es[0]);
      InOrderRun(Step(s, es[0]), es[1..]);
    }
  }

  function HandOuts(n: nat): (es: seq<Event>)
    ensures |es| == n && forall i | 0 <= i < n :: es[i] == HandOut
  {
    seq(n, i => HandOut)
  }

  lemma TakeOne(inflight: seq<DInst>, c: seq<DInst>, k: nat, n: nat)
    requires 0 < n && k + n <= |c|
    ensures inflight + c[k..k + n] == inflight + [c[k]] + c[k + 1..k + n]
  {
    assert c[k..k + n] == [c[k]] + c[k + 1..k + n];
  }

  lemma {:induction false} HandOutsRun(s: Session, n: nat)
    requires Sound(s) && s.q.offset + n <= |s.q.contents|
    ensures Legal(s, HandOuts(n))
    ensures Run(s, HandOuts(n)) ==
            s.(q := s.q.(offset := s.q.offset + n),
               inflight := s.inflight + s.q.contents[s.q.offset..s.q.offset + n])
    decreases n
  {
    if n > 0 {
      var es := HandOuts(n);
      assert es[1..] == HandOuts(n - 1);
      StepSound(s, HandOut);
      HandOutsRun(Step(s, HandOut), n - 1);
      TakeOne(s.inflight, s.q.contents, s.q.offset, n);
    }
  }

  /**
   After a replay the next hand-outs are new instructions, clones of those still
   in flight and not already superseded, in their original order; the originals
   stay in flight until they retire.
   */
  lemma ReplayHandsOutClones(s: Session)
    requires Sound(s) && InOrder(s)
    ensures Legal(s, [Replay] + HandOuts(s.q.offset))
    ensures var s', n := Run(s, [Replay] + HandOuts(s.q.offset)), |s.inflight|;
            && |s'.inflight| == n + s.q.offset
            && s'.inflight[..n] == s.inflight
            && forall i | 0 <= i < s.q.offset ::
                 s'.inflight[n..][i] == DInst(s.q.nextId + i, s.inflight[s.q.ndrop..][i].op)
  {
    var es := [Replay] + HandOuts(s.q.offset);
    assert es[1..] == HandOuts(s.q.offset);
    StepSound(s, Replay);
    var r := Step(s, Replay);
    HandOutsRun(r, s.q.offset);
    var clones := r.q.contents[..s.q.offset];
    assert Run(s, es).inflight == s.inflight + clones;
    assert forall i | 0 <= i < s.q.offset :: s.inflight[s.q.ndrop..][i] == s.q.contents[i];
  }
}
