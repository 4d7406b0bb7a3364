/**
 The load-linked/store-conditional reservation table: 128 slots, each with its
 own spin lock, shared by all flows. Flows interleave at single memory accesses.
 */
module AHash {

  const HASH_SIZE := 128

  /** The slot of an address: the low bits of the address folded with itself shifted by five. */
  function Hash(addr: bv32): (h: nat)
    ensures h < HASH_SIZE
  {
    var tmp := addr ^ (addr >> 5);
    var low := tmp & 127;
    assert low <= 127;
    low as nat
  }

  lemma FoldedBit(addr: bv32, i: bv32)
    requires i < 7
    ensures (((addr ^ (addr >> 5)) & 127) >> i) & 1 == ((addr >> i) ^ (addr >> (i + 5))) & 1
  {
  }

  lemma AsNumberAndBack(x: bv32)
    ensures (x as nat) as bv32 == x
  {
  }

  /** Bit i of the slot number is bit i of the address if bit i + 5 of the address is clear, and its opposite if not. */
  lemma HashBits(addr: bv32, i: bv32)
    requires i < 7
    ensures (Hash(addr) as bv32 >> i) & 1 == ((addr >> i) ^ (addr >> (i + 5))) & 1
  {
    AsNumberAndBack((addr ^ (addr >> 5)) & 127);
    FoldedBit(addr, i);
  }

  datatype Slot = Slot(valid: bool, fid: nat, scPassed: bool)

  /** The public operations, and an ordinary store that found some address marked, or none. */
  datatype Op = Insert | SetSC | CheckSC | Remove | Store(marked: bool)

  // ---------------------------------------------------------------------------
  // What the operations mean, one at a time
  // ---------------------------------------------------------------------------

  /** The effect of an operation by flow f on its slot, and its answer (false where it has none). */
  function Apply(s: Slot, op: Op, f: nat): (Slot, bool)
  {
    match op
    case Insert => (s.(valid := true, fid := f), false)
    case Store(marked) => (if marked then s.(valid := true, fid := f) else s, false)
    case Remove => (s.(valid := false, scPassed := false), false)
    case SetSC => if s.valid && s.fid == f then (s.(scPassed := true), true) else (s, false)
    case CheckSC => (s, s.valid && s.scPassed && s.fid == f)
  }

  /** One finished operation on a slot. */
  datatype Entry = Entry(op: Op, fid: nat, answer: bool)

  function Replay(log: seq<Entry>, init: Slot): Slot
  {
    if log == [] then init
    else Apply(Replay(log[..|log| - 1], init), log[|log| - 1].op, log[|log| - 1].fid).0
  }

  predicate Marks(e: Entry) { e.op == Insert || e.op == Store(true) }

  /** Entry k is a mark by f, and nothing after it marks or clears the slot. */
  predicate LatestMark(log: seq<Entry>, k: nat, f: nat)
  {
    && k < |log| && Marks(log[k]) && log[k].fid == f
    && forall j | k < j < |log| :: !Marks(log[j]) && log[j].op != Remove
  }

  /** The latest operation that marked or cleared the slot was a mark by f. */
  predicate MarkedBy(log: seq<Entry>, f: nat)
  {
    exists k | 0 <= k < |log| :: LatestMark(log, k, f)
  }

  predicate Passes(e: Entry) { e.op == SetSC && e.answer }

  /** Some conditional store has succeeded on the slot since it was last cleared. */
  predicate PassedSinceRemove(log: seq<Entry>)
  {
    exists k | 0 <= k < |log| :: Passes(log[k]) && forall j | k < j < |log| :: log[j].op != Remove
  }

  /** The answer that the history in front of an operation calls for. */
  predicate RightAnswer(log: seq<Entry>, e: Entry)
  {
    match e.op
    case SetSC => e.answer <==> MarkedBy(log, e.fid)
    case CheckSC => e.answer <==> MarkedBy(log, e.fid) && PassedSinceRemove(log)
    case _ => !e.answer
  }

  /** Every answer in the history is right for what went before it. */
  predicate RightHistory(log: seq<Entry>)
  {
    forall k | 0 <= k < |log| :: RightAnswer(log[..k], log[k])
  }

  lemma MarkedBySnoc(log: seq<Entry>, e: Entry, f: nat)
    ensures MarkedBy(log + [e], f) <==>
            if Marks(e) then e.fid == f else e.op != Remove && MarkedBy(log, f)
  {
    var l' := log + [e];
    if Marks(e) && e.fid == f { assert LatestMark(l', |log|, f); }
    if !Marks(e) && e.op != Remove && MarkedBy(log, f) {
      var k :| 0 <= k < |log| && LatestMark(log, k, f);
      assert LatestMark(l', k, f);
    }
    if MarkedBy(l', f) {
      var k :| 0 <= k < |l'| && LatestMark(l', k, f);
      if k < |log| {
        assert l'[|log|] == e;
        assert forall j | k <= j < |log| :: log[j] == l'[j];
        assert LatestMark(log, k, f);
      }
    }
  }

  lemma PassedSnoc(log: seq<Entry>, e: Entry)
    ensures PassedSinceRemove(log + [e]) <==> e.op != Remove && (Passes(e) || PassedSinceRemove(log))
  {
    var l' := log + [e];
    if Passes(e) { assert Passes(l'[|log|]); }
    if e.op != Remove && PassedSinceRemove(log) {
      var k :| 0 <= k < |log| && Passes(log[k]) && forall j | k < j < |log| :: log[j].op != Remove;
      assert Passes(l'[k]);
    }
    if PassedSinceRemove(l') {
      var k :| 0 <= k < |l'| && Passes(l'[k]) && forall j | k < j < |l'| :: l'[j].op != Remove;
      if k < |log| {
        assert l'[|log|] == e && Passes(log[k]);
        assert forall j | k < j < |log| :: log[j] == l'[j];
      }
    }
  }

  /** The answers are those of the operations run one at a time. */
  predicate Sequential(log: seq<Entry>, init: Slot)
  {
    forall k | 0 <= k < |log| :: log[k].answer == Apply(Replay(log[..k], init), log[k].op, log[k].fid).1
  }

  /** The slot's fields say who marked it last, and whether a conditional store has passed. */
  predicate Means(s: Slot, log: seq<Entry>, f: nat)
  {
    && (s.valid && s.fid == f <==> MarkedBy(log, f))
    && (s.scPassed <==> PassedSinceRemove(log))
  }

  lemma MeansStep(s: Slot, log: seq<Entry>, e: Entry, f: nat)
    requires Means(s, log, f) && e.answer == Apply(s, e.op, e.fid).1
    ensures Means(Apply(s, e.op, e.fid).0, log + [e], f)
  {
    MarkedBySnoc(log, e, f);
    PassedSnoc(log, e);
  }

  lemma SequentialPrefix(log: seq<Entry>, init: Slot, n: nat)
    requires Sequential(log, init) && n <= |log|
    ensures Sequential(log[..n], init)
  {
    var g := log[..n];
    forall k | 0 <= k < n ensures g[k].answer == Apply(Replay(g[..k], init), g[k].op, g[k].fid).1 {
      assert g[..k] == log[..k] && g[k] == log[k];
    }
  }

  lemma {:induction false} SlotMeansHistory(log: seq<Entry>, init: Slot, f: nat)
    requires !init.valid && !init.scPassed && Sequential(log, init)
    ensures Means(Replay(log, init), log, f)
  {
    if log != [] {
      var n := |log| - 1;
      SequentialPrefix(log, init, n);
      SlotMeansHistory(log[..n], init, f);
      MeansStep(Replay(log[..n], init), log[..n], log[n], f);
      assert log == log[..n] + [log[n]];
    }
  }

  /** So every answer of a sequential history is the right one. */
  lemma SequentialIsRight(log: seq<Entry>, init: Slot)
    requires !init.valid && !init.scPassed && Sequential(log, init)
    ensures RightHistory(log)
  {
    forall k | 0 <= k < |log| ensures RightAnswer(log[..k], log[k]) {
      SequentialPrefix(log, init, k);
      SlotMeansHistory(log[..k], init, log[k].fid);
    }
  }

  // ---------------------------------------------------------------------------
  // Whose conditional store a positive check stands for
  // ---------------------------------------------------------------------------

  /** What checkSC answers flow f after the history. */
  predicate Checked(log: seq<Entry>, init: Slot, f: nat)
  {
    Apply(Replay(log, init), CheckSC, f).1
  }

  /** Flow f has completed a conditional store at or after entry k. */
  predicate OwnStoreSince(log: seq<Entry>, k: nat, f: nat)
  {
    exists j | k <= j < |log| :: Passes(log[j]) && log[j].fid == f
  }

  /** A store that passes after the latest mark is the marking flow's own. */
  lemma PassesOnlyMarker(log: seq<Entry>, k: nat, f: nat, j: nat)
    requires RightHistory(log) && LatestMark(log, k, f) && k < j < |log| && Passes(log[j])
    ensures log[j].fid == f
  {
    var g := log[..j];
    assert RightAnswer(g, log[j]);
    var k' :| 0 <= k' < |g| && LatestMark(g, k', log[j].fid);
    assert g[k] == log[k] && g[k'] == log[k'];
  }

  lemma PassedSplit(log: seq<Entry>, k: nat, f: nat)
    requires RightHistory(log) && LatestMark(log, k, f)
    ensures PassedSinceRemove(log) <==> PassedSinceRemove(log[..k]) || OwnStoreSince(log, k, f)
  {
    var g := log[..k];
    if PassedSinceRemove(log) {
      var j :| 0 <= j < |log| && Passes(log[j]) && forall i | j < i < |log| :: log[i].op != Remove;
      if j < k {
        assert Passes(g[j]) && forall i | j < i < k :: g[i] == log[i];
      } else {
        PassesOnlyMarker(log, k, f, j);
      }
    }
    if PassedSinceRemove(g) {
      var j :| 0 <= j < k && Passes(g[j]) && forall i | j < i < k :: g[i].op != Remove;
      assert Passes(log[j]) && forall i | j < i < k :: log[i] == g[i];
    }
  }

  /**
   Exactly when checkSC answers yes to the flow that marked the slot last: it has completed a
   conditional store since its mark, or the slot was already passed when it marked it.
   */
  lemma CheckedIff(log: seq<Entry>, init: Slot, k: nat, f: nat)
    requires !init.valid && !init.scPassed && Sequential(log, init) && LatestMark(log, k, f)
    ensures Checked(log, init, f) <==> Replay(log[..k], init).scPassed || OwnStoreSince(log, k, f)
  {
    SequentialIsRight(log, init);
    SlotMeansHistory(log, init, f);
    SequentialPrefix(log, init, k);
    SlotMeansHistory(log[..k], init, f);
    PassedSplit(log, k, f);
  }

  /** The history goes on with answers as the code gives them, and without a mark or a remove. */
  predicate Continues(log: seq<Entry>, init: Slot, rest: seq<Entry>)
  {
    Sequential(log + rest, init) && forall i | 0 <= i < |rest| :: !Marks(rest[i]) && rest[i].op != Remove
  }

  /**
   A mark by f makes every later positive check of f stand for a conditional store of f's own, for as
   long as nobody marks or clears the slot, exactly when no store had passed on the slot before it.
   */
  lemma CheckStandsForOwnStoreIff(log: seq<Entry>, init: Slot, k: nat, f: nat)
    requires !init.valid && !init.scPassed && Sequential(log, init) && |log| == k + 1 && LatestMark(log, k, f)
    ensures !Replay(log[..k], init).scPassed <==>
            forall rest | Continues(log, init, rest) && Checked(log + rest, init, f) :: OwnStoreSince(log + rest, k, f)
  {
    forall rest | Continues(log, init, rest)
      ensures Checked(log + rest, init, f) <==>
              Replay(log[..k], init).scPassed || OwnStoreSince(log + rest, k, f)
    {
      var all := log + rest;
      assert all[..k] == log[..k] && LatestMark(all, k, f);
      CheckedIff(all, init, k, f);
    }
    assert log + [] == log;
    assert Continues(log, init, []) && !OwnStoreSince(log + [], k, f);
  }

  /** It happens: flow 2 marks a slot on which flow 1 has already succeeded, and is told that it passed too. */
  lemma CheckWithoutOwnStore()
    ensures var log := [Entry(Insert, 1, false), Entry(SetSC, 1, true),
                        Entry(Insert, 2, false), Entry(CheckSC, 2, true)];
            Sequential(log, Slot(false, 0, false)) && !OwnStoreSince(log, 0, 2)
  {
    var init := Slot(false, 0, false);
    var e0, e1 := Entry(Insert, 1, false), Entry(SetSC, 1, true);
    var e2, e3 := Entry(Insert, 2, false), Entry(CheckSC, 2, true);
    var l1, l2, l3, log := [e0], [e0, e1], [e0, e1, e2], [e0, e1, e2, e3];
    assert log[..0] == [] && log[..1] == l1 && log[..2] == l2 && log[..3] == l3;
    assert l1[..0] == [] && l2[..1] == l1 && l3[..2] == l2;
    assert Replay([], init) == init;
    assert Replay(l1, init) == Slot(true, 1, false);
    assert Replay(l2, init) == Slot(true, 1, true);
    assert Replay(l3, init) == Slot(true, 2, true);
  }

  // ---------------------------------------------------------------------------
  // Interleaved execution
  // ---------------------------------------------------------------------------

  /** Where a flow is: outside, spinning on the lock, at an access inside, or about to unlock. */
  datatype Pc =
    | Idle
    | Spin(op: Op, h: nat)
    | Body(op: Op, h: nat, at: nat)
    | Leave(op: Op, h: nat, answer: bool)

  predicate Inside(pc: Pc) { pc.Body? || pc.Leave? }

  datatype Table = Table(slots: seq<Slot>, lock: seq<bool>, flows: map<nat, Pc>, log: seq<seq<Entry>>)

  datatype Event = Start(f: nat, op: Op, addr: bv32) | Move(f: nat)

  function At(t: Table, f: nat): Pc
  {
    if f in t.flows then t.flows[f] else Idle
  }

  predicate Sizes(t: Table)
  {
    && |t.slots| == |t.lock| == |t.log| == HASH_SIZE
    && forall f | f in t.flows && t.flows[f] != Idle :: t.flows[f].h < HASH_SIZE
  }

  /** One memory access of the critical section: the slot after it, and where the flow is next. */
  function Access(s: Slot, op: Op, h: nat, at: nat, f: nat): (Slot, Pc)
  {
    match op
    case Insert => Mark(s, op, h, at, f)
    case Store(marked) => if marked then Mark(s, op, h, at, f) else (s, Leave(op, h, false))
    case Remove =>
      if at == 0 then (s.(valid := false), Body(op, h, 1)) else (s.(scPassed := false), Leave(op, h, false))
    case SetSC =>
      if at == 0 then (s, if s.valid then Body(op, h, 1) else Leave(op, h, false))
      else if at == 1 then (s, if s.fid == f then Body(op, h, 2) else Leave(op, h, false))
      else (s.(scPassed := true), Leave(op, h, true))
    case CheckSC =>
      if at == 0 then (s, if s.valid then Body(op, h, 1) else Leave(op, h, false))
      else if at == 1 then (s, if s.scPassed then Body(op, h, 2) else Leave(op, h, false))
      else (s, Leave(op, h, s.fid == f))
  }

  function Mark(s: Slot, op: Op, h: nat, at: nat, f: nat): (Slot, Pc)
  {
    if at == 0 then (s.(valid := true), Body(op, h, 1)) else (s.(fid := f), Leave(op, h, false))
  }

  function Step(t: Table, e: Event): Table
    requires Sizes(t)
  {
    match e
    case Start(f, op, addr) =>
      if At(t, f) == Idle then t.(flows := t.flows[f := Spin(op, Hash(addr))]) else t
    case Move(f) =>
      match At(t, f)
      case Idle => t
      case Spin(op, h) =>
        if t.lock[h] then t else t.(lock := t.lock[h := true], flows := t.flows[f := Body(op, h, 0)])
      case Body(op, h, at) =>
        var (s, pc) := Access(t.slots[h], op, h, at, f);
        t.(slots := t.slots[h := s], flows := t.flows[f := pc])
      case Leave(op, h, answer) =>
        t.(lock := t.lock[h := false], flows := t.flows[f := Idle],
           log := t.log[h := t.log[h] + [Entry(op, f, answer)]])
  }

  /** Inside the critical section: how far the slot s has come from its value r at the time of locking. */
  predicate Underway(s: Slot, r: Slot, pc: Pc, f: nat)
    requires Inside(pc)
  {
    match pc
    case Leave(op, _, answer) => (s, answer) == Apply(r, op, f)
    case Body(op, _, at) =>
      match op
      case Insert => at <= 1 && s == if at == 0 then r else r.(valid := true)
      case Store(marked) => if marked then at <= 1 && s == (if at == 0 then r else r.(valid := true)) else s == r
      case Remove => at <= 1 && s == if at == 0 then r else r.(valid := false)
      case SetSC => at <= 2 && s == r && (at >= 1 ==> r.valid) && (at >= 2 ==> r.fid == f)
      case CheckSC => at <= 2 && s == r && (at >= 1 ==> r.valid) && (at >= 2 ==> r.scPassed)
  }

  lemma AccessUnderway(s: Slot, r: Slot, op: Op, h: nat, at: nat, f: nat)
    requires Underway(s, r, Body(op, h, at), f)
    ensures var (s', pc) := Access(s, op, h, at, f);
            Inside(pc) && pc.h == h && Underway(s', r, pc, f)
  {
  }

  /** No two flows are inside the critical section of the same slot. */
  predicate MutualExclusion(t: Table)
  {
    forall f, g | f in t.flows && g in t.flows && f != g && Inside(t.flows[f]) && Inside(t.flows[g]) ::
      t.flows[f].h != t.flows[g].h
  }

  predicate Inv(t: Table, init: seq<Slot>)
  {
    && Sizes(t) && |init| == HASH_SIZE && MutualExclusion(t)
    && (forall f | f in t.flows && Inside(t.flows[f]) ::
          && t.lock[t.flows[f].h]
          && Underway(t.slots[t.flows[f].h], Replay(t.log[t.flows[f].h], init[t.flows[f].h]), t.flows[f], f))
    && (forall h | 0 <= h < HASH_SIZE && !t.lock[h] :: t.slots[h] == Replay(t.log[h], init[h]))
    && (forall h | 0 <= h < HASH_SIZE :: Sequential(t.log[h], init[h]))
  }

  lemma SequentialSnoc(log: seq<Entry>, init: Slot, e: Entry)
    requires Sequential(log, init) && e.answer == Apply(Replay(log, init), e.op, e.fid).1
    ensures Sequential(log + [e], init)
    ensures Replay(log + [e], init) == Apply(Replay(log, init), e.op, e.fid).0
  {
    var l' := log + [e];
    assert l'[..|log|] == log;
    forall k | 0 <= k < |l'| ensures l'[k].answer == Apply(Replay(l'[..k], init), l'[k].op, l'[k].fid).1 {
      if k < |log| { assert l'[..k] == log[..k]; }
    }
  }

  lemma StartInv(t: Table, init: seq<Slot>, e: Event)
    requires Inv(t, init) && e.Start?
    ensures Inv(Step(t, e), init)
  {
    var t' := Step(t, e);
    forall g | g in t'.flows && Inside(t'.flows[g]) ensures g in t.flows && t'.flows[g] == t.flows[g] {
    }
  }

  lemma FreeMeansEmpty(t: Table, init: seq<Slot>, h: nat)
    requires Inv(t, init) && h < HASH_SIZE && !t.lock[h]
    ensures forall g | g in t.flows && Inside(t.flows[g]) :: t.flows[g].h != h
  {
  }

  /** A flow that finds the lock free is alone inside. */
  lemma SpinInv(t: Table, init: seq<Slot>, f: nat)
    requires Inv(t, init) && At(t, f).Spin? && !t.lock[At(t, f).h]
    ensures Inv(Step(t, Move(f)), init)
  {
    var pc, t' := At(t, f), Step(t, Move(f));
    FreeMeansEmpty(t, init, pc.h);
    assert t' == t.(lock := t.lock[pc.h := true], flows := t.flows[f := Body(pc.op, pc.h, 0)]);
    forall g | g in t'.flows && g != f && Inside(t'.flows[g])
      ensures t'.flows[g].h != pc.h && g in t.flows && t'.flows[g] == t.flows[g]
    {
    }
  }

  lemma LeaveInv(t: Table, init: seq<Slot>, f: nat)
    requires Inv(t, init) && At(t, f).Leave?
    ensures Inv(Step(t, Move(f)), init)
  {
    var pc, t' := At(t, f), Step(t, Move(f));
    SequentialSnoc(t.log[pc.h], init[pc.h], Entry(pc.op, f, pc.answer));
    forall g | g in t'.flows && Inside(t'.flows[g])
      ensures t'.flows[g].h != pc.h && g in t.flows && t'.flows[g] == t.flows[g]
    {
    }
  }

  lemma BodyInv(t: Table, init: seq<Slot>, f: nat)
    requires Inv(t, init) && At(t, f).Body?
    ensures Inv(Step(t, Move(f)), init)
  {
    var pc, t' := At(t, f), Step(t, Move(f));
    AccessUnderway(t.slots[pc.h], Replay(t.log[pc.h], init[pc.h]), pc.op, pc.h, pc.at, f);
    forall g | g in t'.flows && g != f && Inside(t'.flows[g])
      ensures t'.flows[g].h != pc.h && g in t.flows && t'.flows[g] == t.flows[g]
    {
    }
  }

  lemma StepInv(t: Table, init: seq<Slot>, e: Event)
    requires Inv(t, init)
    ensures Inv(Step(t, e), init)
  {
    if e.Start? {
      StartInv(t, init, e);
    } else {
      match At(t, e.f)
      case Idle =>
      case Spin(_, h) => if !t.lock[h] { SpinInv(t, init, e.f); }
      case Body(_, _, _) => BodyInv(t, init, e.f);
      case Leave(_, _, _) => LeaveInv(t, init, e.f);
    }
  }

  function Run(t: Table, es: seq<Event>): Table
    requires Sizes(t)
    decreases es
  {
    if es == [] then t else
    assert Sizes(Step(t, es[0])) by { StepSizes(t, es[0]); }
    Run(Step(t, es[0]), es[1..])
  }

  lemma StepSizes(t: Table, e: Event)
    requires Sizes(t)
    ensures Sizes(Step(t, e))
  {
  }

  lemma {:induction false} RunInv(t: Table, init: seq<Slot>, es: seq<Event>)
    requires Inv(t, init)
    ensures Inv(Run(t, es), init)
    decreases es
  {
    if es != [] {
      StepInv(t, init, es[0]);
      RunInv(Step(t, es[0]), init, es[1..]);
    }
  }

  /** The table as init_atomicHash leaves it; the owner fields are never initialised. */
  function Fresh(init: seq<Slot>): Table
  {
    Table(init, seq(HASH_SIZE, h => false), map[], seq(HASH_SIZE, h => []))
  }

  /**
   Every interleaving of any flows: no two are ever inside the same slot, every answer ever given is
   that of the operations run one at a time in the order they finished, and so the one the slot's history calls for.
   */
  lemma EveryRunIsRight(init: seq<Slot>, es: seq<Event>)
    requires |init| == HASH_SIZE && forall h | 0 <= h < HASH_SIZE :: !init[h].valid && !init[h].scPassed
    ensures MutualExclusion(Run(Fresh(init), es))
    ensures var t := Run(Fresh(init), es);
            && |t.log| == HASH_SIZE
            && forall h | 0 <= h < HASH_SIZE :: Sequential(t.log[h], init[h]) && RightHistory(t.log[h])
  {
    RunInv(Fresh(init), init, es);
    var t := Run(Fresh(init), es);
    forall h | 0 <= h < |t.log| ensures RightHistory(t.log[h]) {
      SequentialIsRight(t.log[h], init[h]);
    }
  }
}
