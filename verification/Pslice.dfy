/**
 P-slices: the backward slice of a recorded instruction window that ends in a
 delinquent load, the registers that slice needs on entry, and what replaying
 only the slice computes.
 */
module Pslices {
  import opened Common

  /** Register numbers: R0..R15, and 16 for an operand that is not there. */
  const INVALID_ARM_REG := 16

  type Reg = r: int | 0 <= r <= 16
  type Word = w: int | 0 <= w < 0x1_0000_0000
  type RegFile = f: seq<Word> | |f| == 16 witness seq(16, i => 0)

  /** One executed instruction, with the operand values seen when it ran. */
  datatype ExecIns = ExecIns(
    pc: nat, opcode: Word, addr: nat, data: nat,
    src1: Reg, src2: Reg, src3: Reg, dst: Reg, impl: Reg,
    src1Val: Word, src2Val: Word, src3Val: Word, dstVal: Word, implVal: Word,
    isBranch: bool, isCond: bool, taken: bool, targetAddr: nat)

  /** The effect of one instruction: its operands in, the destination value out. */
  type Semantics = (ExecIns, Word, Word, Word, Word) -> Word

  function Sources(x: ExecIns): set<Reg>
  {
    {x.impl, x.src1, x.src2, x.src3} - {INVALID_ARM_REG}
  }

  // ---------------------------------------------------------------------------
  // Running instructions on a register file
  // ---------------------------------------------------------------------------

  function Read(f: RegFile, r: Reg): Word
  {
    if r == INVALID_ARM_REG then 0 else f[r]
  }

  function Execute(exec: Semantics, x: ExecIns, f: RegFile): RegFile
  {
    if x.dst == INVALID_ARM_REG then f
    else f[x.dst := exec(x, Read(f, x.src1), Read(f, x.src2), Read(f, x.src3), Read(f, x.impl))]
  }

  /** Every operand x reads has the value that was recorded for it. */
  predicate SeesRecorded(x: ExecIns, f: RegFile)
  {
    && (x.src1 != INVALID_ARM_REG ==> f[x.src1] == x.src1Val)
    && (x.src2 != INVALID_ARM_REG ==> f[x.src2] == x.src2Val)
    && (x.src3 != INVALID_ARM_REG ==> f[x.src3] == x.src3Val)
    && (x.impl != INVALID_ARM_REG ==> f[x.impl] == x.implVal)
  }

  /** Running t from f, every instruction sees exactly the operand values recorded for it. */
  predicate RunsAsRecorded(exec: Semantics, t: seq<ExecIns>, f: RegFile)
  {
    t == [] || (SeesRecorded(t[0], f) && RunsAsRecorded(exec, t[1..], Execute(exec, t[0], f)))
  }

  // ---------------------------------------------------------------------------
  // The slice: what generatePslice computes
  // ---------------------------------------------------------------------------

  /** Registers the slice of t still waits for in front of t. */
  function Deps(t: seq<ExecIns>): set<Reg>
    requires t != []
  {
    if |t| == 1 then Sources(t[0])
    else if t[0].dst in Deps(t[1..]) then Deps(t[1..]) - {t[0].dst} + Sources(t[0])
    else Deps(t[1..])
  }

  function Slice(t: seq<ExecIns>): seq<ExecIns>
    requires t != []
  {
    if |t| == 1 then t
    else if t[0].dst in Deps(t[1..]) then [t[0]] + Slice(t[1..])
    else Slice(t[1..])
  }

  /**
   generatePslice: one pass backwards over the window. The flag of register 16
   is never initialised by the source, so it starts from an arbitrary value.
   */
  method GeneratePslice(ptrace: seq<ExecIns>, uninitialised: bool) returns (pslice: seq<ExecIns>)
    requires ptrace != []
    ensures pslice == Slice(ptrace)
  {
    var depRegisters := new bool[17](i => false);
    depRegisters[INVALID_ARM_REG] := uninitialised;
    var n := |ptrace|;
    var last := ptrace[n - 1];
    AddSources(depRegisters, last);
    pslice := [last];
    var k := n - 1;
    while k > 0
      invariant 0 <= k < n
      invariant pslice == Slice(ptrace[k..])
      invariant forall r: Reg | r != INVALID_ARM_REG :: depRegisters[r] <==> r in Deps(ptrace[k..])
    {
      k := k - 1;
      var x := ptrace[k];
      assert ptrace[k..][0] == x && ptrace[k..][1..] == ptrace[k + 1..];
      DepsAreReal(ptrace[k + 1..]);
      if depRegisters[x.dst] && x.dst != INVALID_ARM_REG {
        depRegisters[x.dst] := false;
        AddSources(depRegisters, x);
        pslice := [x] + pslice;
      }
    }
    assert ptrace[0..] == ptrace;
  }

  method AddSources(depRegisters: array<bool>, x: ExecIns)
    requires depRegisters.Length == 17
    modifies depRegisters
    ensures forall r: Reg | r != INVALID_ARM_REG :: depRegisters[r] <==> old(depRegisters[r]) || r in Sources(x)
  {
    depRegisters[x.src1] := true;
    depRegisters[x.src2] := true;
    depRegisters[x.src3] := true;
    depRegisters[x.impl] := true;
  }

  lemma {:induction false} DepsAreReal(t: seq<ExecIns>)
    requires t != []
    ensures INVALID_ARM_REG !in Deps(t)
  {
    if |t| > 1 { DepsAreReal(t[1..]); }
  }

  // ---------------------------------------------------------------------------
  // Live-ins: what identifyPsliceLiveIns and identifyPtraceLiveIns compute
  // ---------------------------------------------------------------------------

  /** The value recorded for register r, in the order the live-in pass looks at the operands. */
  function Recorded(x: ExecIns, r: Reg): Word
  {
    if x.impl == r then x.implVal
    else if x.src1 == r then x.src1Val
    else if x.src2 == r then x.src2Val
    else x.src3Val
  }

  /** The value with which s first reads r, if it reads r before writing it. */
  function FirstRead(s: seq<ExecIns>, r: Reg): Option<Word>
  {
    if s == [] then None
    else if r in Sources(s[0]) then Some(Recorded(s[0], r))
    else if s[0].dst == r then None
    else FirstRead(s[1..], r)
  }

  /** Instruction i reads r, and nothing in front of it in s writes r. */
  predicate ReadsOnEntry(s: seq<ExecIns>, i: nat, r: Reg)
  {
    i < |s| && r in Sources(s[i]) && forall j | 0 <= j < i :: s[j].dst != r
  }

  /** FirstRead is exactly read-before-written, with the earliest reader's recorded value. */
  lemma {:induction false} FirstReadIsEntryRead(s: seq<ExecIns>, r: Reg)
    ensures FirstRead(s, r).Some? <==> exists i: nat :: ReadsOnEntry(s, i, r)
    ensures forall i: nat | ReadsOnEntry(s, i, r) && (forall j: nat | j < i :: !ReadsOnEntry(s, j, r)) ::
              FirstRead(s, r) == Some(Recorded(s[i], r))
  {
    if s == [] {
    } else if r in Sources(s[0]) {
      assert ReadsOnEntry(s, 0, r);
    } else {
      FirstReadIsEntryRead(s[1..], r);
      if s[0].dst != r {
        forall i: nat ensures ReadsOnEntry(s[1..], i, r) <==> ReadsOnEntry(s, i + 1, r) {
          if ReadsOnEntry(s[1..], i, r) {
            forall j | 0 <= j < i + 1 ensures s[j].dst != r {
              if j > 0 { assert s[j] == s[1..][j - 1]; }
            }
          }
          if ReadsOnEntry(s, i + 1, r) {
            assert forall j | 0 <= j < i :: s[1..][j] == s[j + 1];
          }
        }
        forall i: nat | ReadsOnEntry(s, i, r) ensures i > 0 && ReadsOnEntry(s[1..], i - 1, r) {
          assert i > 0;
          assert ReadsOnEntry(s, (i - 1) + 1, r);
        }
      }
    }
  }

  predicate Writes(s: seq<ExecIns>, r: Reg)
  {
    exists j | 0 <= j < |s| :: s[j].dst == r
  }

  lemma {:induction false} FirstReadSnoc(s: seq<ExecIns>, x: ExecIns, r: Reg)
    ensures FirstRead(s + [x], r) ==
            if FirstRead(s, r).Some? || Writes(s, r) then FirstRead(s, r)
            else if r in Sources(x) then Some(Recorded(x, r)) else None
  {
    if s == [] {
    } else {
      assert (s + [x])[1..] == s[1..] + [x];
      FirstReadSnoc(s[1..], x, r);
      assert Writes(s, r) <==> s[0].dst == r || Writes(s[1..], r) by {
        if Writes(s, r) && s[0].dst != r {
          var j :| 0 <= j < |s| && s[j].dst == r;
          assert s[1..][j - 1].dst == r;
        }
      }
    }
  }

  function LiveIns(s: seq<ExecIns>): set<Reg>
  {
    set r: Reg | r < INVALID_ARM_REG && FirstRead(s, r).Some?
  }

  /** The live-in flags and the register snapshot that the pass fills in. */
  datatype EntryState = EntryState(live: seq<bool>, file: seq<Word>) {
    predicate Valid() { |live| == 17 && |file| == 17 }
  }

  /** One operand: a register not written and not live so far becomes live with this value. */
  function NoteOperand(written: seq<bool>, e: EntryState, r: Reg, v: Word): (e': EntryState)
    requires |written| == 17 && e.Valid()
    ensures e'.Valid()
    ensures forall q: Reg | q != r :: e'.live[q] == e.live[q] && e'.file[q] == e.file[q]
    ensures e'.live[r] == (e.live[r] || !written[r])
    ensures e'.file[r] == if e.live[r] || written[r] then e.file[r] else v
  {
    if !written[r] && !e.live[r] then EntryState(e.live[r := true], e.file[r := v]) else e
  }

  function NoteOperands(written: seq<bool>, e: EntryState, x: ExecIns): (e': EntryState)
    requires |written| == 17 && e.Valid()
    ensures e'.Valid()
  {
    var e1 := NoteOperand(written, e, x.impl, x.implVal);
    var e2 := NoteOperand(written, e1, x.src1, x.src1Val);
    var e3 := NoteOperand(written, e2, x.src2, x.src2Val);
    NoteOperand(written, e3, x.src3, x.src3Val)
  }

  /** The first operand that names a register fixes its value, unless it was written or live before. */
  lemma NoteOperandsAt(written: seq<bool>, e: EntryState, x: ExecIns, r: Reg)
    requires |written| == 17 && e.Valid() && r != INVALID_ARM_REG
    ensures var e' := NoteOperands(written, e, x);
            if !e.live[r] && !written[r] && r in Sources(x)
            then e'.live[r] && e'.file[r] == Recorded(x, r)
            else e'.live[r] == e.live[r] && e'.file[r] == e.file[r]
  {
    var e1 := NoteOperand(written, e, x.impl, x.implVal);
    assert e1.live[r] == (e.live[r] || (x.impl == r && !written[r]));
    var e2 := NoteOperand(written, e1, x.src1, x.src1Val);
    assert e2.live[r] == (e1.live[r] || (x.src1 == r && !written[r]));
    var e3 := NoteOperand(written, e2, x.src2, x.src2Val);
    assert e3.live[r] == (e2.live[r] || (x.src2 == r && !written[r]));
  }

  /** After the instructions s, the pass has the right flags and value for register r. */
  predicate Tracks(written: seq<bool>, e: EntryState, s: seq<ExecIns>, snapshot: seq<Word>, r: Reg)
    requires |written| == |snapshot| == 17 && e.Valid()
  {
    && (written[r] <==> Writes(s, r))
    && if e.live[r] then FirstRead(s, r) == Some(e.file[r])
       else FirstRead(s, r) == None && e.file[r] == snapshot[r]
  }

  lemma TracksStep(written: seq<bool>, e: EntryState, s: seq<ExecIns>, snapshot: seq<Word>, x: ExecIns, r: Reg)
    requires |written| == |snapshot| == 17 && e.Valid() && r != INVALID_ARM_REG
    requires Tracks(written, e, s, snapshot, r)
    ensures Tracks(written[x.dst := true], NoteOperands(written, e, x), s + [x], snapshot, r)
  {
    FirstReadSnoc(s, x, r);
    WritesSnoc(s, x, r);
    NoteOperandsAt(written, e, x, r);
  }

  /**
   The live-in pass over a list of instructions: the source has it twice, for the
   whole window (identifyPtraceLiveIns) and for its slice (identifyPsliceLiveIns).
   The register snapshot is kept from one pass to the next.
   */
  method IdentifyLiveIns(list: seq<ExecIns>, snapshot: seq<Word>) returns (e: EntryState, count: nat)
    requires |snapshot| == 17
    ensures e.Valid()
    ensures forall r: Reg :: e.live[r] <==> r in LiveIns(list)
    ensures forall r: Reg | e.live[r] :: Some(e.file[r]) == FirstRead(list, r)
    ensures forall r: Reg | r != INVALID_ARM_REG && !e.live[r] :: e.file[r] == snapshot[r]
    ensures count == |LiveIns(list)|
  {
    var dstRegs := seq(17, i => false);
    e := EntryState(seq(17, i => false), snapshot);
    var k := 0;
    while k < |list|
      invariant 0 <= k <= |list| && e.Valid() && |dstRegs| == 17
      invariant forall r: Reg | r != INVALID_ARM_REG :: Tracks(dstRegs, e, list[..k], snapshot, r)
    {
      var x := list[k];
      assert list[..k + 1] == list[..k] + [x];
      var e', dstRegs', done := NoteOperands(dstRegs, e, x), dstRegs[x.dst := true], list[..k + 1];
      forall r: Reg | r != INVALID_ARM_REG ensures Tracks(dstRegs', e', done, snapshot, r) {
        TracksStep(dstRegs, e, list[..k], snapshot, x, r);
      }
      e, dstRegs := e', dstRegs';
      k := k + 1;
    }
    assert list[..k] == list;
    ghost var found := e;
    e := e.(live := e.live[INVALID_ARM_REG := false]);
    forall r: Reg | r != INVALID_ARM_REG
      ensures if e.live[r] then FirstRead(list, r) == Some(e.file[r])
              else FirstRead(list, r) == None && e.file[r] == snapshot[r]
    {
      assert Tracks(dstRegs, found, list, snapshot, r);
    }
    count := CountLive(e.live);
    assert LiveIns(list) == set r: Reg | r < INVALID_ARM_REG && e.live[r];
  }

  method CountLive(live: seq<bool>) returns (count: nat)
    requires |live| == 17
    ensures count == |set r: Reg | r < INVALID_ARM_REG && live[r]|
  {
    count := 0;
    var i := 0;
    while i < INVALID_ARM_REG
      invariant 0 <= i <= INVALID_ARM_REG
      invariant count == |set r: Reg | r < i && live[r]|
    {
      var more := set r: Reg | r < i + 1 && live[r];
      if live[i] {
        count := count + 1;
        assert more == (set r: Reg | r < i && live[r]) + {i};
      } else {
        assert more == set r: Reg | r < i && live[r];
      }
      i := i + 1;
    }
  }

  lemma WritesSnoc(s: seq<ExecIns>, x: ExecIns, r: Reg)
    ensures Writes(s + [x], r) <==> Writes(s, r) || x.dst == r
  {
    assert (s + [x])[|s|] == x;
    if Writes(s, r) {
      var j :| 0 <= j < |s| && s[j].dst == r;
      assert (s + [x])[j].dst == r;
    }
  }

  // ---------------------------------------------------------------------------
  // What slicing keeps
  // ---------------------------------------------------------------------------

  /** The registers the backward pass is left waiting for are the slice's live-ins. */
  lemma {:induction false} DepsAreLiveIns(t: seq<ExecIns>)
    requires t != []
    ensures Deps(t) == LiveIns(Slice(t))
  {
    DepsAreReal(t);
    if |t| == 1 {
      forall r: Reg ensures FirstRead(t, r).Some? <==> r in Sources(t[0]) {
        assert t[1..] == [];
      }
    } else {
      DepsAreLiveIns(t[1..]);
      if t[0].dst in Deps(t[1..]) {
        assert Slice(t)[0] == t[0] && Slice(t)[1..] == Slice(t[1..]);
      }
    }
  }

  /** In a recorded run, a register read before it is written is recorded with its entry value. */
  lemma {:induction false} EntryReadsSeeEntryValues(exec: Semantics, s: seq<ExecIns>, f: RegFile, r: Reg)
    requires r != INVALID_ARM_REG && RunsAsRecorded(exec, s, f) && FirstRead(s, r).Some?
    ensures FirstRead(s, r) == Some(f[r])
  {
    if s != [] && r !in Sources(s[0]) {
      EntryReadsSeeEntryValues(exec, s[1..], Execute(exec, s[0], f), r);
    }
  }

  /** A recorded run repeats itself from any register file that agrees on the live-ins. */
  lemma {:induction false} AgreeOnLiveIns(exec: Semantics, s: seq<ExecIns>, f: RegFile, g: RegFile)
    requires RunsAsRecorded(exec, s, f)
    requires forall r: Reg | r < INVALID_ARM_REG && FirstRead(s, r).Some? :: g[r] == f[r]
    ensures RunsAsRecorded(exec, s, g)
  {
    if s != [] {
      var x := s[0];
      assert forall r: Reg | r in Sources(x) :: FirstRead(s, r).Some?;
      assert forall r: Reg | r < INVALID_ARM_REG && r != x.dst && FirstRead(s[1..], r).Some? ::
          FirstRead(s, r).Some?;
      AgreeOnLiveIns(exec, s[1..], Execute(exec, x, f), Execute(exec, x, g));
    }
  }

  /** Restoring the snapshot of the live-in pass is enough to repeat the recorded run. */
  lemma LiveInReplay(exec: Semantics, s: seq<ExecIns>, f: RegFile, g: RegFile)
    requires RunsAsRecorded(exec, s, f)
    requires forall r: Reg | r in LiveIns(s) :: FirstRead(s, r) == Some(g[r])
    ensures RunsAsRecorded(exec, s, g)
  {
    forall r: Reg | r < INVALID_ARM_REG && FirstRead(s, r).Some? ensures g[r] == f[r] {
      EntryReadsSeeEntryValues(exec, s, f, r);
      assert r in LiveIns(s);
    }
    AgreeOnLiveIns(exec, s, f, g);
  }

  /** Dropping the instructions outside the slice changes no operand of those inside it. */
  lemma {:induction false} SliceRunsAsRecorded(exec: Semantics, t: seq<ExecIns>, f: RegFile, g: RegFile)
    requires t != [] && RunsAsRecorded(exec, t, f)
    requires forall r: Reg | r in Deps(t) && r < INVALID_ARM_REG :: g[r] == f[r]
    ensures RunsAsRecorded(exec, Slice(t), g)
  {
    if |t| == 1 {
      assert forall r: Reg | r in Sources(t[0]) :: r in Deps(t);
    } else {
      DepsAreReal(t[1..]);
      var f' := Execute(exec, t[0], f);
      if t[0].dst in Deps(t[1..]) {
        assert Slice(t)[0] == t[0] && Slice(t)[1..] == Slice(t[1..]);
        assert forall r: Reg | r in Sources(t[0]) :: r in Deps(t);
        SliceRunsAsRecorded(exec, t[1..], f', Execute(exec, t[0], g));
      } else {
        SliceRunsAsRecorded(exec, t[1..], f', g);
      }
    }
  }

  /**
   Slicing preserves meaning: from any register file that holds the slice's
   recorded live-ins, running the slice alone gives every one of its instructions,
   the delinquent load included, the operands it had in the full run.
   */
  lemma SliceReplay(exec: Semantics, t: seq<ExecIns>, f: RegFile, g: RegFile)
    requires t != [] && RunsAsRecorded(exec, t, f)
    requires forall r: Reg | r in LiveIns(Slice(t)) :: FirstRead(Slice(t), r) == Some(g[r])
    ensures RunsAsRecorded(exec, Slice(t), g)
  {
    SliceRunsAsRecorded(exec, t, f, f);
    LiveInReplay(exec, Slice(t), f, g);
  }

  function Run(exec: Semantics, t: seq<ExecIns>, f: RegFile): RegFile
  {
    if t == [] then f else Run(exec, t[1..], Execute(exec, t[0], f))
  }

  lemma {:induction false} RecordedAtEveryStep(exec: Semantics, s: seq<ExecIns>, f: RegFile, i: nat)
    requires i < |s| && RunsAsRecorded(exec, s, f)
    ensures SeesRecorded(s[i], Run(exec, s[..i], f))
  {
    if i > 0 {
      assert s[..i][0] == s[0] && s[..i][1..] == s[1..][..i - 1];
      RecordedAtEveryStep(exec, s[1..], Execute(exec, s[0], f), i - 1);
    }
  }

  function Last(t: seq<ExecIns>): ExecIns
    requires t != []
  {
    t[|t| - 1]
  }

  function BeforeLast(t: seq<ExecIns>): seq<ExecIns>
    requires t != []
  {
    t[..|t| - 1]
  }

  /** The load at the end of the replayed slice reads the same register values as at the end of the window. */
  lemma LoadSeesSameOperands(exec: Semantics, t: seq<ExecIns>, f: RegFile, g: RegFile)
    requires t != [] && RunsAsRecorded(exec, t, f)
    requires forall r: Reg | r in LiveIns(Slice(t)) :: FirstRead(Slice(t), r) == Some(g[r])
    ensures Slice(t) != [] && Last(Slice(t)) == Last(t)
    ensures forall r: Reg | r in Sources(Last(t)) ::
              Read(Run(exec, BeforeLast(Slice(t)), g), r) == Read(Run(exec, BeforeLast(t), f), r)
  {
    var _ := SlicePositions(t);
    SliceReplay(exec, t, f, g);
    RecordedAtEveryStep(exec, t, f, |t| - 1);
    RecordedAtEveryStep(exec, Slice(t), g, |Slice(t)| - 1);
  }

  /** s is t at the positions `at`, which increase. */
  predicate Picks(at: seq<nat>, s: seq<ExecIns>, t: seq<ExecIns>)
  {
    && |at| == |s|
    && (forall i | 0 <= i < |at| :: at[i] < |t| && t[at[i]] == s[i])
    && (forall i, j | 0 <= i < j < |at| :: at[i] < at[j])
  }

  /** Positions in t[1..] seen as positions in t. */
  function Moved(at: seq<nat>): (r: seq<nat>)
    ensures |r| == |at| && forall i | 0 <= i < |at| :: r[i] == at[i] + 1
  {
    seq(|at|, i requires 0 <= i < |at| => at[i] + 1)
  }

  lemma PicksCons(at: seq<nat>, s: seq<ExecIns>, t: seq<ExecIns>)
    requires t != [] && Picks(at, s, t[1..])
    ensures Picks(Moved(at), s, t) && Picks([0] + Moved(at), [t[0]] + s, t)
  {
    assert forall i | 0 <= i < |at| :: t[at[i] + 1] == t[1..][at[i]];
  }

  /** The slice picks window positions in order and ends in the load. */
  lemma {:induction false} SlicePositions(t: seq<ExecIns>) returns (at: seq<nat>)
    requires t != []
    ensures Picks(at, Slice(t), t) && at != [] && at[|at| - 1] == |t| - 1
  {
    if |t| == 1 {
      at := [0];
    } else {
      var rest := SlicePositions(t[1..]);
      PicksCons(rest, Slice(t[1..]), t);
      if t[0].dst in Deps(t[1..]) {
        at := [0] + Moved(rest);
      } else {
        at := Moved(rest);
      }
    }
  }

  /** The value instruction i of s writes is read by instruction j, with no write to it in between. */
  predicate Feeds(s: seq<ExecIns>, i: nat, j: nat)
  {
    && i < j < |s| && s[i].dst in Sources(s[j])
    && forall k | i < k < j :: s[k].dst != s[i].dst
  }

  /** Nothing is kept in vain: each slice instruction before the load feeds a later one. */
  lemma {:induction false} KeptInstructionsAreNeeded(t: seq<ExecIns>, i: nat)
    requires t != [] && i + 1 < |Slice(t)|
    ensures exists j: nat :: Feeds(Slice(t), i, j)
  {
    if |t| > 1 {
      var s, s1 := Slice(t), Slice(t[1..]);
      if t[0].dst in Deps(t[1..]) {
        assert s[0] == t[0] && s[1..] == s1;
        if i == 0 {
          DepsAreLiveIns(t[1..]);
          FirstReadIsEntryRead(s1, t[0].dst);
          var j: nat :| ReadsOnEntry(s1, j, t[0].dst);
          assert forall k | 0 < k < j + 1 :: s[k] == s1[k - 1];
          assert Feeds(s, 0, j + 1);
        } else {
          KeptInstructionsAreNeeded(t[1..], i - 1);
          var j: nat :| Feeds(s1, i - 1, j);
          assert forall k | 0 < k < |s| :: s[k] == s1[k - 1];
          assert Feeds(s, i, j + 1);
        }
      } else {
        KeptInstructionsAreNeeded(t[1..], i);
      }
    }
  }

  /**
   What dumpPslice hands to the replaying core: the slice, and a snapshot whose
   live registers are all that has to be restored. Whatever the instructions
   compute and whatever the other registers hold, the replay sees the recorded run.
   */
  method PreparePslice(ptrace: seq<ExecIns>, uninitialised: bool, snapshot: seq<Word>)
    returns (pslice: seq<ExecIns>, e: EntryState)
    requires ptrace != [] && |snapshot| == 17
    ensures pslice == Slice(ptrace) && pslice != [] && Last(pslice) == Last(ptrace)
    ensures e.Valid() && forall r: Reg :: e.live[r] <==> r in LiveIns(pslice)
    ensures forall r: Reg | e.live[r] :: Some(e.file[r]) == FirstRead(pslice, r)
    ensures forall exec: Semantics, f: RegFile, g: RegFile ::
              && RunsAsRecorded(exec, ptrace, f)
              && (forall r: Reg | e.live[r] && r != INVALID_ARM_REG :: g[r] == e.file[r])
              ==> RunsAsRecorded(exec, pslice, g)
  {
    pslice := GeneratePslice(ptrace, uninitialised);
    ghost var at := SlicePositions(ptrace);
    var count;
    e, count := IdentifyLiveIns(pslice, snapshot);
    forall exec: Semantics, f: RegFile, g: RegFile |
      RunsAsRecorded(exec, ptrace, f) && (forall r: Reg | e.live[r] && r != INVALID_ARM_REG :: g[r] == e.file[r])
      ensures RunsAsRecorded(exec, pslice, g)
    {
      SliceReplay(exec, ptrace, f, g);
    }
  }

  // ---------------------------------------------------------------------------
  // The record kept for a window, and the comparison of two windows
  // ---------------------------------------------------------------------------

  // An ordered set of addresses is listed in the order in which it is iterated, ascending.

  function Elements(s: seq<nat>): set<nat>
  {
    set x | x in s
  }

  function Insert(s: seq<nat>, x: nat): (r: seq<nat>)
    requires Ascending(s)
    ensures Ascending(r) && forall y :: y in r <==> y in s || y == x
  {
    if s == [] || x < s[0] then [x] + s
    else if x == s[0] then s
    else
      var r := Insert(s[1..], x);
      assert forall i | 0 <= i < |r| :: r[i] in r;
      assert forall y | y in s[1..] :: s[0] < y;
      [s[0]] + r
  }

  datatype Pslice = Pslice(
    delPC: nat, iterationNumber: nat, frequency: nat,
    ptrace: seq<ExecIns>, ptraceSet: seq<nat>, pslice: seq<ExecIns>)

  function InsertInst(p: Pslice, x: ExecIns): Pslice
    requires Ascending(p.ptraceSet)
  {
    p.(ptrace := p.ptrace + [x], ptraceSet := Insert(p.ptraceSet, x.pc))
  }

  function PcSet(t: seq<ExecIns>): set<nat>
  {
    set i | 0 <= i < |t| :: t[i].pc
  }

  /** isEqual walks both ordered sets side by side; it decides equality of the sets of PCs. */
  method IsEqual(mine: seq<nat>, other: seq<nat>) returns (same: bool)
    requires Ascending(mine) && Ascending(other)
    ensures same <==> Elements(mine) == Elements(other)
  {
    ElementCount(mine);
    ElementCount(other);
    if |mine| != |other| {
      return false;
    }
    var k := 0;
    while k < |mine|
      invariant 0 <= k <= |mine|
      invariant mine[..k] == other[..k]
    {
      if mine[k] != other[k] {
        FirstDifference(mine, other, k);
        return false;
      }
      k := k + 1;
    }
    assert mine == mine[..k] == other[..k] == other;
    return true;
  }

  lemma {:induction false} ElementCount(s: seq<nat>)
    requires Ascending(s)
    ensures |Elements(s)| == |s|
  {
    if s != [] {
      var n := |s| - 1;
      ElementCount(s[..n]);
      assert s == s[..n] + [s[n]];
      assert s[n] !in s[..n];
      assert Elements(s) == Elements(s[..n]) + {s[n]};
    }
  }

  lemma FirstDifference(a: seq<nat>, b: seq<nat>, k: nat)
    requires Ascending(a) && Ascending(b)
    requires k < |a| && k < |b| && a[..k] == b[..k] && a[k] != b[k]
    ensures Elements(a) != Elements(b)
  {
    assert forall i | 0 <= i < k :: a[i] == a[..k][i] == b[..k][i] == b[i];
    if a[k] < b[k] {
      assert a[k] in Elements(a) && a[k] !in Elements(b);
    } else {
      assert b[k] in Elements(b) && b[k] !in Elements(a);
    }
  }
}
