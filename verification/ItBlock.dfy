/**
 The conditions an IT instruction leaves for the instructions after it: the vector the crackers keep,
 and the ITSTATE byte of section A2.5.2 of ARM DDI 0406B.
 */
module ItBlocks {
  import opened Common

  const AL := 14

  /** A Thumb instruction, as far as IT blocks are concerned: IT itself, or anything else. */
  datatype Inst = IT(firstcond: nat, mask: nat) | Other

  predicate Encodable(i: Inst)
  {
    i.IT? ==> i.firstcond < 16 && 0 < i.mask < 16
  }

  // ---------------------------------------------------------------------------
  // The architecture
  // ---------------------------------------------------------------------------

  /** ITSTATE<7:5>, and the bits of ITSTATE<4:0>. */
  datatype ItState = ItState(base: nat, bit: bool, m3: bool, m2: bool, m1: bool, m0: bool)

  const CLEAR := ItState(0, false, false, false, false, false)

  predicate InBlock(it: ItState) { it.m3 || it.m2 || it.m1 || it.m0 }

  /** ITSTATE<7:4>. */
  function Upper(it: ItState): nat { 2 * it.base + One(it.bit) }

  function Condition(it: ItState): nat { if InBlock(it) then Upper(it) else AL }

  /** Cleared after the last instruction, otherwise ITSTATE<4:0> moves up by one bit. */
  function Advance(it: ItState): ItState
  {
    if !it.m2 && !it.m1 && !it.m0 then CLEAR else ItState(it.base, it.m3, it.m2, it.m1, it.m0, false)
  }

  /** ITSTATE<4:0> as a number. */
  function Low5(it: ItState): nat
  {
    16 * One(it.bit) + 8 * One(it.m3) + 4 * One(it.m2) + 2 * One(it.m1) + One(it.m0)
  }

  /** ITAdvance: ITSTATE<4:0> is shifted left by one and ITSTATE<7:5> stays, unless ITSTATE<2:0> is zero. */
  lemma AdvanceShifts(it: ItState)
    ensures Low5(it) % 8 == 0 ==> Advance(it) == CLEAR
    ensures Low5(it) % 8 != 0 ==> Low5(Advance(it)) == Low5(it) * 2 % 32 && Advance(it).base == it.base
  {
    var low := 4 * One(it.m2) + 2 * One(it.m1) + One(it.m0);
    assert Low5(it) == 8 * (2 * One(it.bit) + One(it.m3)) + low && Low5(it) % 8 == low;
    var rest := 16 * One(it.m3) + 2 * low;
    assert Low5(it) * 2 == 32 * One(it.bit) + rest && Low5(it) * 2 % 32 == rest;
  }

  /** The byte an IT instruction loads. */
  function Loaded(i: Inst): ItState
    requires i.IT?
  {
    ItState(i.firstcond / 2, i.firstcond % 2 == 1,
            i.mask / 8 % 2 == 1, i.mask / 4 % 2 == 1, i.mask / 2 % 2 == 1, i.mask % 2 == 1)
  }

  /** Inside a block an IT instruction is UNPREDICTABLE; here it then only takes its turn. */
  function ItStep(it: ItState, i: Inst): ItState
  {
    if i.IT? && !InBlock(it) then Loaded(i) else Advance(it)
  }

  /** How many instructions are left in the block. */
  function Left(it: ItState): nat
  {
    if it.m0 then 4 else if it.m1 then 3 else if it.m2 then 2 else if it.m3 then 1 else 0
  }

  /** The conditions still to come, the next one first. */
  function Coming(it: ItState): (s: seq<nat>)
    ensures |s| == Left(it)
    decreases Left(it)
  {
    if !InBlock(it) then [] else [Upper(it)] + Coming(Advance(it))
  }

  // ---------------------------------------------------------------------------
  // The crackers
  // ---------------------------------------------------------------------------

  function Reversed(s: seq<nat>): seq<nat>
  {
    if s == [] then [] else Reversed(s[1..]) + [s[0]]
  }

  /** (firstcond & 0xE) ^ bit. */
  function WithBit(firstcond: nat, bit: nat): nat { firstcond / 2 * 2 + bit }

  /** The vector with the conditions of one IT instruction pushed, the first of them last. */
  function Pushed(v: seq<nat>, firstcond: nat, mask: nat): seq<nat>
  {
    PushedWith(v, firstcond, mask,
               WithBit(firstcond, mask / 2 % 2), WithBit(firstcond, mask / 4 % 2), WithBit(firstcond, mask / 8 % 2))
  }

  function PushedWith(v: seq<nat>, firstcond: nat, mask: nat, t1: nat, t2: nat, t3: nat): seq<nat>
  {
    if mask == 8 then v + [firstcond]
    else if mask == 4 || mask == 12 then v + [t3, firstcond]
    else if mask == 2 || mask == 6 || mask == 10 || mask == 14 then v + [t2, t3, firstcond]
    else v + [t1, t2, t3, firstcond]
  }

  datatype Cracked = Cracked(vector: seq<nat>, cond: nat)

  /** One call of the cracker: take a condition if one is pending, then an unconditional IT pushes its own. */
  function Step(v: seq<nat>, i: Inst): Cracked
  {
    var cond := if v == [] then AL else v[|v| - 1];
    var rest := if v == [] then v else v[..|v| - 1];
    Cracked(if i.IT? && cond == AL then Pushed(rest, i.firstcond, i.mask) else rest, cond)
  }

  /** ITSTATE<7:4> with its lowest bit replaced. */
  function With(it: ItState, b: bool): nat { 2 * it.base + One(b) }

  /** The conditions to come, from the bits of the mask. */
  lemma ComingIs(it: ItState)
    requires InBlock(it)
    ensures Coming(it) == Listed(Upper(it), it.m2, it.m1, it.m0, With(it, it.m1), With(it, it.m2), With(it, it.m3))
  {
    var it1 := Advance(it);
    var it2 := Advance(it1);
    var it3 := Advance(it2);
    assert Coming(CLEAR) == [];
    if it.m0 {
      assert Coming(it3) == [Upper(it3)];
      assert Coming(it2) == [Upper(it2), Upper(it3)];
      assert Coming(it1) == [Upper(it1), Upper(it2), Upper(it3)];
    } else if it.m1 {
      assert Coming(it2) == [Upper(it2)];
      assert Coming(it1) == [Upper(it1), Upper(it2)];
    } else if it.m2 {
      assert Coming(it1) == [Upper(it1)];
    }
  }

  lemma ReversedCons(a: nat, s: seq<nat>)
    ensures Reversed([a] + s) == Reversed(s) + [a]
  {
    assert ([a] + s)[1..] == s;
  }

  lemma Reversed4(a: nat, b: nat, c: nat, d: nat)
    ensures Reversed([a]) == [a] && Reversed([a, b]) == [b, a] && Reversed([a, b, c]) == [c, b, a]
    ensures Reversed([a, b, c, d]) == [d, c, b, a]
  {
    ReversedCons(a, []);
    ReversedCons(b, []);
    ReversedCons(c, []);
    ReversedCons(d, []);
    ReversedCons(a, [b]);
    ReversedCons(b, [c]);
    ReversedCons(c, [d]);
    ReversedCons(a, [b, c]);
    ReversedCons(b, [c, d]);
    ReversedCons(a, [b, c, d]);
  }

  /** The conditions a mask with these bits stands for, in order. */
  function Listed(c: nat, m2: bool, m1: bool, m0: bool, t1: nat, t2: nat, t3: nat): seq<nat>
  {
    if m0 then [c, t3, t2, t1] else if m1 then [c, t3, t2] else if m2 then [c, t3] else [c]
  }

  lemma PushedListed(v: seq<nat>, c: nat, mask: nat, it: ItState, t1: nat, t2: nat, t3: nat)
    requires 0 < mask == 8 * One(it.m3) + 4 * One(it.m2) + 2 * One(it.m1) + One(it.m0)
    ensures PushedWith(v, c, mask, t1, t2, t3) == v + Reversed(Listed(c, it.m2, it.m1, it.m0, t1, t2, t3))
  {
    Reversed4(c, t3, t2, t1);
  }

  lemma PushedOf(v: seq<nat>, mask: nat, it: ItState)
    requires 0 < mask == 8 * One(it.m3) + 4 * One(it.m2) + 2 * One(it.m1) + One(it.m0)
    ensures PushedWith(v, Upper(it), mask, With(it, it.m1), With(it, it.m2), With(it, it.m3))
         == v + Reversed(Coming(it))
  {
    ComingIs(it);
    PushedListed(v, Upper(it), mask, it, With(it, it.m1), With(it, it.m2), With(it, it.m3));
  }

  lemma LoadedBits(i: Inst)
    requires Encodable(i) && i.IT?
    ensures var it := Loaded(i);
            && Upper(it) == i.firstcond && i.mask == 8 * One(it.m3) + 4 * One(it.m2) + 2 * One(it.m1) + One(it.m0)
            && With(it, it.m1) == WithBit(i.firstcond, i.mask / 2 % 2)
            && With(it, it.m2) == WithBit(i.firstcond, i.mask / 4 % 2)
            && With(it, it.m3) == WithBit(i.firstcond, i.mask / 8 % 2)
  {
    var b0, b1, b2, b3 := MaskBits(i.mask);
  }

  lemma MaskBits(mask: nat) returns (b0: nat, b1: nat, b2: nat, b3: nat)
    requires mask < 16
    ensures b0 == mask % 2 && b1 == mask / 2 % 2 && b2 == mask / 4 % 2 && b3 == mask / 8 % 2
    ensures b0 <= 1 && b1 <= 1 && b2 <= 1 && b3 <= 1 && mask == 8 * b3 + 4 * b2 + 2 * b1 + b0
  {
    b0, b1, b2, b3 := mask % 2, mask / 2 % 2, mask / 4 % 2, mask / 8 % 2;
  }

  /** What an IT instruction pushes is what ITSTATE will ask for, last condition first. */
  lemma PushedIsComing(v: seq<nat>, i: Inst)
    requires Encodable(i) && i.IT?
    ensures Pushed(v, i.firstcond, i.mask) == v + Reversed(Coming(Loaded(i)))
  {
    LoadedBits(i);
    PushedOf(v, i.mask, Loaded(i));
  }

  // ---------------------------------------------------------------------------
  // Runs
  // ---------------------------------------------------------------------------

  /** The vector holds exactly the conditions ITSTATE will ask for. */
  predicate Tracks(v: seq<nat>, it: ItState)
  {
    v == Reversed(Coming(it))
  }

  /** An IT that the cracker obeys inside a block: one met while the current condition is "always". */
  predicate Misplaced(it: ItState, i: Inst)
  {
    i.IT? && InBlock(it) && Condition(it) == AL
  }

  lemma TakeTracks(v: seq<nat>, it: ItState)
    requires Tracks(v, it)
    ensures Step(v, Other).cond == Condition(it) && Tracks(Step(v, Other).vector, Advance(it))
    ensures !InBlock(it) ==> v == []
  {
    if InBlock(it) {
      ReversedCons(Upper(it), Coming(Advance(it)));
    }
  }

  lemma ItTracks(v: seq<nat>, it: ItState, i: Inst)
    requires Tracks(v, it) && Encodable(i) && i.IT?
    ensures Step(v, i).cond == Condition(it)
    ensures Tracks(Step(v, i).vector, ItStep(it, i)) <==> !Misplaced(it, i)
  {
    TakeTracks(v, it);
    if !InBlock(it) {
      PushedIsComing([], i);
      assert [] + Reversed(Coming(Loaded(i))) == Reversed(Coming(Loaded(i)));
    } else {
      PushedLonger(Step(v, Other).vector, i.firstcond, i.mask);
    }
  }

  lemma PushedLonger(v: seq<nat>, firstcond: nat, mask: nat)
    ensures |Pushed(v, firstcond, mask)| > |v|
  {
  }

  /** A step takes the condition ITSTATE gives, and then tracks ITSTATE exactly when it is not a misplaced IT. */
  lemma StepTracks(v: seq<nat>, it: ItState, i: Inst)
    requires Tracks(v, it) && Encodable(i)
    ensures Step(v, i).cond == Condition(it)
    ensures Tracks(Step(v, i).vector, ItStep(it, i)) <==> !Misplaced(it, i)
  {
    if i.IT? {
      ItTracks(v, it, i);
    } else {
      TakeTracks(v, it);
    }
  }

  function RunVector(v: seq<nat>, code: seq<Inst>): seq<nat>
    decreases code
  {
    if code == [] then v else RunVector(Step(v, code[0]).vector, code[1..])
  }

  function RunConds(v: seq<nat>, code: seq<Inst>): seq<nat>
    decreases code
  {
    if code == [] then [] else [Step(v, code[0]).cond] + RunConds(Step(v, code[0]).vector, code[1..])
  }

  function ItRun(it: ItState, code: seq<Inst>): ItState
    decreases code
  {
    if code == [] then it else ItRun(ItStep(it, code[0]), code[1..])
  }

  function ItConds(it: ItState, code: seq<Inst>): seq<nat>
    decreases code
  {
    if code == [] then [] else [Condition(it)] + ItConds(ItStep(it, code[0]), code[1..])
  }

  /** Every IT of the run is encodable and none is misplaced. */
  predicate WellPlaced(it: ItState, code: seq<Inst>)
    decreases code
  {
    code == [] || (Encodable(code[0]) && !Misplaced(it, code[0]) && WellPlaced(ItStep(it, code[0]), code[1..]))
  }

  lemma {:induction false} RunTracks(v: seq<nat>, it: ItState, code: seq<Inst>)
    requires Tracks(v, it) && WellPlaced(it, code)
    ensures RunConds(v, code) == ItConds(it, code) && Tracks(RunVector(v, code), ItRun(it, code))
    decreases code
  {
    if code != [] {
      StepTracks(v, it, code[0]);
      RunTracks(Step(v, code[0]).vector, ItStep(it, code[0]), code[1..]);
    }
  }

  lemma {:induction false} ReversedLength(s: seq<nat>)
    ensures |Reversed(s)| == |s|
  {
    if s != [] { ReversedLength(s[1..]); }
  }

  /** From reset: every instruction gets the condition ITSTATE gives it, and at most four are ever pending. */
  lemma EveryConditionIsItstates(code: seq<Inst>)
    requires WellPlaced(CLEAR, code)
    ensures RunConds([], code) == ItConds(CLEAR, code)
    ensures |RunVector([], code)| == Left(ItRun(CLEAR, code)) <= 4
  {
    var end := ItRun(CLEAR, code);
    assert Coming(CLEAR) == [];
    RunTracks([], CLEAR, code);
    ReversedLength(Coming(end));
  }

  function Repeated(n: nat): seq<Inst>
  {
    if n == 0 then [] else [IT(AL, 1)] + Repeated(n - 1)
  }

  /** Without that placement the vector has no bound: each IT AL inside the block of the one before adds three. */
  lemma {:induction false} MisplacedItGrows(v: seq<nat>, n: nat)
    requires v != [] ==> v[|v| - 1] == AL
    ensures |RunVector(v, Repeated(n))| >= |v| + 3 * n
    decreases n
  {
    if n > 0 {
      var v' := Step(v, IT(AL, 1)).vector;
      assert Repeated(n)[1..] == Repeated(n - 1);
      MisplacedItGrows(v', n - 1);
    }
  }

  // ---------------------------------------------------------------------------
  // The cracker's vector as the code updates it
  // ---------------------------------------------------------------------------

  class ItBlock {
    var itblockVector: seq<nat>

    constructor ()
      ensures itblockVector == []
    {
      itblockVector := [];
    }

    /** The start of every 16- and 32-bit expansion. */
    method TakeCondition() returns (cond: nat)
      modifies this
      ensures var s := Step(old(itblockVector), Other); itblockVector == s.vector && cond == s.cond
    {
      cond := AL;
      if itblockVector != [] {
        cond := itblockVector[|itblockVector| - 1];
        itblockVector := itblockVector[..|itblockVector| - 1];
      }
    }

    /** A whole expansion, as far as IT blocks go. */
    method Expand(i: Inst) returns (cond: nat)
      modifies this
      ensures var s := Step(old(itblockVector), i); itblockVector == s.vector && cond == s.cond
    {
      cond := TakeCondition();
      if i.IT? && cond == AL {
        var firstcond, mask := i.firstcond, i.mask;
        if mask == 8 {
          itblockVector := itblockVector + [firstcond];
        } else if mask == 4 || mask == 12 {
          itblockVector := itblockVector + [WithBit(firstcond, mask / 8 % 2)];
          itblockVector := itblockVector + [firstcond];
        } else if mask == 2 || mask == 6 || mask == 10 || mask == 14 {
          itblockVector := itblockVector + [WithBit(firstcond, mask / 4 % 2)];
          itblockVector := itblockVector + [WithBit(firstcond, mask / 8 % 2)];
          itblockVector := itblockVector + [firstcond];
        } else {
          itblockVector := itblockVector + [WithBit(firstcond, mask / 2 % 2)];
          itblockVector := itblockVector + [WithBit(firstcond, mask / 4 % 2)];
          itblockVector := itblockVector + [WithBit(firstcond, mask / 8 % 2)];
          itblockVector := itblockVector + [firstcond];
        }
      }
    }
  }
}
