/** Register lists of the 16-bit Thumb multiple-register instructions, and the loops that crack them. */
module ThumbCrack {
  import opened Bits
  import opened Common
  import opened Micro
  import opened ThumbMultiple

  // ---------------------------------------------------------------------------
  // Register lists
  // ---------------------------------------------------------------------------

  predicate Bit(x: nat, i: nat) { Shr(x, i) % 2 == 1 }

  /** The registers named by the lowest `n` bits, in ascending order; bit i stands for register i + 1. */
  function RegList(x: nat, n: nat): seq<nat>
  {
    if n == 0 then [] else if Bit(x, n - 1) then RegList(x, n - 1) + [n] else RegList(x, n - 1)
  }

  lemma {:induction false} ShrNext(x: nat, i: nat)
    ensures Shr(x, i + 1) == Shr(x, i) / 2
  {
    if i > 0 { ShrNext(x / 2, i - 1); }
  }

  /** Exactly the registers whose bit is set, each once, the lowest first. */
  lemma {:induction false} RegListMeans(x: nat, n: nat)
    ensures Ascending(RegList(x, n))
    ensures forall r :: r in RegList(x, n) <==> 0 < r <= n && Bit(x, r - 1)
    ensures forall i | 0 <= i < |RegList(x, n)| :: 0 < RegList(x, n)[i] <= n
  {
    if n > 0 {
      RegListMeans(x, n - 1);
    }
  }

  function PopCount(x: nat): nat
  {
    if x == 0 then 0 else x % 2 + PopCount(x / 2)
  }

  lemma {:induction false} RegListShift(x: nat, n: nat)
    requires n > 0
    ensures |RegList(x, n)| == x % 2 + |RegList(x / 2, n - 1)|
  {
    if n == 1 {
      assert RegList(x, 0) == [];
    } else {
      RegListShift(x, n - 1);
    }
  }

  lemma {:induction false} PopCountIsLength(x: nat, n: nat)
    requires x < Pow2(n)
    ensures PopCount(x) == |RegList(x, n)|
  {
    if n > 0 {
      RegListShift(x, n);
      PopCountIsLength(x / 2, n - 1);
    }
  }

  lemma {:induction false} AndSelf(x: nat)
    ensures And(x, x) == x
  {
    if x > 0 { AndSelf(x / 2); }
  }

  /** `x &= x - 1` clears one bit. */
  lemma {:induction false} ClearLowest(x: nat)
    requires x > 0
    ensures PopCount(And(x, x - 1)) == PopCount(x) - 1
  {
    if x % 2 == 1 {
      AndSelf(x / 2);
      assert (x - 1) / 2 == x / 2;
      assert And(x, x - 1) == 2 * (x / 2);
    } else {
      ClearLowest(x / 2);
      assert (x - 1) / 2 == x / 2 - 1;
      assert And(x, x - 1) == 2 * And(x / 2, x / 2 - 1);
      DoublePopCount(And(x / 2, x / 2 - 1));
    }
  }

  lemma DoublePopCount(y: nat)
    ensures PopCount(2 * y) == PopCount(y)
  {
  }

  method CountRegisters(reglist: nat, n: nat) returns (count: nat)
    requires reglist < Pow2(n)
    ensures count == |RegList(reglist, n)|
  {
    var reglist2 := reglist;
    count := 0;
    while reglist2 != 0
      invariant count + PopCount(reglist2) == PopCount(reglist)
    {
      ClearLowest(reglist2);
      reglist2 := And(reglist2, reglist2 - 1);
      count := count + 1;
    }
    PopCountIsLength(reglist, n);
  }

  // ---------------------------------------------------------------------------
  // A register list with one more bit above it
  // ---------------------------------------------------------------------------

  /** Bit k alone, or nothing. */
  function Top(b: bool, k: nat): nat { if b then Pow2(k) else 0 }

  lemma {:induction false} ShrAbove(x: nat, k: nat, b: bool, i: nat)
    requires i <= k
    ensures Shr(x + Top(b, k), i) == Shr(x, i) + Top(b, k - i)
    decreases i
  {
    if i > 0 {
      assert (x + Top(b, k)) / 2 == x / 2 + Top(b, k - 1);
      ShrAbove(x / 2, k - 1, b, i - 1);
    }
  }

  lemma {:induction false} ShrOut(x: nat, k: nat)
    requires x < Pow2(k)
    ensures Shr(x, k) == 0
  {
    if k > 0 { ShrOut(x / 2, k - 1); }
  }

  lemma BitBelow(x: nat, k: nat, b: bool, i: nat)
    requires i < k
    ensures Bit(x + Top(b, k), i) == Bit(x, i)
  {
    ShrAbove(x, k, b, i);
    assert Top(b, k - i) == 2 * Top(b, k - i - 1);
  }

  lemma {:induction false} RegListBelow(x: nat, k: nat, b: bool, n: nat)
    requires n <= k
    ensures RegList(x + Top(b, k), n) == RegList(x, n)
    decreases n
  {
    if n > 0 {
      RegListBelow(x, k, b, n - 1);
      BitBelow(x, k, b, n - 1);
    }
  }

  lemma RegListTop(x: nat, k: nat, b: bool)
    requires x < Pow2(k)
    ensures RegList(x + Top(b, k), k + 1) == RegList(x, k) + if b then [k + 1] else []
    ensures Shr(x + Top(b, k), k) == One(b)
  {
    RegListBelow(x, k, b, k);
    ShrAbove(x, k, b, k);
    ShrOut(x, k);
    assert Pow2(0) == 1;
  }

  lemma {:induction false} RegListRoom(x: nat, k: nat, n: nat)
    requires x < Pow2(k) && k <= n
    ensures RegList(x, n) == RegList(x, k) && x < Pow2(n)
    decreases n
  {
    if k < n {
      RegListRoom(x, k, n - 1);
      ShrOut(x, n - 1);
    }
  }

  // ---------------------------------------------------------------------------
  // PUSH and POP
  // ---------------------------------------------------------------------------

  /** The low registers of an 8-bit list; always usable, and never the stack pointer. */
  function LowRegs(list: nat): (rs: seq<nat>)
    ensures Visible(rs) && NoRepeat(rs) && STACKPTR !in rs && LINK !in rs && |rs| <= 8
  {
    RegListMeans(list, 8);
    RegListLength(list, 8);
    RegList(list, 8)
  }

  lemma {:induction false} RegListLength(x: nat, n: nat)
    ensures |RegList(x, n)| <= n
  {
    if n > 0 { RegListLength(x, n - 1); }
  }

  /** PUSH: the low registers, then LR when bit 8 is set; an empty list gives no micro-ops. */
  function PushCode(bit8: bool, list: nat): (us: seq<Uop>)
  {
    var rs := LowRegs(list) + if bit8 then [LINK] else [];
    if rs == [] then [] else PushUops(rs)
  }

  /** POP: the low registers, then PC when bit 8 is set. */
  function PopCode(bit8: bool, list: nat): (us: seq<Uop>)
  {
    var rs := LowRegs(list);
    if bit8 then PopPcUops(rs) else if rs == [] then [] else PopUops(rs)
  }

  lemma {:induction false} StoreUopsSnoc(rs: seq<nat>, r: nat)
    requires Visible(rs) && 0 < r < 32
    ensures Visible(rs + [r])
    ensures StoreUops(rs + [r]) == StoreUops(rs) + [Store32(LREG_TMP1, r), Add64(LREG_TMP1, 4, LREG_TMP1)]
  {
    if rs == [] {
      assert [r][1..] == [];
      assert rs + [r] == [r];
    } else {
      StoreUopsSnoc(rs[1..], r);
      assert (rs + [r])[1..] == rs[1..] + [r];
    }
  }

  lemma PushList(bit8: bool, list: nat, reglist: nat)
    requires list < 0x100 && reglist == list + Top(bit8, 14)
    ensures reglist < Pow2(15) && Visible(RegList(reglist, 15))
    ensures RegList(reglist, 15) == LowRegs(list) + if bit8 then [LINK] else []
  {
    assert Pow2(8) == 0x100 && Pow2(15) == 2 * Pow2(14);
    RegListRoom(list, 8, 14);
    RegListTop(list, 14, bit8);
    RegListMeans(reglist, 15);
  }

  /** What has been emitted once the registers `rs` are done. */
  function PushPrefix(k: Immediate, rs: seq<nat>): seq<Uop>
    requires Visible(rs)
  {
    [Sub32(STACKPTR, k, LREG_TMP1)] + (if rs == [] then [] else [Add32(LREG_TMP1, 0, LREG_TMP1)]) + StoreUops(rs)
  }

  lemma PushPrefixSnoc(k: Immediate, rs: seq<nat>, r: nat)
    requires Visible(rs) && 0 < r < 32
    ensures Visible(rs + [r])
    ensures PushPrefix(k, rs + [r]) == PushPrefix(k, rs) + (if rs == [] then [Add32(LREG_TMP1, 0, LREG_TMP1)] else [])
                                       + [Store32(LREG_TMP1, r)] + [Add64(LREG_TMP1, 4, LREG_TMP1)]
  {
    StoreUopsSnoc(rs, r);
  }

  /** The micro-ops of one register of a PUSH. */
  method PushOne(rinst: seq<Uop>, firstuse: bool, r: nat, ghost k: Immediate, ghost done: seq<nat>)
    returns (rinst': seq<Uop>)
    requires Visible(done) && 0 < r < 32 && rinst == PushPrefix(k, done) && firstuse == (done != [])
    ensures Visible(done + [r]) && rinst' == PushPrefix(k, done + [r])
  {
    PushPrefixSnoc(k, done, r);
    rinst' := rinst;
    if !firstuse {
      rinst' := rinst' + [Add32(LREG_TMP1, 0, LREG_TMP1)];
    }
    rinst' := rinst' + [Store32(LREG_TMP1, r)] + [Add64(LREG_TMP1, 4, LREG_TMP1)];
  }

  method EmitPush(list: nat, n: nat) returns (rinst: seq<Uop>)
    requires list < Pow2(n) && Visible(RegList(list, n)) && n < 32
    ensures var rs := RegList(list, n); |rs| <= n && rinst == if rs == [] then [] else PushUops(rs)
  {
    var reglist := list;
    RegListLength(list, n);
    var count := CountRegisters(reglist, n);
    rinst := [];
    if count < 1 {
      return;
    }
    rinst := [Sub32(STACKPTR, count * 4, LREG_TMP1)];
    var firstuse := false;
    for i := 0 to n
      invariant reglist == Shr(list, i) && firstuse == (RegList(list, i) != []) && Visible(RegList(list, i))
      invariant rinst == PushPrefix(count * 4, RegList(list, i))
    {
      if reglist % 2 == 1 {
        rinst := PushOne(rinst, firstuse, i + 1, count * 4, RegList(list, i));
        firstuse := true;
      }
      ShrNext(list, i);
      reglist := reglist / 2;
    }
    rinst := rinst + [Sub32(STACKPTR, count * 4, STACKPTR)];
  }

  method CrackPush(bit8: bool, list: nat) returns (rinst: seq<Uop>)
    requires list < 0x100
    ensures rinst == PushCode(bit8, list)
  {
    var reglist := list + Top(bit8, 14);
    PushList(bit8, list, reglist);
    rinst := EmitPush(reglist, 15);
  }

  /** The registers whose bit is set in an 8-bit list, the lowest first. */
  lemma LowRegsAre(list: nat)
    ensures Ascending(LowRegs(list)) && forall r :: r in LowRegs(list) <==> 0 < r <= 8 && Bit(list, r - 1)
  {
    RegListMeans(list, 8);
  }

  /**
   What the cracked PUSH does, for every list: the listed low registers, lowest first, and above them LR when bit 8
   is set, end up in consecutive words below the old stack pointer, which comes to point at the first of them.
   */
  lemma PushCodeRun(bit8: bool, list: nat, c: Core, rs: seq<nat>) returns (c': Core)
    requires Valid(c) && rs == LowRegs(list) + (if bit8 then [LINK] else []) && 4 * |rs| <= c.rf[STACKPTR]
    ensures Valid(c') && c' == Run(c, PushCode(bit8, list))
    ensures c'.rf[STACKPTR] == c.rf[STACKPTR] - 4 * |rs| && c'.target == c.target
    ensures WordsAre(c.rf, rs, c.mem, Address(c'.rf[STACKPTR]), c'.mem)
    ensures Kept(c, Written(STACKPTR, []), c')
  {
    if rs == [] {
      c' := c;
    } else {
      c' := PushRun(c, rs);
      ValuesStored(c, rs, Address(c'.rf[STACKPTR]));
    }
  }

  lemma {:induction false} LoadUopsSnoc(rs: seq<nat>, r: nat)
    requires Visible(rs) && 0 < r < 32
    ensures Visible(rs + [r])
    ensures LoadUops(rs + [r]) == LoadUops(rs) + [Load32(LREG_TMP1, r), Add64(LREG_TMP1, 4, LREG_TMP1)]
  {
    if rs == [] {
      assert [r][1..] == [];
      assert rs + [r] == [r];
    } else {
      LoadUopsSnoc(rs[1..], r);
      assert (rs + [r])[1..] == rs[1..] + [r];
    }
  }

  lemma PopLoadsSnoc(rs: seq<nat>, r: nat)
    requires Visible(rs) && 0 < r < 32
    ensures Visible(rs + [r])
    ensures var from := if rs == [] then STACKPTR else LREG_TMP1;
            PopLoads(rs + [r]) == PopLoads(rs) + [Load32(from, r)] + [Add64(from, 4, LREG_TMP1)]
  {
    if rs == [] {
      assert [r][1..] == [];
      assert rs + [r] == [r];
    } else {
      LoadUopsSnoc(rs[1..], r);
      assert (rs + [r])[1..] == rs[1..] + [r];
    }
  }

  /** The micro-ops of one register of a POP. */
  method PopOne(rinst: seq<Uop>, firstuse: bool, r: nat, ghost done: seq<nat>) returns (rinst': seq<Uop>)
    requires Visible(done) && 0 < r < 32 && rinst == PopLoads(done) && firstuse == (done == [])
    ensures Visible(done + [r]) && rinst' == PopLoads(done + [r])
  {
    PopLoadsSnoc(done, r);
    if firstuse {
      rinst' := rinst + [Load32(STACKPTR, r)] + [Add64(STACKPTR, 4, LREG_TMP1)];
    } else {
      rinst' := rinst + [Load32(LREG_TMP1, r)] + [Add64(LREG_TMP1, 4, LREG_TMP1)];
    }
  }

  /** The loop of the POP, which leaves in `reglist` the bits above the lowest `n`. */
  method EmitPopLoads(list: nat, n: nat) returns (rinst: seq<Uop>, firstuse: bool, reglist: nat)
    requires Visible(RegList(list, n)) && n < 32
    ensures rinst == PopLoads(RegList(list, n)) && firstuse == (RegList(list, n) == []) && reglist == Shr(list, n)
  {
    rinst, firstuse, reglist := [], true, list;
    for i := 0 to n
      invariant reglist == Shr(list, i) && firstuse == (RegList(list, i) == []) && Visible(RegList(list, i))
      invariant rinst == PopLoads(RegList(list, i))
    {
      if reglist % 2 == 1 {
        rinst := PopOne(rinst, firstuse, i + 1, RegList(list, i));
        firstuse := false;
      }
      ShrNext(list, i);
      reglist := reglist / 2;
    }
  }

  lemma PopList(bit8: bool, list: nat, reglist: nat)
    requires list < 0x100 && reglist == list + Top(bit8, 15)
    ensures reglist < Pow2(16) && RegList(reglist, 15) == LowRegs(list)
    ensures |RegList(reglist, 16)| == |LowRegs(list)| + One(bit8) && Shr(reglist, 15) == One(bit8)
  {
    assert Pow2(8) == 0x100 && Pow2(16) == 2 * Pow2(15);
    RegListRoom(list, 8, 15);
    RegListBelow(list, 15, bit8, 15);
    RegListTop(list, 15, bit8);
  }

  /** What follows the loads: the new stack pointer, and with PC the load and the jump before and after it. */
  method FinishPop(loads: seq<Uop>, firstuse: bool, pc: bool, count: nat, ghost rs: seq<nat>) returns (rinst: seq<Uop>)
    requires Visible(rs) && |rs| <= 8 && count == |rs| + One(pc)
    requires loads == PopLoads(rs) && firstuse == (rs == [])
    ensures rinst == if pc then PopPcUops(rs) else PopUops(rs)
  {
    rinst := loads;
    if pc {
      if firstuse {
        rinst := rinst + [Load32(STACKPTR, LREG_TMP1)];
      } else {
        rinst := rinst + [Load32(LREG_TMP1, LREG_TMP1)];
      }
      rinst := rinst + [Add32(STACKPTR, count * 4, STACKPTR)] + InterworkUops();
    } else {
      rinst := rinst + [Add32(STACKPTR, count * 4, STACKPTR)];
    }
  }

  method CrackPop(bit8: bool, list: nat) returns (rinst: seq<Uop>)
    requires list < 0x100
    ensures rinst == PopCode(bit8, list)
  {
    var reglist := list + Top(bit8, 15);
    PopList(bit8, list, reglist);
    var count := CountRegisters(reglist, 16);
    rinst := [];
    if count < 1 {
      return;
    }
    var firstuse;
    rinst, firstuse, reglist := EmitPopLoads(reglist, 15);
    rinst := FinishPop(rinst, firstuse, reglist % 2 == 1, count, LowRegs(list));
  }

  // ---------------------------------------------------------------------------
  // The instructions against each other
  // ---------------------------------------------------------------------------

  /** What the cracked POP without PC does, for every list and whatever the stack holds. */
  lemma PopCodeRun(list: nat, c: Core, rs: seq<nat>) returns (c': Core)
    requires Valid(c) && rs == LowRegs(list) && c.rf[STACKPTR] + 4 * |rs| <= TWO32
    ensures Valid(c') && c' == Run(c, PopCode(false, list)) && c' == c.(rf := c'.rf, zero := c'.zero)
    ensures Popped(c, rs, 4 * |rs|, c'.rf) && Kept(c, Written(STACKPTR, rs), c')
  {
    if rs == [] {
      c' := c;
    } else {
      c' := PopRun(c, rs);
    }
  }

  /** And with PC: the word above the popped ones decides where control goes. */
  lemma PopPcCodeRun(list: nat, c: Core, rs: seq<nat>) returns (c': Core)
    requires Valid(c) && rs == LowRegs(list) && c.rf[STACKPTR] + 4 * |rs| + 4 <= TWO32
    ensures Valid(c') && c' == Run(c, PopCode(true, list)) && Returned(c, rs, c')
    ensures Kept(c, Written(STACKPTR, rs) + {LREG_TMP2, LREG_TTYPE}, c')
  {
    c' := PopPcRun(c, rs);
  }

  /** How many words a PUSH stores. */
  function PushCount(bit8: bool, list: nat): nat { |LowRegs(list)| + if bit8 then 1 else 0 }

  /** The listed registers and the stack pointer are as in c, control went back if asked to, and the rest is d's. */
  predicate Undone(bit8: bool, c: Core, rs: seq<nat>, d: Core, d': Core)
    requires Valid(c) && Visible(rs) && Valid(d) && Valid(d')
  {
    && Restored(c, rs, d, d')
    && Kept(d, Written(STACKPTR, rs) + (if bit8 then {LREG_TMP2, LREG_TTYPE} else {}), d')
    && (!bit8 ==> d'.target == d.target)
    && (bit8 ==> d'.target == c.rf[LINK] - c.rf[LINK] % 2)
    && (bit8 ==> d'.rf[LREG_TTYPE] == if c.rf[LINK] % 2 == 1 then d.rf[LREG_TTYPE] else 0)
  }

  /**
   Whatever list of low registers is pushed, with or without LR: the POP of that list, with or
   without PC, run from any later state whose stack is as the PUSH left it, restores the listed registers
   and the stack pointer, changes no other program register, and with PC returns to LR.
   */
  lemma PopCodeUndoesPushCode(bit8: bool, list: nat, c: Core, c1: Core, d: Core) returns (d': Core)
    requires Valid(c) && c1 == Run(c, PushCode(bit8, list))
    requires 4 * PushCount(bit8, list) <= c.rf[STACKPTR]
    requires Valid(d) && SameStack(c1, d, PushCount(bit8, list))
    ensures Valid(d') && d' == Run(d, PopCode(bit8, list)) && Undone(bit8, c, LowRegs(list), d, d')
  {
    var rs := LowRegs(list);
    if bit8 {
      d' := PopPcReturns(c, rs, c1, d);
    } else if rs == [] {
      d' := d;
    } else {
      assert rs + [] == rs;
      d' := PopUndoesPush(c, rs, c1, d);
    }
  }
}
