/** The 16-bit Thumb STM and LDM: what their micro-ops do, when LDM is right, and the loops that emit them. */
module ThumbBlock {
  import opened Bits
  import opened Common
  import opened Micro
  import opened ThumbMultiple
  import opened ThumbCrack

  const BUMP := Add64(LREG_TMP1, 4, LREG_TMP1)

  predicate Ordered(rs: seq<nat>)
  {
    Visible(rs) && Ascending(rs) && |rs| <= 8
  }

  function Init(rs: seq<nat>): seq<nat>
    requires rs != []
  {
    rs[..|rs| - 1]
  }

  function Last(rs: seq<nat>): nat
    requires rs != []
  {
    rs[|rs| - 1]
  }

  lemma SameElsewhere(s: seq<nat>, t: seq<nat>, i: nat, v: nat)
    requires i < |s| == |t| && s[i := v] == t[i := v]
    ensures s == t[i := s[i]]
  {
    forall j | 0 <= j < |s| ensures s[j] == t[i := s[i]][j] {
      assert s[i := v][j] == t[i := v][j];
    }
  }

  /** The last micro-op only moves LREG_TMP1. */
  lemma DropBump(c: Core, us: seq<Uop>, d: Core) returns (c': Core)
    requires Valid(c) && d == Run(c, us + [BUMP])
    ensures Valid(c') && c' == Run(c, us) && d == c'.(rf := c'.rf[LREG_TMP1 := d.rf[LREG_TMP1]], zero := d.zero)
  {
    c' := Run(c, us);
    RunSnoc(c, us, BUMP);
    var d' := Bump(c', LREG_TMP1);
  }

  // ---------------------------------------------------------------------------
  // STM
  // ---------------------------------------------------------------------------

  /** The address is copied from the base before the first store, and moved on before every later one. */
  function StmStores(rn: nat, rs: seq<nat>): (us: seq<Uop>)
    requires 0 < rn < 32 && Visible(rs)
  {
    if rs == [] then []
    else if |rs| == 1 then
      (if rs[0] == 1 then [] else [BUMP]) + [Add32(rn, 0, LREG_TMP1)] + [Store32(LREG_TMP1, rs[0])]
    else StmStores(rn, Init(rs)) + [BUMP] + [Store32(LREG_TMP1, Last(rs))]
  }

  function StmUops(rn: nat, rs: seq<nat>): (us: seq<Uop>)
    requires 0 < rn < 32 && Visible(rs) && 4 * |rs| < TWO32
  {
    StmStores(rn, rs) + [Add32(rn, 4 * |rs|, rn)]
  }

  lemma {:induction false} StmStoresAre(rn: nat, rs: seq<nat>)
    requires 0 < rn < 32 && Visible(rs) && rs != []
    ensures StmStores(rn, rs) + [BUMP]
         == (if rs[0] == 1 then [] else [BUMP]) + [Add32(rn, 0, LREG_TMP1)] + StoreUops(rs)
    decreases rs
  {
    if |rs| == 1 {
      assert rs[1..] == [];
      assert StoreUops(rs) == [Store32(LREG_TMP1, rs[0]), BUMP];
    } else {
      StmStoresAre(rn, Init(rs));
      StoreUopsSnoc(Init(rs), Last(rs));
      assert Init(rs) + [Last(rs)] == rs;
    }
  }

  lemma StmStart(c: Core, rn: nat, lead: bool) returns (c2: Core)
    requires Valid(c) && 0 < rn < 32
    ensures Valid(c2) && c2 == c.(rf := c.rf[LREG_TMP1 := c.rf[rn]], zero := c2.zero)
    ensures var us := (if lead then [BUMP] else []) + [Add32(rn, 0, LREG_TMP1)]; Run(c, us) == c2
  {
    var c1 := c;
    if lead {
      c1 := Bump(c, LREG_TMP1);
      RunOne(c, BUMP);
    }
    RunSnoc(c, if lead then [BUMP] else [], Add32(rn, 0, LREG_TMP1));
    c2 := Exec(c1, Add32(rn, 0, LREG_TMP1));
    AddNothing(c.rf[rn]);
  }

  /** The stores, and one move of the address more than STM makes. */
  lemma StmStoresBumped(c: Core, rn: nat, rs: seq<nat>) returns (e: Core)
    requires Valid(c) && 0 < rn < 32 && Visible(rs) && rs != [] && c.rf[rn] + 4 * |rs| <= TWO32
    ensures Valid(e) && e == Run(c, StmStores(rn, rs) + [BUMP])
    ensures e == c.(rf := c.rf[LREG_TMP1 := e.rf[LREG_TMP1]], zero := e.zero, mem := e.mem)
    ensures e.mem == StoreWords(c.mem, Address(c.rf[rn]), Values(c.rf, rs))
  {
    StmStoresAre(rn, rs);
    var c2 := StmStart(c, rn, rs[0] != 1);
    RunConcat(c, (if rs[0] == 1 then [] else [BUMP]) + [Add32(rn, 0, LREG_TMP1)], StoreUops(rs));
    LowOf(c.rf[rn]);
    e := StoresRun(c2, rs);
    assert Values(c2.rf, rs) == Values(c.rf, rs);
  }

  lemma LowOf(x: nat)
    requires x < TWO32
    ensures Low(x) == x
  {
  }

  lemma StmStoresRun(c: Core, rn: nat, rs: seq<nat>) returns (c': Core)
    requires Valid(c) && 0 < rn < 32 && Visible(rs) && rs != [] && c.rf[rn] + 4 * |rs| <= TWO32
    ensures Valid(c') && c' == Run(c, StmStores(rn, rs))
    ensures c' == c.(rf := c.rf[LREG_TMP1 := c'.rf[LREG_TMP1]], zero := c'.zero, mem := c'.mem)
    ensures c'.mem == StoreWords(c.mem, Address(c.rf[rn]), Values(c.rf, rs))
  {
    var e := StmStoresBumped(c, rn, rs);
    c' := DropBump(c, StmStores(rn, rs), e);
    SameElsewhere(c'.rf, c.rf, LREG_TMP1, e.rf[LREG_TMP1]);
  }

  lemma WriteBack(c: Core, rn: nat, k: nat)
    requires Valid(c) && 0 < rn < 32 && k < TWO32
    ensures Valid(Exec(c, Add32(rn, k, rn)))
    ensures var c' := Exec(c, Add32(rn, k, rn)); c' == c.(rf := c.rf[rn := Low(c.rf[rn] + k)], zero := c'.zero)
  {
    var x := c.rf[rn];
    assert Low(Halves(High(x) + k, Low(x) + k)) == Low(x + k);
    ExecValid(c, Add32(rn, k, rn));
  }

  lemma {:induction false} StmStoresWrite(rn: nat, rs: seq<nat>, ws: set<nat>)
    requires 0 < rn < 32 && Visible(rs) && LREG_TMP1 in ws
    ensures AllWriteIn(StmStores(rn, rs), ws)
    decreases rs
  {
    if |rs| > 1 { StmStoresWrite(rn, Init(rs), ws); }
  }

  lemma StmKeeps(c: Core, rn: nat, rs: seq<nat>)
    requires Valid(c) && 0 < rn < 32 && Visible(rs) && 4 * |rs| < TWO32
    ensures Kept(c, Written(rn, []), Run(c, StmUops(rn, rs)))
  {
    StmStoresWrite(rn, rs, Written(rn, []));
    RunKeeps(c, StmUops(rn, rs), Written(rn, []));
  }

  /**
   STM stores the listed registers, lowest first, in consecutive words from the base register on, with
   the value every register had before, and then moves the base past them.
   */
  lemma StmRun(c: Core, rn: nat, rs: seq<nat>) returns (c': Core)
    requires Valid(c) && 0 < rn < 32 && Visible(rs) && rs != [] && 4 * |rs| < TWO32 && c.rf[rn] + 4 * |rs| <= TWO32
    ensures Valid(c') && c' == Run(c, StmUops(rn, rs))
    ensures c'.mem == StoreWords(c.mem, Address(c.rf[rn]), Values(c.rf, rs))
    ensures c'.rf[rn] == Low(c.rf[rn] + 4 * |rs|)
    ensures c'.target == c.target && Kept(c, Written(rn, []), c')
  {
    StmKeeps(c, rn, rs);
    var d := StmStoresRun(c, rn, rs);
    RunSnoc(c, StmStores(rn, rs), Add32(rn, 4 * |rs|, rn));
    WriteBack(d, rn, 4 * |rs|);
    c' := Exec(d, Add32(rn, 4 * |rs|, rn));
  }

  function StmCode(rn: nat, list: nat): (us: seq<Uop>)
    requires 0 < rn < 32
  {
    if LowRegs(list) == [] then [] else StmUops(rn, LowRegs(list))
  }

  /**
   What the cracked STM does, for every list: the registers whose bit is set, lowest first, go to consecutive words
   from the base on, and the base moves past them; with an empty list nothing happens.
   */
  lemma StmCodeRun(c: Core, rn: nat, list: nat, rs: seq<nat>) returns (c': Core)
    requires Valid(c) && 0 < rn < 32 && rs == LowRegs(list) && c.rf[rn] + 4 * |rs| <= TWO32
    ensures Valid(c') && c' == Run(c, StmCode(rn, list))
    ensures c'.rf[rn] == Low(c.rf[rn] + 4 * |rs|) && c'.target == c.target
    ensures WordsAre(c.rf, rs, c.mem, Address(c.rf[rn]), c'.mem)
    ensures Kept(c, Written(rn, []), c')
  {
    if rs == [] {
      c' := c;
      LowOf(c.rf[rn]);
    } else {
      c' := StmRun(c, rn, rs);
      ValuesStored(c, rs, Address(c.rf[rn]));
    }
  }

  lemma StmStoresSnoc(rn: nat, rs: seq<nat>, r: nat)
    requires 0 < rn < 32 && Visible(rs) && 0 < r < 32 && (r == 1 ==> rs == [])
    ensures Visible(rs + [r])
    ensures StmStores(rn, rs + [r]) == StmStores(rn, rs) + (if r == 1 then [] else [BUMP])
                                       + (if rs == [] then [Add32(rn, 0, LREG_TMP1)] else []) + [Store32(LREG_TMP1, r)]
  {
    var all := rs + [r];
    assert rs == [] ==> all == [r];
    assert Init(all) == rs && Last(all) == r;
  }

  /** The micro-ops of one register of an STM; the address was moved on when its bit came up. */
  method StmOne(rinst: seq<Uop>, firstuse: bool, rn: nat, r: nat, ghost done: seq<nat>) returns (rinst': seq<Uop>)
    requires 0 < rn < 32 && Visible(done) && 0 < r < 32 && (r == 1 ==> done == []) && firstuse == (done != [])
    requires rinst == StmStores(rn, done) + if r == 1 then [] else [BUMP]
    ensures Visible(done + [r]) && rinst' == StmStores(rn, done + [r])
  {
    StmStoresSnoc(rn, done, r);
    rinst' := rinst;
    if !firstuse {
      rinst' := rinst' + [Add32(rn, 0, LREG_TMP1)];
    }
    rinst' := rinst' + [Store32(LREG_TMP1, r)];
  }

  /** The move of the address that is due when the next bit of the list is set. */
  function Due(us: seq<Uop>, i: nat, reglist: nat, move: Uop): seq<Uop>
  {
    if i > 0 && reglist % 2 == 1 then us + [move] else us
  }

  method EmitStmStores(rn: nat, list: nat, n: nat) returns (rinst: seq<Uop>)
    requires 0 < rn < 32 && n < 32 && list < Pow2(n) && Visible(RegList(list, n))
    ensures rinst == StmStores(rn, RegList(list, n))
  {
    rinst := [];
    var reglist, firstuse := list, false;
    for i := 0 to n
      invariant reglist == Shr(list, i) && firstuse == (RegList(list, i) != []) && Visible(RegList(list, i))
      invariant rinst == Due(StmStores(rn, RegList(list, i)), i, reglist, BUMP)
    {
      if reglist % 2 == 1 {
        rinst := StmOne(rinst, firstuse, rn, i + 1, RegList(list, i));
        firstuse := true;
      }
      ShrNext(list, i);
      reglist := reglist / 2;
      if reglist != 0 && reglist % 2 == 1 {
        rinst := rinst + [BUMP];
      }
    }
    ShrOut(list, n);
  }

  lemma ByteList(list: nat)
    requires list < 0x100
    ensures list < Pow2(8) && RegList(list, 8) == LowRegs(list)
    ensures LowRegs(list) == [] <==> list == 0
  {
    assert Pow2(8) == 0x100;
    PopCountIsLength(list, 8);
    PopCountPositive(list);
  }

  lemma {:induction false} PopCountPositive(x: nat)
    ensures PopCount(x) == 0 <==> x == 0
  {
    if x > 0 { PopCountPositive(x / 2); }
  }

  /** The registers of an 8-bit list, counted. */
  method CountLow(list: nat) returns (count: nat)
    requires list < 0x100
    ensures count == |LowRegs(list)| && (count == 0 <==> list == 0)
  {
    ByteList(list);
    count := CountRegisters(list, 8);
  }

  method EmitStmLow(rn: nat, list: nat) returns (rinst: seq<Uop>)
    requires 0 < rn <= 8 && list < 0x100
    ensures rinst == StmStores(rn, LowRegs(list))
  {
    ByteList(list);
    rinst := EmitStmStores(rn, list, 8);
  }

  method CrackStm(rn: nat, list: nat) returns (rinst: seq<Uop>)
    requires 0 < rn <= 8 && list < 0x100
    ensures rinst == StmCode(rn, list)
  {
    var count := CountLow(list);
    rinst := [];
    if list < 1 {
      return;
    }
    rinst := EmitStmLow(rn, list);
    rinst := FinishStm(rinst, rn, count, LowRegs(list));
  }

  method FinishStm(stores: seq<Uop>, rn: nat, count: nat, ghost rs: seq<nat>) returns (rinst: seq<Uop>)
    requires 0 < rn < 32 && Visible(rs) && |rs| <= 8 && stores == StmStores(rn, rs) && count == |rs|
    ensures rinst == StmUops(rn, rs)
  {
    rinst := stores + [Add32(rn, count * 4, rn)];
  }

  // ---------------------------------------------------------------------------
  // LDM
  // ---------------------------------------------------------------------------

  /** Where the address of the next load is computed from: the base, until a register other than R0 was loaded. */
  function MoveFrom(rn: Reg, rs: seq<nat>): Uop
  {
    Add64(if rs == [] || rs == [1] then rn else LREG_TMP1, 4, LREG_TMP1)
  }

  function LdmLoads(rn: nat, rs: seq<nat>): (us: seq<Uop>)
    requires 0 < rn < 32 && Visible(rs)
  {
    if rs == [] then [] else if rs == [1] then [Load32(rn, 1)]
    else LdmLoads(rn, Init(rs)) + [MoveFrom(rn, Init(rs))] + [Load32(LREG_TMP1, Last(rs))]
  }

  function LdmUops(rn: nat, rs: seq<nat>): (us: seq<Uop>)
    requires 0 < rn < 32 && Visible(rs) && 4 * |rs| < TWO32
  {
    LdmLoads(rn, rs) + if rn in rs then [] else [Add32(rn, 4 * |rs|, rn)]
  }

  /** With R0 first, the loads start at the base. */
  lemma {:induction false} LdmLoadsWithR0(rn: nat, rs: seq<nat>)
    requires 0 < rn < 32 && Ordered(rs) && |rs| > 1 && rs[0] == 1
    ensures LdmLoads(rn, rs) + [BUMP] == [Load32(rn, 1), Add64(rn, 4, LREG_TMP1)] + LoadUops(rs[1..])
    decreases rs
  {
    var init := Init(rs);
    if |rs| == 2 {
      assert init == [1] && rs[1..] == [rs[1]] && rs[1..][1..] == [];
    } else {
      assert init[1] != 1 && init != [1];
      LdmLoadsWithR0(rn, init);
      LoadUopsSnoc(init[1..], Last(rs));
      assert init[1..] + [Last(rs)] == rs[1..];
    }
  }

  /** Without R0 the address moves on before the first load already. */
  lemma {:induction false} LdmLoadsWithoutR0(rn: nat, rs: seq<nat>)
    requires 0 < rn < 32 && Ordered(rs) && rs != [] && rs[0] != 1
    ensures LdmLoads(rn, rs) + [BUMP] == [Add64(rn, 4, LREG_TMP1)] + LoadUops(rs)
    decreases rs
  {
    var init := Init(rs);
    if |rs| == 1 {
      assert init == [] && rs[1..] == [];
    } else {
      assert init[0] != 1;
      LdmLoadsWithoutR0(rn, init);
      LoadUopsSnoc(init, Last(rs));
      assert init + [Last(rs)] == rs;
    }
  }

  /** Without the last move of the address the loaded registers are the same. */
  lemma DropBumpFilled(c: Core, us: seq<Uop>, e: Core, a: int, rs: seq<nat>) returns (c': Core)
    requires Valid(c) && Valid(e) && e == Run(c, us + [BUMP]) && Visible(rs)
    requires e == c.(rf := e.rf, zero := e.zero) && Filled(c.rf, c.mem, a, rs, e.rf)
    ensures Valid(c') && c' == Run(c, us) && c' == c.(rf := c'.rf, zero := c'.zero)
    ensures Filled(c.rf, c.mem, a, rs, c'.rf)
  {
    c' := DropBump(c, us, e);
    FilledTmp(c.rf, c.mem, a, rs, c'.rf, c.rf[LREG_TMP1], e.rf[LREG_TMP1]);
    assert c.rf[LREG_TMP1 := c.rf[LREG_TMP1]] == c.rf;
  }

  lemma LdmRunWithR0(c: Core, rn: nat, rs: seq<nat>) returns (c': Core)
    requires Valid(c) && 1 < rn < 32 && Ordered(rs) && rs != [] && rs[0] == 1 && c.rf[rn] + 4 * |rs| < TWO32
    ensures Valid(c') && c' == Run(c, LdmLoads(rn, rs)) && c' == c.(rf := c'.rf, zero := c'.zero)
    ensures Filled(c.rf, c.mem, Address(c.rf[rn]), rs, c'.rf)
  {
    if |rs| == 1 {
      assert rs == [1];
      c' := LoadOne(c, rn, 1);
      RunOne(c, Load32(rn, 1));
    } else {
      LdmLoadsWithR0(rn, rs);
      var e := LoadsThrough(c, rn, rs);
      c' := DropBumpFilled(c, LdmLoads(rn, rs), e, Address(c.rf[rn]), rs);
    }
  }

  lemma LdmBumpedWithoutR0(c: Core, rn: nat, rs: seq<nat>) returns (e: Core)
    requires Valid(c) && 0 < rn < 32 && Ordered(rs) && rs != [] && rs[0] != 1 && c.rf[rn] + 4 * |rs| + 4 < TWO32
    ensures Valid(e) && e == Run(c, LdmLoads(rn, rs) + [BUMP]) && e == c.(rf := e.rf, zero := e.zero)
    ensures Filled(c.rf, c.mem, Address(c.rf[rn]) + 4, rs, e.rf)
  {
    LdmLoadsWithoutR0(rn, rs);
    var d := MoveFirst(c, rn, LoadUops(rs));
    e := LoadsRun(d, rs);
    FilledTmp(c.rf, c.mem, Address(c.rf[rn]) + 4, rs, e.rf, d.rf[LREG_TMP1], e.rf[LREG_TMP1]);
    assert e.rf[LREG_TMP1 := e.rf[LREG_TMP1]] == e.rf;
  }

  lemma MoveFirst(c: Core, rn: nat, us: seq<Uop>) returns (d: Core)
    requires Valid(c) && 0 < rn < 32 && c.rf[rn] + 4 < TWO32
    ensures Valid(d) && Run(c, [Add64(rn, 4, LREG_TMP1)] + us) == Run(d, us)
    ensures d == c.(rf := c.rf[LREG_TMP1 := d.rf[LREG_TMP1]], zero := d.zero)
    ensures var t := d.rf[LREG_TMP1]; Low(t) == c.rf[rn] + 4 && Address(t) == Address(c.rf[rn]) + 4
  {
    LowOf(c.rf[rn]);
    d := Bump(c, rn);
    RunConcat(c, [Add64(rn, 4, LREG_TMP1)], us);
    RunOne(c, Add64(rn, 4, LREG_TMP1));
  }

  lemma LdmRunWithoutR0(c: Core, rn: nat, rs: seq<nat>) returns (c': Core)
    requires Valid(c) && 0 < rn < 32 && Ordered(rs) && rs != [] && rs[0] != 1 && c.rf[rn] + 4 * |rs| + 4 < TWO32
    ensures Valid(c') && c' == Run(c, LdmLoads(rn, rs)) && c' == c.(rf := c'.rf, zero := c'.zero)
    ensures Filled(c.rf, c.mem, Address(c.rf[rn]) + 4, rs, c'.rf)
  {
    var e := LdmBumpedWithoutR0(c, rn, rs);
    c' := DropBumpFilled(c, LdmLoads(rn, rs), e, Address(c.rf[rn]) + 4, rs);
  }

  /** The registers hold the words from `a` on, and a base that was not loaded is past the words. */
  predicate LoadedFrom(c: Core, rn: nat, rs: seq<nat>, a: int, rf': seq<nat>)
    requires Valid(c) && 0 < rn < 32 && Visible(rs) && |rf'| == LREG_SCLAST
  {
    && (forall i | 0 <= i < |rs| :: rf'[rs[i]] == Load(c.mem, a + 4 * i))
    && (rn !in rs ==> rf'[rn] == Low(c.rf[rn] + 4 * |rs|))
    && (forall r | 0 <= r < 32 && r !in rs && r != rn :: rf'[r] == c.rf[r])
  }

  /** What the architecture asks of LDM. */
  predicate LdmRight(c: Core, rn: nat, rs: seq<nat>, rf': seq<nat>)
    requires Valid(c) && 0 < rn < 32 && Visible(rs) && |rf'| == LREG_SCLAST
  {
    LoadedFrom(c, rn, rs, Address(c.rf[rn]), rf')
  }

  lemma {:induction false} LdmLoadsWrite(rn: nat, rs: seq<nat>, ws: set<nat>)
    requires 0 < rn < 32 && Visible(rs) && LREG_TMP1 in ws && forall i | 0 <= i < |rs| :: rs[i] in ws
    ensures AllWriteIn(LdmLoads(rn, rs), ws)
    decreases rs
  {
    if rs != [] {
      assert rs[|rs| - 1] in ws;
      if rs != [1] { LdmLoadsWrite(rn, Init(rs), ws); }
    }
  }

  /** Right or wrong, LDM writes only the base, LREG_TMP1 and the listed registers. */
  lemma LdmKeeps(c: Core, rn: nat, rs: seq<nat>)
    requires Valid(c) && 0 < rn < 32 && Visible(rs) && 4 * |rs| < TWO32
    ensures Kept(c, Written(rn, rs), Run(c, LdmUops(rn, rs)))
  {
    LdmLoadsWrite(rn, rs, Written(rn, rs));
    RunKeeps(c, LdmUops(rn, rs), Written(rn, rs));
  }

  lemma FilledLoaded(c: Core, rn: nat, rs: seq<nat>, a: int, rf: seq<nat>)
    requires Valid(c) && 0 < rn < 32 && Visible(rs) && |rf| == LREG_SCLAST && Filled(c.rf, c.mem, a, rs, rf)
    ensures rn in rs ==> LoadedFrom(c, rn, rs, a, rf)
    ensures rn !in rs ==> rf[rn] == c.rf[rn] && LoadedFrom(c, rn, rs, a, rf[rn := Low(c.rf[rn] + 4 * |rs|)])
  {
  }

  lemma LdmFinish(c: Core, rn: nat, rs: seq<nat>, a: int, d: Core) returns (c': Core)
    requires Valid(c) && 0 < rn < 32 && Visible(rs) && 4 * |rs| < TWO32 && Valid(d)
    requires d == Run(c, LdmLoads(rn, rs)) && d == c.(rf := d.rf, zero := d.zero)
    requires Filled(c.rf, c.mem, a, rs, d.rf)
    ensures Valid(c') && c' == Run(c, LdmUops(rn, rs)) && c' == c.(rf := c'.rf, zero := c'.zero)
    ensures LoadedFrom(c, rn, rs, a, c'.rf)
  {
    FilledLoaded(c, rn, rs, a, d.rf);
    if rn in rs {
      assert LdmLoads(rn, rs) + [] == LdmLoads(rn, rs);
      c' := d;
    } else {
      c' := LdmWriteBack(c, rn, rs, d);
    }
  }

  lemma LdmWriteBack(c: Core, rn: nat, rs: seq<nat>, d: Core) returns (c': Core)
    requires Valid(c) && 0 < rn < 32 && Visible(rs) && 4 * |rs| < TWO32 && Valid(d)
    requires d == Run(c, LdmLoads(rn, rs)) && rn !in rs
    ensures Valid(c') && c' == Run(c, LdmUops(rn, rs))
    ensures c' == d.(rf := d.rf[rn := Low(d.rf[rn] + 4 * |rs|)], zero := c'.zero)
  {
    RunSnoc(c, LdmLoads(rn, rs), Add32(rn, 4 * |rs|, rn));
    WriteBack(d, rn, 4 * |rs|);
    c' := Exec(d, Add32(rn, 4 * |rs|, rn));
  }

  /** When R0 is loaded, and is not also the base of a longer list. */
  predicate LdmWorks(rn: nat, rs: seq<nat>)
  {
    1 in rs && (rn != 1 || rs == [1])
  }

  lemma FirstIsR0(rs: seq<nat>)
    requires Ordered(rs) && rs != []
    ensures 1 in rs <==> rs[0] == 1
  {
  }

  lemma LdmWhenRight(c: Core, rn: nat, rs: seq<nat>) returns (c': Core)
    requires Valid(c) && 0 < rn < 32 && Ordered(rs) && LdmWorks(rn, rs) && c.rf[rn] + 4 * |rs| < TWO32
    ensures Valid(c') && c' == Run(c, LdmUops(rn, rs)) && c' == c.(rf := c'.rf, zero := c'.zero)
    ensures LdmRight(c, rn, rs, c'.rf)
    ensures Kept(c, Written(rn, rs), c')
  {
    LdmKeeps(c, rn, rs);
    FirstIsR0(rs);
    var d;
    if rn == 1 {
      d := LoadOne(c, 1, 1);
      RunOne(c, Load32(1, 1));
    } else {
      d := LdmRunWithR0(c, rn, rs);
    }
    c' := LdmFinish(c, rn, rs, Address(c.rf[rn]), d);
  }

  /** The address after a load of R0 through R0 comes from the word just loaded. */
  lemma ClobberStart(c: Core, us: seq<Uop>) returns (d: Core)
    requires Valid(c) && Load(c.mem, Address(c.rf[1])) + 4 < TWO32
    ensures Valid(d) && Run(c, [Load32(1, 1), Add64(1, 4, LREG_TMP1)] + us) == Run(d, us) && d.mem == c.mem
    ensures var w, t := Load(c.mem, Address(c.rf[1])), d.rf[LREG_TMP1];
            Low(t) == w + 4 && Address(t) == Address(w) + 4
  {
    RunTwo(c, Load32(1, 1), Add64(1, 4, LREG_TMP1), us);
    var c1 := LoadOne(c, 1, 1);
    LowOf(Load(c.mem, Address(c.rf[1])));
    d := Bump(c1, 1);
  }

  /** With R0 as base of a longer list, the second register is loaded from the word after the one R0 just got. */
  lemma LdmClobbered(c: Core, rs: seq<nat>) returns (c': Core)
    requires Valid(c) && Ordered(rs) && |rs| > 1 && rs[0] == 1
    requires Load(c.mem, Address(c.rf[1])) + 4 * |rs| < TWO32
    ensures Valid(c') && c' == Run(c, LdmUops(1, rs))
    ensures c'.rf[rs[1]] == Load(c.mem, Address(Load(c.mem, Address(c.rf[1]))) + 4)
  {
    var rest := rs[1..];
    LdmLoadsWithR0(1, rs);
    var d := ClobberStart(c, LoadUops(rest));
    var e := LoadsRun(d, rest);
    c' := DropBump(c, LdmLoads(1, rs), e);
    assert rest[0] == rs[1];
    assert e.rf[rest[0]] == Load(c.mem, Address(d.rf[LREG_TMP1]) + 4 * 0);
    assert LdmLoads(1, rs) + [] == LdmLoads(1, rs);
  }

  /** The base points at the words 8 and 9. */
  predicate Telling(c: Core, rn: nat)
    requires 0 < rn < 32
  {
    && Valid(c) && c.rf[rn] == 0x1000
    && Load(c.mem, 0x1000) == 8 && Load(c.mem, 0x1004) == 9 && Load(c.mem, 12) == 0
  }

  lemma Witness(rn: nat) returns (c: Core)
    requires 0 < rn < 32
    ensures Telling(c, rn)
  {
    var m := StoreWords(map[], 0x1000, [8, 9]);
    WordsRoundTrip(map[], 0x1000, [8, 9]);
    assert LoadWords(m, 0x1000, 2) == [8, 9];
    assert Load(m, 0x1000 + 4 * 0) == 8 && Load(m, 0x1000 + 4 * 1) == 9;
    StoreWordsBelow(map[], 0x1000, [8, 9], 12);
    StoredBytes(map[], 0x1000, [8, 9]);
    c := Core(seq(LREG_SCLAST, r => if r == rn then 0x1000 else 0), seq(LREG_SCLAST, r => false), m, 0);
  }

  lemma {:induction false} StoredBytes(m: map<int, nat>, a: int, vs: seq<nat>)
    requires forall b | b in m :: m[b] < 256
    ensures forall b | b in StoreWords(m, a, vs) :: StoreWords(m, a, vs)[b] < 256
    decreases vs
  {
    if vs != [] {
      StoredBytes(Store(m, a, vs[0]), a + 4, vs[1..]);
    }
  }

  /** Without R0 in the list, every register gets the word after its own. */
  lemma LdmOffByOne(c: Core, rn: nat, rs: seq<nat>) returns (c': Core)
    requires Valid(c) && 0 < rn < 32 && Ordered(rs) && rs != [] && rs[0] != 1 && c.rf[rn] + 4 * |rs| + 4 < TWO32
    ensures Valid(c') && c' == Run(c, LdmUops(rn, rs)) && LoadedFrom(c, rn, rs, Address(c.rf[rn]) + 4, c'.rf)
  {
    var d := LdmRunWithoutR0(c, rn, rs);
    c' := LdmFinish(c, rn, rs, Address(c.rf[rn]) + 4, d);
  }

  lemma WrongWithoutR0(c: Core, rn: nat, rs: seq<nat>)
    requires 0 < rn < 32 && Ordered(rs) && rs != [] && rs[0] != 1 && Telling(c, rn)
    ensures !LdmRight(c, rn, rs, Run(c, LdmUops(rn, rs)).rf)
  {
    assert Address(0x1000) == 0x1000;
    var c' := LdmOffByOne(c, rn, rs);
    assert c'.rf[rs[0]] == Load(c.mem, 0x1004 + 4 * 0) != Load(c.mem, 0x1000 + 4 * 0);
  }

  lemma WrongClobbered(c: Core, rs: seq<nat>)
    requires Ordered(rs) && |rs| > 1 && rs[0] == 1 && Telling(c, 1)
    ensures !LdmRight(c, 1, rs, Run(c, LdmUops(1, rs)).rf)
  {
    assert Address(0x1000) == 0x1000 && Address(8) == 8;
    var c' := LdmClobbered(c, rs);
    assert c'.rf[rs[1]] == 0 != Load(c.mem, 0x1000 + 4 * 1);
  }

  lemma LdmWhenWrong(rn: nat, rs: seq<nat>) returns (c: Core)
    requires 0 < rn < 32 && Ordered(rs) && rs != [] && !LdmWorks(rn, rs)
    ensures Valid(c) && c.rf[rn] + 4 * |rs| < TWO32 && !LdmRight(c, rn, rs, Run(c, LdmUops(rn, rs)).rf)
  {
    FirstIsR0(rs);
    c := Witness(rn);
    if rs[0] != 1 {
      WrongWithoutR0(c, rn, rs);
    } else {
      assert |rs| == 1 ==> rs == [1];
      WrongClobbered(c, rs);
    }
  }

  /** LDM does what the architecture asks of it in every state exactly when R0 is loaded and is not the base of more. */
  lemma LdmRightIff(rn: nat, rs: seq<nat>)
    requires 0 < rn < 32 && Ordered(rs) && rs != []
    ensures LdmWorks(rn, rs) <==>
            forall c | Valid(c) && c.rf[rn] + 4 * |rs| < TWO32 :: LdmRight(c, rn, rs, Run(c, LdmUops(rn, rs)).rf)
  {
    if LdmWorks(rn, rs) {
      forall c | Valid(c) && c.rf[rn] + 4 * |rs| < TWO32 ensures LdmRight(c, rn, rs, Run(c, LdmUops(rn, rs)).rf) {
        var c' := LdmWhenRight(c, rn, rs);
      }
    } else {
      var c := LdmWhenWrong(rn, rs);
    }
  }

  function LdmCode(rn: nat, list: nat): (us: seq<Uop>)
    requires 0 < rn < 32
  {
    if LowRegs(list) == [] then [] else LdmUops(rn, LowRegs(list))
  }

  /** The list has R0, and R0 is not the base of more. */
  predicate LdmListWorks(rn: nat, list: nat) { Bit(list, 0) && (rn != 1 || list == 1) }

  lemma OnlyBit0(list: nat)
    requires list < 0x100
    ensures LowRegs(list) == [1] <==> list == 1
  {
    ByteList(list);
    PopCountIsLength(list, 8);
    PopCountPositive(list / 2);
    LowRegsAre(list);
    if LowRegs(list) == [1] {
      assert 1 in LowRegs(list);
      assert Bit(list, 0);
    }
    if list == 1 {
      assert Bit(1, 0) && 1 in LowRegs(1);
      assert LowRegs(1)[0] == 1;
    }
  }

  lemma ListWorks(rn: nat, list: nat)
    requires list < 0x100
    ensures LdmListWorks(rn, list) <==> LdmWorks(rn, LowRegs(list))
  {
    LowRegsAre(list);
    OnlyBit0(list);
  }

  lemma LowOrdered(list: nat)
    ensures Ordered(LowRegs(list))
  {
    LowRegsAre(list);
  }

  /**
   What the cracked LDM does, for every non-empty list with R0 that R0 is not the base of: the registers whose bit is
   set, lowest first, get consecutive words from the base on, and a base that is not loaded moves past them.
   */
  lemma LdmCodeRun(c: Core, rn: nat, list: nat, rs: seq<nat>) returns (c': Core)
    requires Valid(c) && 0 < rn < 32 && list < 0x100 && LdmListWorks(rn, list)
    requires rs == LowRegs(list) && c.rf[rn] + 4 * |rs| < TWO32
    ensures Valid(c') && c' == Run(c, LdmCode(rn, list)) && c' == c.(rf := c'.rf, zero := c'.zero)
    ensures LdmRight(c, rn, rs, c'.rf) && Kept(c, Written(rn, rs), c')
  {
    ListWorks(rn, list);
    LowOrdered(list);
    c' := LdmWhenRight(c, rn, rs);
  }

  /** And without R0: every register gets the word after its own. */
  lemma LdmCodeOffByOne(c: Core, rn: nat, list: nat, rs: seq<nat>) returns (c': Core)
    requires Valid(c) && 0 < rn < 32 && 0 < list < 0x100 && !Bit(list, 0)
    requires rs == LowRegs(list) && c.rf[rn] + 4 * |rs| + 4 < TWO32
    ensures Valid(c') && c' == Run(c, LdmCode(rn, list)) && LoadedFrom(c, rn, rs, Address(c.rf[rn]) + 4, c'.rf)
    ensures Kept(c, Written(rn, rs), c')
  {
    ByteList(list);
    LowOrdered(list);
    LowRegsAre(list);
    assert rs[0] in rs;
    LdmKeeps(c, rn, rs);
    c' := LdmOffByOne(c, rn, rs);
  }

  /** The cracked LDM is right in every state exactly for those lists. */
  lemma LdmCodeRightIff(rn: nat, list: nat)
    requires 0 < rn < 32 && 0 < list < 0x100
    ensures LdmListWorks(rn, list) <==>
            forall c | Valid(c) && c.rf[rn] + 4 * |LowRegs(list)| < TWO32 ::
              LdmRight(c, rn, LowRegs(list), Run(c, LdmCode(rn, list)).rf)
  {
    ByteList(list);
    LowOrdered(list);
    ListWorks(rn, list);
    LdmRightIff(rn, LowRegs(list));
  }

  predicate OnlyR0(rs: seq<nat>) { rs == [] || rs == [1] }

  /** The micro-op of one register of an LDM. */
  method LdmOne(rinst: seq<Uop>, firstuse: bool, rn: nat, r: nat, ghost done: seq<nat>) returns (rinst': seq<Uop>)
    requires 0 < rn < 32 && Visible(done) && 0 < r < 32 && (r == 1 ==> done == []) && firstuse == (r != 1)
    requires rinst == LdmLoads(rn, done) + if r == 1 then [] else [MoveFrom(rn, done)]
    ensures Visible(done + [r]) && rinst' == LdmLoads(rn, done + [r])
  {
    ghost var all := done + [r];
    assert Init(all) == done && Last(all) == r && (all == [1] <==> r == 1);
    if !firstuse {
      rinst' := rinst + [Load32(rn, r)];
    } else {
      rinst' := rinst + [Load32(LREG_TMP1, r)];
    }
  }

  /** The move of the address before the next register. */
  method LdmMove(rinst: seq<Uop>, firstuse: bool, rn: Reg, ghost done: seq<nat>) returns (rinst': seq<Uop>)
    requires firstuse == !OnlyR0(done)
    ensures rinst' == rinst + [MoveFrom(rn, done)]
  {
    if !firstuse {
      rinst' := rinst + [Add64(rn, 4, LREG_TMP1)];
    } else {
      rinst' := rinst + [Add64(LREG_TMP1, 4, LREG_TMP1)];
    }
  }

  /** What the LDM loop keeps: the loads so far, and the move of the address when the next bit is set. */
  predicate LdmKept(rn: nat, done: seq<nat>, i: nat, reglist: nat, firstuse: bool, rinst: seq<Uop>)
    requires 0 < rn < 32
  {
    && Visible(done) && (i == 0 ==> done == [])
    && firstuse == (!OnlyR0(done) || (i > 0 && reglist % 2 == 1))
    && rinst == Due(LdmLoads(rn, done), i, reglist, MoveFrom(rn, done))
  }

  /** The load for bit i, when it is set. */
  method LdmBit(rn: nat, ghost done: seq<nat>, i: nat, reglist: nat, firstuse: bool, rinst: seq<Uop>)
    returns (rinst': seq<Uop>)
    requires 0 < rn < 32 && i < 31 && LdmKept(rn, done, i, reglist, firstuse, rinst)
    ensures var done' := if reglist % 2 == 1 then done + [i + 1] else done;
            Visible(done') && rinst' == LdmLoads(rn, done') && firstuse == !OnlyR0(done')
  {
    rinst' := rinst;
    if reglist % 2 == 1 {
      rinst' := LdmOne(rinst, firstuse, rn, i + 1, done);
      LastOnly(done, i + 1);
    }
  }

  method EmitLdmLoads(rn: nat, list: nat, n: nat) returns (rinst: seq<Uop>)
    requires 0 < rn < 32 && n < 32 && list < Pow2(n) && Visible(RegList(list, n))
    ensures rinst == LdmLoads(rn, RegList(list, n))
  {
    rinst := [];
    var reglist, firstuse := list, false;
    for i := 0 to n
      invariant reglist == Shr(list, i) && LdmKept(rn, RegList(list, i), i, reglist, firstuse, rinst)
    {
      rinst := LdmBit(rn, RegList(list, i), i, reglist, firstuse, rinst);
      ShrNext(list, i);
      reglist := reglist / 2;
      if reglist != 0 && reglist % 2 == 1 {
        rinst := LdmMove(rinst, firstuse, rn, RegList(list, i + 1));
        firstuse := true;
      }
    }
    ShrOut(list, n);
  }

  lemma LastOnly(rs: seq<nat>, r: nat)
    ensures OnlyR0(rs + [r]) <==> rs == [] && r == 1
  {
    assert (rs + [r])[|rs|] == r && |rs + [r]| == |rs| + 1;
  }

  lemma InLow(list: nat, r: nat)
    requires 0 < r <= 8
    ensures r in LowRegs(list) <==> Bit(list, r - 1)
  {
    RegListMeans(list, 8);
  }

  method EmitLdmLow(rn: nat, list: nat) returns (rinst: seq<Uop>)
    requires 0 < rn <= 8 && list < 0x100
    ensures rinst == LdmLoads(rn, LowRegs(list))
  {
    ByteList(list);
    rinst := EmitLdmLoads(rn, list, 8);
  }

  /** The write-back, unless the base was loaded. */
  method FinishLdm(loads: seq<Uop>, rn: nat, loaded: bool, count: nat, ghost rs: seq<nat>) returns (rinst: seq<Uop>)
    requires 0 < rn < 32 && Visible(rs) && |rs| <= 8 && loads == LdmLoads(rn, rs)
    requires loaded == (rn in rs) && count == |rs|
    ensures rinst == LdmUops(rn, rs)
  {
    rinst := loads;
    if !loaded {
      rinst := rinst + [Add32(rn, count * 4, rn)];
    }
  }

  method CrackLdm(rn: nat, list: nat) returns (rinst: seq<Uop>)
    requires 0 < rn <= 8 && list < 0x100
    ensures rinst == LdmCode(rn, list)
  {
    var count := CountLow(list);
    rinst := [];
    if list < 1 {
      return;
    }
    rinst := EmitLdmLow(rn, list);
    InLow(list, rn);
    rinst := FinishLdm(rinst, rn, Bit(list, rn - 1), count, LowRegs(list));
  }
}
