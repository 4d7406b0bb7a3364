/**
 The micro-op machine, as far as the cracked Thumb PUSH, POP, STM and LDM
 instructions use it, and runs of stores and loads on it.
 */
module Micro {
  import opened Bits
  import opened Common

  // Register numbers of the micro-op machine: R0..R15 are 1..16, register 0 is always zero.
  const STACKPTR := 14
  const LINK := 15
  const LREG_TMP1 := 76
  const LREG_TMP2 := 77
  const LREG_TTYPE := 85
  const LREG_SCLAST := 86

  const TWO64 := 0x1_0000_0000_0000_0000

  type Reg = r: nat | r < LREG_SCLAST
  type Immediate = i: nat | i < TWO64

  datatype Uop =
    | Sub32(src: Reg, imm: Immediate, dst: Reg)
    | Add32(src: Reg, imm: Immediate, dst: Reg)
    | Add64(src: Reg, imm: Immediate, dst: Reg)
    | And64(src: Reg, imm: Immediate, dst: Reg)
    | CopyIcc(flags: Reg, src: Reg, dst: Reg)
    | CmovNe(src: Reg, other: Reg, dst: Reg)
    | Store32(addr: Reg, data: Reg)
    | Load32(addr: Reg, dst: Reg)
    | JmpReg(src: Reg)

  /** Registers, the zero flag kept beside each register, byte memory, and where the last jump went. */
  datatype Core = Core(rf: seq<nat>, zero: seq<bool>, mem: map<int, nat>, target: int)

  predicate Valid(c: Core)
  {
    && |c.rf| == |c.zero| == LREG_SCLAST && c.rf[0] == 0
    && (forall r | 0 <= r < |c.rf| :: c.rf[r] < TWO64)
    && (forall r | 0 <= r < 32 :: c.rf[r] < TWO32)
    && (forall a | a in c.mem :: c.mem[a] < 256)
  }

  function Low(x: nat): nat { x % TWO32 }
  function High(x: nat): nat { x / TWO32 }

  /** setDst: register 0 is not written, program-visible registers keep 32 bits, and the flag goes with the register. */
  function SetDst(c: Core, r: nat, v: nat, z: bool): Core
    requires Valid(c) && r < LREG_SCLAST
  {
    if r == 0 then c else c.(rf := c.rf[r := if r < 32 then Low(v) else v], zero := c.zero[r := z])
  }

  function Byte(m: map<int, nat>, a: int): nat { if a in m then m[a] else 0 }

  function Load(m: map<int, nat>, a: int): nat
  {
    Byte(m, a) + 0x100 * Byte(m, a + 1) + 0x1_0000 * Byte(m, a + 2) + 0x100_0000 * Byte(m, a + 3)
  }

  function Store(m: map<int, nat>, a: int, v: nat): map<int, nat>
  {
    m[a := v % 0x100][a + 1 := v / 0x100 % 0x100][a + 2 := v / 0x1_0000 % 0x100][a + 3 := v / 0x100_0000 % 0x100]
  }

  /** The address a memory micro-op uses: the low word of the register with bit 0 cleared. */
  function Address(x: nat): nat { Low(x) - Low(x) % 2 }

  /** The two halves of a register are added or subtracted separately, each in 32 bits. */
  function Halves(hi: int, lo: int): nat { TWO32 * (hi % TWO32) + lo % TWO32 }

  function Exec(c: Core, u: Uop): Core
    requires Valid(c)
  {
    match u
    case Sub32(src, imm, dst) =>
      SetDst(c, dst, Halves(High(c.rf[src]) - imm, Low(c.rf[src]) - imm), (Low(c.rf[src]) - imm) % TWO32 == 0)
    case Add32(src, imm, dst) =>
      SetDst(c, dst, Halves(High(c.rf[src]) + imm, Low(c.rf[src]) + imm), (Low(c.rf[src]) + imm) % TWO32 == 0)
    case Add64(src, imm, dst) => SetDst(c, dst, (c.rf[src] + imm) % TWO64, (c.rf[src] + imm) % TWO64 == 0)
    case And64(src, imm, dst) => SetDst(c, dst, And(c.rf[src], imm), And(c.rf[src], imm) == 0)
    case CopyIcc(flags, src, dst) => SetDst(c, dst, c.rf[src], c.zero[flags])
    case CmovNe(src, other, dst) =>
      var from := if c.zero[src] then other else src;
      SetDst(c, dst, c.rf[from], c.zero[from])
    case Store32(addr, data) => c.(mem := Store(c.mem, Address(c.rf[addr]), Low(c.rf[data])))
    case Load32(addr, dst) => SetDst(c, dst, Load(c.mem, Address(c.rf[addr])), false)
    case JmpReg(src) => c.(target := c.rf[src])
  }

  lemma ExecValid(c: Core, u: Uop)
    requires Valid(c)
    ensures Valid(Exec(c, u))
  {
    match u
    case Load32(addr, dst) => LoadBelow(c.mem, Address(c.rf[addr]));
    case _ =>
  }

  lemma LoadBelow(m: map<int, nat>, a: int)
    requires forall b | b in m :: m[b] < 256
    ensures Load(m, a) < TWO32
  {
  }

  function Run(c: Core, us: seq<Uop>): (c': Core)
    requires Valid(c)
    ensures Valid(c')
    decreases us
  {
    if us == [] then c else
    ExecValid(c, us[0]);
    Run(Exec(c, us[0]), us[1..])
  }

  lemma {:induction false} RunConcat(c: Core, us: seq<Uop>, vs: seq<Uop>)
    requires Valid(c)
    ensures Run(c, us + vs) == Run(Run(c, us), vs)
    decreases us
  {
    if us == [] {
      assert us + vs == vs;
    } else {
      ExecValid(c, us[0]);
      assert (us + vs)[1..] == us[1..] + vs;
      RunConcat(Exec(c, us[0]), us[1..], vs);
    }
  }

  /** The micro-op has no destination, or one in ws. */
  predicate WritesIn(u: Uop, ws: set<nat>)
  {
    u.Store32? || u.JmpReg? || u.dst in ws
  }

  predicate AllWriteIn(us: seq<Uop>, ws: set<nat>)
  {
    forall i | 0 <= i < |us| :: WritesIn(us[i], ws)
  }

  /** Registers outside ws keep their values and their flags. */
  predicate Kept(c: Core, ws: set<nat>, c': Core)
    requires Valid(c) && Valid(c')
  {
    forall r | 0 <= r < LREG_SCLAST && r !in ws :: c'.rf[r] == c.rf[r] && c'.zero[r] == c.zero[r]
  }

  /** A run changes no register, and no flag, that is not the destination of one of its micro-ops. */
  lemma {:induction false} RunKeeps(c: Core, us: seq<Uop>, ws: set<nat>)
    requires Valid(c) && AllWriteIn(us, ws)
    ensures Kept(c, ws, Run(c, us))
    decreases us
  {
    if us != [] {
      assert WritesIn(us[0], ws);
      ExecValid(c, us[0]);
      RunKeeps(Exec(c, us[0]), us[1..], ws);
    }
  }

  // ---------------------------------------------------------------------------
  // Words in memory
  // ---------------------------------------------------------------------------

  lemma LoadStore(m: map<int, nat>, a: int, v: nat)
    requires v < TWO32
    ensures Load(Store(m, a, v), a) == v
  {
    var m' := Store(m, a, v);
    assert Byte(m', a) == v % 0x100 && Byte(m', a + 1) == v / 0x100 % 0x100;
    assert Byte(m', a + 2) == v / 0x1_0000 % 0x100 && Byte(m', a + 3) == v / 0x100_0000 % 0x100;
    BytesMakeWord(v);
  }

  lemma BytesMakeWord(v: nat)
    requires v < TWO32
    ensures v % 0x100 + 0x100 * (v / 0x100 % 0x100) + 0x1_0000 * (v / 0x1_0000 % 0x100)
            + 0x100_0000 * (v / 0x100_0000 % 0x100) == v
  {
    var q1 := v / 0x100;
    var q2 := q1 / 0x100;
    var q3 := q2 / 0x100;
    assert v / 0x1_0000 == q2 && v / 0x100_0000 == q3 && q3 < 0x100;
  }

  lemma LoadOther(m: map<int, nat>, a: int, v: nat, b: int)
    requires b + 4 <= a || a + 4 <= b
    ensures Load(Store(m, a, v), b) == Load(m, b)
  {
  }

  function StoreWords(m: map<int, nat>, a: int, vs: seq<nat>): map<int, nat>
    decreases vs
  {
    if vs == [] then m else StoreWords(Store(m, a, vs[0]), a + 4, vs[1..])
  }

  function LoadWords(m: map<int, nat>, a: int, n: nat): (vs: seq<nat>)
    ensures |vs| == n && forall j | 0 <= j < n :: vs[j] == Load(m, a + 4 * j)
  {
    seq(n, j => Load(m, a + 4 * j))
  }

  lemma {:induction false} StoreWordsBelow(m: map<int, nat>, a: int, vs: seq<nat>, b: int)
    requires b + 4 <= a
    ensures Load(StoreWords(m, a, vs), b) == Load(m, b)
    decreases vs
  {
    if vs != [] {
      StoreWordsBelow(Store(m, a, vs[0]), a + 4, vs[1..], b);
      LoadOther(m, a, vs[0], b);
    }
  }

  /** Bytes outside the stored words stay. */
  lemma {:induction false} StoreWordsOutside(m: map<int, nat>, a: int, vs: seq<nat>, b: int)
    requires b < a || a + 4 * |vs| <= b
    ensures Byte(StoreWords(m, a, vs), b) == Byte(m, b)
    decreases vs
  {
    if vs != [] { StoreWordsOutside(Store(m, a, vs[0]), a + 4, vs[1..], b); }
  }

  /** Memory m' has the values of the registers in consecutive words from a on, and is otherwise m. */
  ghost predicate WordsAre(rf: seq<nat>, rs: seq<nat>, m: map<int, nat>, a: int, m': map<int, nat>)
    requires forall i | 0 <= i < |rs| :: rs[i] < |rf|
  {
    && (forall i | 0 <= i < |rs| :: Load(m', a + 4 * i) == rf[rs[i]])
    && (forall b | b < a || a + 4 * |rs| <= b :: Byte(m', b) == Byte(m, b))
  }

  /** Words stored one after the other read back as stored. */
  lemma {:induction false} WordsRoundTrip(m: map<int, nat>, a: int, vs: seq<nat>)
    requires forall i | 0 <= i < |vs| :: vs[i] < TWO32
    ensures LoadWords(StoreWords(m, a, vs), a, |vs|) == vs
    decreases vs
  {
    if vs != [] {
      var m1 := Store(m, a, vs[0]);
      WordsRoundTrip(m1, a + 4, vs[1..]);
      StoreWordsBelow(m1, a + 4, vs[1..], a);
      LoadStore(m, a, vs[0]);
      var all := LoadWords(StoreWords(m, a, vs), a, |vs|);
      var rest := LoadWords(StoreWords(m1, a + 4, vs[1..]), a + 4, |vs| - 1);
      forall j | 0 <= j < |vs| ensures all[j] == vs[j] {
        if j > 0 { assert all[j] == rest[j - 1] == vs[1..][j - 1]; }
      }
    }
  }

  // ---------------------------------------------------------------------------
  // Runs of stores and loads through LREG_TMP1
  // ---------------------------------------------------------------------------

  /** Program-visible registers, apart from the hardwired zero. */
  predicate Visible(rs: seq<nat>)
  {
    forall i | 0 <= i < |rs| :: 0 < rs[i] < 32
  }

  function StoreUops(rs: seq<nat>): (us: seq<Uop>)
    requires Visible(rs)
  {
    if rs == [] then []
    else [Store32(LREG_TMP1, rs[0]), Add64(LREG_TMP1, 4, LREG_TMP1)] + StoreUops(rs[1..])
  }

  function LoadUops(rs: seq<nat>): (us: seq<Uop>)
    requires Visible(rs)
  {
    if rs == [] then []
    else [Load32(LREG_TMP1, rs[0]), Add64(LREG_TMP1, 4, LREG_TMP1)] + LoadUops(rs[1..])
  }

  lemma {:induction false} StoreUopsWrite(rs: seq<nat>, ws: set<nat>)
    requires Visible(rs) && LREG_TMP1 in ws
    ensures AllWriteIn(StoreUops(rs), ws)
  {
    if rs != [] { StoreUopsWrite(rs[1..], ws); }
  }

  lemma {:induction false} LoadUopsWrite(rs: seq<nat>, ws: set<nat>)
    requires Visible(rs) && LREG_TMP1 in ws && forall i | 0 <= i < |rs| :: rs[i] in ws
    ensures AllWriteIn(LoadUops(rs), ws)
  {
    if rs != [] { LoadUopsWrite(rs[1..], ws); }
  }

  function Values(rf: seq<nat>, rs: seq<nat>): (vs: seq<nat>)
    requires |rf| == LREG_SCLAST && Visible(rs)
    ensures |vs| == |rs| && forall i | 0 <= i < |rs| :: vs[i] == Low(rf[rs[i]])
  {
    seq(|rs|, i requires 0 <= i < |rs| => Low(rf[rs[i]]))
  }

  lemma NextAddress(x: nat)
    requires x < TWO64 && Low(x) + 4 < TWO32
    ensures Low((x + 4) % TWO64) == Low(x) + 4 && Address((x + 4) % TWO64) == Address(x) + 4
  {
    var q := x / TWO32;
    assert x == q * TWO32 + Low(x) && x + 4 < TWO64;
  }

  lemma RunTwo(c: Core, u: Uop, v: Uop, us: seq<Uop>)
    requires Valid(c)
    ensures Valid(Exec(c, u)) && Valid(Exec(Exec(c, u), v))
    ensures Run(c, [u, v] + us) == Run(Exec(Exec(c, u), v), us)
  {
    ExecValid(c, u);
    ExecValid(Exec(c, u), v);
    var all := [u, v] + us;
    assert all[1..][1..] == us && all[1..][0] == v;
  }

  lemma StoreStep(c: Core, r: nat, us: seq<Uop>) returns (c2: Core)
    requires Valid(c) && 0 < r < 32
    ensures Valid(c2)
    ensures Run(c, [Store32(LREG_TMP1, r), Add64(LREG_TMP1, 4, LREG_TMP1)] + us) == Run(c2, us)
    ensures var t, t' := c.rf[LREG_TMP1], c2.rf[LREG_TMP1];
            && c2 == c.(rf := c.rf[LREG_TMP1 := t'], zero := c2.zero, mem := Store(c.mem, Address(t), Low(c.rf[r])))
            && (Low(t) + 4 < TWO32 ==> Low(t') == Low(t) + 4 && Address(t') == Address(t) + 4)
  {
    RunTwo(c, Store32(LREG_TMP1, r), Add64(LREG_TMP1, 4, LREG_TMP1), us);
    c2 := Bump(Exec(c, Store32(LREG_TMP1, r)), LREG_TMP1);
  }

  /** The stores write the registers' low words to consecutive words of memory, and change only LREG_TMP1 besides. */
  lemma {:induction false} StoresRun(c: Core, rs: seq<nat>) returns (c': Core)
    requires Valid(c) && Visible(rs) && Low(c.rf[LREG_TMP1]) + 4 * |rs| <= TWO32
    ensures Valid(c') && c' == Run(c, StoreUops(rs))
    ensures c' == c.(rf := c.rf[LREG_TMP1 := c'.rf[LREG_TMP1]], zero := c'.zero, mem := c'.mem)
    ensures c'.mem == StoreWords(c.mem, Address(c.rf[LREG_TMP1]), Values(c.rf, rs))
    decreases rs
  {
    if rs == [] {
      c' := c;
      assert c.rf[LREG_TMP1 := c.rf[LREG_TMP1]] == c.rf;
    } else {
      var c2 := StoreStep(c, rs[0], StoreUops(rs[1..]));
      if |rs| > 1 {
        c' := StoresRun(c2, rs[1..]);
      } else {
        assert StoreUops(rs[1..]) == [];
        c' := c2;
      }
      assert Values(c2.rf, rs[1..]) == Values(c.rf, rs)[1..];
    }
  }

  lemma LoadOne(c: Core, addr: nat, r: nat) returns (c1: Core)
    requires Valid(c) && addr < LREG_SCLAST && 0 < r < LREG_SCLAST
    ensures Valid(c1) && c1 == Exec(c, Load32(addr, r))
    ensures c1 == c.(rf := c.rf[r := Load(c.mem, Address(c.rf[addr]))], zero := c1.zero)
  {
    c1 := Exec(c, Load32(addr, r));
    ExecValid(c, Load32(addr, r));
    LoadBelow(c.mem, Address(c.rf[addr]));
  }

  lemma Bump(c: Core, addr: nat) returns (c1: Core)
    requires Valid(c) && addr < LREG_SCLAST
    ensures Valid(c1) && c1 == Exec(c, Add64(addr, 4, LREG_TMP1))
    ensures c1 == c.(rf := c.rf[LREG_TMP1 := c1.rf[LREG_TMP1]], zero := c1.zero)
    ensures var t, t' := c.rf[addr], c1.rf[LREG_TMP1];
            Low(t) + 4 < TWO32 ==> Low(t') == Low(t) + 4 && Address(t') == Address(t) + 4
  {
    c1 := Exec(c, Add64(addr, 4, LREG_TMP1));
    ExecValid(c, Add64(addr, 4, LREG_TMP1));
    if Low(c.rf[addr]) + 4 < TWO32 {
      NextAddress(c.rf[addr]);
    }
  }

  /** One load through `addr` and the step of the address after it. */
  lemma LoadStep(c: Core, addr: nat, r: nat, us: seq<Uop>) returns (c2: Core)
    requires Valid(c) && addr < LREG_SCLAST && 0 < r < LREG_SCLAST && r != addr
    ensures Valid(c2)
    ensures Run(c, [Load32(addr, r), Add64(addr, 4, LREG_TMP1)] + us) == Run(c2, us)
    ensures var t, t' := c.rf[addr], c2.rf[LREG_TMP1];
            && c2 == c.(rf := c.rf[r := Load(c.mem, Address(t))][LREG_TMP1 := t'], zero := c2.zero)
            && (Low(t) + 4 < TWO32 ==> Low(t') == Low(t) + 4 && Address(t') == Address(t) + 4)
  {
    RunTwo(c, Load32(addr, r), Add64(addr, 4, LREG_TMP1), us);
    var c1 := LoadOne(c, addr, r);
    c2 := Bump(c1, addr);
  }

  /** Registers `rs` hold the words from `a` on; the others, apart from LREG_TMP1, are as they were. */
  predicate Filled(rf: seq<nat>, m: map<int, nat>, a: int, rs: seq<nat>, rf': seq<nat>)
    requires |rf| == |rf'| == LREG_SCLAST && Visible(rs)
  {
    && (forall i | 0 <= i < |rs| :: rf'[rs[i]] == Load(m, a + 4 * i))
    && (forall r | 0 <= r < LREG_SCLAST && r !in rs && r != LREG_TMP1 :: rf'[r] == rf[r])
  }

  /** LREG_TMP1 plays no part in it. */
  lemma FilledTmp(rf: seq<nat>, m: map<int, nat>, a: int, rs: seq<nat>, rf': seq<nat>, t: nat, t': nat)
    requires |rf| == |rf'| == LREG_SCLAST && Visible(rs)
    ensures Filled(rf[LREG_TMP1 := t], m, a, rs, rf'[LREG_TMP1 := t']) <==> Filled(rf, m, a, rs, rf')
  {
    var x, y := rf[LREG_TMP1 := t], rf'[LREG_TMP1 := t'];
    assert forall r | 0 <= r < LREG_SCLAST && r != LREG_TMP1 :: x[r] == rf[r] && y[r] == rf'[r];
  }

  lemma FilledCons(rf: seq<nat>, m: map<int, nat>, a: int, rs: seq<nat>, t: nat, rf': seq<nat>)
    requires |rf| == |rf'| == LREG_SCLAST && Visible(rs) && rs != [] && NoRepeat(rs)
    requires Filled(rf[rs[0] := Load(m, a)][LREG_TMP1 := t], m, a + 4, rs[1..], rf')
    ensures Filled(rf, m, a, rs, rf')
  {
    var tail := rs[1..];
    assert rs[0] !in tail;
    forall i | 0 <= i < |rs| ensures rf'[rs[i]] == Load(m, a + 4 * i) {
      if i > 0 {
        assert rf'[tail[i - 1]] == Load(m, a + 4 + 4 * (i - 1));
      }
    }
  }

  /** The loads fill the registers from consecutive words of memory, and change no other register but LREG_TMP1. */
  lemma {:induction false} LoadsRun(c: Core, rs: seq<nat>) returns (c': Core)
    requires Valid(c) && Visible(rs) && NoRepeat(rs) && Low(c.rf[LREG_TMP1]) + 4 * |rs| <= TWO32
    ensures Valid(c') && c' == Run(c, LoadUops(rs)) && c' == c.(rf := c'.rf, zero := c'.zero)
    ensures Filled(c.rf, c.mem, Address(c.rf[LREG_TMP1]), rs, c'.rf)
    ensures var t, n := c.rf[LREG_TMP1], 4 * |rs|; Low(t) + n < TWO32 ==> Low(c'.rf[LREG_TMP1]) == Low(t) + n
    decreases rs
  {
    if rs == [] {
      c' := c;
    } else {
      var c2 := LoadStep(c, LREG_TMP1, rs[0], LoadUops(rs[1..]));
      if |rs| > 1 {
        c' := LoadsRun(c2, rs[1..]);
      } else {
        assert LoadUops(rs[1..]) == [];
        c' := c2;
      }
      FilledCons(c.rf, c.mem, Address(c.rf[LREG_TMP1]), rs, c2.rf[LREG_TMP1], c'.rf);
    }
  }
}
