/** The micro-op sequences into which the 16-bit Thumb PUSH and POP are cracked, and what running them does. */
module ThumbMultiple {
  import opened Bits
  import opened Common
  import opened Micro

  // ---------------------------------------------------------------------------
  // What the sequences do
  // ---------------------------------------------------------------------------

  function PushUops(rs: seq<nat>): (us: seq<Uop>)
    requires Visible(rs) && 4 * |rs| < TWO32
  {
    [Sub32(STACKPTR, 4 * |rs|, LREG_TMP1), Add32(LREG_TMP1, 0, LREG_TMP1)] + StoreUops(rs)
    + [Sub32(STACKPTR, 4 * |rs|, STACKPTR)]
  }

  /** The first load goes through the stack pointer, the later ones through LREG_TMP1. */
  function PopLoads(rs: seq<nat>): (us: seq<Uop>)
    requires Visible(rs)
  {
    if rs == [] then []
    else [Load32(STACKPTR, rs[0]), Add64(STACKPTR, 4, LREG_TMP1)] + LoadUops(rs[1..])
  }

  function PopUops(rs: seq<nat>): (us: seq<Uop>)
    requires Visible(rs) && 4 * |rs| < TWO32
  {
    PopLoads(rs) + [Add32(STACKPTR, 4 * |rs|, STACKPTR)]
  }

  /** The jump: bit 0 of the popped word selects the instruction set and is cleared from the target. */
  function InterworkUops(): (us: seq<Uop>)
  {
    [And64(LREG_TMP1, 1, LREG_TMP2), CopyIcc(LREG_TMP2, LREG_TTYPE, LREG_TMP2), CmovNe(LREG_TMP2, 0, LREG_TTYPE),
     And64(LREG_TMP1, TWO64 - 2, LREG_TMP1), JmpReg(LREG_TMP1)]
  }

  function PopPcUops(rs: seq<nat>): (us: seq<Uop>)
    requires Visible(rs) && 4 * |rs| + 4 < TWO32
  {
    PopLoads(rs) + [Load32(if rs == [] then STACKPTR else LREG_TMP1, LREG_TMP1)]
    + [Add32(STACKPTR, 4 * |rs| + 4, STACKPTR)] + InterworkUops()
  }

  /** What a multiple-register instruction writes: the base, LREG_TMP1 and the loaded registers. */
  function Written(base: nat, rs: seq<nat>): (ws: set<nat>)
    ensures base in ws && LREG_TMP1 in ws && forall i | 0 <= i < |rs| :: rs[i] in ws
  {
    {base, LREG_TMP1} + set r | r in rs
  }

  lemma PushKeeps(c: Core, rs: seq<nat>)
    requires Valid(c) && Visible(rs) && 4 * |rs| < TWO32
    ensures Kept(c, Written(STACKPTR, []), Run(c, PushUops(rs)))
  {
    StoreUopsWrite(rs, Written(STACKPTR, []));
    RunKeeps(c, PushUops(rs), Written(STACKPTR, []));
  }

  lemma PopLoadsWrite(rs: seq<nat>, ws: set<nat>)
    requires Visible(rs) && LREG_TMP1 in ws && forall i | 0 <= i < |rs| :: rs[i] in ws
    ensures AllWriteIn(PopLoads(rs), ws)
  {
    if rs != [] { LoadUopsWrite(rs[1..], ws); }
  }

  lemma PopKeeps(c: Core, rs: seq<nat>)
    requires Valid(c) && Visible(rs) && 4 * |rs| < TWO32
    ensures Kept(c, Written(STACKPTR, rs), Run(c, PopUops(rs)))
  {
    PopLoadsWrite(rs, Written(STACKPTR, rs));
    RunKeeps(c, PopUops(rs), Written(STACKPTR, rs));
  }

  lemma PopPcKeeps(c: Core, rs: seq<nat>)
    requires Valid(c) && Visible(rs) && 4 * |rs| + 4 < TWO32
    ensures Kept(c, Written(STACKPTR, rs) + {LREG_TMP2, LREG_TTYPE}, Run(c, PopPcUops(rs)))
  {
    var ws := Written(STACKPTR, rs) + {LREG_TMP2, LREG_TTYPE};
    PopLoadsWrite(rs, ws);
    RunKeeps(c, PopPcUops(rs), ws);
  }

  lemma SubLow(x: nat, k: nat)
    requires k <= x < TWO32
    ensures Low(Halves(High(x) - k, Low(x) - k)) == x - k
  {
  }

  lemma AddNothing(x: nat)
    requires x < TWO64
    ensures Halves(High(x), Low(x)) == x
  {
  }

  lemma {:induction false} PushStart(c: Core, k: nat) returns (c2: Core)
    requires Valid(c) && k <= c.rf[STACKPTR]
    ensures Valid(c2) && Low(c2.rf[LREG_TMP1]) == c.rf[STACKPTR] - k
    ensures c2 == c.(rf := c.rf[LREG_TMP1 := c2.rf[LREG_TMP1]], zero := c2.zero)
    ensures Run(c, [Sub32(STACKPTR, k, LREG_TMP1), Add32(LREG_TMP1, 0, LREG_TMP1)]) == c2
  {
    var u, v := Sub32(STACKPTR, k, LREG_TMP1), Add32(LREG_TMP1, 0, LREG_TMP1);
    RunTwo(c, u, v, []);
    c2 := Exec(Exec(c, u), v);
    assert [u, v] + [] == [u, v];
    SubLow(c.rf[STACKPTR], k);
    AddNothing(Exec(c, u).rf[LREG_TMP1]);
  }

  lemma LowerSp(c: Core, k: nat)
    requires Valid(c) && k <= c.rf[STACKPTR]
    ensures Valid(Exec(c, Sub32(STACKPTR, k, STACKPTR)))
    ensures var c' := Exec(c, Sub32(STACKPTR, k, STACKPTR));
            c' == c.(rf := c.rf[STACKPTR := c.rf[STACKPTR] - k], zero := c'.zero)
  {
    SubLow(c.rf[STACKPTR], k);
    ExecValid(c, Sub32(STACKPTR, k, STACKPTR));
  }

  lemma RunSnoc(c: Core, us: seq<Uop>, u: Uop)
    requires Valid(c)
    ensures Run(c, us + [u]) == Exec(Run(c, us), u)
  {
    RunConcat(c, us, [u]);
    RunOne(Run(c, us), u);
  }

  lemma RunOne(c: Core, u: Uop)
    requires Valid(c)
    ensures Run(c, [u]) == Exec(c, u)
  {
    ExecValid(c, u);
    assert [u][1..] == [];
  }

  lemma SameAddress(x: nat, y: nat)
    requires Low(x) == y
    ensures Address(x) == Address(y)
  {
    assert Low(y) == y;
  }

  lemma PushSequence(c: Core, rs: seq<nat>) returns (c2: Core, c3: Core)
    requires Valid(c) && Visible(rs) && 4 * |rs| <= c.rf[STACKPTR]
    ensures Valid(c2) && Low(c2.rf[LREG_TMP1]) == c.rf[STACKPTR] - 4 * |rs|
    ensures c2 == c.(rf := c.rf[LREG_TMP1 := c2.rf[LREG_TMP1]], zero := c2.zero)
    ensures Valid(c3) && c3 == Run(c2, StoreUops(rs))
    ensures Run(c, PushUops(rs)) == Exec(c3, Sub32(STACKPTR, 4 * |rs|, STACKPTR))
  {
    var start := [Sub32(STACKPTR, 4 * |rs|, LREG_TMP1), Add32(LREG_TMP1, 0, LREG_TMP1)];
    c2 := PushStart(c, 4 * |rs|);
    c3 := Run(c2, StoreUops(rs));
    RunConcat(c, start, StoreUops(rs));
    RunSnoc(c, start + StoreUops(rs), Sub32(STACKPTR, 4 * |rs|, STACKPTR));
  }

  /** The registers are in consecutive words that end below the old stack pointer, and it points at the first. */
  predicate Pushed(c: Core, rs: seq<nat>, c': Core)
    requires Valid(c) && Visible(rs) && Valid(c')
  {
    && c'.rf[STACKPTR] == c.rf[STACKPTR] - 4 * |rs|
    && c'.mem == StoreWords(c.mem, Address(c'.rf[STACKPTR]), Values(c.rf, rs))
    && c'.target == c.target
  }

  /** PUSH stores the registers in the order of the list and lowers the stack pointer. */
  lemma PushRun(c: Core, rs: seq<nat>) returns (c': Core)
    requires Valid(c) && Visible(rs) && 4 * |rs| <= c.rf[STACKPTR]
    ensures Valid(c') && c' == Run(c, PushUops(rs)) && Pushed(c, rs, c') && Kept(c, Written(STACKPTR, []), c')
  {
    PushKeeps(c, rs);
    c' := PushEffect(c, rs);
  }

  lemma PushEffect(c: Core, rs: seq<nat>) returns (c': Core)
    requires Valid(c) && Visible(rs) && 4 * |rs| <= c.rf[STACKPTR]
    ensures Valid(c') && c' == Run(c, PushUops(rs)) && Pushed(c, rs, c')
  {
    var c2, c3 := PushSequence(c, rs);
    var c3' := StoresRun(c2, rs);
    LowerSp(c3, 4 * |rs|);
    SameAddress(c2.rf[LREG_TMP1], c.rf[STACKPTR] - 4 * |rs|);
    assert Values(c2.rf, rs) == Values(c.rf, rs);
    c' := Exec(c3, Sub32(STACKPTR, 4 * |rs|, STACKPTR));
  }

  // ---------------------------------------------------------------------------
  // POP
  // ---------------------------------------------------------------------------

  /** Loads whose first address is another register than LREG_TMP1. */
  lemma LoadsThrough(c: Core, addr: nat, rs: seq<nat>) returns (c': Core)
    requires Valid(c) && 0 < addr < 32 && Visible(rs) && NoRepeat(rs) && rs != [] && rs[0] != addr
    requires c.rf[addr] + 4 * |rs| <= TWO32
    ensures Valid(c') && c' == Run(c, [Load32(addr, rs[0]), Add64(addr, 4, LREG_TMP1)] + LoadUops(rs[1..]))
    ensures c' == c.(rf := c'.rf, zero := c'.zero) && Filled(c.rf, c.mem, Address(c.rf[addr]), rs, c'.rf)
    ensures c.rf[addr] + 4 * |rs| < TWO32 ==> Low(c'.rf[LREG_TMP1]) == c.rf[addr] + 4 * |rs|
  {
    assert Low(c.rf[addr]) == c.rf[addr];
    var d := LoadStep(c, addr, rs[0], LoadUops(rs[1..]));
    if |rs| > 1 {
      c' := LoadsRun(d, rs[1..]);
    } else {
      assert LoadUops(rs[1..]) == [];
      c' := d;
    }
    FilledCons(c.rf, c.mem, Address(c.rf[addr]), rs, d.rf[LREG_TMP1], c'.rf);
  }

  lemma AddressPast(t: nat, sp: nat, n: nat)
    requires sp < TWO32 && sp + 4 * n < TWO32 && Low(t) == sp + 4 * n
    ensures Address(t) == Address(sp) + 4 * n
  {
    assert Low(sp) == sp && (sp + 4 * n) % 2 == sp % 2;
  }

  lemma PopLoadsRun(c: Core, rs: seq<nat>) returns (c': Core)
    requires Valid(c) && Visible(rs) && NoRepeat(rs) && STACKPTR !in rs && c.rf[STACKPTR] + 4 * |rs| <= TWO32
    ensures Valid(c') && c' == Run(c, PopLoads(rs)) && c' == c.(rf := c'.rf, zero := c'.zero)
    ensures Filled(c.rf, c.mem, Address(c.rf[STACKPTR]), rs, c'.rf)
    ensures rs != [] && c.rf[STACKPTR] + 4 * |rs| < TWO32 ==>
              Address(c'.rf[LREG_TMP1]) == Address(c.rf[STACKPTR]) + 4 * |rs|
  {
    if rs == [] {
      c' := c;
    } else {
      c' := LoadsThrough(c, STACKPTR, rs);
      if c.rf[STACKPTR] + 4 * |rs| < TWO32 {
        AddressPast(c'.rf[LREG_TMP1], c.rf[STACKPTR], |rs|);
      }
    }
  }

  lemma RaiseSp(c: Core, k: nat)
    requires Valid(c) && k < TWO32
    ensures Valid(Exec(c, Add32(STACKPTR, k, STACKPTR)))
    ensures var c' := Exec(c, Add32(STACKPTR, k, STACKPTR));
            c' == c.(rf := c.rf[STACKPTR := Low(c.rf[STACKPTR] + k)], zero := c'.zero)
  {
    var x := c.rf[STACKPTR];
    assert Low(Halves(High(x) + k, Low(x) + k)) == Low(x + k);
    ExecValid(c, Add32(STACKPTR, k, STACKPTR));
  }

  /** After a POP: the registers hold the words from the stack pointer on, which is past them. */
  predicate Popped(c: Core, rs: seq<nat>, k: nat, rf': seq<nat>)
    requires Valid(c) && Visible(rs) && STACKPTR !in rs && |rf'| == LREG_SCLAST
  {
    && rf'[STACKPTR] == Low(c.rf[STACKPTR] + k)
    && (forall i | 0 <= i < |rs| :: rf'[rs[i]] == Load(c.mem, Address(c.rf[STACKPTR]) + 4 * i))
    && (forall r | 0 <= r < 32 && r !in rs && r != STACKPTR :: rf'[r] == c.rf[r])
  }

  lemma FilledPopped(c: Core, rs: seq<nat>, rf: seq<nat>, k: nat)
    requires Valid(c) && Visible(rs) && STACKPTR !in rs && |rf| == LREG_SCLAST
    requires Filled(c.rf, c.mem, Address(c.rf[STACKPTR]), rs, rf)
    ensures rf[STACKPTR] == c.rf[STACKPTR] && rf[LREG_TTYPE] == c.rf[LREG_TTYPE]
    ensures Popped(c, rs, k, rf[STACKPTR := Low(c.rf[STACKPTR] + k)])
  {
  }

  lemma PopRun(c: Core, rs: seq<nat>) returns (c': Core)
    requires Valid(c) && Visible(rs) && NoRepeat(rs) && STACKPTR !in rs && c.rf[STACKPTR] + 4 * |rs| <= TWO32
    requires 4 * |rs| < TWO32
    ensures Valid(c') && c' == Run(c, PopUops(rs)) && c' == c.(rf := c'.rf, zero := c'.zero)
    ensures Popped(c, rs, 4 * |rs|, c'.rf) && Kept(c, Written(STACKPTR, rs), c')
  {
    PopKeeps(c, rs);
    var d := PopLoadsRun(c, rs);
    RunSnoc(c, PopLoads(rs), Add32(STACKPTR, 4 * |rs|, STACKPTR));
    c' := RaisePopped(c, rs, 4 * |rs|, d);
  }

  lemma Interwork(c: Core) returns (c': Core)
    requires Valid(c) && c.rf[LREG_TMP1] < TWO32
    ensures Valid(c') && c' == Run(c, InterworkUops()) && c'.mem == c.mem
    ensures forall r | 0 <= r < 32 :: c'.rf[r] == c.rf[r]
    ensures var w := c.rf[LREG_TMP1];
            && c'.target == w - w % 2
            && c'.rf[LREG_TTYPE] == if w % 2 == 1 then c.rf[LREG_TTYPE] else 0
  {
    var us := InterworkUops();
    AndOne(c.rf[LREG_TMP1]);
    AndEven(c.rf[LREG_TMP1]);
    RunTwo(c, us[0], us[1], us[2..]);
    assert us == [us[0], us[1]] + us[2..];
    var c2 := Exec(Exec(c, us[0]), us[1]);
    RunTwo(c2, us[2], us[3], us[4..]);
    assert us[2..] == [us[2], us[3]] + us[4..];
    var c4 := Exec(Exec(c2, us[2]), us[3]);
    RunOne(c4, us[4]);
    assert us[4..] == [us[4]];
    c' := Exec(c4, us[4]);
    ExecValid(c4, us[4]);
  }

  /** The load of the return address, after the other loads. */
  lemma PopPcLoad(c: Core, rs: seq<nat>) returns (d: Core)
    requires Valid(c) && Visible(rs) && NoRepeat(rs) && STACKPTR !in rs && c.rf[STACKPTR] + 4 * |rs| + 4 <= TWO32
    requires 4 * |rs| + 4 < TWO32
    ensures var ld := Load32(if rs == [] then STACKPTR else LREG_TMP1, LREG_TMP1);
            Valid(d) && d == Run(c, PopLoads(rs) + [ld]) && d == c.(rf := d.rf, zero := d.zero)
    ensures Filled(c.rf, c.mem, Address(c.rf[STACKPTR]), rs, d.rf)
    ensures d.rf[LREG_TMP1] == Load(c.mem, Address(c.rf[STACKPTR]) + 4 * |rs|) < TWO32
  {
    var from := if rs == [] then STACKPTR else LREG_TMP1;
    var d1 := PopLoadsRun(c, rs);
    RunSnoc(c, PopLoads(rs), Load32(from, LREG_TMP1));
    d := LoadOne(d1, from, LREG_TMP1);
    LoadBelow(c.mem, Address(c.rf[STACKPTR]) + 4 * |rs|);
  }

  lemma RaisePopped(c: Core, rs: seq<nat>, k: nat, d1: Core) returns (d: Core)
    requires Valid(c) && Visible(rs) && STACKPTR !in rs && Valid(d1) && k < TWO32
    requires Filled(c.rf, c.mem, Address(c.rf[STACKPTR]), rs, d1.rf)
    ensures Valid(d) && d == Exec(d1, Add32(STACKPTR, k, STACKPTR)) && d == d1.(rf := d.rf, zero := d.zero)
    ensures Popped(c, rs, k, d.rf) && d.rf[LREG_TMP1] == d1.rf[LREG_TMP1] && d.rf[LREG_TTYPE] == c.rf[LREG_TTYPE]
  {
    FilledPopped(c, rs, d1.rf, k);
    RaiseSp(d1, k);
    d := Exec(d1, Add32(STACKPTR, k, STACKPTR));
  }

  lemma RunThen(c: Core, us: seq<Uop>, d1: Core, u: Uop, d: Core, vs: seq<Uop>)
    requires Valid(c) && d1 == Run(c, us) && Valid(d) && d == Exec(d1, u)
    ensures Run(c, us + [u] + vs) == Run(d, vs)
  {
    RunSnoc(c, us, u);
    RunConcat(c, us + [u], vs);
  }

  /** The loads and the new stack pointer come before the jump. */
  lemma PopPcJump(c: Core, rs: seq<nat>, d1: Core, d: Core)
    requires Valid(c) && Visible(rs) && 4 * |rs| + 4 < TWO32 && Valid(d1) && Valid(d)
    requires d1 == Run(c, PopLoads(rs) + [Load32(if rs == [] then STACKPTR else LREG_TMP1, LREG_TMP1)])
    requires d == Exec(d1, Add32(STACKPTR, 4 * |rs| + 4, STACKPTR))
    ensures Run(c, PopPcUops(rs)) == Run(d, InterworkUops())
  {
    var ld, up := Load32(if rs == [] then STACKPTR else LREG_TMP1, LREG_TMP1), Add32(STACKPTR, 4 * |rs| + 4, STACKPTR);
    RunThen(c, PopLoads(rs) + [ld], d1, up, d, InterworkUops());
  }

  /** The word above the popped ones decides where control goes and in which instruction set. */
  predicate Returned(c: Core, rs: seq<nat>, c': Core)
    requires Valid(c) && Visible(rs) && STACKPTR !in rs && Valid(c')
  {
    var w := Load(c.mem, Address(c.rf[STACKPTR]) + 4 * |rs|);
    && Popped(c, rs, 4 * |rs| + 4, c'.rf) && c'.mem == c.mem
    && c'.target == w - w % 2
    && c'.rf[LREG_TTYPE] == if w % 2 == 1 then c.rf[LREG_TTYPE] else 0
  }

  lemma JumpReturned(c: Core, rs: seq<nat>, d: Core) returns (c': Core)
    requires Valid(c) && Visible(rs) && STACKPTR !in rs && Valid(d) && d.mem == c.mem
    requires Popped(c, rs, 4 * |rs| + 4, d.rf) && d.rf[LREG_TTYPE] == c.rf[LREG_TTYPE]
    requires d.rf[LREG_TMP1] == Load(c.mem, Address(c.rf[STACKPTR]) + 4 * |rs|) < TWO32
    ensures Valid(c') && c' == Run(d, InterworkUops()) && Returned(c, rs, c')
  {
    c' := Interwork(d);
  }

  lemma PopPcRunTo(c: Core, rs: seq<nat>, d1: Core) returns (c': Core)
    requires Valid(c) && Visible(rs) && STACKPTR !in rs && 4 * |rs| + 4 < TWO32
    requires Valid(d1) && d1 == c.(rf := d1.rf, zero := d1.zero)
    requires d1 == Run(c, PopLoads(rs) + [Load32(if rs == [] then STACKPTR else LREG_TMP1, LREG_TMP1)])
    requires Filled(c.rf, c.mem, Address(c.rf[STACKPTR]), rs, d1.rf)
    requires d1.rf[LREG_TMP1] == Load(c.mem, Address(c.rf[STACKPTR]) + 4 * |rs|) < TWO32
    ensures Valid(c') && c' == Run(c, PopPcUops(rs)) && Returned(c, rs, c')
  {
    var d := RaisePopped(c, rs, 4 * |rs| + 4, d1);
    PopPcJump(c, rs, d1, d);
    c' := JumpReturned(c, rs, d);
  }

  lemma PopPcRun(c: Core, rs: seq<nat>) returns (c': Core)
    requires Valid(c) && Visible(rs) && NoRepeat(rs) && STACKPTR !in rs && c.rf[STACKPTR] + 4 * |rs| + 4 <= TWO32
    requires 4 * |rs| + 4 < TWO32
    ensures Valid(c') && c' == Run(c, PopPcUops(rs)) && Returned(c, rs, c')
    ensures Kept(c, Written(STACKPTR, rs) + {LREG_TMP2, LREG_TTYPE}, c')
  {
    PopPcKeeps(c, rs);
    var d1 := PopPcLoad(c, rs);
    c' := PopPcRunTo(c, rs, d1);
  }

  // ---------------------------------------------------------------------------
  // POP undoes PUSH
  // ---------------------------------------------------------------------------

  /** `d` is at the same stack pointer as `c`, with the same `n` words from there on. */
  predicate SameStack(c: Core, d: Core, n: nat)
    requires Valid(c) && Valid(d)
  {
    && d.rf[STACKPTR] == c.rf[STACKPTR]
    && LoadWords(d.mem, Address(c.rf[STACKPTR]), n) == LoadWords(c.mem, Address(c.rf[STACKPTR]), n)
  }

  lemma WordsAt(m: map<int, nat>, a: int, vs: seq<nat>, m': map<int, nat>)
    requires forall i | 0 <= i < |vs| :: vs[i] < TWO32
    requires LoadWords(m', a, |vs|) == LoadWords(StoreWords(m, a, vs), a, |vs|)
    ensures forall i | 0 <= i < |vs| :: Load(m', a + 4 * i) == vs[i]
  {
    WordsRoundTrip(m, a, vs);
    forall i | 0 <= i < |vs| ensures Load(m', a + 4 * i) == vs[i] {
      assert LoadWords(m', a, |vs|)[i] == vs[i];
    }
  }

  lemma ValuesOf(c: Core, rs: seq<nat>)
    requires Valid(c) && Visible(rs)
    ensures forall i | 0 <= i < |rs| :: Values(c.rf, rs)[i] == c.rf[rs[i]] < TWO32
  {
  }

  /** Storing the values of registers one after the other. */
  lemma ValuesStored(c: Core, rs: seq<nat>, a: int)
    requires Valid(c) && Visible(rs)
    ensures WordsAre(c.rf, rs, c.mem, a, StoreWords(c.mem, a, Values(c.rf, rs)))
  {
    var vs := Values(c.rf, rs);
    var m' := StoreWords(c.mem, a, vs);
    ValuesOf(c, rs);
    WordsAt(c.mem, a, vs, m');
    forall b | b < a || a + 4 * |rs| <= b ensures Byte(m', b) == Byte(c.mem, b) {
      StoreWordsOutside(c.mem, a, vs, b);
    }
  }

  /** The words PUSH leaves on the stack are the pushed registers. */
  lemma PushedWords(c: Core, rs: seq<nat>, c1: Core, d: Core)
    requires Valid(c) && Visible(rs) && Valid(c1) && Valid(d) && Pushed(c, rs, c1) && SameStack(c1, d, |rs|)
    ensures forall i | 0 <= i < |rs| :: Load(d.mem, Address(d.rf[STACKPTR]) + 4 * i) == c.rf[rs[i]]
  {
    ValuesOf(c, rs);
    WordsAt(c.mem, Address(d.rf[STACKPTR]), Values(c.rf, rs), d.mem);
  }

  lemma PushedWithLink(c: Core, rs: seq<nat>, c1: Core, d: Core)
    requires Valid(c) && Visible(rs) && Valid(c1) && Valid(d)
    requires Pushed(c, rs + [LINK], c1) && SameStack(c1, d, |rs| + 1)
    ensures d.rf[STACKPTR] + (4 * |rs| + 4) == c.rf[STACKPTR]
    ensures forall i | 0 <= i < |rs| :: Load(d.mem, Address(d.rf[STACKPTR]) + 4 * i) == c.rf[rs[i]]
    ensures Load(d.mem, Address(d.rf[STACKPTR]) + 4 * |rs|) == c.rf[LINK]
  {
    var all := rs + [LINK];
    PushedWords(c, all, c1, d);
    var a := Address(d.rf[STACKPTR]);
    assert all[|rs|] == LINK;
    forall i | 0 <= i < |rs| ensures Load(d.mem, a + 4 * i) == c.rf[rs[i]] {
      assert all[i] == rs[i];
    }
  }

  /** Registers `rs` and the stack pointer are as in `c`, the other registers and memory as in `d`. */
  predicate Restored(c: Core, rs: seq<nat>, d: Core, d': Core)
    requires Valid(c) && Visible(rs) && Valid(d) && Valid(d')
  {
    && d'.rf[STACKPTR] == c.rf[STACKPTR]
    && (forall i | 0 <= i < |rs| :: d'.rf[rs[i]] == c.rf[rs[i]])
    && (forall r | 0 <= r < 32 && r !in rs && r != STACKPTR :: d'.rf[r] == d.rf[r])
    && d'.mem == d.mem
  }

  lemma PoppedRestored(c: Core, rs: seq<nat>, d: Core, k: nat, d': Core)
    requires Valid(c) && Visible(rs) && STACKPTR !in rs && Valid(d) && Valid(d')
    requires d.rf[STACKPTR] + k == c.rf[STACKPTR] && Popped(d, rs, k, d'.rf) && d'.mem == d.mem
    requires forall i | 0 <= i < |rs| :: Load(d.mem, Address(d.rf[STACKPTR]) + 4 * i) == c.rf[rs[i]]
    ensures Restored(c, rs, d, d')
  {
    assert Low(c.rf[STACKPTR]) == c.rf[STACKPTR];
  }

  /**
   A POP of the list that was pushed, from any later state with the stack as PUSH left it, gives
   the listed registers and the stack pointer the values they had before the PUSH, and leaves the rest.
   */
  lemma PopUndoesPush(c: Core, rs: seq<nat>, c1: Core, d: Core) returns (d': Core)
    requires Valid(c) && Visible(rs) && NoRepeat(rs) && STACKPTR !in rs && 4 * |rs| <= c.rf[STACKPTR]
    requires c1 == Run(c, PushUops(rs)) && Valid(d) && SameStack(c1, d, |rs|)
    ensures Valid(d') && d' == Run(d, PopUops(rs))
    ensures Restored(c, rs, d, d') && d'.target == d.target && Kept(d, Written(STACKPTR, rs), d')
  {
    var c1' := PushRun(c, rs);
    PushedWords(c, rs, c1, d);
    d' := PopRun(d, rs);
    PoppedRestored(c, rs, d, 4 * |rs|, d');
  }

  lemma ReturnedRestored(c: Core, rs: seq<nat>, c1: Core, d: Core, d': Core)
    requires Valid(c) && Visible(rs) && STACKPTR !in rs && Valid(c1) && Valid(d) && Valid(d')
    requires Pushed(c, rs + [LINK], c1) && SameStack(c1, d, |rs| + 1) && Returned(d, rs, d')
    ensures Restored(c, rs, d, d')
    ensures d'.target == c.rf[LINK] - c.rf[LINK] % 2
    ensures d'.rf[LREG_TTYPE] == if c.rf[LINK] % 2 == 1 then d.rf[LREG_TTYPE] else 0
  {
    PushedWithLink(c, rs, c1, d);
    PoppedRestored(c, rs, d, 4 * |rs| + 4, d');
  }

  /**
   A function that pushed LR with its registers returns by popping PC in its place: the registers
   and the stack pointer are restored and control goes to LR, in the state LR's bit 0 asks for.
   */
  lemma PopPcReturns(c: Core, rs: seq<nat>, c1: Core, d: Core) returns (d': Core)
    requires Valid(c) && Visible(rs) && NoRepeat(rs) && STACKPTR !in rs && 4 * |rs| + 4 <= c.rf[STACKPTR]
    requires c1 == Run(c, PushUops(rs + [LINK])) && Valid(d) && SameStack(c1, d, |rs| + 1)
    ensures Valid(d') && d' == Run(d, PopPcUops(rs)) && Restored(c, rs, d, d')
    ensures Kept(d, Written(STACKPTR, rs) + {LREG_TMP2, LREG_TTYPE}, d')
    ensures d'.target == c.rf[LINK] - c.rf[LINK] % 2
    ensures d'.rf[LREG_TTYPE] == if c.rf[LINK] % 2 == 1 then d.rf[LREG_TTYPE] else 0
  {
    var c1' := PushRun(c, rs + [LINK]);
    d' := PopPcRun(d, rs);
    ReturnedRestored(c, rs, c1, d, d');
  }
}
