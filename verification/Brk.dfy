/**
 The guest's program break: the brk system call over the simulated data segment, in 32-bit arithmetic.
 */
module GuestBrk {
  import opened Bits
  import opened Common

  const PAGE_SIZE := 4096
  /** The last address that still has a page boundary at or above it. */
  const LAST_PAGE := 0xFFFF_F000

  /** Rounds up to a page boundary, in 32 bits. */
  function PageAlignUp(n: nat): nat
  {
    And((n + (PAGE_SIZE - 1)) % TWO32, TWO32 - PAGE_SIZE)
  }

  lemma ModDouble(x: nat, p: nat)
    requires p > 0
    ensures x % (2 * p) == x / 2 % p * 2 + x % 2
  {
    var q, r := x / 2 / p, x / 2 % p;
    assert x / 2 == q * p + r && x == 2 * (x / 2) + x % 2;
    assert x == q * (2 * p) + (2 * r + x % 2) by { assert 2 * (q * p) == q * (2 * p); }
    ModUnique(x, 2 * p, q, 2 * r + x % 2);
  }

  lemma ModUnique(x: nat, d: nat, q: nat, r: nat)
    requires r < d && x == q * d + r
    ensures x % d == r
  {
    var q', r' := x / d, x % d;
    assert x == q' * d + r';
    NoMultiple(q - q', d, q * d - q' * d);
  }

  lemma NoMultiple(k: int, d: int, e: int)
    requires d > 0 && e == k * d && -d < e < d
    ensures e == 0
  {
    assert k >= 1 ==> k * d >= d;
    assert k <= -1 ==> k * d <= -d;
  }

  function Shl(m: nat, k: nat): nat
  {
    if k == 0 then m else 2 * Shl(m, k - 1)
  }

  /** Masking with ones above k zeros, as many as x has bits there. */
  lemma {:induction false} AndHigh(x: nat, k: nat, m: nat)
    requires IsPower2(m + 1) && Shr(x, k) <= m
    ensures And(x, Shl(m, k)) == x - x % Pow2(k)
    decreases k
  {
    if k == 0 {
      MaskWraps(x, m + 1);
    } else {
      AndHigh(x / 2, k - 1, m);
      AndHighStep(x, Pow2(k - 1), Shl(m, k - 1));
    }
  }

  lemma {:induction false} ShrBelow(x: nat, k: nat, n: nat)
    requires x < Shl(n, k)
    ensures Shr(x, k) < n
    decreases k
  {
    if k > 0 { ShrBelow(x / 2, k - 1, n); }
  }

  lemma {:induction false} ShlIs(m: nat, k: nat)
    ensures Shl(m, k) == Pow2(k) * m
  {
    if k > 0 {
      ShlIs(m, k - 1);
      DoubleFirst(Pow2(k - 1), m);
    }
  }

  lemma AndHighStep(x: nat, p: nat, m: nat)
    requires p > 0 && And(x / 2, m) == x / 2 - x / 2 % p
    ensures And(x, 2 * m) == x - x % (2 * p)
  {
    ModDouble(x, p);
    AndDouble(x, m);
  }

  lemma AndDouble(x: nat, m: nat)
    ensures And(x, 2 * m) == 2 * And(x / 2, m)
  {
    if x > 0 && m > 0 {
      assert 2 * m / 2 == m && 2 * m % 2 == 0;
    }
  }

  lemma PageMask(x: nat)
    requires x < TWO32
    ensures And(x, TWO32 - PAGE_SIZE) == x - x % PAGE_SIZE
  {
    Pow2Of12And20();
    Pow2IsPower2(20);
    ShlIs(0x10_0000, 12);
    ShlIs(0xF_FFFF, 12);
    ShrBelow(x, 12, 0x10_0000);
    AndHigh(x, 12, 0xF_FFFF);
  }

  lemma Pow2Of12And20()
    ensures Pow2(12) == PAGE_SIZE && Pow2(20) == 0x10_0000
  {
    Pow2Of16();
    assert Pow2(16) == 16 * Pow2(12);
    assert Pow2(20) == 16 * Pow2(16);
  }

  /** The least page boundary at or above n, or zero when 32 bits cannot hold it. */
  lemma PageAlignUpIs(n: nat)
    requires n < TWO32
    ensures n > LAST_PAGE ==> PageAlignUp(n) == 0
    ensures n <= LAST_PAGE ==> n <= PageAlignUp(n) < n + PAGE_SIZE && PageAlignUp(n) <= LAST_PAGE
    ensures PageAlignUp(n) % PAGE_SIZE == 0
  {
    var x := n + (PAGE_SIZE - 1);
    if n <= LAST_PAGE {
      assert x % TWO32 == x;
      PageMask(x);
      RoundDown(x);
    } else {
      assert x % TWO32 == x - TWO32;
      PageMask(x - TWO32);
      assert (x - TWO32) % PAGE_SIZE == x - TWO32;
    }
  }

  lemma RoundDown(x: nat)
    requires PAGE_SIZE - 1 <= x < TWO32
    ensures (x - x % PAGE_SIZE) % PAGE_SIZE == 0 && x - PAGE_SIZE < x - x % PAGE_SIZE <= LAST_PAGE
  {
    var q := x / PAGE_SIZE;
    assert x - x % PAGE_SIZE == q * PAGE_SIZE;
  }

  // ---------------------------------------------------------------------------
  // The break
  // ---------------------------------------------------------------------------

  /** The break, the page boundary above it, and the data segment [start, end) with its bytes. */
  datatype Heap = Heap(original: nat, brk: nat, page: nat, start: nat, end: nat, buffer: seq<nat>)

  /** What realloc gave: nothing, or a longer buffer whose new bytes are whatever they are. */
  datatype Memory = NoMemory | Junk(at: nat -> nat)

  datatype Answer = Answer(heap: Heap, value: nat)

  predicate Inv(h: Heap)
  {
    && h.page % PAGE_SIZE == 0 && h.page <= LAST_PAGE
    && h.start <= h.original <= h.brk <= h.page == h.end
    && |h.buffer| == h.end - h.start
  }

  /** The segment as loaded: the break starts at its end. */
  function Loaded(start: nat, end: nat, buffer: seq<nat>): (h: Heap)
    requires start <= end <= LAST_PAGE && end % PAGE_SIZE == 0 && |buffer| == end - start
    ensures Inv(h)
  {
    AlignedStays(end);
    Heap(end, end, PageAlignUp(end), start, end, buffer)
  }

  function Zeroed(s: seq<nat>, from: nat, to: nat): (t: seq<nat>)
    requires from <= to <= |s|
    ensures |t| == |s| && forall i | 0 <= i < |s| :: t[i] == if from <= i < to then 0 else s[i]
  {
    seq(|s|, i requires 0 <= i < |s| => if from <= i < to then 0 else s[i])
  }

  function Grown(s: seq<nat>, size: nat, junk: nat -> nat): (t: seq<nat>)
    ensures |t| == size && forall i | 0 <= i < size :: t[i] == if i < |s| then s[i] else junk(i)
  {
    seq(size, i requires 0 <= i < size => if i < |s| then s[i] else junk(i))
  }

  /** One brk system call. */
  function Brk(h: Heap, arg: nat, memory: Memory): Answer
    requires Inv(h) && arg < TWO32
  {
    if arg == 0 || arg < h.original then Answer(h, h.brk)
    else if arg < h.page then
      var buffer := if arg > h.brk then Zeroed(h.buffer, h.brk - h.start, arg - h.start) else h.buffer;
      Answer(h.(brk := arg, buffer := buffer), arg)
    else match memory
      case NoMemory => Answer(h, TWO32 - 1)
      case Junk(junk) =>
        var size := (|h.buffer| + PageAlignUp(arg - h.page)) % TWO32;
        var end, buffer := (h.start + size) % TWO32, Grown(h.buffer, size, junk);
        Answer(Heap(h.original, arg, PageAlignUp(arg), h.start, end, buffer), arg)
  }

  lemma AlignedStays(end: nat)
    requires end <= LAST_PAGE && end % PAGE_SIZE == 0
    ensures PageAlignUp(end) == end
  {
    PageAlignUpIs(end);
    SamePage(PageAlignUp(end), end);
  }

  lemma SamePage(a: nat, b: nat)
    requires a % PAGE_SIZE == 0 && b % PAGE_SIZE == 0 && b <= a < b + PAGE_SIZE
    ensures a == b
  {
  }

  lemma SumPages(a: nat, b: nat)
    requires a % PAGE_SIZE == 0 && b % PAGE_SIZE == 0
    ensures (a + b) % PAGE_SIZE == 0
  {
  }

  /** Rounding up commutes with moving by whole pages. */
  lemma AlignFromPage(arg: nat, page: nat)
    requires page % PAGE_SIZE == 0 && page <= arg <= LAST_PAGE
    ensures PageAlignUp(arg - page) + page == PageAlignUp(arg)
  {
    PageAlignUpIs(arg);
    PageAlignUpIs(arg - page);
    var a, b := PageAlignUp(arg), PageAlignUp(arg - page) + page;
    SumPages(PageAlignUp(arg - page), page);
    if a <= b { SamePage(b, a); } else { SamePage(a, b); }
  }

  /** A request that gets memory for a break the 32-bit address space has no page boundary above. */
  predicate Wraps(arg: nat, memory: Memory) { memory.Junk? && arg > LAST_PAGE }

  lemma GrowKeeps(h: Heap, arg: nat, memory: Memory)
    requires Inv(h) && h.page <= arg <= LAST_PAGE && memory.Junk?
    ensures Inv(Brk(h, arg, memory).heap)
  {
    PageAlignUpIs(arg);
    AlignFromPage(arg, h.page);
    GrownInv(h, arg, PageAlignUp(arg), PageAlignUp(arg - h.page), memory.at);
  }

  lemma GrownInv(h: Heap, arg: nat, up: nat, more: nat, junk: nat -> nat)
    requires Inv(h) && h.page <= arg <= up <= LAST_PAGE && up % PAGE_SIZE == 0 && up == h.page + more
    ensures var size := (|h.buffer| + more) % TWO32;
            Inv(Heap(h.original, arg, up, h.start, (h.start + size) % TWO32, Grown(h.buffer, size, junk)))
  {
    Unwrapped(|h.buffer| + more);
    Unwrapped(up);
  }

  lemma Unwrapped(x: nat)
    requires x < TWO32
    ensures x % TWO32 == x
  {
  }

  /** A brk call keeps the invariant exactly when it does not wrap. */
  lemma BrkKeepsIff(h: Heap, arg: nat, memory: Memory)
    requires Inv(h) && arg < TWO32
    ensures Inv(Brk(h, arg, memory).heap) <==> !Wraps(arg, memory)
  {
    PageAlignUpIs(arg);
    if memory.Junk? && h.page <= arg <= LAST_PAGE {
      GrowKeeps(h, arg, memory);
    }
  }

  // ---------------------------------------------------------------------------
  // Runs
  // ---------------------------------------------------------------------------

  datatype Request = Request(arg: nat, memory: Memory)

  predicate Fits(r: Request) { r.arg < TWO32 && !Wraps(r.arg, r.memory) }

  predicate InRange(rs: seq<Request>)
  {
    forall i | 0 <= i < |rs| :: Fits(rs[i])
  }

  function Run(h: Heap, rs: seq<Request>): (h': Heap)
    requires Inv(h) && InRange(rs)
    ensures Inv(h')
    decreases rs
  {
    if rs == [] then h else
    BrkKeepsIff(h, rs[0].arg, rs[0].memory);
    Run(Brk(h, rs[0].arg, rs[0].memory).heap, rs[1..])
  }

  // ---------------------------------------------------------------------------
  // What the guest is told
  // ---------------------------------------------------------------------------

  /** The value of -1 as the guest sees it. */
  const REFUSED := 0xFFFF_FFFF

  /** A request to move the break: the others, zero and below the original break, only ask for it. */
  predicate Moves(original: nat, arg: nat) { arg != 0 && arg >= original }

  /** A request to move the break is met below the page boundary, and beyond it when there is memory. */
  predicate Accepted(original: nat, page: nat, r: Request)
  {
    Moves(original, r.arg) && (r.arg < page || r.memory.Junk?)
  }

  /**
   What one request answers and where it leaves the break: a question answers the break, an accepted request moves
   it to its argument and answers that, and a refused one answers -1. The latter two change nothing else.
   */
  lemma BrkAnswers(h: Heap, r: Request)
    requires Inv(h) && r.arg < TWO32
    ensures var a := Brk(h, r.arg, r.memory);
            && (!Moves(h.original, r.arg) ==> a.value == h.brk && a.heap == h)
            && (Accepted(h.original, h.page, r) ==> a.value == r.arg == a.heap.brk)
            && (Moves(h.original, r.arg) && !Accepted(h.original, h.page, r) ==> a.value == REFUSED && a.heap == h)
  {
  }

  /** The page boundary moves only with a request beyond it, to the boundary at or above its argument. */
  lemma BrkPage(h: Heap, r: Request)
    requires Inv(h) && Fits(r)
    ensures var h' := Brk(h, r.arg, r.memory).heap;
            && h'.original == h.original
            && h'.page == if Accepted(h.original, h.page, r) && r.arg >= h.page then PageAlignUp(r.arg) else h.page
  {
  }

  /** The greatest argument accepted so far, or the original break. */
  function Highest(original: nat, rs: seq<Request>): (top: nat)
    ensures top >= original
    decreases rs
  {
    if rs == [] then original else
    var n := |rs| - 1;
    var top := Highest(original, rs[..n]);
    if Accepted(original, PageAlignUp(top), rs[n]) && rs[n].arg > top then rs[n].arg else top
  }

  /** The argument of the last accepted request, or the original break. */
  function LastAccepted(original: nat, rs: seq<Request>): nat
    decreases rs
  {
    if rs == [] then original else
    var n := |rs| - 1;
    if Accepted(original, PageAlignUp(Highest(original, rs[..n])), rs[n]) then rs[n].arg
    else LastAccepted(original, rs[..n])
  }

  lemma {:induction false} RunSnoc(h: Heap, rs: seq<Request>, r: Request)
    requires Inv(h) && InRange(rs) && Fits(r)
    ensures InRange(rs + [r]) && Run(h, rs + [r]) == Brk(Run(h, rs), r.arg, r.memory).heap
    decreases rs
  {
    BrkKeepsIff(Run(h, rs), r.arg, r.memory);
    if rs == [] {
      assert [] + [r] == [r] && [r][1..] == [];
      assert Run(Brk(h, r.arg, r.memory).heap, []) == Brk(h, r.arg, r.memory).heap;
    } else {
      var h1 := Brk(h, rs[0].arg, rs[0].memory).heap;
      BrkKeepsIff(h, rs[0].arg, rs[0].memory);
      RunSnoc(h1, rs[1..], r);
      assert (rs + [r])[1..] == rs[1..] + [r];
    }
  }

  /** A page boundary is the one at or above every address of the page below it. */
  lemma SameBoundary(top: nat, arg: nat)
    requires top <= LAST_PAGE && top <= arg < PageAlignUp(top)
    ensures PageAlignUp(arg) == PageAlignUp(top)
  {
    PageAlignUpIs(top);
    PageAlignUpIs(arg);
    var a, b := PageAlignUp(top), PageAlignUp(arg);
    if a <= b { SamePage(b, a); } else { SamePage(a, b); }
  }

  /** One more request, on break and boundary. */
  lemma HistoryStep(h: Heap, top: nat, r: Request)
    requires Inv(h) && Fits(r) && h.original <= top <= LAST_PAGE && h.page == PageAlignUp(top)
    ensures var h', top' := Brk(h, r.arg, r.memory).heap,
                            if Accepted(h.original, h.page, r) && r.arg > top then r.arg else top;
            top' <= LAST_PAGE && h'.page == PageAlignUp(top')
  {
    BrkPage(h, r);
    PageAlignUpIs(top);
    if Accepted(h.original, h.page, r) {
      if top < r.arg < h.page {
        SameBoundary(top, r.arg);
      }
    }
  }

  /**
   From loading on, over every run of requests in range: the break is the argument of the last accepted request, and
   the page boundary the one at or above the greatest.
   */
  lemma {:induction false} BreakIsLastAccepted(start: nat, end: nat, buffer: seq<nat>, rs: seq<Request>)
    requires start <= end <= LAST_PAGE && end % PAGE_SIZE == 0 && |buffer| == end - start && InRange(rs)
    ensures var h := Run(Loaded(start, end, buffer), rs);
            && h.original == end && h.brk == LastAccepted(end, rs)
            && Highest(end, rs) <= LAST_PAGE && h.page == PageAlignUp(Highest(end, rs))
    decreases rs
  {
    var h0 := Loaded(start, end, buffer);
    if rs != [] {
      var n := |rs| - 1;
      var init, r := rs[..n], rs[n];
      BreakIsLastAccepted(start, end, buffer, init);
      assert init + [r] == rs;
      RunSnoc(h0, init, r);
      var h := Run(h0, init);
      BrkAnswers(h, r);
      BrkPage(h, r);
      HistoryStep(h, Highest(end, init), r);
    }
  }

  /** What a request answers after the requests rs, from the requests alone. */
  function AnswerAfter(end: nat, rs: seq<Request>, r: Request): nat
  {
    if !Moves(end, r.arg) then LastAccepted(end, rs)
    else if Accepted(end, PageAlignUp(Highest(end, rs)), r) then r.arg
    else REFUSED
  }

  /** Every answer of every run is that one; in particular brk(0) answers the last accepted argument. */
  lemma EveryAnswer(start: nat, end: nat, buffer: seq<nat>, rs: seq<Request>, r: Request)
    requires start <= end <= LAST_PAGE && end % PAGE_SIZE == 0 && |buffer| == end - start && InRange(rs)
    requires r.arg < TWO32
    ensures Brk(Run(Loaded(start, end, buffer), rs), r.arg, r.memory).value == AnswerAfter(end, rs, r)
  {
    BreakIsLastAccepted(start, end, buffer, rs);
    BrkAnswers(Run(Loaded(start, end, buffer), rs), r);
  }

  /** The byte at a guest address of the data segment. */
  function ByteAt(h: Heap, addr: nat): nat
    requires h.start <= addr < h.start + |h.buffer|
  {
    h.buffer[addr - h.start]
  }

  lemma BrkKeepsBytes(h: Heap, arg: nat, memory: Memory, addr: nat)
    requires Inv(h) && arg < TWO32 && !Wraps(arg, memory) && h.start <= addr
    requires var h' := Brk(h, arg, memory).heap; addr < h.brk && addr < h'.brk
    ensures var h' := Brk(h, arg, memory).heap; Inv(h') && h'.start == h.start && ByteAt(h', addr) == ByteAt(h, addr)
  {
    BrkKeepsIff(h, arg, memory);
  }

  /** The original break, the segment's start, and every byte below the original break never change. */
  lemma {:induction false} BelowOriginalNeverChanges(h: Heap, rs: seq<Request>, addr: nat)
    requires Inv(h) && InRange(rs) && h.start <= addr < h.original
    ensures var h' := Run(h, rs);
            h'.original == h.original && h'.start == h.start && ByteAt(h', addr) == ByteAt(h, addr)
    decreases rs
  {
    if rs != [] {
      var r := rs[0];
      BrkKeepsIff(h, r.arg, r.memory);
      BrkKeepsBytes(h, r.arg, r.memory, addr);
      BelowOriginalNeverChanges(Brk(h, r.arg, r.memory).heap, rs[1..], addr);
    }
  }

  /** g2h on the data segment: an index into its buffer. */
  function HostIndex(h: Heap, addr: nat): (i: int)
    requires h.start <= addr < h.end
  {
    addr - h.start
  }

  /** From loading on, whatever the requests: all memory up to the break lies in the buffer. */
  lemma HeapIsBacked(start: nat, end: nat, buffer: seq<nat>, rs: seq<Request>, addr: nat)
    requires start <= end <= LAST_PAGE && end % PAGE_SIZE == 0 && |buffer| == end - start && InRange(rs)
    requires var h := Run(Loaded(start, end, buffer), rs); h.start <= addr < h.brk
    ensures var h := Run(Loaded(start, end, buffer), rs);
            && h.end == h.page && h.page % PAGE_SIZE == 0 && h.original <= h.brk <= h.page
            && addr < h.end && 0 <= HostIndex(h, addr) < |h.buffer|
  {
  }

  // ---------------------------------------------------------------------------
  // What a larger break exposes
  // ---------------------------------------------------------------------------

  /** The bytes between the old break and the new read as zero. */
  predicate Clear(h: Heap, arg: nat, memory: Memory)
    requires Inv(h) && h.brk < arg <= LAST_PAGE && memory.Junk?
  {
    BrkKeepsIff(h, arg, memory);
    forall addr | h.brk <= addr < arg :: ByteAt(Brk(h, arg, memory).heap, addr) == 0
  }

  lemma WithinPageIsClear(h: Heap, arg: nat, memory: Memory)
    requires Inv(h) && h.brk < arg < h.page && memory.Junk?
    ensures Clear(h, arg, memory)
  {
  }

  /** Past the page nothing is cleared: the bytes kept from before, and realloc's, show through. */
  lemma PastPageIsNotClear(h: Heap, arg: nat) returns (g: Heap)
    requires Inv(h) && h.brk < arg <= LAST_PAGE && h.page <= arg
    ensures g == h.(buffer := g.buffer) && |g.buffer| == |h.buffer| && !Clear(g, arg, Junk(_ => 1))
  {
    g := h.(buffer := seq(|h.buffer|, _ => 1));
    var memory := Junk(_ => 1);
    BrkKeepsIff(g, arg, memory);
    assert ByteAt(Brk(g, arg, memory).heap, h.brk) == 1;
  }

  /** What a larger break exposes is zero, whatever the buffer and realloc hold, exactly when it stays in the page. */
  lemma GrowthIsClearIff(h: Heap, arg: nat)
    requires Inv(h) && h.brk < arg <= LAST_PAGE
    ensures arg < h.page <==>
            forall s: seq<nat>, junk: nat -> nat | |s| == |h.buffer| :: Clear(h.(buffer := s), arg, Junk(junk))
  {
    if arg < h.page {
      forall s: seq<nat>, junk: nat -> nat | |s| == |h.buffer| ensures Clear(h.(buffer := s), arg, Junk(junk)) {
        WithinPageIsClear(h.(buffer := s), arg, Junk(junk));
      }
    } else {
      var g := PastPageIsNotClear(h, arg);
      assert !Clear(h.(buffer := g.buffer), arg, Junk(_ => 1));
    }
  }

  // ---------------------------------------------------------------------------
  // The call as the code makes it
  // ---------------------------------------------------------------------------

  class Program {
    var originalBrk: nat
    var targetBrk: nat
    var brkPage: nat
    var dataStart: nat
    var dataEnd: nat
    var dataBuffer: seq<nat>

    function Value(): Heap
      reads this
    {
      Heap(originalBrk, targetBrk, brkPage, dataStart, dataEnd, dataBuffer)
    }

    constructor (start: nat, end: nat, buffer: seq<nat>)
      requires start <= end <= LAST_PAGE && end % PAGE_SIZE == 0 && |buffer| == end - start
      ensures Value() == Loaded(start, end, buffer) && Inv(Value())
    {
      dataStart, dataEnd, dataBuffer := start, end, buffer;
      originalBrk, targetBrk := end, end;
      brkPage := PageAlignUp(end);
      AlignedStays(end);
    }

    method SetDataBuffer(size: nat, buffer: seq<nat>)
      modifies this`dataBuffer, this`dataEnd
      ensures dataBuffer == buffer && dataEnd == (dataStart + size) % TWO32
    {
      dataBuffer := buffer;
      dataEnd := (dataStart + size) % TWO32;
    }

    /** The system call; the invariant survives it exactly when the request does not wrap. */
    method DoBrk(arg: nat, memory: Memory) returns (r: nat)
      requires Inv(Value()) && arg < TWO32
      modifies this
      ensures var a := Brk(old(Value()), arg, memory); Value() == a.heap && r == a.value
      ensures Inv(Value()) <==> !Wraps(arg, memory)
    {
      BrkKeepsIff(Value(), arg, memory);
      if arg == 0 || arg < originalBrk {
        return targetBrk;
      }
      if arg < brkPage {
        if arg > targetBrk {
          dataBuffer := Zeroed(dataBuffer, targetBrk - dataStart, arg - dataStart);
        }
        targetBrk := arg;
        return targetBrk;
      }
      var increment := PageAlignUp(arg - brkPage);
      var size := (|dataBuffer| + increment) % TWO32;
      match memory
      case NoMemory =>
        r := TWO32 - 1;
      case Junk(junk) =>
        SetDataBuffer(size, Grown(dataBuffer, size, junk));
        targetBrk := arg;
        brkPage := PageAlignUp(targetBrk);
        r := targetBrk;
    }
  }
}
