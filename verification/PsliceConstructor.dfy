/**
 The streaming collector of p-slices: it watches the instruction stream of all
 flows and, for every delinquent PC, cuts out the windows between two
 occurrences of that PC. The definitions in front of the class say what it must
 hold, from the whole history at once and without reference to how it is built.
 */
module PsliceCollector {
  import opened Common
  import opened Pslices

  const PSLICE_MAX_SIZE := 300

  /** The last occurrence of p before position b, or -1. */
  function PrevOcc(h: seq<ExecIns>, p: nat, b: nat): (a: int)
    requires b <= |h|
    ensures -1 <= a < b
    ensures a >= 0 ==> h[a].pc == p
    ensures forall i | a < i < b :: h[i].pc != p
  {
    if b == 0 then -1 else if h[b - 1].pc == p then b - 1 else PrevOcc(h, p, b - 1)
  }

  /** How often p occurs in the first n instructions. */
  function Occurrences(h: seq<ExecIns>, p: nat, n: nat): nat
    requires n <= |h|
  {
    if n == 0 then 0 else Occurrences(h, p, n - 1) + if h[n - 1].pc == p then 1 else 0
  }

  /** The positions below n at which p occurs. */
  function Positions(h: seq<ExecIns>, p: nat, n: nat): set<nat>
    requires n <= |h|
  {
    set i: nat | i < n && h[i].pc == p
  }

  /** Occurrences are counted, each once. */
  lemma {:induction false} OccurrencesAre(h: seq<ExecIns>, p: nat, n: nat)
    requires n <= |h|
    ensures Occurrences(h, p, n) == |Positions(h, p, n)|
  {
    if n > 0 {
      OccurrencesAre(h, p, n - 1);
      if h[n - 1].pc == p {
        assert Positions(h, p, n) == Positions(h, p, n - 1) + {n - 1};
      } else {
        assert Positions(h, p, n) == Positions(h, p, n - 1);
      }
    }
  }

  /** Position b ends a window: p occurs there and at most PSLICE_MAX_SIZE instructions earlier. */
  predicate Accept(h: seq<ExecIns>, p: nat, b: nat)
  {
    b < |h| && h[b].pc == p && PrevOcc(h, p, b) >= 0 && b - PrevOcc(h, p, b) <= PSLICE_MAX_SIZE
  }

  /** The instructions after the previous occurrence of p up to and including position b. */
  function Window(h: seq<ExecIns>, p: nat, b: nat): (w: seq<ExecIns>)
    requires b < |h|
    ensures w != []
  {
    h[PrevOcc(h, p, b) + 1..b + 1]
  }

  /** The windows of p that execute the given set of PCs. */
  function Sharing(h: seq<ExecIns>, p: nat, pcs: set<nat>): set<nat>
  {
    set b: nat | b < |h| && Accept(h, p, b) && PcSet(Window(h, p, b)) == pcs
  }

  /** No earlier window executes the same set of PCs. */
  predicate IsFirst(h: seq<ExecIns>, p: nat, b: nat)
  {
    Accept(h, p, b) &&
    forall c: nat | c < b && Accept(h, p, c) :: PcSet(Window(h, p, c)) != PcSet(Window(h, p, b))
  }

  /** The PCs of t as an ordered set. */
  function Listing(t: seq<ExecIns>): (s: seq<nat>)
    ensures Ascending(s)
  {
    if t == [] then [] else Insert(Listing(t[..|t| - 1]), t[|t| - 1].pc)
  }

  lemma {:induction false} ListingElements(t: seq<ExecIns>)
    ensures Elements(Listing(t)) == PcSet(t)
  {
    if t != [] {
      var n := |t| - 1;
      ListingElements(t[..n]);
      assert forall i | 0 <= i < n :: t[..n][i] == t[i];
      assert PcSet(t) == PcSet(t[..n]) + {t[n].pc};
      assert forall x :: x in Listing(t[..n]) <==> x in Elements(Listing(t[..n]));
    }
  }

  /** The occurrence of p, counted from one, after which the window that ends at b begins. */
  function Iteration(h: seq<ExecIns>, p: nat, b: nat): nat
    requires b < |h|
  {
    Occurrences(h, p, PrevOcc(h, p, b) + 1)
  }

  /** How many windows of p execute the same set of PCs as the one that ends at b. */
  function Frequency(h: seq<ExecIns>, p: nat, b: nat): nat
    requires b < |h|
  {
    |Sharing(h, p, PcSet(Window(h, p, b)))|
  }

  function Completed(p: nat, iteration: nat, frequency: nat, w: seq<ExecIns>): Pslice
    requires w != []
  {
    Pslice(p, iteration, frequency, w, Listing(w), Slice(w))
  }

  /** The record for the window that ends at b. */
  function Record(h: seq<ExecIns>, p: nat, b: nat): Pslice
    requires Accept(h, p, b)
  {
    Completed(p, Iteration(h, p, b), Frequency(h, p, b), Window(h, p, b))
  }

  function Firsts(h: seq<ExecIns>, p: nat): set<nat>
  {
    set b: nat | b < |h| && IsFirst(h, p, b)
  }

  /** What must be stored for p: the first window of every distinct set of PCs. */
  function Stored(h: seq<ExecIns>, p: nat): set<Pslice>
  {
    set b | b in Firsts(h, p) :: Record(h, p, b)
  }

  /** Two successive occurrences of p at a and b, not too far apart; the window is what follows a, up to b. */
  predicate Between(h: seq<ExecIns>, p: nat, a: nat, b: nat)
  {
    && a < b < |h| && b - a <= PSLICE_MAX_SIZE && h[a].pc == h[b].pc == p
    && forall i | a < i < b :: h[i].pc != p
  }

  lemma AcceptIsBetween(h: seq<ExecIns>, p: nat, a: nat, b: nat)
    requires Between(h, p, a, b)
    ensures Accept(h, p, b) && PrevOcc(h, p, b) == a && Window(h, p, b) == h[a + 1..b + 1]
  {
  }

  /** No window that ends before b has the given set of PCs. */
  ghost predicate NoneEarlier(h: seq<ExecIns>, p: nat, b: nat, pcs: set<nat>)
  {
    forall c: nat, d: nat | Between(h, p, c, d) && d < b :: PcSet(h[c + 1..d + 1]) != pcs
  }

  /**
   The record names its PC and holds the instructions between two successive occurrences of it, with their set of PCs
   and their slice. Its iteration number counts the occurrences in front of the window, no earlier window has the
   same set of PCs, and its frequency is the number of windows that have it.
   */
  ghost predicate Describes(h: seq<ExecIns>, p: nat, a: nat, b: nat, s: Pslice)
  {
    && Between(h, p, a, b) && s.delPC == p && s.ptrace == h[a + 1..b + 1]
    && Elements(s.ptraceSet) == PcSet(s.ptrace) && s.ptrace != [] && s.pslice == Slice(s.ptrace)
    && s.iterationNumber == |Positions(h, p, a + 1)|
    && NoneEarlier(h, p, b, PcSet(s.ptrace)) && s.frequency == |Sharing(h, p, PcSet(s.ptrace))|
  }

  lemma FirstHasNoneEarlier(h: seq<ExecIns>, p: nat, b: nat)
    requires b < |h| && IsFirst(h, p, b)
    ensures NoneEarlier(h, p, b, PcSet(Window(h, p, b)))
  {
    forall c: nat, d: nat | Between(h, p, c, d) && d < b
      ensures PcSet(h[c + 1..d + 1]) != PcSet(Window(h, p, b))
    {
      AcceptIsBetween(h, p, c, d);
    }
  }

  lemma RecordDescribes(h: seq<ExecIns>, p: nat, b: nat)
    requires b < |h| && IsFirst(h, p, b)
    ensures Describes(h, p, PrevOcc(h, p, b), b, Record(h, p, b))
  {
    FirstHasNoneEarlier(h, p, b);
    OccurrencesAre(h, p, PrevOcc(h, p, b) + 1);
    ListingElements(Window(h, p, b));
  }

  /** Every stored record describes two occurrences of its PC in the history. */
  lemma StoredRecordIs(h: seq<ExecIns>, p: nat, s: Pslice) returns (a: nat, b: nat)
    requires s in Stored(h, p)
    ensures Describes(h, p, a, b, s)
  {
    b :| b in Firsts(h, p) && s == Record(h, p, b);
    a := PrevOcc(h, p, b);
    RecordDescribes(h, p, b);
  }

  /** What shares a set of PCs: the ends of the windows that have it. */
  lemma SharingIs(h: seq<ExecIns>, p: nat, pcs: set<nat>, d: nat)
    ensures d in Sharing(h, p, pcs) <==> exists c: nat :: Between(h, p, c, d) && PcSet(h[c + 1..d + 1]) == pcs
  {
    if d in Sharing(h, p, pcs) {
      assert Between(h, p, PrevOcc(h, p, d), d);
    }
    if c: nat :| Between(h, p, c, d) && PcSet(h[c + 1..d + 1]) == pcs {
      AcceptIsBetween(h, p, c, d);
    }
  }

  /** Every window has its set of PCs on record. */
  lemma {:induction false} EveryWindowIsStored(h: seq<ExecIns>, p: nat, a: nat, b: nat) returns (s: Pslice)
    requires Between(h, p, a, b)
    ensures s in Stored(h, p) && Elements(s.ptraceSet) == PcSet(h[a + 1..b + 1])
    decreases b
  {
    AcceptIsBetween(h, p, a, b);
    if IsFirst(h, p, b) {
      s := Record(h, p, b);
      ListingElements(s.ptrace);
      assert b in Firsts(h, p);
    } else {
      var d: nat :| d < b && Accept(h, p, d) && PcSet(Window(h, p, d)) == PcSet(Window(h, p, b));
      var c := PrevOcc(h, p, d);
      s := EveryWindowIsStored(h, p, c, d);
      AcceptIsBetween(h, p, c, d);
    }
  }

  /** Windows that begin after different occurrences have different numbers. */
  lemma NumbersTellApart(h: seq<ExecIns>, p: nat, a: nat, c: nat)
    requires a < c < |h| && h[c].pc == p
    ensures |Positions(h, p, a + 1)| < |Positions(h, p, c + 1)|
  {
    assert c in Positions(h, p, c + 1) && c !in Positions(h, p, a + 1);
    assert Positions(h, p, a + 1) < Positions(h, p, c + 1);
    SmallerSet(Positions(h, p, a + 1), Positions(h, p, c + 1));
  }

  lemma SmallerSet(s: set<nat>, t: set<nat>)
    requires s < t
    ensures |s| < |t|
  {
    assert t == s + (t - s) && t - s != {};
  }

  /** What must be under construction for p: the stream since its last occurrence, unless too long. */
  function Open(h: seq<ExecIns>, p: nat): Option<Pslice>
  {
    var a := PrevOcc(h, p, |h|);
    if a < 0 || |h| - 1 - a > PSLICE_MAX_SIZE then None
    else Some(Unfinished(p, Occurrences(h, p, a + 1), h[a + 1..]))
  }

  /** A record still under construction: seen once, not sliced yet. */
  function Unfinished(p: nat, iteration: nat, w: seq<ExecIns>): Pslice
  {
    Pslice(p, iteration, 1, w, Listing(w), [])
  }

  // ---------------------------------------------------------------------------
  // One more instruction
  // ---------------------------------------------------------------------------

  lemma {:induction false} PrefixStable(h: seq<ExecIns>, x: ExecIns, p: nat, b: nat)
    requires b <= |h|
    ensures PrevOcc(h + [x], p, b) == PrevOcc(h, p, b)
    ensures Occurrences(h + [x], p, b) == Occurrences(h, p, b)
  {
    if b > 0 {
      assert (h + [x])[b - 1] == h[b - 1];
      PrefixStable(h, x, p, b - 1);
    }
  }

  lemma WindowStable(h: seq<ExecIns>, x: ExecIns, p: nat, b: nat)
    requires b < |h|
    ensures Accept(h + [x], p, b) == Accept(h, p, b)
    ensures Window(h + [x], p, b) == Window(h, p, b)
  {
    PrefixStable(h, x, p, b);
    var a := PrevOcc(h, p, b);
    assert (h + [x])[b] == h[b];
    assert (h + [x])[a + 1..b + 1] == h[a + 1..b + 1];
  }

  /** insertInst on the window under construction, if there is one. */
  function Extend(w: Option<Pslice>, x: ExecIns): Option<Pslice>
    requires w.Some? ==> Ascending(w.value.ptraceSet)
  {
    if w.Some? then Some(InsertInst(w.value, x)) else None
  }

  /** A window that has become too long is thrown away. */
  function Cut(w: Option<Pslice>): Option<Pslice>
  {
    if w.Some? && |w.value.ptrace| > PSLICE_MAX_SIZE then None else w
  }

  lemma ExtendUnfinished(p: nat, k: nat, w: seq<ExecIns>, x: ExecIns)
    ensures Extend(Some(Unfinished(p, k, w)), x) == Some(Unfinished(p, k, w + [x]))
  {
    assert (w + [x])[..|w|] == w;
  }

  /** The stream since position a, one instruction later. */
  lemma TailStep(h: seq<ExecIns>, x: ExecIns, p: nat, a: nat)
    requires a < |h|
    ensures (h + [x])[a + 1..] == (h + [x])[a + 1..|h| + 1] == h[a + 1..] + [x]
    ensures Occurrences(h + [x], p, a + 1) == Occurrences(h, p, a + 1)
    ensures Extend(Some(Unfinished(p, Occurrences(h, p, a + 1), h[a + 1..])), x) ==
            Some(Unfinished(p, Occurrences(h, p, a + 1), h[a + 1..] + [x]))
  {
    PrefixStable(h, x, p, a + 1);
    ExtendUnfinished(p, Occurrences(h, p, a + 1), h[a + 1..], x);
  }

  /** Between occurrences, inserting and then cutting carries the open window on. */
  lemma OpenGrows(h: seq<ExecIns>, x: ExecIns, p: nat)
    requires x.pc != p
    ensures Open(h + [x], p) == Cut(Extend(Open(h, p), x))
  {
    var a := PrevOcc(h, p, |h|);
    PrefixStable(h, x, p, |h|);
    assert PrevOcc(h + [x], p, |h| + 1) == a;
    if a >= 0 {
      TailStep(h, x, p, a);
      OpenIs(h, p, a);
      OpenIs(h + [x], p, a);
    }
  }

  lemma OpenIs(h: seq<ExecIns>, p: nat, a: int)
    requires 0 <= a == PrevOcc(h, p, |h|)
    ensures Open(h, p) == if |h| - 1 - a > PSLICE_MAX_SIZE then None
                          else Some(Unfinished(p, Occurrences(h, p, a + 1), h[a + 1..]))
  {
  }

  /** At an occurrence, the open window survives the cut exactly when one is accepted there, and is that window. */
  lemma OpenCloses(h: seq<ExecIns>, x: ExecIns, p: nat)
    requires x.pc == p
    ensures Cut(Extend(Open(h, p), x)).Some? <==> Accept(h + [x], p, |h|)
    ensures Accept(h + [x], p, |h|) ==>
              Extend(Open(h, p), x) == Some(Unfinished(p, Iteration(h + [x], p, |h|), Window(h + [x], p, |h|)))
  {
    var a := PrevOcc(h, p, |h|);
    PrefixStable(h, x, p, |h|);
    if a >= 0 { TailStep(h, x, p, a); }
  }

  lemma NewWindow(h: seq<ExecIns>, x: ExecIns, p: nat)
    requires x.pc == p
    ensures Open(h + [x], p) == Some(Unfinished(p, Occurrences(h, p, |h|) + 1, []))
  {
    PrefixStable(h, x, p, |h|);
    assert (h + [x])[|h| + 1..] == [];
  }

  lemma SharingStep(h: seq<ExecIns>, x: ExecIns, p: nat, pcs: set<nat>)
    ensures Sharing(h + [x], p, pcs) ==
            Sharing(h, p, pcs) +
            if Accept(h + [x], p, |h|) && PcSet(Window(h + [x], p, |h|)) == pcs then {|h|} else {}
  {
    forall b: nat | b < |h| ensures b in Sharing(h + [x], p, pcs) <==> b in Sharing(h, p, pcs) {
      WindowStable(h, x, p, b);
    }
  }

  /** The new instruction ends a window with the PCs of the window that ends at b. */
  predicate Repeats(h: seq<ExecIns>, x: ExecIns, p: nat, b: nat)
    requires b < |h|
  {
    Accept(h + [x], p, |h|) && PcSet(Window(h + [x], p, |h|)) == PcSet(Window(h, p, b))
  }

  /** An older window keeps its record, up to the number of windows that share its PCs. */
  lemma RecordStep(h: seq<ExecIns>, x: ExecIns, p: nat, b: nat)
    requires Accept(h, p, b)
    ensures Accept(h + [x], p, b)
    ensures Iteration(h + [x], p, b) == Iteration(h, p, b)
    ensures Window(h + [x], p, b) == Window(h, p, b)
    ensures Frequency(h + [x], p, b) == Frequency(h, p, b) + if Repeats(h, x, p, b) then 1 else 0
  {
    WindowStable(h, x, p, b);
    PrefixStable(h, x, p, b);
    PrefixStable(h, x, p, PrevOcc(h, p, b) + 1);
    var w := Window(h, p, b);
    SharingStep(h, x, p, PcSet(w));
  }

  lemma FirstStep(h: seq<ExecIns>, x: ExecIns, p: nat)
    ensures Firsts(h + [x], p) == Firsts(h, p) + if IsFirst(h + [x], p, |h|) then {|h|} else {}
  {
    forall b: nat | b < |h| ensures IsFirst(h + [x], p, b) == IsFirst(h, p, b) {
      forall c: nat | c <= b
        ensures Accept(h + [x], p, c) == Accept(h, p, c) && Window(h + [x], p, c) == Window(h, p, c)
      {
        WindowStable(h, x, p, c);
      }
    }
  }

  /** Two stored records never share a set of PCs, whichever positions they come from. */
  lemma FirstsAreUnique(h: seq<ExecIns>, p: nat, b: nat, c: nat)
    requires IsFirst(h, p, b) && IsFirst(h, p, c) && PcSet(Window(h, p, b)) == PcSet(Window(h, p, c))
    ensures b == c
  {
  }

  /** Every accepted window has a first one with its PCs. */
  lemma {:induction false} HasFirst(h: seq<ExecIns>, p: nat, b: nat) returns (c: nat)
    requires Accept(h, p, b)
    ensures c <= b && IsFirst(h, p, c) && PcSet(Window(h, p, c)) == PcSet(Window(h, p, b))
  {
    if IsFirst(h, p, b) {
      c := b;
    } else {
      var d: nat :| d < b && Accept(h, p, d) && PcSet(Window(h, p, d)) == PcSet(Window(h, p, b));
      c := HasFirst(h, p, d);
    }
  }

  /** The record of an older window after the new instruction. */
  function Recounted(h: seq<ExecIns>, x: ExecIns, p: nat, b: nat): Pslice
    requires Accept(h, p, b)
  {
    var r := Record(h, p, b);
    if Repeats(h, x, p, b) then r.(frequency := r.frequency + 1) else r
  }

  lemma RecordRecounted(h: seq<ExecIns>, x: ExecIns, p: nat, b: nat)
    requires Accept(h, p, b)
    ensures Accept(h + [x], p, b) && Record(h + [x], p, b) == Recounted(h, x, p, b)
  {
    RecordStep(h, x, p, b);
  }

  /** What the new instruction does to the stored records. */
  lemma StoredStep(h: seq<ExecIns>, x: ExecIns, p: nat)
    ensures Stored(h + [x], p) ==
            (set b | b in Firsts(h, p) :: Recounted(h, x, p, b)) +
            if IsFirst(h + [x], p, |h|) then {Record(h + [x], p, |h|)} else {}
  {
    FirstStep(h, x, p);
    forall b | b in Firsts(h, p) ensures Accept(h + [x], p, b) && Record(h + [x], p, b) == Recounted(h, x, p, b) {
      RecordRecounted(h, x, p, b);
    }
  }

  /** Nothing accepted here: nothing changes. */
  lemma StoredUnchanged(h: seq<ExecIns>, x: ExecIns, p: nat)
    requires !Accept(h + [x], p, |h|)
    ensures Stored(h + [x], p) == Stored(h, p)
  {
    StoredStep(h, x, p);
    assert forall b | b in Firsts(h, p) :: Recounted(h, x, p, b) == Record(h, p, b);
  }

  /** The first window with its PCs is shared by no other one. */
  lemma FirstSharing(h: seq<ExecIns>, x: ExecIns, p: nat)
    requires IsFirst(h + [x], p, |h|)
    ensures Frequency(h + [x], p, |h|) == 1
  {
    var h', n := h + [x], |h|;
    var shared := Sharing(h', p, PcSet(Window(h', p, n)));
    forall b | b in shared ensures b == n {
      var d := HasFirst(h', p, b);
      FirstsAreUnique(h', p, d, n);
    }
    assert shared == {n};
  }

  /** A window with new PCs adds its own record. */
  lemma StoredNew(h: seq<ExecIns>, x: ExecIns, p: nat)
    requires Accept(h + [x], p, |h|)
    requires forall b | b in Firsts(h, p) :: !Repeats(h, x, p, b)
    ensures Stored(h + [x], p) ==
            Stored(h, p) + {Completed(p, Iteration(h + [x], p, |h|), 1, Window(h + [x], p, |h|))}
  {
    var c := HasFirst(h + [x], p, |h|);
    FirstStep(h, x, p);
    if c < |h| {
      WindowStable(h, x, p, c);
      assert Repeats(h, x, p, c);
      assert false;
    }
    FirstSharing(h, x, p);
    StoredStep(h, x, p);
    assert forall b | b in Firsts(h, p) :: Recounted(h, x, p, b) == Record(h, p, b);
  }

  /** A window whose PCs were seen before raises the frequency of their record by one. */
  lemma StoredAgain(h: seq<ExecIns>, x: ExecIns, p: nat, c: nat)
    requires c in Firsts(h, p) && Repeats(h, x, p, c)
    ensures var r := Record(h, p, c);
            Stored(h + [x], p) == Stored(h, p) - {r} + {r.(frequency := r.frequency + 1)}
  {
    var r := Record(h, p, c);
    StoredStep(h, x, p);
    WindowStable(h, x, p, c);
    assert !IsFirst(h + [x], p, |h|);
    forall b | b in Firsts(h, p) && b != c
      ensures Recounted(h, x, p, b) == Record(h, p, b) != r
    {
      if PcSet(Window(h, p, b)) == PcSet(Window(h, p, c)) { FirstsAreUnique(h, p, b, c); }
    }
    assert Recounted(h, x, p, c) == r.(frequency := r.frequency + 1);
  }

  // ---------------------------------------------------------------------------
  // Conservation: every accepted window is counted in exactly one record
  // ---------------------------------------------------------------------------

  ghost function TotalFrequency(all: set<Pslice>): nat
  {
    if all == {} then 0 else
    var s :| s in all;
    s.frequency + TotalFrequency(all - {s})
  }

  lemma {:induction false} TotalFrequencyRemove(all: set<Pslice>, s: Pslice)
    requires s in all
    ensures TotalFrequency(all) == s.frequency + TotalFrequency(all - {s})
    decreases |all|
  {
    var t :| t in all && TotalFrequency(all) == t.frequency + TotalFrequency(all - {t});
    if t != s {
      TotalFrequencyRemove(all - {t}, s);
      TotalFrequencyRemove(all - {s}, t);
      assert all - {t} - {s} == all - {s} - {t};
    }
  }

  function Accepted(h: seq<ExecIns>, p: nat): set<nat>
  {
    set b: nat | b < |h| && Accept(h, p, b)
  }

  lemma AcceptedStep(h: seq<ExecIns>, x: ExecIns, p: nat)
    ensures |Accepted(h + [x], p)| == |Accepted(h, p)| + if Accept(h + [x], p, |h|) then 1 else 0
  {
    forall b: nat | b < |h| ensures Accept(h + [x], p, b) == Accept(h, p, b) {
      WindowStable(h, x, p, b);
    }
    assert Accepted(h + [x], p) == Accepted(h, p) + if Accept(h + [x], p, |h|) then {|h|} else {};
  }

  lemma TotalFrequencyAdd(all: set<Pslice>, w: Pslice)
    requires w !in all
    ensures TotalFrequency(all + {w}) == TotalFrequency(all) + w.frequency
  {
    TotalFrequencyRemove(all + {w}, w);
    assert all + {w} - {w} == all;
  }

  lemma TotalFrequencyRaise(all: set<Pslice>, r: Pslice)
    requires Distinct(all) && r in all
    ensures TotalFrequency(all - {r} + {r.(frequency := r.frequency + 1)}) == TotalFrequency(all) + 1
  {
    var r' := r.(frequency := r.frequency + 1);
    assert r' !in all - {r};
    TotalFrequencyRemove(all, r);
    TotalFrequencyAdd(all - {r}, r');
  }

  lemma TotalFrequencyStep(h: seq<ExecIns>, x: ExecIns, p: nat)
    ensures TotalFrequency(Stored(h + [x], p)) ==
            TotalFrequency(Stored(h, p)) + if Accept(h + [x], p, |h|) then 1 else 0
  {
    if !Accept(h + [x], p, |h|) {
      StoredUnchanged(h, x, p);
    } else if c :| c in Firsts(h, p) && Repeats(h, x, p, c) {
      StoredDistinct(h, p);
      StoredAgain(h, x, p, c);
      TotalFrequencyRaise(Stored(h, p), Record(h, p, c));
    } else {
      StoredNew(h, x, p);
      var w := Completed(p, Iteration(h + [x], p, |h|), 1, Window(h + [x], p, |h|));
      forall c | c in Firsts(h, p) ensures Record(h, p, c) != w {
        assert !Repeats(h, x, p, c);
      }
      TotalFrequencyAdd(Stored(h, p), w);
    }
  }

  /** The frequencies of all stored records add up to the number of accepted windows. */
  lemma {:induction false} FrequenciesAddUp(h: seq<ExecIns>, p: nat)
    ensures TotalFrequency(Stored(h, p)) == |Accepted(h, p)|
  {
    if h != [] {
      var g, x := h[..|h| - 1], h[|h| - 1];
      assert h == g + [x];
      FrequenciesAddUp(g, p);
      AcceptedStep(g, x, p);
      TotalFrequencyStep(g, x, p);
    }
  }

  // ---------------------------------------------------------------------------
  // The collector
  // ---------------------------------------------------------------------------

  /** Stored records are told apart by their sets of PCs. */
  predicate Distinct(all: set<Pslice>)
  {
    && (forall s | s in all :: Ascending(s.ptraceSet))
    && (forall s, t | s in all && t in all && Elements(s.ptraceSet) == Elements(t.ptraceSet) :: s == t)
  }

  /**
   Wrap up a finished window: the stored records are visited in no particular
   order; a record with the same PCs is counted up, otherwise the window is
   sliced and added.
   */
  method StoreWindow(all: set<Pslice>, w: Pslice, uninitialised: bool) returns (all': set<Pslice>)
    requires w.ptrace != [] && Ascending(w.ptraceSet) && Distinct(all)
    ensures forall s | s in all && Elements(s.ptraceSet) == Elements(w.ptraceSet) ::
              all' == all - {s} + {s.(frequency := s.frequency + 1)}
    ensures (forall s | s in all :: Elements(s.ptraceSet) != Elements(w.ptraceSet)) ==>
              all' == all + {w.(pslice := Slice(w.ptrace))}
  {
    var rest := all;
    while rest != {}
      invariant rest <= all
      invariant forall s | s in all - rest :: Elements(s.ptraceSet) != Elements(w.ptraceSet)
      decreases rest
    {
      var s :| s in rest;
      var same := IsEqual(s.ptraceSet, w.ptraceSet);
      if same {
        return all - {s} + {s.(frequency := s.frequency + 1)};
      }
      rest := rest - {s};
    }
    var sliced := GeneratePslice(w.ptrace, uninitialised);
    return all + {w.(pslice := sliced)};
  }

  lemma StoredDistinct(h: seq<ExecIns>, p: nat)
    ensures Distinct(Stored(h, p))
  {
    forall s, t | s in Stored(h, p) && t in Stored(h, p) && Elements(s.ptraceSet) == Elements(t.ptraceSet)
      ensures s == t
    {
      var b :| b in Firsts(h, p) && s == Record(h, p, b);
      var c :| c in Firsts(h, p) && t == Record(h, p, c);
      ListingElements(s.ptrace);
      ListingElements(t.ptrace);
      FirstsAreUnique(h, p, b, c);
    }
  }

  /** At an occurrence of p, wrapping up brings the stored records up to date. */
  method FinishWindow(ghost h: seq<ExecIns>, x: ExecIns, ghost p: nat, all: set<Pslice>, w: Pslice, uninitialised: bool)
    returns (all': set<Pslice>)
    requires x.pc == p && Cut(Extend(Open(h, p), x)) == Some(w) && all == Stored(h, p)
    ensures all' == Stored(h + [x], p)
  {
    OpenCloses(h, x, p);
    StoredDistinct(h, p);
    all' := StoreWindow(all, w, uninitialised);
    ListingElements(w.ptrace);
    if c :| c in Firsts(h, p) && Repeats(h, x, p, c) {
      ListingElements(Window(h, p, c));
      assert Record(h, p, c) in all;
      StoredAgain(h, x, p, c);
    } else {
      forall s | s in all ensures Elements(s.ptraceSet) != Elements(w.ptraceSet) {
        var c :| c in Firsts(h, p) && s == Record(h, p, c);
        ListingElements(s.ptrace);
        assert !Repeats(h, x, p, c);
      }
      StoredNew(h, x, p);
    }
  }

  /** For delinquent PC p the collector holds what the history h calls for. */
  ghost predicate UpToDate(p: nat, iter: nat, active: Option<Pslice>, all: set<Pslice>, h: seq<ExecIns>)
  {
    iter == Occurrences(h, p, |h|) && active == Open(h, p) && all == Stored(h, p)
  }

  /** The same, except that the next instruction x is already in the open window. */
  ghost predicate Pending(p: nat, iter: nat, active: Option<Pslice>, all: set<Pslice>, h: seq<ExecIns>, x: ExecIns)
  {
    iter == Occurrences(h, p, |h|) && active == Cut(Extend(Open(h, p), x)) && all == Stored(h, p)
  }

  class PsliceConstructor {
    const delinqPCs: seq<nat>
    var currentIter: seq<nat>
    var activePslices: seq<Option<Pslice>>
    var allPslices: seq<set<Pslice>>
    ghost var history: seq<ExecIns>

    ghost predicate Valid()
      reads this
    {
      && Ascending(delinqPCs)
      && |currentIter| == |activePslices| == |allPslices| == |delinqPCs|
      && forall i | 0 <= i < |delinqPCs| ::
           UpToDate(delinqPCs[i], currentIter[i], activePslices[i], allPslices[i], history)
    }

    constructor (pcs: seq<nat>)
      requires Ascending(pcs)
      ensures Valid() && delinqPCs == pcs && history == []
    {
      delinqPCs := pcs;
      currentIter := seq(|pcs|, i => 0);
      activePslices := seq(|pcs|, i => None);
      allPslices := seq(|pcs|, i => {});
      history := [];
    }

    /** The instruction goes into every window under construction. */
    method InsertEverywhere(x: ExecIns)
      requires forall j | 0 <= j < |activePslices| ::
                 activePslices[j].Some? ==> Ascending(activePslices[j].value.ptraceSet)
      modifies this`activePslices
      ensures |activePslices| == old(|activePslices|)
      ensures forall j | 0 <= j < |activePslices| :: activePslices[j] == Extend(old(activePslices)[j], x)
    {
      for i := 0 to |activePslices|
        invariant |activePslices| == old(|activePslices|)
        invariant forall j | 0 <= j < |activePslices| ::
                    activePslices[j] == if j < i then Extend(old(activePslices)[j], x) else old(activePslices)[j]
      {
        if activePslices[i].Some? {
          activePslices := activePslices[i := Some(InsertInst(activePslices[i].value, x))];
        }
      }
    }

    /** Windows that have become too long are discarded. */
    method CutEverywhere()
      modifies this`activePslices
      ensures |activePslices| == old(|activePslices|)
      ensures forall j | 0 <= j < |activePslices| :: activePslices[j] == Cut(old(activePslices)[j])
    {
      for i := 0 to |activePslices|
        invariant |activePslices| == old(|activePslices|)
        invariant forall j | 0 <= j < |activePslices| ::
                    activePslices[j] == if j < i then Cut(old(activePslices)[j]) else old(activePslices)[j]
      {
        if activePslices[i].Some? && |activePslices[i].value.ptrace| > PSLICE_MAX_SIZE {
          activePslices := activePslices[i := None];
        }
      }
    }

    /** The test of instruction x against delinquent PC i. */
    method MatchDelinquent(i: nat, x: ExecIns, uninitialised: bool, ghost h: seq<ExecIns>)
      requires i < |delinqPCs| == |currentIter| == |activePslices| == |allPslices|
      requires Pending(delinqPCs[i], currentIter[i], activePslices[i], allPslices[i], h, x)
      modifies this`currentIter, this`activePslices, this`allPslices
      ensures |currentIter| == old(|currentIter|)
      ensures |activePslices| == old(|activePslices|) && |allPslices| == old(|allPslices|)
      ensures UpToDate(delinqPCs[i], currentIter[i], activePslices[i], allPslices[i], h + [x])
      ensures forall j | 0 <= j < |currentIter| && j != i :: currentIter[j] == old(currentIter)[j]
      ensures forall j | 0 <= j < |activePslices| && j != i :: activePslices[j] == old(activePslices)[j]
      ensures forall j | 0 <= j < |allPslices| && j != i :: allPslices[j] == old(allPslices)[j]
    {
      PrefixStable(h, x, delinqPCs[i], |h|);
      if delinqPCs[i] == x.pc {
        NewWindow(h, x, x.pc);
        currentIter := currentIter[i := currentIter[i] + 1];
        if activePslices[i].Some? {
          var all := FinishWindow(h, x, x.pc, allPslices[i], activePslices[i].value, uninitialised);
          allPslices := allPslices[i := all];
        } else {
          OpenCloses(h, x, x.pc);
          StoredUnchanged(h, x, x.pc);
        }
        activePslices := activePslices[i := Some(Pslice(x.pc, currentIter[i], 1, [], [], []))];
      } else {
        OpenGrows(h, x, delinqPCs[i]);
        StoredUnchanged(h, x, delinqPCs[i]);
      }
    }

    /** One instruction of the stream: the collector keeps agreeing with the whole history. */
    method RecieveInstruction(x: ExecIns, uninitialised: bool)
      requires Valid()
      modifies this
      ensures Valid() && history == old(history) + [x]
    {
      ghost var h := history;
      assert forall i | 0 <= i < |delinqPCs| :: activePslices[i] == Open(h, delinqPCs[i]);
      InsertEverywhere(x);
      CutEverywhere();
      for i := 0 to |delinqPCs|
        invariant |activePslices| == |currentIter| == |allPslices| == |delinqPCs|
        invariant forall j | 0 <= j < i ::
                    UpToDate(delinqPCs[j], currentIter[j], activePslices[j], allPslices[j], h + [x])
        invariant forall j | i <= j < |delinqPCs| ::
                    Pending(delinqPCs[j], currentIter[j], activePslices[j], allPslices[j], h, x)
        invariant history == h
      {
        MatchDelinquent(i, x, uninitialised, h);
      }
      history := h + [x];
    }
  }
}
