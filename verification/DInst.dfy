/**
 Register dependences between dynamic instructions. Each producer threads a
 singly linked list through the `pend` nodes that live inside its consumers, so
 one node is a member of one list at a time and no list owns its nodes.

 Instructions come from a pool and are named by their number. The address of
 `pend[k]` in instruction d is 3 * d + k, and the null pointer is -1.
 */
module DInsts {
  import opened Common

  const MAX_PENDING_SOURCES := 3

  const NULL := -1

  function Node(d: nat, k: nat): nat { MAX_PENDING_SOURCES * d + k }

  /** getDInst: the consumer a node belongs to. */
  function Owner(n: nat): nat { n / MAX_PENDING_SOURCES }

  /** What the pool's pointer fields stand for. */
  datatype Lists = Lists(
    waiting: seq<seq<nat>>,  // per producer: the nodes from first to last
    served: seq<nat>,        // per producer: how many nodes have left its list
    ticket: seq<nat>)        // per node: how many joined its producer's list before it

  /** p's list is null-terminated, runs from first to last, and holds exactly its waiting nodes in order. */
  predicate Threaded(s: seq<nat>, first: int, last: int, nextDep: seq<int>)
  {
    && (forall i | 0 <= i < |s| :: s[i] < |nextDep|)
    && (s == [] ==> first == NULL)
    && (s != [] ==> first == s[0] && last == s[|s| - 1] && nextDep[s[|s| - 1]] == NULL)
    && (forall i, j | 0 <= i < |s| && j == i + 1 && j < |s| :: nextDep[s[i]] == s[j])
  }

  /** The nodes of s are in use, belong to producer p, and are numbered in order of registration. */
  predicate Numbered(s: seq<nat>, p: nat, served: nat, isUsed: seq<bool>, parent: seq<int>, ticket: seq<nat>)
    requires |isUsed| == |parent| == |ticket|
  {
    forall i | 0 <= i < |s| :: s[i] < |isUsed| && isUsed[s[i]] && parent[s[i]] == p && ticket[s[i]] == served + i
  }

  /** Node n stands in its producer's list, at the place its ticket says. */
  predicate Stands(n: nat, parent: int, ticket: nat, l: Lists)
    requires |l.waiting| == |l.served|
  {
    && 0 <= parent < |l.waiting|
    && l.served[parent] <= ticket < l.served[parent] + |l.waiting[parent]|
    && l.waiting[parent][ticket - l.served[parent]] == n
  }

  /** Every counter is the number of its instruction's unsatisfied operands. */
  predicate Counted(nDeps: seq<int>, isUsed: seq<bool>)
    requires |isUsed| == MAX_PENDING_SOURCES * |nDeps|
  {
    forall d | 0 <= d < |nDeps| ::
      nDeps[d] == One(isUsed[Node(d, 0)]) + One(isUsed[Node(d, 1)]) + One(isUsed[Node(d, 2)])
  }

  predicate AllThreaded(l: Lists, first: seq<int>, last: seq<int>, nextDep: seq<int>)
    requires |first| == |last| == |l.waiting|
  {
    forall p | 0 <= p < |l.waiting| :: Threaded(l.waiting[p], first[p], last[p], nextDep)
  }

  predicate AllNumbered(l: Lists, isUsed: seq<bool>, parent: seq<int>)
    requires |l.waiting| == |l.served| && |isUsed| == |parent| == |l.ticket|
  {
    forall p | 0 <= p < |l.waiting| :: Numbered(l.waiting[p], p, l.served[p], isUsed, parent, l.ticket)
  }

  /** Every node in use stands in exactly one list: that of its producer. */
  predicate AllStand(l: Lists, isUsed: seq<bool>, parent: seq<int>)
    requires |l.waiting| == |l.served| && |isUsed| == |parent| == |l.ticket|
  {
    forall n | 0 <= n < |isUsed| && isUsed[n] :: Stands(n, parent[n], l.ticket[n], l)
  }

  lemma CountedUpdate(nDeps: seq<int>, isUsed: seq<bool>, d: nat, k: nat, b: bool)
    requires |isUsed| == MAX_PENDING_SOURCES * |nDeps| && Counted(nDeps, isUsed)
    requires d < |nDeps| && k < MAX_PENDING_SOURCES && isUsed[Node(d, k)] != b
    ensures Counted(nDeps[d := nDeps[d] + if b then 1 else -1], isUsed[Node(d, k) := b])
  {
  }

  /** The list after a node joins at the end. */
  function Joined(l: Lists, p: nat, n: nat): Lists
    requires p < |l.waiting| == |l.served| && n < |l.ticket|
  {
    Lists(l.waiting[p := l.waiting[p] + [n]], l.served, l.ticket[n := l.served[p] + |l.waiting[p]|])
  }

  /** The list after its first node leaves. */
  function Left(l: Lists, p: nat): Lists
    requires p < |l.waiting| == |l.served| && l.waiting[p] != []
  {
    l.(waiting := l.waiting[p := l.waiting[p][1..]], served := l.served[p := l.served[p] + 1])
  }

  lemma JoinThreaded(s: seq<nat>, first: int, last: int, nextDep: seq<int>, n: nat)
    requires Threaded(s, first, last, nextDep) && n < |nextDep| && n !in s
    ensures s == [] ==> Threaded([n], n, n, nextDep[n := NULL])
    ensures s != [] ==> first >= 0 && 0 <= last < |nextDep| && last in s
    ensures s != [] ==> Threaded(s + [n], first, n, nextDep[last := n][n := NULL])
  {
    if s != [] {
      var s', next' := s + [n], nextDep[last := n][n := NULL];
      assert forall i, j | 0 <= i < |s'| && j == i + 1 && j < |s'| :: next'[s'[i]] == s'[j] by {
        forall i, j | 0 <= i < |s'| && j == i + 1 && j < |s'| ensures next'[s'[i]] == s'[j] {
          if j < |s| {
            assert nextDep[s[i]] == s[j];
          }
        }
      }
    }
  }

  /** A node is in use exactly when it is listed, and it is never listed twice. */
  lemma ListedOnce(l: Lists, isUsed: seq<bool>, parent: seq<int>, n: nat)
    requires |l.waiting| == |l.served| && |isUsed| == |parent| == |l.ticket| && n < |isUsed|
    requires AllNumbered(l, isUsed, parent) && AllStand(l, isUsed, parent)
    ensures isUsed[n] <==> exists p, i | 0 <= p < |l.waiting| && 0 <= i < |l.waiting[p]| :: l.waiting[p][i] == n
    ensures forall p, i, q, j | 0 <= p < |l.waiting| && 0 <= i < |l.waiting[p]| && l.waiting[p][i] == n &&
                                0 <= q < |l.waiting| && 0 <= j < |l.waiting[q]| && l.waiting[q][j] == n ::
              p == q && i == j
  {
    forall p, i | 0 <= p < |l.waiting| && 0 <= i < |l.waiting[p]| && l.waiting[p][i] == n
      ensures isUsed[n] && parent[n] == p && l.ticket[n] == l.served[p] + i
    {
      assert Numbered(l.waiting[p], p, l.served[p], isUsed, parent, l.ticket);
    }
    if isUsed[n] {
      assert Stands(n, parent[n], l.ticket[n], l);
    }
  }

  /** A list keeps its shape when only nodes outside it are relinked. */
  lemma OtherThreaded(s: seq<nat>, first: int, last: int, nextDep: seq<int>, next': seq<int>)
    requires Threaded(s, first, last, nextDep) && |next'| == |nextDep|
    requires forall i | 0 <= i < |s| :: next'[s[i]] == nextDep[s[i]]
    ensures Threaded(s, first, last, next')
  {
  }

  lemma FreeNodeNotListed(l: Lists, isUsed: seq<bool>, parent: seq<int>, n: nat, p: nat)
    requires |l.waiting| == |l.served| && |isUsed| == |parent| == |l.ticket| && AllNumbered(l, isUsed, parent)
    requires p < |l.waiting| && n < |isUsed| && !isUsed[n]
    ensures n !in l.waiting[p]
  {
  }

  lemma ListsDisjoint(l: Lists, isUsed: seq<bool>, parent: seq<int>, x: nat, p: nat, q: nat)
    requires |l.waiting| == |l.served| && |isUsed| == |parent| == |l.ticket| && AllNumbered(l, isUsed, parent)
    requires p < |l.waiting| && q < |l.waiting| && p != q && x in l.waiting[p]
    ensures x !in l.waiting[q]
  {
  }

  lemma JoinAllThreaded(l: Lists, first: seq<int>, last: seq<int>, nextDep: seq<int>,
                        isUsed: seq<bool>, parent: seq<int>,
                        p: nat, n: nat)
    requires |first| == |last| == |l.waiting| == |l.served| && |nextDep| == |isUsed| == |parent| == |l.ticket|
    requires AllThreaded(l, first, last, nextDep) && AllNumbered(l, isUsed, parent)
    requires p < |l.waiting| && n < |isUsed| && !isUsed[n]
    ensures first[p] == NULL ==> AllThreaded(Joined(l, p, n), first[p := n], last[p := n], nextDep[n := NULL])
    ensures first[p] != NULL ==> 0 <= last[p] < |nextDep|
    ensures first[p] != NULL ==>
              AllThreaded(Joined(l, p, n), first, last[p := n], nextDep[last[p] := n][n := NULL])
  {
    var s := l.waiting[p];
    assert Threaded(s, first[p], last[p], nextDep);
    FreeNodeNotListed(l, isUsed, parent, n, p);
    JoinThreaded(s, first[p], last[p], nextDep, n);
    var next' := if first[p] == NULL then nextDep[n := NULL] else nextDep[last[p] := n][n := NULL];
    forall q | 0 <= q < |l.waiting| && q != p ensures Threaded(l.waiting[q], first[q], last[q], next') {
      FreeNodeNotListed(l, isUsed, parent, n, q);
      if first[p] != NULL {
        ListsDisjoint(l, isUsed, parent, last[p], p, q);
      }
      OtherThreaded(l.waiting[q], first[q], last[q], nextDep, next');
    }
  }

  lemma JoinNumbered(l: Lists, isUsed: seq<bool>, parent: seq<int>, p: nat, n: nat)
    requires |l.waiting| == |l.served| && |isUsed| == |parent| == |l.ticket| && AllNumbered(l, isUsed, parent)
    requires p < |l.waiting| && n < |isUsed| && !isUsed[n]
    ensures AllNumbered(Joined(l, p, n), isUsed[n := true], parent[n := p])
  {
    forall q | 0 <= q < |l.waiting| ensures n !in l.waiting[q] {
      FreeNodeNotListed(l, isUsed, parent, n, q);
    }
    forall q | 0 <= q < |l.waiting|
      ensures Numbered(Joined(l, p, n).waiting[q], q, l.served[q], isUsed[n := true], parent[n := p],
                       Joined(l, p, n).ticket)
    {
      assert Numbered(l.waiting[q], q, l.served[q], isUsed, parent, l.ticket);
    }
  }

  lemma JoinStand(l: Lists, isUsed: seq<bool>, parent: seq<int>, p: nat, n: nat)
    requires |l.waiting| == |l.served| && |isUsed| == |parent| == |l.ticket| && AllStand(l, isUsed, parent)
    requires p < |l.waiting| && n < |isUsed| && !isUsed[n]
    ensures AllStand(Joined(l, p, n), isUsed[n := true], parent[n := p])
  {
    var l' := Joined(l, p, n);
    forall m | 0 <= m < |isUsed| && isUsed[m] ensures Stands(m, parent[m], l.ticket[m], l') {
      assert Stands(m, parent[m], l.ticket[m], l);
    }
    assert Stands(n, p, l'.ticket[n], l');
  }

  lemma LeaveAllThreaded(l: Lists, first: seq<int>, last: seq<int>, nextDep: seq<int>, p: nat)
    requires |first| == |last| == |l.waiting| == |l.served| && AllThreaded(l, first, last, nextDep)
    requires p < |l.waiting| && l.waiting[p] != []
    ensures first[p] == l.waiting[p][0] < |nextDep|
    ensures AllThreaded(Left(l, p), first[p := nextDep[first[p]]], last, nextDep)
  {
    var s := l.waiting[p];
    assert Threaded(s, first[p], last[p], nextDep);
    assert Threaded(s[1..], nextDep[s[0]], last[p], nextDep) by {
      if |s| > 1 {
        assert nextDep[s[0]] == s[1];
        var t := s[1..];
        forall i, j | 0 <= i < |t| && j == i + 1 && j < |t| ensures nextDep[t[i]] == t[j] {
          assert t[i] == s[i + 1] && t[j] == s[j + 1];
        }
      }
    }
  }

  lemma LeaveNumbered(l: Lists, isUsed: seq<bool>, parent: seq<int>, p: nat)
    requires |l.waiting| == |l.served| && |isUsed| == |parent| == |l.ticket| && AllNumbered(l, isUsed, parent)
    requires p < |l.waiting| && l.waiting[p] != []
    ensures l.waiting[p][0] < |isUsed| && isUsed[l.waiting[p][0]]
    ensures AllNumbered(Left(l, p), isUsed[l.waiting[p][0] := false], parent[l.waiting[p][0] := NULL])
  {
    var n, l' := l.waiting[p][0], Left(l, p);
    assert Numbered(l.waiting[p], p, l.served[p], isUsed, parent, l.ticket);
    forall q | 0 <= q < |l.waiting|
      ensures Numbered(l'.waiting[q], q, l'.served[q], isUsed[n := false], parent[n := NULL], l.ticket)
    {
      assert Numbered(l.waiting[q], q, l.served[q], isUsed, parent, l.ticket);
      if q != p {
        ListsDisjoint(l, isUsed, parent, n, p, q);
      }
    }
  }

  lemma LeaveStand(l: Lists, isUsed: seq<bool>, parent: seq<int>, p: nat)
    requires |l.waiting| == |l.served| && |isUsed| == |parent| == |l.ticket|
    requires AllStand(l, isUsed, parent) && AllNumbered(l, isUsed, parent)
    requires p < |l.waiting| && l.waiting[p] != []
    ensures l.waiting[p][0] < |isUsed|
    ensures AllStand(Left(l, p), isUsed[l.waiting[p][0] := false], parent[l.waiting[p][0] := NULL])
  {
    var n, l' := l.waiting[p][0], Left(l, p);
    assert Numbered(l.waiting[p], p, l.served[p], isUsed, parent, l.ticket);
    forall m | 0 <= m < |isUsed| && isUsed[m] && m != n ensures Stands(m, parent[m], l.ticket[m], l') {
      assert Stands(m, parent[m], l.ticket[m], l);
    }
  }

  /** All fields of the pool. */
  datatype Image = Image(
    first: seq<int>, last: seq<int>, nDeps: seq<int>,
    nextDep: seq<int>, isUsed: seq<bool>, parent: seq<int>, l: Lists)
  {
    predicate Sizes(size: nat)
    {
      && |first| == |last| == |nDeps| == |l.waiting| == |l.served| == size
      && |nextDep| == |isUsed| == |parent| == |l.ticket| == MAX_PENDING_SOURCES * size
    }
  }

  /** What every operation keeps of instruction d, as a producer and as a consumer. */
  predicate Sane(m: Image, size: nat, d: nat)
    requires m.Sizes(size) && d < size
  {
    && m.nDeps[d] == One(m.isUsed[Node(d, 0)]) + One(m.isUsed[Node(d, 1)]) + One(m.isUsed[Node(d, 2)])
    && Threaded(m.l.waiting[d], m.first[d], m.last[d], m.nextDep)
    && Numbered(m.l.waiting[d], d, m.l.served[d], m.isUsed, m.parent, m.l.ticket)
    && (forall k | 0 <= k < MAX_PENDING_SOURCES && m.isUsed[Node(d, k)] ::
          Stands(Node(d, k), m.parent[Node(d, k)], m.l.ticket[Node(d, k)], m.l))
  }

  /** The first n instructions of the pool are sane. */
  predicate AllSane(m: Image, size: nat, n: nat)
    requires m.Sizes(size) && n <= size
  {
    n == 0 || (AllSane(m, size, n - 1) && Sane(m, size, n - 1))
  }

  predicate Consistent(m: Image, size: nat)
  {
    m.Sizes(size) && AllSane(m, size, size)
  }

  lemma {:induction false} EachSane(m: Image, size: nat, n: nat)
    requires m.Sizes(size) && n <= size
    ensures AllSane(m, size, n) <==> forall d | 0 <= d < n :: Sane(m, size, d)
  {
    if n > 0 { EachSane(m, size, n - 1); }
  }

  /** The same, property by property. */
  lemma ConsistentParts(m: Image, size: nat)
    requires m.Sizes(size)
    ensures Consistent(m, size) <==>
            && Counted(m.nDeps, m.isUsed)
            && AllThreaded(m.l, m.first, m.last, m.nextDep)
            && AllNumbered(m.l, m.isUsed, m.parent)
            && AllStand(m.l, m.isUsed, m.parent)
  {
    EachSane(m, size, size);
    if Consistent(m, size) {
      forall d | 0 <= d < size
        ensures m.nDeps[d] == One(m.isUsed[Node(d, 0)]) + One(m.isUsed[Node(d, 1)]) + One(m.isUsed[Node(d, 2)])
        ensures Threaded(m.l.waiting[d], m.first[d], m.last[d], m.nextDep)
        ensures Numbered(m.l.waiting[d], d, m.l.served[d], m.isUsed, m.parent, m.l.ticket)
      {
        assert Sane(m, size, d);
      }
      forall n | 0 <= n < |m.isUsed| && m.isUsed[n] ensures Stands(n, m.parent[n], m.l.ticket[n], m.l) {
        assert Sane(m, size, Owner(n)) && n == Node(Owner(n), n % MAX_PENDING_SOURCES);
      }
    }
  }

  /** A list is empty exactly when its first pointer is null. */
  lemma PendingIffFirst(m: Image, size: nat, p: nat)
    requires Consistent(m, size) && p < size
    ensures m.l.waiting[p] != [] <==> m.first[p] != NULL
    ensures m.l.waiting[p] != [] ==>
              && m.first[p] == m.l.waiting[p][0] < |m.isUsed| && m.isUsed[m.first[p]]
              && Owner(m.first[p]) < size && m.nDeps[Owner(m.first[p])] >= 1
  {
    ConsistentParts(m, size);
    var s := m.l.waiting[p];
    assert Threaded(s, m.first[p], m.last[p], m.nextDep);
    assert Numbered(s, p, m.l.served[p], m.isUsed, m.parent, m.l.ticket);
    if s != [] {
      var d := Owner(s[0]);
      assert s[0] == Node(d, 0) || s[0] == Node(d, 1) || s[0] == Node(d, 2);
    }
  }

  /** The pool after operand k of d has joined the list of p. */
  function AfterJoin(m: Image, p: nat, d: nat, k: nat, size: nat): Image
    requires m.Sizes(size) && p < size && d < size && k < MAX_PENDING_SOURCES
    requires m.first[p] != NULL ==> 0 <= m.last[p] < |m.nextDep|
  {
    var n := Node(d, k);
    Image(if m.first[p] == NULL then m.first[p := n] else m.first,
          m.last[p := n], m.nDeps[d := m.nDeps[d] + 1],
          (if m.first[p] == NULL then m.nextDep else m.nextDep[m.last[p] := n])[n := NULL],
          m.isUsed[n := true], m.parent[n := p], Joined(m.l, p, n))
  }

  lemma JoinConsistent(m: Image, p: nat, d: nat, k: nat, size: nat)
    requires Consistent(m, size) && p < size && d < size && k < MAX_PENDING_SOURCES && !m.isUsed[Node(d, k)]
    ensures m.first[p] != NULL ==> 0 <= m.last[p] < |m.nextDep|
    ensures Consistent(AfterJoin(m, p, d, k, size), size)
  {
    var n := Node(d, k);
    ConsistentParts(m, size);
    CountedUpdate(m.nDeps, m.isUsed, d, k, true);
    JoinAllThreaded(m.l, m.first, m.last, m.nextDep, m.isUsed, m.parent, p, n);
    JoinNumbered(m.l, m.isUsed, m.parent, p, n);
    JoinStand(m.l, m.isUsed, m.parent, p, n);
    ConsistentParts(AfterJoin(m, p, d, k, size), size);
  }

  /** The pool after the first node has left the list of p. */
  function AfterLeave(m: Image, p: nat, size: nat): Image
    requires m.Sizes(size) && p < size && m.l.waiting[p] != []
    requires 0 <= m.first[p] < |m.nextDep| && Owner(m.first[p]) < size
  {
    var n, d := m.first[p], Owner(m.first[p]);
    Image(m.first[p := m.nextDep[n]], m.last, m.nDeps[d := m.nDeps[d] - 1],
          m.nextDep, m.isUsed[n := false], m.parent[n := NULL], Left(m.l, p))
  }

  lemma FirstInPool(m: Image, p: nat, size: nat)
    requires Consistent(m, size) && p < size && m.l.waiting[p] != []
    ensures m.first[p] == m.l.waiting[p][0] && 0 <= m.first[p] < |m.nextDep| && Owner(m.first[p]) < size
    ensures m.first[p] == Node(Owner(m.first[p]), m.first[p] % MAX_PENDING_SOURCES)
  {
    PendingIffFirst(m, size, p);
    ConsistentParts(m, size);
  }

  lemma LeaveConsistent(m: Image, p: nat, size: nat)
    requires Consistent(m, size) && p < size && m.l.waiting[p] != []
    ensures 0 <= m.first[p] < |m.nextDep| && Owner(m.first[p]) < size
    ensures Consistent(AfterLeave(m, p, size), size)
  {
    FirstInPool(m, p, size);
    ConsistentParts(m, size);
    LeaveAllThreaded(m.l, m.first, m.last, m.nextDep, p);
    LeaveNumbered(m.l, m.isUsed, m.parent, p);
    LeaveStand(m.l, m.isUsed, m.parent, p);
    var n := m.first[p];
    CountedUpdate(m.nDeps, m.isUsed, Owner(n), n % MAX_PENDING_SOURCES, false);
    ConsistentParts(AfterLeave(m, p, size), size);
  }

  /** The consumer of a node is the one whose operand it stands for. */
  lemma OwnerOfNode(d: nat, k: nat)
    requires k < MAX_PENDING_SOURCES
    ensures Owner(Node(d, k)) == d
  {
  }

  /** The flags with all nodes of s released. */
  function Released(isUsed: seq<bool>, s: seq<nat>): (r: seq<bool>)
    ensures |r| == |isUsed|
    ensures forall n | 0 <= n < |isUsed| :: r[n] <==> isUsed[n] && n !in s
  {
    seq(|isUsed|, n requires 0 <= n < |isUsed| => isUsed[n] && n !in s)
  }

  lemma ReleasedStep(isUsed: seq<bool>, s: seq<nat>, k: nat)
    requires k < |s| && s[k] < |isUsed|
    ensures Released(isUsed, s[..k])[s[k] := false] == Released(isUsed, s[..k + 1])
  {
    assert s[..k + 1] == s[..k] + [s[k]];
  }

  class DInstPool {
    const size: nat
    var first: seq<int>
    var last: seq<int>
    var nDeps: seq<int>
    var nextDep: seq<int>
    var isUsed: seq<bool>
    var parent: seq<int>
    ghost var l: Lists

    ghost function View(): Image
      reads this
    {
      Image(first, last, nDeps, nextDep, isUsed, parent, l)
    }

    ghost predicate Valid()
      reads this
    {
      Consistent(View(), size)
    }

    constructor (n: nat)
      ensures Valid() && size == n && l.waiting == seq(n, i => []) && nDeps == seq(n, i => 0)
    {
      size := n;
      first, last := seq(n, i => NULL), seq(n, i => NULL);
      nDeps := seq(n, i => 0);
      nextDep, parent := seq(MAX_PENDING_SOURCES * n, i => NULL), seq(MAX_PENDING_SOURCES * n, i => NULL);
      isUsed := seq(MAX_PENDING_SOURCES * n, i => false);
      l := Lists(seq(n, i => []), seq(n, i => 0), seq(MAX_PENDING_SOURCES * n, i => 0));
      new;
      ConsistentParts(View(), n);
    }

    /** addSrc1, addSrc2 and addSrc3 for k = 0, 1, 2: operand k of d now waits for p. */
    method AddSrc(p: nat, d: nat, k: nat)
      requires Valid() && p < size && d < size && k < MAX_PENDING_SOURCES
      requires !isUsed[Node(d, k)]
      modifies this
      ensures Valid()
      ensures l.waiting == old(l.waiting)[p := old(l.waiting)[p] + [Node(d, k)]]
      ensures nDeps == old(nDeps)[d := old(nDeps)[d] + 1]
      ensures isUsed == old(isUsed)[Node(d, k) := true]
    {
      JoinConsistent(View(), p, d, k, size);
      nDeps := nDeps[d := nDeps[d] + 1];
      var n := Node(d, k);
      isUsed := isUsed[n := true];
      parent := parent[n := p];
      Link(p, n);
      l := Joined(l, p, n);
      assert View() == AfterJoin(old(View()), p, d, k, size);
    }

    method Link(p: nat, n: nat)
      requires p < |first| == |last| && n < |nextDep|
      requires first[p] != NULL ==> 0 <= last[p] < |nextDep|
      modifies this`first, this`last, this`nextDep
      ensures first == if old(first)[p] == NULL then old(first)[p := n] else old(first)
      ensures nextDep == (if old(first)[p] == NULL then old(nextDep) else old(nextDep)[old(last)[p] := n])[n := NULL]
      ensures last == old(last)[p := n]
    {
      if first[p] == NULL {
        first := first[p := n];
      } else {
        nextDep := nextDep[last[p] := n];
      }
      nextDep := nextDep[n := NULL];
      last := last[p := n];
    }

    method HasPending(p: nat) returns (b: bool)
      requires Valid() && p < size
      ensures b <==> l.waiting[p] != []
    {
      PendingIffFirst(View(), size, p);
      b := first[p] != NULL;
    }

    method HasDeps(d: nat) returns (b: bool)
      requires Valid() && d < size
      ensures b <==> exists k | 0 <= k < MAX_PENDING_SOURCES :: isUsed[Node(d, k)]
    {
      EachSane(View(), size, size);
      assert Sane(View(), size, d);
      b := nDeps[d] != 0;
    }

    /** The longest-waiting operand of p is satisfied; its instruction is returned. */
    method GetNextPending(p: nat) returns (d: nat)
      requires Valid() && p < size && l.waiting[p] != []
      modifies this
      ensures Valid()
      ensures d == Owner(old(l.waiting)[p][0]) < size && old(l.waiting)[p][0] < |old(isUsed)|
      ensures l.waiting == old(l.waiting)[p := old(l.waiting)[p][1..]]
      ensures old(nDeps)[d] >= 1 && nDeps == old(nDeps)[d := old(nDeps)[d] - 1]
      ensures isUsed == old(isUsed)[old(l.waiting)[p][0] := false]
    {
      PendingIffFirst(View(), size, p);
      LeaveConsistent(View(), p, size);
      d := Owner(first[p]);
      nDeps := nDeps[d := nDeps[d] - 1];
      isUsed := isUsed[first[p] := false];
      parent := parent[first[p] := NULL];
      first := first[p := nextDep[first[p]]];
      l := Left(l, p);
      assert View() == AfterLeave(old(View()), p, size);
    }

    /**
     What a producer does when it executes: all its consumers are satisfied, in the
     order of their registration, and no other operand is.
     */
    method WakeUp(p: nat) returns (woken: seq<nat>)
      requires Valid() && p < size
      modifies this
      ensures Valid() && l.waiting == old(l.waiting)[p := []]
      ensures |woken| == |old(l.waiting)[p]|
      ensures forall i | 0 <= i < |woken| :: woken[i] == Owner(old(l.waiting)[p][i])
      ensures isUsed == Released(old(isUsed), old(l.waiting)[p])
    {
      ghost var s := l.waiting[p];
      ghost var k := 0;
      woken := [];
      var pending := HasPending(p);
      while pending
        invariant Valid() && 0 <= k <= |s| && l.waiting == old(l.waiting)[p := s[k..]]
        invariant pending <==> k < |s|
        invariant |woken| == k && forall i | 0 <= i < k :: woken[i] == Owner(s[i])
        invariant isUsed == Released(old(isUsed), s[..k])
        decreases |s| - k
      {
        var d := GetNextPending(p);
        ReleasedStep(old(isUsed), s, k);
        woken := woken + [d];
        k := k + 1;
        pending := HasPending(p);
      }
      assert s[..k] == s;
    }
  }
}
