/**
 The queues of the Linux 0.11 buffer cache: every buffer head is on one circular free list, and
 those that hold a device's block are on the doubly linked list of their hash bucket. A pointer
 is the number of a buffer head, or NULL.
 */
module BufferQueues {

  const NR_HASH := 307

  type Ptr = int
  const NULL: Ptr := -1

  type Dev = bv16
  type BlockNr = bv32

  datatype Head = Head(dev: Dev, block: BlockNr, count: nat, dirt: bool, lock: bool, uptodate: bool,
                       next: Ptr, prev: Ptr, nextFree: Ptr, prevFree: Ptr)

  datatype Cache = Cache(heads: seq<Head>, table: seq<Ptr>, freeList: Ptr)

  function Hash(dev: Dev, block: BlockNr): (k: nat)
    ensures k < NR_HASH
  {
    ((dev as bv32) ^ block) as int % NR_HASH
  }

  predicate IsHead(h: seq<Head>, b: Ptr) {
    0 <= b < |h|
  }

  // ---------------------------------------------------------------- the pointer updates

  function SetNext(h: seq<Head>, b: Ptr, x: Ptr): (r: seq<Head>)
    requires IsHead(h, b)
    ensures |r| == |h|
  {
    h[b := h[b].(next := x)]
  }

  function SetPrev(h: seq<Head>, b: Ptr, x: Ptr): (r: seq<Head>)
    requires IsHead(h, b)
    ensures |r| == |h|
  {
    h[b := h[b].(prev := x)]
  }

  function SetNextFree(h: seq<Head>, b: Ptr, x: Ptr): (r: seq<Head>)
    requires IsHead(h, b)
    ensures |r| == |h|
  {
    h[b := h[b].(nextFree := x)]
  }

  function SetPrevFree(h: seq<Head>, b: Ptr, x: Ptr): (r: seq<Head>)
    requires IsHead(h, b)
    ensures |r| == |h|
  {
    h[b := h[b].(prevFree := x)]
  }

  // ---------------------------------------------------------------- what the pointers form

  ghost predicate Distinct(s: seq<Ptr>) {
    forall i, j :: 0 <= i < j < |s| ==> s[i] != s[j]
  }

  ghost predicate AllHeads(h: seq<Head>, s: seq<Ptr>) {
    forall i :: 0 <= i < |s| ==> IsHead(h, s[i])
  }

  /** A circular list: `s` in the order of the next pointers, from `first` on. */
  ghost predicate Ring(h: seq<Head>, first: Ptr, s: seq<Ptr>) {
    && s != [] && first == s[0] && AllHeads(h, s) && Distinct(s)
    && (forall i, j :: 0 <= i < j < |s| && j == i + 1 ==> h[s[i]].nextFree == s[j] && h[s[j]].prevFree == s[i])
    && h[s[|s| - 1]].nextFree == s[0] && h[s[0]].prevFree == s[|s| - 1]
  }

  /** A hash bucket's list. */
  ghost predicate Chain(h: seq<Head>, first: Ptr, s: seq<Ptr>) {
    && AllHeads(h, s) && Distinct(s)
    && first == (if s == [] then NULL else s[0])
    && (forall i, j :: 0 <= i < j < |s| && j == i + 1 ==> h[s[i]].next == s[j] && h[s[j]].prev == s[i])
    && (s != [] ==> h[s[|s| - 1]].next == NULL && h[s[0]].prev == NULL)
  }

  function Without<T>(s: seq<T>, k: nat): seq<T>
    requires k < |s|
  {
    s[..k] + s[k + 1..]
  }

  lemma WithoutMembers(s: seq<Ptr>, k: nat)
    requires k < |s| && Distinct(s)
    ensures Distinct(Without(s, k)) && s[k] !in Without(s, k)
    ensures forall x :: x in Without(s, k) <==> x in s && x != s[k]
  {
    var r := Without(s, k);
    assert forall i :: 0 <= i < |r| ==> r[i] == if i < k then s[i] else s[i + 1];
    forall x | x in s && x != s[k] ensures x in r {
      var i :| 0 <= i < |s| && s[i] == x;
      assert r[if i < k then i else i - 1] == x;
    }
  }

  // ---------------------------------------------------------------- free list

  function UnlinkFree(h: seq<Head>, b: Ptr): (r: seq<Head>)
    requires IsHead(h, b) && IsHead(h, h[b].prevFree) && IsHead(h, h[b].nextFree)
    ensures |r| == |h|
  {
    var h1 := SetNextFree(h, h[b].prevFree, h[b].nextFree);
    SetPrevFree(h1, h1[b].nextFree, h1[b].prevFree)
  }

  /** The neighbours of a list's k-th element, when the list is circular. */
  function Successor(s: seq<Ptr>, k: nat): Ptr
    requires k < |s|
  {
    s[if k == |s| - 1 then 0 else k + 1]
  }

  function Predecessor(s: seq<Ptr>, k: nat): Ptr
    requires k < |s|
  {
    s[if k == 0 then |s| - 1 else k - 1]
  }

  lemma RingNeighbours(h: seq<Head>, first: Ptr, s: seq<Ptr>, k: nat)
    requires Ring(h, first, s) && k < |s|
    ensures IsHead(h, s[k]) && IsHead(h, Successor(s, k)) && IsHead(h, Predecessor(s, k))
    ensures h[s[k]].prevFree == Predecessor(s, k) && h[s[k]].nextFree == Successor(s, k)
    ensures |s| >= 2 ==> h[s[k]].prevFree != s[k] && h[s[k]].nextFree != s[k]
  {
  }

  predicate OnRing(h: seq<Head>, s: seq<Ptr>, i: nat) {
    && i < |s| && IsHead(h, s[i])
    && h[s[i]].nextFree == Successor(s, i) && h[s[i]].prevFree == Predecessor(s, i)
  }

  lemma RingOfNeighbours(h: seq<Head>, s: seq<Ptr>)
    requires s != [] && Distinct(s) && forall i: nat :: i < |s| ==> OnRing(h, s, i)
    ensures Ring(h, s[0], s)
  {
    hide OnRing;
    forall i: nat | i < |s| ensures IsHead(h, s[i]) {
      OnRingMeans(h, s, i);
    }
    forall i, j | 0 <= i < j < |s| && j == i + 1 ensures h[s[i]].nextFree == s[j] && h[s[j]].prevFree == s[i] {
      OnRingMeans(h, s, i);
      OnRingMeans(h, s, j);
    }
    OnRingMeans(h, s, 0);
    OnRingMeans(h, s, |s| - 1);
  }

  lemma OnRingMeans(h: seq<Head>, s: seq<Ptr>, i: nat)
    requires OnRing(h, s, i)
    ensures i < |s| && IsHead(h, s[i])
    ensures h[s[i]].nextFree == s[if i == |s| - 1 then 0 else i + 1]
    ensures h[s[i]].prevFree == s[if i == 0 then |s| - 1 else i - 1]
  {
  }

  lemma SameElement(s: seq<Ptr>, i: nat, j: nat)
    requires Distinct(s) && i < |s| && j < |s|
    ensures s[i] == s[j] <==> i == j
  {
  }

  lemma WithoutAt<T>(s: seq<T>, k: nat, i: nat)
    requires k < |s| && i + 1 < |s|
    ensures |Without(s, k)| == |s| - 1 && Without(s, k)[i] == s[if i < k then i else i + 1]
  {
  }

  lemma UnlinkFreeWrites(h: seq<Head>, b: Ptr)
    requires IsHead(h, b) && IsHead(h, h[b].prevFree) && IsHead(h, h[b].nextFree)
    requires h[b].prevFree != b && h[b].nextFree != b
    ensures forall i :: 0 <= i < |h| ==>
      UnlinkFree(h, b)[i] == h[i].(nextFree := if i == h[b].prevFree then h[b].nextFree else h[i].nextFree,
                                   prevFree := if i == h[b].nextFree then h[b].prevFree else h[i].prevFree)
  {
  }

  lemma UnlinkFreeRing(h: seq<Head>, first: Ptr, s: seq<Ptr>, k: nat)
    requires Ring(h, first, s) && |s| >= 2 && k < |s|
    ensures var b := s[k];
            && IsHead(h, h[b].prevFree) && IsHead(h, h[b].nextFree)
            && h[b].prevFree != b && h[b].nextFree != b
            && Ring(UnlinkFree(h, b), if first == b then h[b].nextFree else first, Without(s, k))
  {
    hide UnlinkFree;
    RingNeighbours(h, first, s, k);
    WithoutMembers(s, k);
    var r, t := UnlinkFree(h, s[k]), Without(s, k);
    SameElement(s, 0, k);
    WithoutAt(s, k, 0);
    hide Ring, Distinct, Without, Successor, Predecessor;
    forall i: nat | i < |t| ensures OnRing(r, t, i) {
      UnlinkedFree(h, first, s, k, i);
    }
    RingOfNeighbours(r, t);
  }

  /** The neighbours of what stays on the ring. */
  lemma UnlinkedFree(h: seq<Head>, first: Ptr, s: seq<Ptr>, k: nat, i: nat)
    requires Ring(h, first, s) && k < |s| && i + 1 < |s|
    requires IsHead(h, h[s[k]].prevFree) && IsHead(h, h[s[k]].nextFree)
    ensures var r, t := UnlinkFree(h, s[k]), Without(s, k);
            && |t| == |s| - 1 && IsHead(r, t[i])
            && r[t[i]].nextFree == Successor(t, i) && r[t[i]].prevFree == Predecessor(t, i)
  {
    hide UnlinkFree;
    var n := |s| - 1;
    var j := if i < k then i else i + 1;
    var after := if j == n then 0 else j + 1;
    var before := if j == 0 then n else j - 1;
    RingNeighbours(h, first, s, j);
    RingNeighbours(h, first, s, k);
    UnlinkFreeWrites(h, s[k]);
    WithoutAt(s, k, i);
    WithoutAt(s, k, if i == n - 1 then 0 else i + 1);
    WithoutAt(s, k, if i == 0 then n - 1 else i - 1);
    SameElement(s, j, if k == 0 then n else k - 1);
    SameElement(s, j, if k == n then 0 else k + 1);
    hide Ring, Distinct, Without;
  }

  function LinkFree(h: seq<Head>, first: Ptr, b: Ptr): (r: seq<Head>)
    requires IsHead(h, b) && IsHead(h, first) && IsHead(h, h[first].prevFree) && b != first
    ensures |r| == |h|
  {
    var h1 := SetNextFree(h, b, first);
    var h2 := SetPrevFree(h1, b, h1[first].prevFree);
    var h3 := SetNextFree(h2, h2[first].prevFree, b);
    SetPrevFree(h3, first, b)
  }

  lemma LinkFreeWrites(h: seq<Head>, first: Ptr, b: Ptr)
    requires IsHead(h, b) && IsHead(h, first) && IsHead(h, h[first].prevFree) && b != first
    requires h[first].prevFree != b
    ensures forall i :: 0 <= i < |h| ==>
      LinkFree(h, first, b)[i]
      == h[i].(nextFree := if i == h[first].prevFree then b else if i == b then first else h[i].nextFree,
               prevFree := if i == first then b else if i == b then h[first].prevFree else h[i].prevFree)
  {
  }

  lemma LinkFreeRing(h: seq<Head>, first: Ptr, s: seq<Ptr>, b: Ptr)
    requires Ring(h, first, s) && IsHead(h, b) && b !in s
    ensures IsHead(h, h[first].prevFree) && b != first
    ensures Ring(LinkFree(h, first, b), first, s + [b])
  {
    hide LinkFree;
    LinkFreeWrites(h, first, b);
  }

  // ---------------------------------------------------------------- hash lists

  function UnlinkHash(h: seq<Head>, b: Ptr): (r: seq<Head>)
    requires IsHead(h, b)
    requires h[b].next != NULL ==> IsHead(h, h[b].next)
    requires h[b].prev != NULL ==> IsHead(h, h[b].prev)
    requires h[b].next != b
    ensures |r| == |h|
  {
    var h1 := if h[b].next != NULL then SetPrev(h, h[b].next, h[b].prev) else h;
    if h1[b].prev != NULL then SetNext(h1, h1[b].prev, h1[b].next) else h1
  }

  /** The neighbours of a list's k-th element, when the list ends. */
  function Next(s: seq<Ptr>, k: nat): Ptr
    requires k < |s|
  {
    if k == |s| - 1 then NULL else s[k + 1]
  }

  function Prev(s: seq<Ptr>, k: nat): Ptr
    requires k < |s|
  {
    if k == 0 then NULL else s[k - 1]
  }

  lemma Neighbours(h: seq<Head>, first: Ptr, s: seq<Ptr>, k: nat)
    requires Chain(h, first, s) && k < |s|
    ensures IsHead(h, s[k]) && h[s[k]].prev == Prev(s, k) && h[s[k]].next == Next(s, k)
    ensures k > 0 ==> IsHead(h, s[k - 1])
    ensures k < |s| - 1 ==> IsHead(h, s[k + 1])
    ensures h[s[k]].next != s[k] && h[s[k]].prev != s[k]
  {
  }

  predicate OnChain(h: seq<Head>, s: seq<Ptr>, i: nat) {
    i < |s| && IsHead(h, s[i]) && h[s[i]].next == Next(s, i) && h[s[i]].prev == Prev(s, i)
  }

  lemma ChainOfNeighbours(h: seq<Head>, s: seq<Ptr>)
    requires Distinct(s) && forall i: nat :: i < |s| ==> OnChain(h, s, i)
    ensures Chain(h, if s == [] then NULL else s[0], s)
  {
    hide OnChain;
    forall i: nat | i < |s| ensures IsHead(h, s[i]) {
      OnChainMeans(h, s, i);
    }
    forall i, j | 0 <= i < j < |s| && j == i + 1 ensures h[s[i]].next == s[j] && h[s[j]].prev == s[i] {
      OnChainMeans(h, s, i);
      OnChainMeans(h, s, j);
    }
    if s != [] {
      OnChainMeans(h, s, 0);
      OnChainMeans(h, s, |s| - 1);
    }
  }

  lemma OnChainMeans(h: seq<Head>, s: seq<Ptr>, i: nat)
    requires OnChain(h, s, i)
    ensures i < |s| && IsHead(h, s[i])
    ensures h[s[i]].next == if i == |s| - 1 then NULL else s[i + 1]
    ensures h[s[i]].prev == if i == 0 then NULL else s[i - 1]
  {
  }

  /** What unlinking writes: two pointers, in the neighbours. */
  lemma UnlinkHashWrites(h: seq<Head>, b: Ptr)
    requires IsHead(h, b)
    requires h[b].next != NULL ==> IsHead(h, h[b].next)
    requires h[b].prev != NULL ==> IsHead(h, h[b].prev)
    requires h[b].next != b && h[b].prev != b
    ensures forall i :: 0 <= i < |h| ==>
      UnlinkHash(h, b)[i] == h[i].(next := if i == h[b].prev then h[b].next else h[i].next,
                                   prev := if i == h[b].next then h[b].prev else h[i].prev)
  {
  }

  lemma UnlinkHashChain(h: seq<Head>, first: Ptr, s: seq<Ptr>, k: nat)
    requires Chain(h, first, s) && k < |s|
    ensures var b := s[k];
            && (h[b].next != NULL ==> IsHead(h, h[b].next)) && (h[b].prev != NULL ==> IsHead(h, h[b].prev))
            && h[b].next != b && h[b].prev != b
            && Chain(UnlinkHash(h, b), if first == b then h[b].next else first, Without(s, k))
  {
    hide UnlinkHash;
    Neighbours(h, first, s, k);
    WithoutMembers(s, k);
    var r, t := UnlinkHash(h, s[k]), Without(s, k);
    SameElement(s, 0, k);
    if |s| > 1 {
      WithoutAt(s, k, 0);
    }
    hide Distinct, Without;
    assert |t| == |s| - 1;
    forall i: nat | i < |t| ensures OnChain(r, t, i) {
      UnlinkedHash(h, first, s, k, i);
    }
    ChainOfNeighbours(r, t);
  }

  /** The neighbours of what stays in the bucket. */
  lemma UnlinkedHash(h: seq<Head>, first: Ptr, s: seq<Ptr>, k: nat, i: nat)
    requires Chain(h, first, s) && k < |s| && i + 1 < |s|
    requires h[s[k]].next != NULL ==> IsHead(h, h[s[k]].next)
    requires h[s[k]].prev != NULL ==> IsHead(h, h[s[k]].prev)
    requires h[s[k]].next != s[k]
    ensures var r, t := UnlinkHash(h, s[k]), Without(s, k);
            && |t| == |s| - 1 && IsHead(r, t[i])
            && r[t[i]].next == Next(t, i) && r[t[i]].prev == Prev(t, i)
  {
    hide UnlinkHash;
    var n := |s| - 1;
    var j := if i < k then i else i + 1;
    Neighbours(h, first, s, j);
    Neighbours(h, first, s, k);
    UnlinkHashWrites(h, s[k]);
    WithoutAt(s, k, i);
    if i < n - 1 {
      WithoutAt(s, k, i + 1);
    }
    if i > 0 {
      WithoutAt(s, k, i - 1);
    }
    if k > 0 {
      SameElement(s, j, k - 1);
    }
    if k < n {
      SameElement(s, j, k + 1);
    }
    hide Chain, Distinct, Without;
  }

  function LinkHash(h: seq<Head>, first: Ptr, b: Ptr): (r: seq<Head>)
    requires IsHead(h, b) && (first != NULL ==> IsHead(h, first))
    ensures |r| == |h|
  {
    var h1 := SetNext(SetPrev(h, b, NULL), b, first);
    if first != NULL then SetPrev(h1, first, b) else h1
  }

  lemma LinkHashWrites(h: seq<Head>, first: Ptr, b: Ptr)
    requires IsHead(h, b) && (first != NULL ==> IsHead(h, first)) && first != b
    ensures forall i :: 0 <= i < |h| ==>
      LinkHash(h, first, b)[i] == h[i].(next := if i == b then first else h[i].next,
                                        prev := if i == b then NULL else if i == first then b else h[i].prev)
  {
  }

  lemma LinkHashChain(h: seq<Head>, first: Ptr, s: seq<Ptr>, b: Ptr)
    requires Chain(h, first, s) && IsHead(h, b) && b !in s
    ensures Chain(LinkHash(h, first, b), b, [b] + s)
    ensures forall i :: 0 <= i < |h| && i !in s && i != b ==> LinkHash(h, first, b)[i] == h[i]
  {
    hide LinkHash;
    LinkHashWrites(h, first, b);
  }

  /** The two kinds of list use different pointers. */
  lemma RingFrame(h: seq<Head>, r: seq<Head>, first: Ptr, s: seq<Ptr>)
    requires Ring(h, first, s) && |r| == |h|
    requires forall i :: 0 <= i < |s| ==> r[s[i]].nextFree == h[s[i]].nextFree && r[s[i]].prevFree == h[s[i]].prevFree
    ensures Ring(r, first, s)
  {
  }

  lemma ChainFrame(h: seq<Head>, r: seq<Head>, first: Ptr, s: seq<Ptr>)
    requires Chain(h, first, s) && |r| == |h|
    requires forall i :: 0 <= i < |s| ==> r[s[i]].next == h[s[i]].next && r[s[i]].prev == h[s[i]].prev
    ensures Chain(r, first, s)
  {
  }
}
