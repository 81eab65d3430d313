/**
 remove_from_queues and insert_into_queues: what they keep of the cache as a whole, and the class
 whose methods do it in place.
 */
module BufferCache {
  import opened BufferQueues

  /** The cache's lists. `free` is the free list from its head on, `chains` are the buckets; `out`
      is a buffer that is on neither, or NULL. */
  ghost predicate Queues(c: Cache, free: seq<Ptr>, chains: seq<seq<Ptr>>, out: Ptr) {
    && |c.table| == NR_HASH && |chains| == NR_HASH && |c.heads| >= 2
    && Ring(c.heads, c.freeList, free)
    && AllOn(c.heads, free, out)
    && Buckets(c.heads, c.table, chains)
    && Members(c.heads, chains, out)
  }

  ghost predicate AllOn(h: seq<Head>, free: seq<Ptr>, out: Ptr) {
    out !in free && forall b :: IsHead(h, b) && b != out ==> b in free
  }

  ghost predicate Buckets(h: seq<Head>, table: seq<Ptr>, chains: seq<seq<Ptr>>) {
    && |table| == NR_HASH && |chains| == NR_HASH
    && forall k :: 0 <= k < NR_HASH ==> Chain(h, table[k], chains[k])
  }

  /** A bucket holds exactly the buffers with a device whose key hashes to it. */
  ghost predicate Members(h: seq<Head>, chains: seq<seq<Ptr>>, out: Ptr) {
    && |chains| == NR_HASH
    && (forall k, b {:trigger b in chains[k]} :: 0 <= k < NR_HASH ==>
          (b in chains[k] <==> b != out && IsHead(h, b) && h[b].dev != 0 && HashOf(h[b]) == k))
    && (forall b :: IsHead(h, b) && b != out && h[b].dev == 0 ==> h[b].next == NULL && h[b].prev == NULL)
  }

  function HashOf(h: Head): nat {
    Hash(h.dev, h.block)
  }

  function IndexOf(s: seq<Ptr>, x: Ptr): (k: nat)
    requires x in s
    ensures k < |s| && s[k] == x
  {
    if s[0] == x then 0 else 1 + IndexOf(s[1..], x)
  }

  function Drop(s: seq<Ptr>, x: Ptr): seq<Ptr>
    requires x in s
  {
    Without(s, IndexOf(s, x))
  }

  /** The pointers remove_from_queues follows. */
  ghost predicate Removable(c: Cache, b: Ptr) {
    && |c.table| == NR_HASH && IsHead(c.heads, b)
    && (c.heads[b].next != NULL ==> IsHead(c.heads, c.heads[b].next))
    && (c.heads[b].prev != NULL ==> IsHead(c.heads, c.heads[b].prev))
    && c.heads[b].next != b && c.heads[b].prev != b
    && IsHead(c.heads, c.heads[b].prevFree) && IsHead(c.heads, c.heads[b].nextFree)
  }

  /** remove_from_queues. */
  function Remove(c: Cache, b: Ptr): Cache
    requires Removable(c, b)
  {
    UnlinkHashWrites(c.heads, b);
    var h1 := UnlinkHash(c.heads, b);
    var k := HashOf(h1[b]);
    var h2 := UnlinkFree(h1, b);
    Cache(h2,
          if c.table[k] == b then c.table[k := h1[b].next] else c.table,
          if c.freeList == b then h2[b].nextFree else c.freeList)
  }

  /** insert_into_queues. */
  function Insert(c: Cache, b: Ptr): Cache
    requires |c.table| == NR_HASH && IsHead(c.heads, b)
    requires IsHead(c.heads, c.freeList) && IsHead(c.heads, c.heads[c.freeList].prevFree) && b != c.freeList
    requires c.table[HashOf(c.heads[b])] != NULL ==> IsHead(c.heads, c.table[HashOf(c.heads[b])])
  {
    var h1 := LinkFree(c.heads, c.freeList, b);
    var h2 := SetNext(SetPrev(h1, b, NULL), b, NULL);
    if h2[b].dev == 0 then Cache(h2, c.table, c.freeList)
    else
      var k := HashOf(c.heads[b]);
      Cache(LinkHash(h2, c.table[k], b), c.table[k := b], c.freeList)
  }

  /** What is not a list pointer. */
  predicate SameButLinks(x: Head, y: Head) {
    x.dev == y.dev && x.block == y.block && x.count == y.count && x.dirt == y.dirt && x.lock == y.lock
    && x.uptodate == y.uptodate
  }

  lemma CanRemove(c: Cache, free: seq<Ptr>, chains: seq<seq<Ptr>>, b: Ptr)
    requires Queues(c, free, chains, NULL) && IsHead(c.heads, b)
    ensures Removable(c, b) && |free| >= 2
    ensures c.heads[b].prevFree != b && c.heads[b].nextFree != b
  {
    TwoOnList(c, free, chains);
    RingNeighbours(c.heads, c.freeList, free, IndexOf(free, b));
    if c.heads[b].dev != 0 {
      var s := chains[HashOf(c.heads[b])];
      Neighbours(c.heads, c.table[HashOf(c.heads[b])], s, IndexOf(s, b));
    }
  }

  lemma TwoOnList(c: Cache, free: seq<Ptr>, chains: seq<seq<Ptr>>)
    requires Queues(c, free, chains, NULL)
    ensures |free| >= 2
  {
    var i, j := IndexOf(free, 0), IndexOf(free, 1);
    assert i != j;
  }

  /** What remove_from_queues writes. */
  lemma RemoveWrites(c: Cache, b: Ptr)
    requires Removable(c, b) && c.heads[b].prevFree != b && c.heads[b].nextFree != b
    ensures var x := c.heads[b]; var r := Remove(c, b);
            && |r.heads| == |c.heads| && |r.table| == NR_HASH
            && (forall i :: 0 <= i < |c.heads| ==>
                  && SameButLinks(r.heads[i], c.heads[i])
                  && r.heads[i].next == (if i == x.prev then x.next else c.heads[i].next)
                  && r.heads[i].prev == (if i == x.next then x.prev else c.heads[i].prev)
                  && r.heads[i].nextFree == (if i == x.prevFree then x.nextFree else c.heads[i].nextFree)
                  && r.heads[i].prevFree == (if i == x.nextFree then x.prevFree else c.heads[i].prevFree))
            && r.freeList == (if c.freeList == b then x.nextFree else c.freeList)
            && r.table == (if c.table[HashOf(x)] == b then c.table[HashOf(x) := x.next] else c.table)
  {
    hide UnlinkHash, UnlinkFree;
    UnlinkHashWrites(c.heads, b);
    UnlinkFreeWrites(UnlinkHash(c.heads, b), b);
  }

  lemma RemoveRing(c: Cache, free: seq<Ptr>, b: Ptr)
    requires Removable(c, b) && Ring(c.heads, c.freeList, free) && |free| >= 2 && b in free
    ensures Ring(Remove(c, b).heads, Remove(c, b).freeList, Drop(free, b))
  {
    hide Remove, UnlinkFree, Without;
    var i := IndexOf(free, b);
    RingNeighbours(c.heads, c.freeList, free, i);
    RemoveWrites(c, b);
    UnlinkFreeRing(c.heads, c.freeList, free, i);
    UnlinkFreeWrites(c.heads, b);
    WithoutMembers(free, i);
    hide Ring;
    RingFrame(UnlinkFree(c.heads, b), Remove(c, b).heads, Remove(c, b).freeList, Drop(free, b));
  }

  lemma RemoveOwnChain(c: Cache, b: Ptr, s: seq<Ptr>)
    requires Removable(c, b) && c.heads[b].prevFree != b && c.heads[b].nextFree != b
    requires Chain(c.heads, c.table[HashOf(c.heads[b])], s) && b in s
    ensures Chain(Remove(c, b).heads, Remove(c, b).table[HashOf(c.heads[b])], Drop(s, b))
  {
    hide Remove, UnlinkHash, Without;
    var k := HashOf(c.heads[b]);
    RemoveWrites(c, b);
    UnlinkHashChain(c.heads, c.table[k], s, IndexOf(s, b));
    UnlinkHashWrites(c.heads, b);
    WithoutMembers(s, IndexOf(s, b));
    hide Chain;
    ChainFrame(UnlinkHash(c.heads, b), Remove(c, b).heads, Remove(c, b).table[k], Drop(s, b));
  }

  /** A list that meets neither the buffer nor its neighbours. */
  lemma RemoveOtherChain(c: Cache, b: Ptr, first: Ptr, s: seq<Ptr>)
    requires Removable(c, b) && c.heads[b].prevFree != b && c.heads[b].nextFree != b
    requires Chain(c.heads, first, s) && b !in s && c.heads[b].next !in s && c.heads[b].prev !in s
    ensures Chain(Remove(c, b).heads, first, s)
  {
    hide Remove;
    RemoveWrites(c, b);
    ChainFrame(c.heads, Remove(c, b).heads, first, s);
  }

  ghost function ChainsWithout(c: Cache, chains: seq<seq<Ptr>>, b: Ptr): seq<seq<Ptr>>
    requires |chains| == NR_HASH && IsHead(c.heads, b)
    requires c.heads[b].dev != 0 ==> b in chains[HashOf(c.heads[b])]
  {
    var k := HashOf(c.heads[b]);
    if c.heads[b].dev == 0 then chains else chains[k := Drop(chains[k], b)]
  }

  /** Removing a buffer takes it off both its lists and leaves the rest in order. */
  lemma RemoveQueues(c: Cache, free: seq<Ptr>, chains: seq<seq<Ptr>>, b: Ptr)
    requires Queues(c, free, chains, NULL) && IsHead(c.heads, b)
    ensures Removable(c, b)
    ensures Queues(Remove(c, b), Drop(free, b), ChainsWithout(c, chains, b), b)
    ensures |Remove(c, b).heads| == |c.heads|
    ensures forall i :: 0 <= i < |c.heads| ==> SameButLinks(Remove(c, b).heads[i], c.heads[i])
  {
    hide Remove, Drop, Ring, Chain, Buckets, Members;
    CanRemove(c, free, chains, b);
    RemoveWrites(c, b);
    RemoveRing(c, free, b);
    RingFacts(c.heads, c.freeList, free);
    DropMembers(free, b);
    RemoveBuckets(c, free, chains, b);
    RemoveMembers(c, free, chains, b);
  }

  lemma DropMembers(s: seq<Ptr>, b: Ptr)
    requires b in s && Distinct(s)
    ensures forall x :: x in Drop(s, b) <==> x in s && x != b
  {
    WithoutMembers(s, IndexOf(s, b));
  }

  lemma RemoveMembers(c: Cache, free: seq<Ptr>, chains: seq<seq<Ptr>>, b: Ptr)
    requires Queues(c, free, chains, NULL) && IsHead(c.heads, b) && Removable(c, b)
    ensures Members(Remove(c, b).heads, ChainsWithout(c, chains, b), b)
  {
    hide Remove, Drop, Ring, Chain;
    CanRemove(c, free, chains, b);
    RemoveWrites(c, b);
    var k := HashOf(c.heads[b]);
    if c.heads[b].dev != 0 {
      ChainFacts(c.heads, c.table[k], chains[k], b);
      DropMembers(chains[k], b);
    }
    var h, chains' := Remove(c, b).heads, ChainsWithout(c, chains, b);
    forall m, y | 0 <= m < NR_HASH
      ensures y in chains'[m] <==> y != b && IsHead(h, y) && h[y].dev != 0 && HashOf(h[y]) == m
    {
      assert y in chains'[m] <==> y in chains[m] && y != b;
    }
    forall y | IsHead(h, y) && y != b && h[y].dev == 0 ensures h[y].next == NULL && h[y].prev == NULL {
      assert y != c.heads[b].next && y != c.heads[b].prev by {
        if c.heads[b].dev != 0 {
          assert c.heads[b].next in chains[k] || c.heads[b].next == NULL;
          assert c.heads[b].prev in chains[k] || c.heads[b].prev == NULL;
        }
      }
    }
  }

  lemma RemoveBuckets(c: Cache, free: seq<Ptr>, chains: seq<seq<Ptr>>, b: Ptr)
    requires Queues(c, free, chains, NULL) && IsHead(c.heads, b) && Removable(c, b)
    ensures Buckets(Remove(c, b).heads, Remove(c, b).table, ChainsWithout(c, chains, b))
  {
    hide Remove, Drop, Ring, Chain;
    CanRemove(c, free, chains, b);
    RemoveWrites(c, b);
    var x, k := c.heads[b], HashOf(c.heads[b]);
    var r, chains' := Remove(c, b), ChainsWithout(c, chains, b);
    if x.dev != 0 {
      ChainFacts(c.heads, c.table[k], chains[k], b);
      RemoveOwnChain(c, b, chains[k]);
    }
    forall m | 0 <= m < NR_HASH ensures Chain(r.heads, r.table[m], chains'[m]) {
      if x.dev == 0 || m != k {
        HeadOnChain(c.heads, c.table[m], chains[m]);
        RemoveOtherChain(c, b, c.table[m], chains[m]);
      }
    }
  }

  lemma RingFacts(h: seq<Head>, first: Ptr, s: seq<Ptr>)
    requires Ring(h, first, s)
    ensures Distinct(s) && first in s && forall x :: x in s ==> IsHead(h, x)
  {
  }

  lemma HeadOnChain(h: seq<Head>, first: Ptr, s: seq<Ptr>)
    requires Chain(h, first, s)
    ensures first != NULL <==> s != []
    ensures first != NULL ==> first in s && IsHead(h, first)
    ensures NULL !in s
  {
  }

  lemma ChainFacts(h: seq<Head>, first: Ptr, s: seq<Ptr>, b: Ptr)
    requires Chain(h, first, s) && b in s
    ensures Distinct(s)
    ensures h[b].next == NULL || h[b].next in s
    ensures h[b].prev == NULL || h[b].prev in s
  {
    Neighbours(h, first, s, IndexOf(s, b));
  }

  /** What insert_into_queues writes. */
  lemma InsertWrites(c: Cache, b: Ptr)
    requires |c.table| == NR_HASH && IsHead(c.heads, b)
    requires IsHead(c.heads, c.freeList) && IsHead(c.heads, c.heads[c.freeList].prevFree)
    requires b != c.freeList && c.heads[c.freeList].prevFree != b
    requires c.table[HashOf(c.heads[b])] != NULL ==> IsHead(c.heads, c.table[HashOf(c.heads[b])])
    requires c.table[HashOf(c.heads[b])] != b
    ensures var first := c.freeList; var last := c.heads[first].prevFree;
            var k := HashOf(c.heads[b]); var old_ := c.table[k]; var r := Insert(c, b);
            && |r.heads| == |c.heads|
            && (forall i :: 0 <= i < |c.heads| ==>
                  && SameButLinks(r.heads[i], c.heads[i])
                  && r.heads[i].nextFree == (if i == last then b else if i == b then first else c.heads[i].nextFree)
                  && r.heads[i].prevFree == (if i == first then b else if i == b then last else c.heads[i].prevFree)
                  && r.heads[i].next
                     == (if i == b then (if c.heads[b].dev == 0 then NULL else old_) else c.heads[i].next)
                  && r.heads[i].prev
                     == (if i == b then NULL else if i == old_ && c.heads[b].dev != 0 then b else c.heads[i].prev))
            && r.freeList == first
            && r.table == (if c.heads[b].dev == 0 then c.table else c.table[k := b])
  {
    hide LinkFree, LinkHash;
    LinkFreeWrites(c.heads, c.freeList, b);
    var h1 := LinkFree(c.heads, c.freeList, b);
    var h2 := SetNext(SetPrev(h1, b, NULL), b, NULL);
    LinkHashWrites(h2, c.table[HashOf(c.heads[b])], b);
  }

  /** Inserting puts the buffer at the end of the free list and at the head of its bucket. */
  lemma InsertQueues(c: Cache, free: seq<Ptr>, chains: seq<seq<Ptr>>, b: Ptr)
    requires Queues(c, free, chains, b) && IsHead(c.heads, b)
    ensures IsHead(c.heads, c.freeList) && IsHead(c.heads, c.heads[c.freeList].prevFree) && b != c.freeList
    ensures c.table[HashOf(c.heads[b])] != NULL ==> IsHead(c.heads, c.table[HashOf(c.heads[b])])
    ensures Queues(Insert(c, b), free + [b], ChainsWith(c, chains, b), NULL)
    ensures |Insert(c, b).heads| == |c.heads|
    ensures forall i :: 0 <= i < |c.heads| ==> SameButLinks(Insert(c, b).heads[i], c.heads[i])
  {
    hide Insert, Ring, Chain, Buckets, Members;
    CanInsert(c, free, chains, b);
    InsertWrites(c, b);
    InsertRing(c, free, b);
    InsertBuckets(c, free, chains, b);
    InsertMembers(c, free, chains, b);
    RingFacts(c.heads, c.freeList, free);
    assert NULL !in free + [b];
  }

  lemma CanInsert(c: Cache, free: seq<Ptr>, chains: seq<seq<Ptr>>, b: Ptr)
    requires Queues(c, free, chains, b) && IsHead(c.heads, b)
    ensures IsHead(c.heads, c.freeList) && IsHead(c.heads, c.heads[c.freeList].prevFree)
    ensures b != c.freeList && c.heads[c.freeList].prevFree != b
    ensures var k := HashOf(c.heads[b]);
            (c.table[k] != NULL ==> IsHead(c.heads, c.table[k])) && c.table[k] != b && b !in chains[k]
  {
    hide Ring, Chain;
    RingEnds(c.heads, c.freeList, free);
    HeadOnChain(c.heads, c.table[HashOf(c.heads[b])], chains[HashOf(c.heads[b])]);
  }

  lemma InsertMembers(c: Cache, free: seq<Ptr>, chains: seq<seq<Ptr>>, b: Ptr)
    requires Queues(c, free, chains, b) && IsHead(c.heads, b)
    requires IsHead(c.heads, c.freeList) && IsHead(c.heads, c.heads[c.freeList].prevFree) && b != c.freeList
    requires c.table[HashOf(c.heads[b])] != NULL ==> IsHead(c.heads, c.table[HashOf(c.heads[b])])
    ensures Members(Insert(c, b).heads, ChainsWith(c, chains, b), NULL)
  {
    hide Insert, Ring, Chain;
    CanInsert(c, free, chains, b);
    InsertWrites(c, b);
    var k := HashOf(c.heads[b]);
    HeadOnChain(c.heads, c.table[k], chains[k]);
  }

  ghost function ChainsWith(c: Cache, chains: seq<seq<Ptr>>, b: Ptr): seq<seq<Ptr>>
    requires |chains| == NR_HASH && IsHead(c.heads, b)
  {
    var k := HashOf(c.heads[b]);
    if c.heads[b].dev == 0 then chains else chains[k := [b] + chains[k]]
  }

  lemma InsertBuckets(c: Cache, free: seq<Ptr>, chains: seq<seq<Ptr>>, b: Ptr)
    requires Queues(c, free, chains, b) && IsHead(c.heads, b)
    requires IsHead(c.heads, c.freeList) && IsHead(c.heads, c.heads[c.freeList].prevFree) && b != c.freeList
    requires c.table[HashOf(c.heads[b])] != NULL ==> IsHead(c.heads, c.table[HashOf(c.heads[b])])
    ensures Buckets(Insert(c, b).heads, Insert(c, b).table, ChainsWith(c, chains, b))
  {
    hide Insert, Ring, Chain;
    CanInsert(c, free, chains, b);
    InsertWrites(c, b);
    var k := HashOf(c.heads[b]);
    var r, chains' := Insert(c, b), ChainsWith(c, chains, b);
    forall m | 0 <= m < NR_HASH ensures Chain(r.heads, r.table[m], chains'[m]) {
      if c.heads[b].dev != 0 && m == k {
        InsertOwnChain(c, chains[k], b);
      } else {
        OtherBucket(c, free, chains, b, m);
        OtherBucketKept(c, b, c.table[m], chains[m]);
      }
    }
  }

  lemma OtherBucketKept(c: Cache, b: Ptr, first: Ptr, s: seq<Ptr>)
    requires |c.table| == NR_HASH && IsHead(c.heads, b)
    requires IsHead(c.heads, c.freeList) && IsHead(c.heads, c.heads[c.freeList].prevFree)
    requires b != c.freeList && c.heads[c.freeList].prevFree != b
    requires c.table[HashOf(c.heads[b])] != NULL ==> IsHead(c.heads, c.table[HashOf(c.heads[b])])
    requires c.table[HashOf(c.heads[b])] != b
    requires Chain(c.heads, first, s) && b !in s
    requires c.heads[b].dev == 0 || c.table[HashOf(c.heads[b])] !in s
    ensures Chain(Insert(c, b).heads, first, s)
  {
    hide Insert, Chain;
    InsertWrites(c, b);
    ChainHeads(c.heads, first, s);
    ChainFrame(c.heads, Insert(c, b).heads, first, s);
  }

  lemma ChainHeads(h: seq<Head>, first: Ptr, s: seq<Ptr>)
    requires Chain(h, first, s)
    ensures forall i :: 0 <= i < |s| ==> IsHead(h, s[i]) && s[i] in s
  {
  }

  /** A bucket's head is on no other bucket's list. */
  lemma OtherBucket(c: Cache, free: seq<Ptr>, chains: seq<seq<Ptr>>, b: Ptr, m: nat)
    requires Queues(c, free, chains, b) && IsHead(c.heads, b) && m < NR_HASH
    ensures b !in chains[m]
    ensures m != HashOf(c.heads[b]) ==> c.table[HashOf(c.heads[b])] !in chains[m]
  {
    hide Chain, Ring;
    var k := HashOf(c.heads[b]);
    HeadOnChain(c.heads, c.table[k], chains[k]);
    HeadOnChain(c.heads, c.table[m], chains[m]);
  }

  lemma RingEnds(h: seq<Head>, first: Ptr, s: seq<Ptr>)
    requires Ring(h, first, s)
    ensures first in s && h[first].prevFree in s && IsHead(h, first) && IsHead(h, h[first].prevFree)
  {
  }

  lemma InsertRing(c: Cache, free: seq<Ptr>, b: Ptr)
    requires |c.table| == NR_HASH && IsHead(c.heads, b) && Ring(c.heads, c.freeList, free) && b !in free
    requires IsHead(c.heads, c.freeList) && IsHead(c.heads, c.heads[c.freeList].prevFree) && b != c.freeList
    requires c.table[HashOf(c.heads[b])] != NULL ==> IsHead(c.heads, c.table[HashOf(c.heads[b])])
    requires c.table[HashOf(c.heads[b])] != b
    ensures Ring(Insert(c, b).heads, c.freeList, free + [b])
  {
    hide Insert;
    RingEnds(c.heads, c.freeList, free);
    InsertWrites(c, b);
    LinkFreeRing(c.heads, c.freeList, free, b);
    hide Ring;
    RingFrame(LinkFree(c.heads, c.freeList, b), Insert(c, b).heads, c.freeList, free + [b]);
  }

  lemma InsertOwnChain(c: Cache, s: seq<Ptr>, b: Ptr)
    requires |c.table| == NR_HASH && IsHead(c.heads, b) && b !in s && c.heads[b].dev != 0
    requires IsHead(c.heads, c.freeList) && IsHead(c.heads, c.heads[c.freeList].prevFree)
    requires b != c.freeList && c.heads[c.freeList].prevFree != b
    requires Chain(c.heads, c.table[HashOf(c.heads[b])], s)
    requires c.table[HashOf(c.heads[b])] != NULL ==> IsHead(c.heads, c.table[HashOf(c.heads[b])])
    ensures Chain(Insert(c, b).heads, b, [b] + s)
  {
    hide Insert;
    var first := c.table[HashOf(c.heads[b])];
    HeadOnChain(c.heads, first, s);
    InsertWrites(c, b);
    LinkHashChain(c.heads, first, s, b);
    hide Chain;
    ChainFrame(LinkHash(c.heads, first, b), Insert(c, b).heads, b, [b] + s);
  }

  // ---------------------------------------------------------------- a buffer changes its key

  predicate SameLinks(x: Head, y: Head) {
    x.next == y.next && x.prev == y.prev && x.nextFree == y.nextFree && x.prevFree == y.prevFree
  }

  predicate SameKey(x: Head, y: Head) {
    x.dev == y.dev && x.block == y.block
  }

  predicate Carries(x: Head, dev: Dev, block: BlockNr) {
    x.dev == dev && x.block == block
  }

  /** The lists speak of keys and pointers only, and not at all of a buffer that is on none. */
  lemma QueuesFrame(c: Cache, free: seq<Ptr>, chains: seq<seq<Ptr>>, out: Ptr, h: seq<Head>)
    requires Queues(c, free, chains, out) && |h| == |c.heads|
    requires forall i :: 0 <= i < |h| && i != out ==> SameLinks(h[i], c.heads[i]) && SameKey(h[i], c.heads[i])
    ensures Queues(Cache(h, c.table, c.freeList), free, chains, out)
  {
    hide Ring, Chain;
    RingFacts(c.heads, c.freeList, free);
    forall i | 0 <= i < |free| ensures IsHead(h, free[i]) && SameLinks(h[free[i]], c.heads[free[i]]) {
      assert free[i] in free && IsHead(c.heads, free[i]);
    }
    RingFrame(c.heads, h, c.freeList, free);
    forall k | 0 <= k < NR_HASH ensures Chain(h, c.table[k], chains[k]) {
      var s := chains[k];
      forall i | 0 <= i < |s| ensures IsHead(h, s[i]) && SameLinks(h[s[i]], c.heads[s[i]]) {
        assert s[i] in chains[k];
        assert IsHead(c.heads, s[i]) && s[i] != out;
      }
      ChainFrame(c.heads, h, c.table[k], chains[k]);
    }
  }

  /** The last part of getblk: the buffer is taken, moved to its new bucket and to the end of the
      free list. */
  function Rekey(c: Cache, b: Ptr, dev: Dev, block: BlockNr): Cache
    requires Removable(c, b)
    requires var r := Remove(Taken(c, b), b); CanInsertAt(r, b, dev, block)
  {
    Insert(Renamed(Remove(Taken(c, b), b), b, dev, block), b)
  }

  function Taken(c: Cache, b: Ptr): (r: Cache)
    requires IsHead(c.heads, b)
    ensures Removable(c, b) ==> Removable(r, b)
  {
    Cache(c.heads[b := c.heads[b].(count := 1, dirt := false, uptodate := false)], c.table, c.freeList)
  }

  function Renamed(c: Cache, b: Ptr, dev: Dev, block: BlockNr): Cache
    requires IsHead(c.heads, b)
  {
    Cache(c.heads[b := c.heads[b].(dev := dev, block := block)], c.table, c.freeList)
  }

  predicate CanInsertAt(c: Cache, b: Ptr, dev: Dev, block: BlockNr) {
    && |c.table| == NR_HASH && IsHead(c.heads, b)
    && IsHead(c.heads, c.freeList) && IsHead(c.heads, c.heads[c.freeList].prevFree) && b != c.freeList
    && (c.table[Hash(dev, block)] != NULL ==> IsHead(c.heads, c.table[Hash(dev, block)]))
  }

  ghost function RekeyedChains(c: Cache, chains: seq<seq<Ptr>>, b: Ptr, dev: Dev, block: BlockNr): seq<seq<Ptr>>
    requires |chains| == NR_HASH && IsHead(c.heads, b)
    requires c.heads[b].dev != 0 ==> b in chains[HashOf(c.heads[b])]
  {
    ChainsWith(Renamed(c, b, dev, block), ChainsWithout(c, chains, b), b)
  }

  /** Re-keying keeps the lists: every buffer stays on the free list once, and moves to the bucket
      of its new key. Nothing but its own key, count and flags changes. */
  lemma RekeyQueues(c: Cache, free: seq<Ptr>, chains: seq<seq<Ptr>>, b: Ptr, dev: Dev, block: BlockNr)
    requires Queues(c, free, chains, NULL) && IsHead(c.heads, b)
    ensures Removable(c, b) && CanInsertAt(Remove(Taken(c, b), b), b, dev, block)
    ensures b in free && (c.heads[b].dev != 0 ==> b in chains[HashOf(c.heads[b])])
    ensures Queues(Rekey(c, b, dev, block), Drop(free, b) + [b], RekeyedChains(c, chains, b, dev, block), NULL)
    ensures |Rekey(c, b, dev, block).heads| == |c.heads|
    ensures forall i :: 0 <= i < |c.heads| && i != b ==> SameButLinks(Rekey(c, b, dev, block).heads[i], c.heads[i])
    ensures var x := Rekey(c, b, dev, block).heads[b];
            Carries(x, dev, block) && x.count == 1 && !x.dirt && !x.uptodate && x.lock == c.heads[b].lock
  {
    hide Remove, Insert, Ring, Buckets, Members;
    CanRemove(c, free, chains, b);
    var c0 := Taken(c, b);
    QueuesFrame(c, free, chains, NULL, c0.heads);
    RemoveQueues(c0, free, chains, b);
    var c1 := Remove(c0, b);
    var c2 := Renamed(c1, b, dev, block);
    QueuesFrame(c1, Drop(free, b), ChainsWithout(c0, chains, b), b, c2.heads);
    InsertQueues(c2, Drop(free, b), ChainsWithout(c0, chains, b), b);
    OnItsChain(c, free, chains, b);
  }

  lemma OnItsChain(c: Cache, free: seq<Ptr>, chains: seq<seq<Ptr>>, b: Ptr)
    requires Queues(c, free, chains, NULL) && IsHead(c.heads, b)
    ensures b in free && (c.heads[b].dev != 0 ==> b in chains[HashOf(c.heads[b])])
  {
  }

  // ---------------------------------------------------------------- looking a block up

  /** The first buffer on a list that carries the key. */
  function FindIn(h: seq<Head>, s: seq<Ptr>, dev: Dev, block: BlockNr): Ptr
    requires forall i :: 0 <= i < |s| ==> IsHead(h, s[i])
  {
    if s == [] then NULL
    else
      assert IsHead(h, s[0]);
      if Carries(h[s[0]], dev, block) then s[0]
      else FindIn(h, s[1..], dev, block)
  }

  lemma {:induction false} FindInCorrect(h: seq<Head>, s: seq<Ptr>, dev: Dev, block: BlockNr)
    requires forall i :: 0 <= i < |s| ==> IsHead(h, s[i])
    ensures var b := FindIn(h, s, dev, block);
            if b == NULL then forall x :: x in s ==> !Carries(h[x], dev, block)
            else b in s && Carries(h[b], dev, block)
  {
    if s != [] {
      FindInCorrect(h, s[1..], dev, block);
      assert s == [s[0]] + s[1..];
    }
  }

  /** find_buffer, when the lists are in order: the buffer of the block, or NULL when no buffer
      carries it. */
  ghost function Find(c: Cache, free: seq<Ptr>, chains: seq<seq<Ptr>>, dev: Dev, block: BlockNr): Ptr
    requires Queues(c, free, chains, NULL)
  {
    FindIn(c.heads, chains[Hash(dev, block)], dev, block)
  }

  lemma FindCorrect(c: Cache, free: seq<Ptr>, chains: seq<seq<Ptr>>, dev: Dev, block: BlockNr)
    requires Queues(c, free, chains, NULL)
    ensures var b := Find(c, free, chains, dev, block);
            if b == NULL
            then forall x :: IsHead(c.heads, x) && Carries(c.heads[x], dev, block) ==> dev == 0
            else IsHead(c.heads, b) && Carries(c.heads[b], dev, block) && dev != 0
  {
    var k := Hash(dev, block);
    FindInCorrect(c.heads, chains[k], dev, block);
    forall x | IsHead(c.heads, x) && Carries(c.heads[x], dev, block) && dev != 0 ensures x in chains[k] {
    }
  }

  // ---------------------------------------------------------------- choosing a victim

  function Badness(x: Head): nat {
    (if x.dirt then 2 else 0) + (if x.lock then 1 else 0)
  }

  /** The scan of the free list in getblk, `best` being the choice so far: buffers in use are
      skipped, and the first one that is neither dirty nor locked ends the search. */
  function Pick(h: seq<Head>, s: seq<Ptr>, best: Ptr): Ptr
    requires forall i :: 0 <= i < |s| ==> IsHead(h, s[i])
    requires best == NULL || IsHead(h, best)
  {
    if s == [] then best
    else
      var t := s[0];
      assert IsHead(h, s[0]);
      if h[t].count != 0 then Pick(h, s[1..], best)
      else if best == NULL || Badness(h[t]) < Badness(h[best]) then
        (if Badness(h[t]) == 0 then t else Pick(h, s[1..], t))
      else Pick(h, s[1..], best)
  }

  /** The choice is unused and, among the unused buffers, least bad; there is none only when every
      buffer is in use. */
  lemma {:induction false} PickCorrect(h: seq<Head>, s: seq<Ptr>, best: Ptr)
    requires forall i :: 0 <= i < |s| ==> IsHead(h, s[i])
    requires best == NULL || (IsHead(h, best) && h[best].count == 0)
    ensures var b := Pick(h, s, best);
            && (b == NULL <==> best == NULL && forall x :: x in s ==> h[x].count != 0)
            && (b != NULL ==> (b in s || b == best) && h[b].count == 0
                              && (forall x :: x in s && h[x].count == 0 ==> Badness(h[b]) <= Badness(h[x]))
                              && (best != NULL ==> Badness(h[b]) <= Badness(h[best])))
  {
    if s != [] {
      var t := s[0];
      assert s == [t] + s[1..];
      if h[t].count != 0 {
        PickCorrect(h, s[1..], best);
      } else if best == NULL || Badness(h[t]) < Badness(h[best]) {
        if Badness(h[t]) != 0 {
          PickCorrect(h, s[1..], t);
        }
      } else {
        PickCorrect(h, s[1..], best);
      }
    }
  }

  /** One buffer of the scan. */
  lemma PickStep(h: seq<Head>, s: seq<Ptr>, i: nat, best: Ptr)
    requires i < |s| && (best == NULL || IsHead(h, best)) && forall j :: 0 <= j < |s| ==> IsHead(h, s[j])
    ensures
      var t := s[i];
      Pick(h, s[i..], best)
      == if h[t].count != 0 || (best != NULL && Badness(h[t]) >= Badness(h[best])) then Pick(h, s[i + 1..], best)
         else if Badness(h[t]) == 0 then t
         else Pick(h, s[i + 1..], t)
  {
    assert s[i..][1..] == s[i + 1..] && s[i..][0] == s[i];
  }

  lemma PickEnd(h: seq<Head>, s: seq<Ptr>, best: Ptr)
    requires s == [] && (best == NULL || IsHead(h, best))
    ensures Pick(h, s, best) == best
  {
  }

  lemma ScanStart(c: Cache, free: seq<Ptr>, chains: seq<seq<Ptr>>)
    requires Queues(c, free, chains, NULL)
    ensures Ring(c.heads, c.freeList, free) && free != [] && free[0] == c.freeList && free[0..] == free
    ensures forall j :: 0 <= j < |free| ==> IsHead(c.heads, free[j])
  {
  }

  /** From one buffer of the ring to the next, until the ring is closed. */
  lemma RingStep(h: seq<Head>, first: Ptr, s: seq<Ptr>, i: nat)
    requires Ring(h, first, s) && i < |s|
    ensures IsHead(h, s[i]) && (h[s[i]].nextFree == first <==> i + 1 == |s|)
    ensures i + 1 < |s| ==> h[s[i]].nextFree == s[i + 1]
  {
    RingNeighbours(h, first, s, i);
    SameElement(s, 0, if i == |s| - 1 then 0 else i + 1);
    hide Ring, Distinct;
  }

  lemma LinkFreeKeeps(h: seq<Head>, first: Ptr, b: Ptr)
    requires IsHead(h, b) && IsHead(h, first) && IsHead(h, h[first].prevFree) && b != first
    ensures SameButLinks(LinkFree(h, first, b)[b], h[b]) && HashOf(LinkFree(h, first, b)[b]) == HashOf(h[b])
  {
  }

  // ---------------------------------------------------------------- in place

  class Buffers {
    var heads: seq<Head>
    var table: seq<Ptr>
    var freeList: Ptr

    ghost function View(): Cache
      reads this
    {
      Cache(heads, table, freeList)
    }

    /** buffer_init: `n` buffers fit the memory; all of them are free, in order, and unhashed. */
    constructor (n: nat)
      requires n >= 2
      ensures |heads| == n && Queues(View(), seq(n, i => i), seq(NR_HASH, i => []), NULL)
      ensures forall b :: 0 <= b < n ==> heads[b].dev == 0 && heads[b].count == 0
    {
      var h: seq<Head> := [];
      while |h| < n
        invariant |h| <= n
        invariant forall i :: 0 <= i < |h| ==> h[i] == Head(0, 0, 0, false, false, false, NULL, NULL, i + 1, i - 1)
      {
        h := h + [Head(0, 0, 0, false, false, false, NULL, NULL, |h| + 1, |h| - 1)];
      }
      h := h[0 := h[0].(prevFree := n - 1)];
      h := h[n - 1 := h[n - 1].(nextFree := 0)];
      heads := h;
      freeList := 0;
      table := seq(NR_HASH, i => NULL);
      new;
      ghost var free := seq(n, i => i);
      assert forall b :: IsHead(heads, b) ==> free[b] == b;
    }

    method RemoveFromQueues(b: Ptr)
      requires Removable(View(), b)
      modifies this
      ensures View() == Remove(old(View()), b)
    {
      if heads[b].next != NULL {
        heads := SetPrev(heads, heads[b].next, heads[b].prev);
      }
      if heads[b].prev != NULL {
        heads := SetNext(heads, heads[b].prev, heads[b].next);
      }
      var k := Hash(heads[b].dev, heads[b].block);
      if table[k] == b {
        table := table[k := heads[b].next];
      }
      UnlinkHashWrites(old(heads), b);
      heads := SetNextFree(heads, heads[b].prevFree, heads[b].nextFree);
      heads := SetPrevFree(heads, heads[b].nextFree, heads[b].prevFree);
      if freeList == b {
        freeList := heads[b].nextFree;
      }
    }

    /** The first half of insert_into_queues: the end of the free list. */
    method PutOnFreeList(b: Ptr)
      requires IsHead(heads, b) && IsHead(heads, freeList) && IsHead(heads, heads[freeList].prevFree) && b != freeList
      modifies this`heads
      ensures heads == LinkFree(old(heads), freeList, b)
    {
      heads := SetNextFree(heads, b, freeList);
      heads := SetPrevFree(heads, b, heads[freeList].prevFree);
      heads := SetNextFree(heads, heads[freeList].prevFree, b);
      heads := SetPrevFree(heads, freeList, b);
    }

    /** The second half: the head of the bucket, if it has a device. */
    method PutInBucket(b: Ptr)
      requires |table| == NR_HASH && IsHead(heads, b)
      requires table[HashOf(heads[b])] != NULL ==> IsHead(heads, table[HashOf(heads[b])])
      modifies this`heads, this`table
      ensures var h2 := SetNext(SetPrev(old(heads), b, NULL), b, NULL);
              var k := HashOf(old(heads)[b]);
              if old(heads)[b].dev == 0 then heads == h2 && table == old(table)
              else heads == LinkHash(h2, old(table)[k], b) && table == old(table)[k := b]
    {
      heads := SetPrev(heads, b, NULL);
      heads := SetNext(heads, b, NULL);
      if heads[b].dev == 0 {
        return;
      }
      var k := Hash(heads[b].dev, heads[b].block);
      heads := SetNext(heads, b, table[k]);
      table := table[k := b];
      if heads[b].next != NULL {
        heads := SetPrev(heads, heads[b].next, b);
      }
    }

    method InsertIntoQueues(b: Ptr)
      requires |table| == NR_HASH && IsHead(heads, b)
      requires CanInsertAt(View(), b, heads[b].dev, heads[b].block)
      modifies this
      ensures View() == Insert(old(View()), b)
    {
      LinkFreeKeeps(heads, freeList, b);
      hide LinkFree, LinkHash, Hash;
      PutOnFreeList(b);
      PutInBucket(b);
    }

    /** find_buffer: along the bucket's next pointers. */
    method FindBuffer(dev: Dev, block: BlockNr, ghost free: seq<Ptr>, ghost chains: seq<seq<Ptr>>) returns (b: Ptr)
      requires Queues(View(), free, chains, NULL)
      ensures b == Find(View(), free, chains, dev, block)
    {
      ghost var s := chains[Hash(dev, block)];
      ghost var i := 0;
      b := table[Hash(dev, block)];
      while b != NULL
        invariant 0 <= i <= |s| && b == (if i < |s| then s[i] else NULL)
        invariant FindIn(heads, s, dev, block) == FindIn(heads, s[i..], dev, block)
        decreases |s| - i
      {
        if heads[b].dev == dev && heads[b].block == block {
          return;
        }
        Neighbours(heads, table[Hash(dev, block)], s, i);
        b := heads[b].next;
        i := i + 1;
      }
    }

    /** The scan in getblk: around the free list once. */
    method PickBuffer(ghost free: seq<Ptr>, ghost chains: seq<seq<Ptr>>) returns (b: Ptr)
      requires Queues(View(), free, chains, NULL)
      ensures b == Pick(heads, free, NULL)
    {
      hide Queues, Ring, Badness, Pick;
      ScanStart(View(), free, chains);
      b := NULL;
      var t := freeList;
      ghost var i := 0;
      while true
        invariant 0 <= i < |free| && t == free[i] && (b == NULL || IsHead(heads, b))
        invariant Pick(heads, free, NULL) == Pick(heads, free[i..], b)
        decreases |free| - i
      {
        PickStep(heads, free, i, b);
        if heads[t].count == 0 {
          if b == NULL || Badness(heads[t]) < Badness(heads[b]) {
            b := t;
            if Badness(heads[t]) == 0 {
              break;
            }
          }
        }
        RingStep(heads, freeList, free, i);
        t := heads[t].nextFree;
        i := i + 1;
        if t == freeList {
          PickEnd(heads, free[i..], b);
          break;
        }
      }
    }

    /** The end of getblk, once the buffer is known to be unused and the block not cached. */
    method TakeOver(b: Ptr, dev: Dev, block: BlockNr)
      requires Removable(View(), b) && CanInsertAt(Remove(Taken(View(), b), b), b, dev, block)
      modifies this
      ensures View() == Rekey(old(View()), b, dev, block)
    {
      hide Remove, Insert, Hash;
      heads := heads[b := heads[b].(count := 1)];
      heads := heads[b := heads[b].(dirt := false)];
      heads := heads[b := heads[b].(uptodate := false)];
      assert View() == Taken(old(View()), b);
      RemoveFromQueues(b);
      heads := heads[b := heads[b].(dev := dev)];
      heads := heads[b := heads[b].(block := block)];
      assert View() == Renamed(Remove(Taken(old(View()), b), b), b, dev, block);
      InsertIntoQueues(b);
    }
  }
}
