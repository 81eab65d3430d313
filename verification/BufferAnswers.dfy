/**
 What a process gets from getblk and get_hash_table, however the others interleave: it stays with
 the block it asked for until it holds a buffer that carries it, and waits for the right thing.
 */
module BufferAnswers {
  import opened BufferQueues
  import opened BufferCache
  import opened BufferProtocol

  /** The process is inside one of the two functions for this block. */
  predicate Asks(pc: PC, dev: Dev, block: BlockNr, get: bool) {
    match pc
    case HashWait(r, g) => r.dev == dev && r.block == block && g == get
    case NoBuffer(d, b) => d == dev && b == block && get
    case CandidateWait(_, d, b) => d == dev && b == block && get
    case SyncWait(_, d, b) => d == dev && b == block && get
    case Idle => false
    case ReleaseWait(_) => false
  }

  /** Nothing but the i-th process and counts differ. */
  ghost predicate OnlyCounts(s: State, s': State, i: nat) {
    && i < |s.procs| == |s'.procs| && s'.procs == s.procs[i := s'.procs[i]]
    && s'.free == s.free && s'.chains == s.chains
    && s'.cache.table == s.cache.table && s'.cache.freeList == s.cache.freeList
    && |s'.cache.heads| == |s.cache.heads|
    && forall x :: IsHead(s.cache.heads, x) ==>
         s'.cache.heads[x] == s.cache.heads[x].(count := s'.cache.heads[x].count)
  }

  /** From the start of either function. A buffer that carries the block is counted and waited for.
      Without one, get_hash_table gives up; getblk waits for an unused buffer, a clean one if there
      is one and among those one that is not locked, or, when every buffer is in use, for any to be
      released. */
  lemma LookupGives(s: State, i: nat, dev: Dev, block: BlockNr, get: bool)
    requires Inv(s) && i < |s.procs|
    ensures
      var s', h := Lookup(s, i, dev, block, get), s.cache.heads;
      && OnlyCounts(s, s', i) && s'.procs[i].held == s.procs[i].held
      && match s'.procs[i].pc
         case HashWait(r, g) =>
           && r.dev == dev && r.block == block && g == get && dev != 0
           && IsHead(h, r.b) && Carries(h[r.b], dev, block)
           && s'.cache.heads[r.b].count == (h[r.b].count + 1) % 256
           && forall x :: IsHead(h, x) && x != r.b ==> s'.cache.heads[x] == h[x]
         case Idle => !get && s'.cache == s.cache && Absent(h, dev, block)
         case CandidateWait(v, d, b) =>
           && get && d == dev && b == block && s'.cache == s.cache && Absent(h, dev, block)
           && IsHead(h, v) && h[v].count == 0
           && forall x :: IsHead(h, x) && h[x].count == 0 ==>
                (h[v].dirt ==> h[x].dirt) && (h[v].dirt == h[x].dirt && h[v].lock ==> h[x].lock)
         case NoBuffer(d, b) =>
           && get && d == dev && b == block && s'.cache == s.cache && Absent(h, dev, block)
           && forall x :: IsHead(h, x) ==> h[x].count != 0
         case SyncWait(_, _, _) => false
         case ReleaseWait(_) => false
  {
    hide Queues, Find, Pick, Badness;
    FindCorrect(s.cache, s.free, s.chains, dev, block);
    PickGives(s.cache, s.free, s.chains);
  }

  ghost predicate Absent(h: seq<Head>, dev: Dev, block: BlockNr) {
    forall x :: IsHead(h, x) && Carries(h[x], dev, block) ==> dev == 0
  }

  lemma PickGives(c: Cache, free: seq<Ptr>, chains: seq<seq<Ptr>>)
    requires Queues(c, free, chains, NULL)
    ensures
      var v, h := Pick(c.heads, free, NULL), c.heads;
      && (v == NULL ==> forall x :: IsHead(h, x) ==> h[x].count != 0)
      && (v != NULL ==> IsHead(h, v) && h[v].count == 0)
      && (v != NULL ==>
            forall x :: IsHead(h, x) && h[x].count == 0 ==>
              (h[v].dirt ==> h[x].dirt) && (h[v].dirt == h[x].dirt && h[v].lock ==> h[x].lock))
  {
    hide Pick;
    PickCorrect(c.heads, free, NULL);
    RingFacts(c.heads, c.freeList, free);
  }

  /** `b` is on the list, and every unused buffer before it is worse. */
  ghost predicate Earliest(h: seq<Head>, s: seq<Ptr>, k: nat, b: Ptr) {
    && k < |s| && s[k] == b && IsHead(h, b)
    && forall i :: 0 <= i < k ==>
         IsHead(h, s[i]) && (h[s[i]].count == 0 ==> Badness(h[s[i]]) > Badness(h[b]))
  }

  /** Among equally good buffers the scan takes the one that comes first on the free list. */
  lemma {:induction false} PickIsFirst(h: seq<Head>, s: seq<Ptr>, best: Ptr) returns (k: nat)
    requires forall i :: 0 <= i < |s| ==> IsHead(h, s[i])
    requires best == NULL || (IsHead(h, best) && h[best].count == 0)
    ensures
      var b := Pick(h, s, best);
      && (b != best ==> Earliest(h, s, k, b))
      && (b != best && best != NULL ==> IsHead(h, b) && Badness(h[b]) < Badness(h[best]))
  {
    hide Badness;
    k := 0;
    if s != [] {
      var t, b := s[0], Pick(h, s, best);
      if h[t].count == 0 && (best == NULL || Badness(h[t]) < Badness(h[best])) {
        if Badness(h[t]) != 0 {
          var j := PickIsFirst(h, s[1..], t);
          if b != t {
            EarliestLater(h, s, j, b);
            k := j + 1;
          }
        }
      } else {
        var j := PickIsFirst(h, s[1..], best);
        if b != best {
          PickCorrect(h, s[1..], best);
          EarliestLater(h, s, j, b);
          k := j + 1;
        }
      }
    }
  }

  lemma EarliestLater(h: seq<Head>, s: seq<Ptr>, j: nat, b: Ptr)
    requires s != [] && IsHead(h, s[0]) && Earliest(h, s[1..], j, b)
    requires h[s[0]].count == 0 ==> Badness(h[s[0]]) > Badness(h[b])
    ensures Earliest(h, s, j + 1, b)
  {
    hide Badness;
    assert forall i :: 1 <= i < j + 1 ==> s[i] == s[1..][i - 1];
  }

  /** A step of a process inside one of the functions: it gets a buffer that carries its block, and
      a reference to it; or it goes on asking for that block; or it is get_hash_table and there is
      no such buffer. It loses none of the references it held. */
  lemma StepAnswers(s: State, i: nat, dev: Dev, block: BlockNr, get: bool)
    requires Inv(s) && CanResume(s, i) && Asks(s.procs[i].pc, dev, block, get)
    ensures
      var s', p := Resume(s, i), s.procs[i];
      && |s'.procs| == |s.procs| && s'.procs == s.procs[i := s'.procs[i]]
      && (Got(s', i, p.held, dev, block)
          || (Asks(s'.procs[i].pc, dev, block, get) && s'.procs[i].held == p.held)
          || (!get && s'.procs[i] == Proc(Idle, p.held) && Absent(s'.cache.heads, dev, block)))
  {
    hide Queues, Find, Lookup, AfterWait, Inv, Absent;
    match s.procs[i].pc
    case HashWait(r, g) =>
      if Carries(s.cache.heads[r.b], r.dev, r.block) {
        assert Got(Resume(s, i), i, s.procs[i].held, dev, block);
      } else {
        CountedDownInv(s, i, r);
        LookupAsks(CountedDown(s, i, r), i, dev, block, get);
      }
    case NoBuffer(_, _) => LookupAsks(s, i, dev, block, true);
    case CandidateWait(b, _, _) => AfterWaitAsks(s, i, b, dev, block);
    case SyncWait(_, _, _) =>
  }

  ghost predicate Got(s: State, i: nat, held: seq<Ref>, dev: Dev, block: BlockNr) {
    && i < |s.procs| && s.procs[i].pc == Idle
    && |s.procs[i].held| == |held| + 1 && s.procs[i].held[..|held|] == held
    && var r := s.procs[i].held[|held|];
       r.dev == dev && r.block == block && IsHead(s.cache.heads, r.b) && Carries(s.cache.heads[r.b], dev, block)
  }

  lemma LookupAsks(s: State, i: nat, dev: Dev, block: BlockNr, get: bool)
    requires Inv(s) && i < |s.procs|
    ensures
      var s', p := Lookup(s, i, dev, block, get), s.procs[i];
      && |s'.procs| == |s.procs| && s'.procs == s.procs[i := s'.procs[i]]
      && ((Asks(s'.procs[i].pc, dev, block, get) && s'.procs[i].held == p.held)
          || (!get && s'.procs[i] == Proc(Idle, p.held) && Absent(s'.cache.heads, dev, block)))
  {
    hide Lookup, Inv, Absent;
    LookupGives(s, i, dev, block, get);
  }

  lemma AfterWaitAsks(s: State, i: nat, b: Ptr, dev: Dev, block: BlockNr)
    requires Inv(s) && i < |s.procs| && IsHead(s.cache.heads, b)
    ensures
      var s', p := AfterWait(s, i, b, dev, block), s.procs[i];
      && |s'.procs| == |s.procs| && s'.procs == s.procs[i := s'.procs[i]]
      && (Got(s', i, p.held, dev, block) || (Asks(s'.procs[i].pc, dev, block, true) && s'.procs[i].held == p.held))
  {
    hide Queues, Find, Lookup, Inv, Rekey, Removable, CanInsertAt, RekeyedChains;
    LookupAsks(s, i, dev, block, true);
    assert Queues(s.cache, s.free, s.chains, NULL) by {
      InvQueues(s);
    }
    RekeyQueues(s.cache, s.free, s.chains, b, dev, block);
  }

  lemma InvQueues(s: State)
    requires Inv(s)
    ensures Queues(s.cache, s.free, s.chains, NULL)
  {
  }

  /** The candidate of a process that waited for it: taken by somebody else or with the block cached
      meanwhile, the process starts again; dirty, it is written first. */
  lemma CandidateChecked(s: State, i: nat, b: Ptr, dev: Dev, block: BlockNr)
    requires Inv(s) && CanResume(s, i) && s.procs[i].pc == CandidateWait(b, dev, block)
    ensures
      var s', h := Resume(s, i), s.cache.heads;
      && (h[b].count != 0 || (!h[b].dirt && !Absent(h, dev, block)) ==> s' == Lookup(s, i, dev, block, true))
      && (h[b].count == 0 && h[b].dirt ==> s'.cache == s.cache && s'.procs[i].pc == SyncWait(b, dev, block))
  {
    hide Queues, Find, Lookup, TakeOver;
    FindCorrect(s.cache, s.free, s.chains, dev, block);
  }
}
