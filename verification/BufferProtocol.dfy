/**
 getblk, get_hash_table and brelse as processes run them: everything between two points where a
 process may sleep is one step, and between the steps of one process the others, and the
 devices, may take any steps of their own.
 */
module BufferProtocol {
  import opened BufferQueues
  import opened BufferCache

  /** A counted reference to a buffer, for the block it was asked for. */
  datatype Ref = Ref(b: Ptr, dev: Dev, block: BlockNr)

  /** Where a process may be asleep, inside the three functions. */
  datatype PC =
    | Idle
    | HashWait(r: Ref, get: bool)                      // counted, waiting for the lock; in getblk?
    | NoBuffer(dev: Dev, block: BlockNr)               // every buffer was in use
    | CandidateWait(b: Ptr, dev: Dev, block: BlockNr)  // waiting for the lock of an unused buffer
    | SyncWait(b: Ptr, dev: Dev, block: BlockNr)       // writing the device back
    | ReleaseWait(r: Ref)                              // in brelse, not yet counted down

  datatype Proc = Proc(pc: PC, held: seq<Ref>)

  /** `free` and `chains` are what the pointers of the cache form; they are determined by them. */
  datatype State = State(cache: Cache, free: seq<Ptr>, chains: seq<seq<Ptr>>, procs: seq<Proc>)

  // ---------------------------------------------------------------- counting references

  function Refs(p: Proc): seq<Ref> {
    p.held + match p.pc
             case HashWait(r, _) => [r]
             case ReleaseWait(r) => [r]
             case _ => []
  }

  function CountIn(s: seq<Ref>, b: Ptr): nat {
    if s == [] then 0 else (if s[0].b == b then 1 else 0) + CountIn(s[1..], b)
  }

  /** How many references there are to a buffer, over all processes. */
  function Total(procs: seq<Proc>, b: Ptr): nat {
    if procs == [] then 0 else CountIn(Refs(procs[0]), b) + Total(procs[1..], b)
  }

  lemma {:induction false} CountConcat(s: seq<Ref>, t: seq<Ref>, b: Ptr)
    ensures CountIn(s + t, b) == CountIn(s, b) + CountIn(t, b)
  {
    if s == [] {
      assert s + t == t;
    } else {
      assert (s + t)[1..] == s[1..] + t;
      CountConcat(s[1..], t, b);
    }
  }

  lemma {:induction false} CountSome(s: seq<Ref>, i: nat)
    requires i < |s|
    ensures CountIn(s, s[i].b) > 0
  {
    if i > 0 {
      CountSome(s[1..], i - 1);
    }
  }

  lemma {:induction false} TotalUpdate(procs: seq<Proc>, i: nat, q: Proc, b: Ptr)
    requires i < |procs|
    ensures Total(procs[i := q], b) == Total(procs, b) - CountIn(Refs(procs[i]), b) + CountIn(Refs(q), b)
    ensures CountIn(Refs(procs[i]), b) <= Total(procs, b)
  {
    if i == 0 {
      assert procs[i := q] == [q] + procs[1..];
    } else {
      assert procs[i := q][1..] == procs[1..][i - 1 := q];
      TotalUpdate(procs[1..], i - 1, q, b);
    }
  }

  // ---------------------------------------------------------------- steps

  const COUNTS := 256  // b_count is an unsigned char

  function CountUp(n: nat): nat { (n + 1) % COUNTS }

  function CountDown(n: nat): nat { (n + COUNTS - 1) % COUNTS }

  function WithCount(c: Cache, b: Ptr, n: nat): Cache
    requires IsHead(c.heads, b)
  {
    Cache(c.heads[b := c.heads[b].(count := n)], c.table, c.freeList)
  }

  function AtPC(s: State, i: nat, pc: PC): State
    requires i < |s.procs|
  {
    State(s.cache, s.free, s.chains, s.procs[i := Proc(pc, s.procs[i].held)])
  }

  /** The invariant that holds whatever the counts do: the lists are in order, no block of a
      device is in two buffers, and every count is the number of references, as a byte. */
  ghost predicate Inv(s: State) {
    && Queues(s.cache, s.free, s.chains, NULL)
    && Unique(s.cache.heads)
    && Counted(s.cache.heads, s.procs)
    && AllSane(s.cache.heads, s.procs)
  }

  ghost predicate Counted(h: seq<Head>, procs: seq<Proc>) {
    forall b :: IsHead(h, b) ==> h[b].count == Total(procs, b) % COUNTS
  }

  ghost predicate AllSane(h: seq<Head>, procs: seq<Proc>) {
    forall i :: 0 <= i < |procs| ==> Sane(h, procs[i])
  }

  ghost predicate Unique(h: seq<Head>) {
    forall a, b :: IsHead(h, a) && IsHead(h, b) && h[a].dev != 0 && SameKey(h[a], h[b]) ==> a == b
  }

  /** A process only knows pointers to buffers. */
  ghost predicate Sane(h: seq<Head>, p: Proc) {
    && (forall r :: r in Refs(p) ==> IsHead(h, r.b))
    && (p.pc.CandidateWait? || p.pc.SyncWait? ==> IsHead(h, p.pc.b))
  }

  /** From the start of get_hash_table, or of getblk, to the next point of rest. */
  ghost function Lookup(s: State, i: nat, dev: Dev, block: BlockNr, get: bool): State
    requires Inv(s) && i < |s.procs|
  {
    FindCorrect(s.cache, s.free, s.chains, dev, block);
    var b := Find(s.cache, s.free, s.chains, dev, block);
    if b != NULL then
      var c := WithCount(s.cache, b, CountUp(s.cache.heads[b].count));
      AtPC(State(c, s.free, s.chains, s.procs), i, HashWait(Ref(b, dev, block), get))
    else if !get then AtPC(s, i, Idle)
    else
      var v := Pick(s.cache.heads, s.free, NULL);
      AtPC(s, i, if v == NULL then NoBuffer(dev, block) else CandidateWait(v, dev, block))
  }

  /** Once the chosen buffer is unlocked: it may have been taken meanwhile, or be dirty, or the
      block may have been cached by somebody else; otherwise it is re-keyed. */
  ghost function AfterWait(s: State, i: nat, b: Ptr, dev: Dev, block: BlockNr): State
    requires Inv(s) && i < |s.procs| && IsHead(s.cache.heads, b)
  {
    if s.cache.heads[b].count != 0 then Lookup(s, i, dev, block, true)
    else if s.cache.heads[b].dirt then AtPC(s, i, SyncWait(b, dev, block))
    else if Find(s.cache, s.free, s.chains, dev, block) != NULL then Lookup(s, i, dev, block, true)
    else TakeOver(s, i, b, dev, block)
  }

  ghost function TakeOver(s: State, i: nat, b: Ptr, dev: Dev, block: BlockNr): State
    requires Inv(s) && i < |s.procs| && IsHead(s.cache.heads, b)
  {
    RekeyQueues(s.cache, s.free, s.chains, b, dev, block);
    State(Rekey(s.cache, b, dev, block), Drop(s.free, b) + [b], RekeyedChains(s.cache, s.chains, b, dev, block),
          s.procs[i := Proc(Idle, s.procs[i].held + [Ref(b, dev, block)])])
  }

  /** A process wakes up, or did not have to sleep; the buffer it waits for is unlocked. */
  ghost predicate CanResume(s: State, i: nat) {
    && i < |s.procs|
    && match s.procs[i].pc
       case Idle => false
       case HashWait(r, _) => IsHead(s.cache.heads, r.b) && !s.cache.heads[r.b].lock
       case CandidateWait(b, _, _) => IsHead(s.cache.heads, b) && !s.cache.heads[b].lock
       case ReleaseWait(r) => IsHead(s.cache.heads, r.b) && !s.cache.heads[r.b].lock
       case _ => true
  }

  ghost function Resume(s: State, i: nat): State
    requires Inv(s) && CanResume(s, i)
  {
    var p := s.procs[i];
    match p.pc
    case HashWait(r, get) =>
      if Carries(s.cache.heads[r.b], r.dev, r.block) then
        State(s.cache, s.free, s.chains, s.procs[i := Proc(Idle, p.held + [r])])
      else
        CountedDownInv(s, i, r);
        Lookup(CountedDown(s, i, r), i, r.dev, r.block, get)
    case NoBuffer(dev, block) => Lookup(s, i, dev, block, true)
    case CandidateWait(b, dev, block) => AfterWait(s, i, b, dev, block)
    case SyncWait(b, dev, block) => AtPC(s, i, CandidateWait(b, dev, block))
    case ReleaseWait(r) => CountedDown(s, i, r)
  }

  /** The reference a process waits with is given up. */
  function CountedDown(s: State, i: nat, r: Ref): State
    requires i < |s.procs| && IsHead(s.cache.heads, r.b)
  {
    AtPC(State(WithCount(s.cache, r.b, CountDown(s.cache.heads[r.b].count)), s.free, s.chains, s.procs), i, Idle)
  }

  /** brelse of one of the references a process holds, up to the wait. */
  function Release(s: State, i: nat, k: nat): State
    requires i < |s.procs| && k < |s.procs[i].held|
  {
    var p := s.procs[i];
    State(s.cache, s.free, s.chains, s.procs[i := Proc(ReleaseWait(p.held[k]), Without(p.held, k))])
  }

  datatype Label =
    | Call(i: nat, dev: Dev, block: BlockNr, get: bool)
    | Wake(i: nat)
    | GiveBack(i: nat, k: nat)
    | Device(h: seq<Head>)

  /** Devices, and the holders of buffers, change locks, flags and data, nothing else. */
  predicate OnlyFlags(h: seq<Head>, h': seq<Head>) {
    && |h| == |h'|
    && forall b :: 0 <= b < |h| ==>
         SameLinks(h'[b], h[b]) && SameKey(h'[b], h[b]) && h'[b].count == h[b].count
  }

  ghost predicate Does(s: State, l: Label, s': State)
    requires Inv(s)
  {
    match l
    case Call(i, dev, block, get) => i < |s.procs| && s.procs[i].pc.Idle? && s' == Lookup(s, i, dev, block, get)
    case Wake(i) => CanResume(s, i) && s' == Resume(s, i)
    case GiveBack(i, k) =>
      i < |s.procs| && s.procs[i].pc.Idle? && k < |s.procs[i].held| && s' == Release(s, i, k)
    case Device(h) =>
      OnlyFlags(s.cache.heads, h)
      && s' == State(Cache(h, s.cache.table, s.cache.freeList), s.free, s.chains, s.procs)
  }

  // ---------------------------------------------------------------- the invariant

  lemma CountedUpdate(h: seq<Head>, procs: seq<Proc>, i: nat, q: Proc, h': seq<Head>)
    requires Counted(h, procs) && i < |procs| && |h'| == |h|
    requires forall x :: IsHead(h, x) ==>
      h'[x].count == (h[x].count - CountIn(Refs(procs[i]), x) + CountIn(Refs(q), x)) % COUNTS
    ensures Counted(h', procs[i := q])
  {
    hide Total, CountIn, Refs;
    forall x | IsHead(h', x) ensures h'[x].count == Total(procs[i := q], x) % COUNTS {
      TotalUpdate(procs, i, q, x);
      AsByte(Total(procs, x), CountIn(Refs(procs[i]), x), CountIn(Refs(q), x));
      hide *;
    }
  }

  lemma AsByte(n: nat, less: nat, more: nat)
    ensures (n % COUNTS - less + more) % COUNTS == (n - less + more) % COUNTS
  {
  }

  lemma SaneUpdate(h: seq<Head>, procs: seq<Proc>, i: nat, q: Proc, h': seq<Head>)
    requires AllSane(h, procs) && i < |procs| && |h'| == |h| && Sane(h, q)
    ensures AllSane(h', procs[i := q])
  {
    var procs' := procs[i := q];
    forall j | 0 <= j < |procs'| ensures Sane(h', procs'[j]) {
      assert Sane(h, if j == i then q else procs[j]);
    }
  }

  /** Changing one process and one count by the same amount. */
  lemma CountInv(s: State, i: nat, q: Proc, b: Ptr, n: nat)
    requires Inv(s) && i < |s.procs| && IsHead(s.cache.heads, b) && Sane(s.cache.heads, q)
    requires forall x :: x != b ==> CountIn(Refs(q), x) == CountIn(Refs(s.procs[i]), x)
    requires n == (s.cache.heads[b].count - CountIn(Refs(s.procs[i]), b) + CountIn(Refs(q), b)) % COUNTS
    ensures Inv(State(WithCount(s.cache, b, n), s.free, s.chains, s.procs[i := q]))
  {
    hide Queues, Sane, CountIn, Refs, Total;
    var c := WithCount(s.cache, b, n);
    QueuesFrame(s.cache, s.free, s.chains, NULL, c.heads);
    CountedUpdate(s.cache.heads, s.procs, i, q, c.heads);
    SaneUpdate(s.cache.heads, s.procs, i, q, c.heads);
  }

  /** Changing one process that keeps its references. */
  lemma SameRefsInv(s: State, i: nat, q: Proc)
    requires Inv(s) && i < |s.procs| && Sane(s.cache.heads, q)
    requires forall x :: CountIn(Refs(q), x) == CountIn(Refs(s.procs[i]), x)
    ensures Inv(State(s.cache, s.free, s.chains, s.procs[i := q]))
  {
    hide Queues, Unique, Sane, CountIn, Refs, Total;
    CountedUpdate(s.cache.heads, s.procs, i, q, s.cache.heads);
    SaneUpdate(s.cache.heads, s.procs, i, q, s.cache.heads);
  }

  lemma CountedDownInv(s: State, i: nat, r: Ref)
    requires Inv(s) && i < |s.procs| && IsHead(s.cache.heads, r.b)
    requires s.procs[i].pc == ReleaseWait(r) || (s.procs[i].pc.HashWait? && s.procs[i].pc.r == r)
    ensures Inv(CountedDown(s, i, r))
  {
    hide Queues, Unique, Counted, Total;
    var p := s.procs[i];
    var q := Proc(Idle, p.held);
    forall x ensures CountIn(Refs(p), x) == CountIn(p.held, x) + (if x == r.b then 1 else 0)
             ensures CountIn(Refs(q), x) == CountIn(p.held, x)
    {
      CountConcat(p.held, [r], x);
      assert Refs(q) == p.held;
      assert CountIn([r], x) == (if x == r.b then 1 else 0);
    }
    assert Sane(s.cache.heads, p);
    CountInv(s, i, q, r.b, CountDown(s.cache.heads[r.b].count));
  }

  lemma LookupInv(s: State, i: nat, dev: Dev, block: BlockNr, get: bool)
    requires Inv(s) && i < |s.procs| && Refs(s.procs[i]) == s.procs[i].held
    ensures Inv(Lookup(s, i, dev, block, get))
  {
    hide Queues, Pick, Counted, Unique, Total;
    FindCorrect(s.cache, s.free, s.chains, dev, block);
    var b := Find(s.cache, s.free, s.chains, dev, block);
    var p := s.procs[i];
    assert Sane(s.cache.heads, p);
    if b != NULL {
      var r := Ref(b, dev, block);
      var q := Proc(HashWait(r, get), p.held);
      forall x ensures CountIn(Refs(q), x) == CountIn(p.held, x) + (if x == b then 1 else 0) {
        CountConcat(p.held, [r], x);
        assert CountIn([r], x) == (if x == b then 1 else 0);
      }
      CountInv(s, i, q, b, CountUp(s.cache.heads[b].count));
    } else {
      var q := Lookup(s, i, dev, block, get).procs[i];
      assert Refs(q) == p.held;
      PickOnList(s.cache, s.free, s.chains);
      SameRefsInv(s, i, q);
    }
  }

  lemma PickOnList(c: Cache, free: seq<Ptr>, chains: seq<seq<Ptr>>)
    requires Queues(c, free, chains, NULL)
    ensures var v := Pick(c.heads, free, NULL); v != NULL ==> IsHead(c.heads, v)
  {
    PickCorrect(c.heads, free, NULL);
    RingFacts(c.heads, c.freeList, free);
  }

  lemma OneMoreRef(h: seq<Head>, p: Proc, r: Ref)
    requires Refs(p) == p.held && Sane(h, p) && IsHead(h, r.b)
    ensures Sane(h, Proc(Idle, p.held + [r]))
    ensures forall x :: CountIn(Refs(Proc(Idle, p.held + [r])), x)
                        == CountIn(Refs(p), x) + (if x == r.b then 1 else 0)
  {
    var q := Proc(Idle, p.held + [r]);
    assert Refs(q) == p.held + [r];
    forall x ensures CountIn(Refs(q), x) == CountIn(Refs(p), x) + (if x == r.b then 1 else 0) {
      CountConcat(p.held, [r], x);
      assert CountIn([r], x) == (if x == r.b then 1 else 0);
    }
  }

  lemma OneMoreCounted(h: seq<Head>, procs: seq<Proc>, i: nat, q: Proc, b: Ptr, h': seq<Head>)
    requires Counted(h, procs) && i < |procs| && |h'| == |h| && IsHead(h, b)
    requires h[b].count == 0 && h'[b].count == 1
    requires forall x :: IsHead(h, x) && x != b ==> SameButLinks(h'[x], h[x])
    requires forall x :: CountIn(Refs(q), x) == CountIn(Refs(procs[i]), x) + (if x == b then 1 else 0)
    ensures Counted(h', procs[i := q])
  {
    hide CountIn, Refs, Total;
    CountedUpdate(h, procs, i, q, h');
  }

  lemma TakeOverInv(s: State, i: nat, b: Ptr, dev: Dev, block: BlockNr)
    requires Inv(s) && i < |s.procs| && IsHead(s.cache.heads, b) && Refs(s.procs[i]) == s.procs[i].held
    requires s.cache.heads[b].count == 0 && Find(s.cache, s.free, s.chains, dev, block) == NULL
    ensures Inv(TakeOver(s, i, b, dev, block))
  {
    hide Queues, Find, Rekey, Removable, CanInsertAt, RekeyedChains, Total;
    RekeyQueues(s.cache, s.free, s.chains, b, dev, block);
    FindCorrect(s.cache, s.free, s.chains, dev, block);
    var s' := TakeOver(s, i, b, dev, block);
    var p, r := s.procs[i], Ref(b, dev, block);
    var q := Proc(Idle, p.held + [r]);
    assert Sane(s.cache.heads, p);
    OneMoreRef(s.cache.heads, p, r);
    RekeyedUnique(s.cache.heads, s'.cache.heads, b, dev, block);
    hide CountIn, Refs, Unique, Sane, Counted;
    OneMoreCounted(s.cache.heads, s.procs, i, q, b, s'.cache.heads);
    SaneUpdate(s.cache.heads, s.procs, i, q, s'.cache.heads);
  }

  lemma RekeyedUnique(h: seq<Head>, h': seq<Head>, b: Ptr, dev: Dev, block: BlockNr)
    requires Unique(h) && |h'| == |h| && IsHead(h, b) && Carries(h'[b], dev, block)
    requires forall i :: 0 <= i < |h| && i != b ==> SameButLinks(h'[i], h[i])
    requires forall x :: IsHead(h, x) && Carries(h[x], dev, block) ==> dev == 0
    ensures Unique(h')
  {
    forall x, y | IsHead(h', x) && IsHead(h', y) && h'[x].dev != 0 && SameKey(h'[x], h'[y]) ensures x == y {
      assert x == b || SameButLinks(h'[x], h[x]);
      assert y == b || SameButLinks(h'[y], h[y]);
    }
  }

  lemma AfterWaitInv(s: State, i: nat, b: Ptr, dev: Dev, block: BlockNr)
    requires Inv(s) && i < |s.procs| && IsHead(s.cache.heads, b) && Refs(s.procs[i]) == s.procs[i].held
    ensures Inv(AfterWait(s, i, b, dev, block))
  {
    hide Queues, Find;
    if s.cache.heads[b].count != 0 {
      LookupInv(s, i, dev, block, true);
    } else if s.cache.heads[b].dirt {
      var q := Proc(SyncWait(b, dev, block), s.procs[i].held);
      assert Refs(q) == s.procs[i].held && Sane(s.cache.heads, s.procs[i]);
      SameRefsInv(s, i, q);
    } else if Find(s.cache, s.free, s.chains, dev, block) != NULL {
      LookupInv(s, i, dev, block, true);
    } else {
      TakeOverInv(s, i, b, dev, block);
    }
  }

  lemma ResumeInv(s: State, i: nat)
    requires Inv(s) && CanResume(s, i)
    ensures Inv(Resume(s, i))
  {
    hide Queues, AfterWait, Lookup;
    var p := s.procs[i];
    assert Sane(s.cache.heads, p);
    match p.pc
    case HashWait(r, get) =>
      if Carries(s.cache.heads[r.b], r.dev, r.block) {
        var q := Proc(Idle, p.held + [r]);
        assert Refs(q) == Refs(p);
        SameRefsInv(s, i, q);
      } else {
        CountedDownInv(s, i, r);
        var t := CountedDown(s, i, r);
        assert Refs(t.procs[i]) == t.procs[i].held;
        LookupInv(t, i, r.dev, r.block, get);
      }
    case NoBuffer(dev, block) =>
      assert Refs(p) == p.held;
      LookupInv(s, i, dev, block, true);
    case CandidateWait(b, dev, block) =>
      assert Refs(p) == p.held;
      AfterWaitInv(s, i, b, dev, block);
    case SyncWait(b, dev, block) =>
      var q := Proc(CandidateWait(b, dev, block), p.held);
      assert Refs(q) == Refs(p);
      SameRefsInv(s, i, q);
    case ReleaseWait(r) =>
      CountedDownInv(s, i, r);
  }

  lemma ReleaseInv(s: State, i: nat, k: nat)
    requires Inv(s) && i < |s.procs| && s.procs[i].pc.Idle? && k < |s.procs[i].held|
    ensures Inv(Release(s, i, k))
  {
    hide Queues;
    var p := s.procs[i];
    var q := Release(s, i, k).procs[i];
    assert Refs(p) == p.held == p.held[..k] + ([p.held[k]] + p.held[k + 1..]);
    forall x ensures CountIn(Refs(q), x) == CountIn(Refs(p), x) {
      CountConcat(p.held[..k], [p.held[k]] + p.held[k + 1..], x);
      CountConcat([p.held[k]], p.held[k + 1..], x);
      CountConcat(p.held[..k], p.held[k + 1..], x);
      CountConcat(Without(p.held, k), [p.held[k]], x);
    }
    assert Sane(s.cache.heads, p);
    assert forall r :: r in Refs(q) ==> r in Refs(p);
    SameRefsInv(s, i, q);
  }

  /** Every step of every process, and of the devices, keeps the invariant. */
  lemma StepInv(s: State, l: Label, s': State)
    requires Inv(s) && Does(s, l, s')
    ensures Inv(s')
  {
    match l
    case Call(i, dev, block, get) =>
      assert Refs(s.procs[i]) == s.procs[i].held;
      LookupInv(s, i, dev, block, get);
    case Wake(i) => ResumeInv(s, i);
    case GiveBack(i, k) => ReleaseInv(s, i, k);
    case Device(h) => DeviceInv(s, h);
  }

  lemma DeviceInv(s: State, h: seq<Head>)
    requires Inv(s) && OnlyFlags(s.cache.heads, h)
    ensures Inv(State(Cache(h, s.cache.table, s.cache.freeList), s.free, s.chains, s.procs))
  {
    hide Queues, Total;
    QueuesFrame(s.cache, s.free, s.chains, NULL, h);
    forall j | 0 <= j < |s.procs| ensures Sane(h, s.procs[j]) {
      assert Sane(s.cache.heads, s.procs[j]);
    }
  }

  // ---------------------------------------------------------------- when a buffer is re-keyed

  /** A count of zero means that the number of references is a multiple of 256. A candidate is
      taken over exactly when it is, the buffer is clean, and the block is still not cached. */
  lemma TakenOverExactly(s: State, i: nat, b: Ptr, dev: Dev, block: BlockNr)
    requires Inv(s) && CanResume(s, i) && s.procs[i].pc == CandidateWait(b, dev, block)
    ensures IsHead(s.cache.heads, b)
    ensures var s' := Resume(s, i);
            s'.procs[i].pc.Idle? <==>
              Total(s.procs, b) % COUNTS == 0 && !s.cache.heads[b].dirt
              && Find(s.cache, s.free, s.chains, dev, block) == NULL
    ensures var s' := Resume(s, i);
            s'.procs[i].pc.Idle? ==>
              IsHead(s'.cache.heads, b) && Carries(s'.cache.heads[b], dev, block) && s'.cache.heads[b].count == 1
  {
    hide Queues, Find, Rekey, Removable, CanInsertAt, RekeyedChains, Total, Pick;
    RekeyQueues(s.cache, s.free, s.chains, b, dev, block);
  }

  lemma LookupKeepsKeys(s: State, i: nat, dev: Dev, block: BlockNr, get: bool)
    requires Inv(s) && i < |s.procs|
    ensures SameKeys(s.cache.heads, Lookup(s, i, dev, block, get).cache.heads)
  {
    hide Queues, Pick, Find;
    FindCorrect(s.cache, s.free, s.chains, dev, block);
  }

  ghost predicate SameKeys(h: seq<Head>, h': seq<Head>) {
    |h'| == |h| && forall x :: IsHead(h, x) ==> SameKey(h'[x], h[x])
  }

  lemma AfterWaitKeys(s: State, i: nat, b: Ptr, dev: Dev, block: BlockNr, x: Ptr)
    requires Inv(s) && i < |s.procs| && IsHead(s.cache.heads, b) && IsHead(s.cache.heads, x)
    ensures var h := AfterWait(s, i, b, dev, block).cache.heads;
            && |h| == |s.cache.heads|
            && (!SameKey(h[x], s.cache.heads[x]) ==> Total(s.procs, x) % COUNTS == 0)
  {
    hide Queues, Find, Lookup, Total, Rekey, Removable, CanInsertAt, RekeyedChains;
    LookupKeepsKeys(s, i, dev, block, true);
    RekeyQueues(s.cache, s.free, s.chains, b, dev, block);
  }

  /** Whatever the step, only a buffer whose number of references is a multiple of 256 changes its
      key. */
  lemma RekeyedOnlyUnused(s: State, l: Label, s': State, x: Ptr)
    requires Inv(s) && Does(s, l, s') && IsHead(s.cache.heads, x)
    ensures |s'.cache.heads| == |s.cache.heads|
    ensures !SameKey(s'.cache.heads[x], s.cache.heads[x]) ==> Total(s.procs, x) % COUNTS == 0
  {
    hide Queues, Find, Lookup, Total, AfterWait;
    match l
    case Call(i, dev, block, get) => LookupKeepsKeys(s, i, dev, block, get);
    case Wake(i) =>
      match s.procs[i].pc {
        case HashWait(r, get) =>
          if !Carries(s.cache.heads[r.b], r.dev, r.block) {
            CountedDownInv(s, i, r);
            LookupKeepsKeys(CountedDown(s, i, r), i, r.dev, r.block, get);
          }
        case NoBuffer(dev, block) => LookupKeepsKeys(s, i, dev, block, true);
        case CandidateWait(b, dev, block) => AfterWaitKeys(s, i, b, dev, block, x);
        case _ =>
      }
    case _ =>
  }

  // ---------------------------------------------------------------- runs

  /** After buffer_init, before any process asked for a block. */
  ghost predicate Started(s: State) {
    && Queues(s.cache, s.free, s.chains, NULL)
    && (forall b :: IsHead(s.cache.heads, b) ==> s.cache.heads[b].dev == 0 && s.cache.heads[b].count == 0)
    && (forall i :: 0 <= i < |s.procs| ==> s.procs[i] == Proc(Idle, []))
  }

  /** Any interleaving. (A step is only meaningful from a state that satisfies the invariant;
      RunInv shows that every state of a run does.) */
  ghost predicate IsRun(run: seq<State>, labels: seq<Label>) {
    |run| == |labels| + 1 && Started(run[0]) && forall i :: 0 <= i < |labels| ==> StepAt(run, labels, i)
  }

  ghost predicate StepAt(run: seq<State>, labels: seq<Label>, i: nat)
    requires i < |labels| && |run| == |labels| + 1
  {
    Inv(run[i]) ==> Does(run[i], labels[i], run[i + 1])
  }

  lemma {:induction false} NobodyHolds(procs: seq<Proc>, b: Ptr)
    requires forall i :: 0 <= i < |procs| ==> procs[i] == Proc(Idle, [])
    ensures Total(procs, b) == 0
  {
    if procs != [] {
      assert Refs(procs[0]) == [];
      NobodyHolds(procs[1..], b);
    }
  }

  lemma StartedInv(s: State)
    requires Started(s)
    ensures Inv(s)
    ensures forall i :: 0 <= i < |s.procs| ==> Refs(s.procs[i]) == []
  {
    hide Queues;
    forall b | IsHead(s.cache.heads, b) ensures s.cache.heads[b].count == Total(s.procs, b) % COUNTS {
      NobodyHolds(s.procs, b);
    }
    forall i | 0 <= i < |s.procs| ensures Refs(s.procs[i]) == [] {
    }
  }

  /** In every state of every interleaving: the lists are in order, so that every buffer is on the
      free list exactly once and on exactly the bucket of its key; a device's block is in at most
      one buffer; and the counts count the references. */
  lemma {:induction false} RunInv(run: seq<State>, labels: seq<Label>, n: nat)
    requires IsRun(run, labels) && n < |run|
    ensures Inv(run[n])
  {
    if n == 0 {
      StartedInv(run[0]);
    } else {
      RunInv(run, labels, n - 1);
      assert StepAt(run, labels, n - 1);
      hide Inv, Does;
      StepInv(run[n - 1], labels[n - 1], run[n]);
    }
  }
}
