/**
 When a reference to a buffer stays a reference to the block it was made for. A count is one byte,
 so it is safe exactly as long as no buffer with references is taken for unused; a bound on the
 references each process takes, which it can check before each call, is enough.
 */
module BufferSafety {
  import opened BufferQueues
  import opened BufferCache
  import opened BufferProtocol

  ghost predicate Keyed(h: seq<Head>, r: Ref) {
    IsHead(h, r.b) && Carries(h[r.b], r.dev, r.block)
  }

  ghost predicate AllKeyed(h: seq<Head>, procs: seq<Proc>) {
    forall i, r :: 0 <= i < |procs| && r in Refs(procs[i]) ==> Keyed(h, r)
  }

  lemma KeyedUpdate(h: seq<Head>, procs: seq<Proc>, i: nat, q: Proc, h': seq<Head>)
    requires AllKeyed(h, procs) && i < |procs| && SameKeys(h, h')
    requires forall r :: r in Refs(q) ==> r in Refs(procs[i]) || Keyed(h, r)
    ensures AllKeyed(h', procs[i := q])
  {
    hide Refs;
    var procs' := procs[i := q];
    forall j, r | 0 <= j < |procs'| && r in Refs(procs'[j]) ensures Keyed(h', r) {
      assert r in Refs(procs[j]) || j == i;
      assert Keyed(h, r);
    }
  }

  lemma {:induction false} ReferencedIsCounted(procs: seq<Proc>, j: nat, r: Ref)
    requires j < |procs| && r in Refs(procs[j])
    ensures Total(procs, r.b) > 0
  {
    hide Refs;
    if j == 0 {
      var k :| 0 <= k < |Refs(procs[0])| && Refs(procs[0])[k] == r;
      CountSome(Refs(procs[0]), k);
    } else {
      ReferencedIsCounted(procs[1..], j - 1, r);
    }
  }

  lemma {:induction false} CountedIsThere(s: seq<Ref>, b: Ptr) returns (r: Ref)
    requires CountIn(s, b) > 0
    ensures r in s && r.b == b
  {
    if s[0].b == b {
      r := s[0];
    } else {
      r := CountedIsThere(s[1..], b);
    }
  }

  lemma {:induction false} CountedIsReferenced(procs: seq<Proc>, b: Ptr) returns (j: nat, r: Ref)
    requires Total(procs, b) > 0
    ensures j < |procs| && r in Refs(procs[j]) && r.b == b
  {
    hide Refs;
    if CountIn(Refs(procs[0]), b) > 0 {
      j := 0;
      r := CountedIsThere(Refs(procs[0]), b);
    } else {
      j, r := CountedIsReferenced(procs[1..], b);
      j := j + 1;
    }
  }

  lemma LookupKeyed(s: State, i: nat, dev: Dev, block: BlockNr, get: bool)
    requires Inv(s) && i < |s.procs| && AllKeyed(s.cache.heads, s.procs)
    ensures var s' := Lookup(s, i, dev, block, get); AllKeyed(s'.cache.heads, s'.procs)
  {
    hide Queues, Find, Pick, AllKeyed;
    FindCorrect(s.cache, s.free, s.chains, dev, block);
    LookupKeepsKeys(s, i, dev, block, get);
    var s' := Lookup(s, i, dev, block, get);
    KeyedUpdate(s.cache.heads, s.procs, i, s'.procs[i], s'.cache.heads);
  }

  /** Taking a buffer over leaves all references right exactly when it had none, or already carried
      the block. */
  lemma TakeOverKeyed(s: State, i: nat, b: Ptr, dev: Dev, block: BlockNr)
    requires Inv(s) && i < |s.procs| && IsHead(s.cache.heads, b) && AllKeyed(s.cache.heads, s.procs)
    requires Refs(s.procs[i]) == s.procs[i].held
    ensures var s' := TakeOver(s, i, b, dev, block);
            AllKeyed(s'.cache.heads, s'.procs)
            <==> Total(s.procs, b) == 0 || Carries(s.cache.heads[b], dev, block)
  {
    hide Queues, Find, Total, Rekey, Removable, CanInsertAt, RekeyedChains;
    RekeyQueues(s.cache, s.free, s.chains, b, dev, block);
    var s' := TakeOver(s, i, b, dev, block);
    if Total(s.procs, b) == 0 || Carries(s.cache.heads[b], dev, block) {
      forall j, r | 0 <= j < |s'.procs| && r in Refs(s'.procs[j]) ensures Keyed(s'.cache.heads, r) {
        if r != Ref(b, dev, block) || j != i {
          assert r in Refs(s.procs[j]);
          ReferencedIsCounted(s.procs, j, r);
          assert Keyed(s.cache.heads, r);
          assert r.b != b ==> SameButLinks(s'.cache.heads[r.b], s.cache.heads[r.b]);
        }
      }
    } else {
      var j, r := CountedIsReferenced(s.procs, b);
      assert Keyed(s.cache.heads, r);
      assert r in Refs(s'.procs[j]);
      assert !Keyed(s'.cache.heads, r);
    }
  }

  /** The step that goes wrong: a process takes over a buffer for another block although there are
      references to it, because their number is a multiple of 256. */
  ghost predicate Snatches(s: State, l: Label)
    requires Inv(s)
  {
    l.Wake? && l.i < |s.procs| && s.procs[l.i].pc.CandidateWait? &&
    var CandidateWait(b, dev, block) := s.procs[l.i].pc;
    && IsHead(s.cache.heads, b) && !s.cache.heads[b].dirt
    && Total(s.procs, b) > 0 && Total(s.procs, b) % COUNTS == 0
    && Find(s.cache, s.free, s.chains, dev, block) == NULL && !Carries(s.cache.heads[b], dev, block)
  }

  lemma ResumeKeyed(s: State, i: nat)
    requires Inv(s) && AllKeyed(s.cache.heads, s.procs) && CanResume(s, i)
    ensures var s' := Resume(s, i);
            AllKeyed(s'.cache.heads, s'.procs) <==> !Snatches(s, Wake(i))
  {
    hide Queues, Find, Lookup, Total, TakeOver;
    var p, s' := s.procs[i], Resume(s, i);
    match p.pc
    case HashWait(r, get) =>
      assert r in Refs(p);
      assert Keyed(s.cache.heads, r);
      assert forall x :: x in Refs(s'.procs[i]) ==> x in Refs(p);
      KeyedUpdate(s.cache.heads, s.procs, i, s'.procs[i], s'.cache.heads);
    case NoBuffer(dev, block) => LookupKeyed(s, i, dev, block, true);
    case CandidateWait(b, dev, block) => CandidateKeyed(s, i);
    case SyncWait(b, dev, block) =>
      KeyedUpdate(s.cache.heads, s.procs, i, s'.procs[i], s'.cache.heads);
    case ReleaseWait(r) =>
      assert forall x :: x in Refs(s'.procs[i]) ==> x in Refs(p);
      KeyedUpdate(s.cache.heads, s.procs, i, s'.procs[i], s'.cache.heads);
  }

  lemma CandidateKeyed(s: State, i: nat)
    requires Inv(s) && AllKeyed(s.cache.heads, s.procs) && CanResume(s, i) && s.procs[i].pc.CandidateWait?
    ensures var s' := Resume(s, i);
            AllKeyed(s'.cache.heads, s'.procs) <==> !Snatches(s, Wake(i))
  {
    hide Queues, Find, Lookup, Total, TakeOver, AllKeyed;
    var CandidateWait(b, dev, block) := s.procs[i].pc;
    var s' := Resume(s, i);
    assert s.cache.heads[b].count == Total(s.procs, b) % COUNTS;
    if s.cache.heads[b].count != 0 || (!s.cache.heads[b].dirt && Find(s.cache, s.free, s.chains, dev, block) != NULL) {
      LookupKeyed(s, i, dev, block, true);
    } else if s.cache.heads[b].dirt {
      KeyedUpdate(s.cache.heads, s.procs, i, s'.procs[i], s'.cache.heads);
    } else {
      TakeOverKeyed(s, i, b, dev, block);
    }
  }

  /** A step breaks the references exactly when it is one that goes wrong. */
  lemma StepKeyed(s: State, l: Label, s': State)
    requires Inv(s) && AllKeyed(s.cache.heads, s.procs) && Does(s, l, s')
    ensures AllKeyed(s'.cache.heads, s'.procs) <==> !Snatches(s, l)
  {
    hide Queues, Find, Lookup, Total, TakeOver, Resume;
    match l
    case Call(i, dev, block, get) => LookupKeyed(s, i, dev, block, get);
    case GiveBack(i, k) =>
      var p, q := s.procs[i], s'.procs[i];
      assert forall r :: r in Refs(q) ==> r in Refs(p);
      KeyedUpdate(s.cache.heads, s.procs, i, q, s'.cache.heads);
    case Device(h) =>
      forall i, r | 0 <= i < |s'.procs| && r in Refs(s'.procs[i]) ensures Keyed(h, r) {
        assert Keyed(s.cache.heads, r);
      }
    case Wake(i) => ResumeKeyed(s, i);
  }

  // ---------------------------------------------------------------- a bound that can be checked

  /** No buffer has 256 references, so that no count wraps to zero. */
  ghost predicate Fits(s: State) {
    forall b :: IsHead(s.cache.heads, b) ==> Total(s.procs, b) < COUNTS
  }

  function KeyCount(s: seq<Ref>, dev: Dev, block: BlockNr): nat {
    if s == [] then 0 else (if s[0].dev == dev && s[0].block == block then 1 else 0) + KeyCount(s[1..], dev, block)
  }

  /** One, if the process is waiting for a buffer for this block. */
  function Wants(pc: PC, dev: Dev, block: BlockNr): nat {
    match pc
    case NoBuffer(d, b) => if d == dev && b == block then 1 else 0
    case CandidateWait(_, d, b) => if d == dev && b == block then 1 else 0
    case SyncWait(_, d, b) => if d == dev && b == block then 1 else 0
    case _ => 0
  }

  /** The references to a block a process has or is about to get. */
  function Load(p: Proc, dev: Dev, block: BlockNr): nat {
    KeyCount(Refs(p), dev, block) + Wants(p.pc, dev, block)
  }

  /** What a caller looks at before the call: it holds fewer than k references to the block. */
  predicate Polite(s: State, l: Label, k: nat) {
    l.Call? && l.i < |s.procs| ==> KeyCount(s.procs[l.i].held, l.dev, l.block) < k
  }

  ghost predicate Modest(procs: seq<Proc>, k: nat) {
    forall i, dev: Dev, block: BlockNr :: 0 <= i < |procs| ==> Load(procs[i], dev, block) <= k
  }

  lemma {:induction false} KeyCountConcat(s: seq<Ref>, t: seq<Ref>, dev: Dev, block: BlockNr)
    ensures KeyCount(s + t, dev, block) == KeyCount(s, dev, block) + KeyCount(t, dev, block)
  {
    if s == [] {
      assert s + t == t;
    } else {
      assert (s + t)[1..] == s[1..] + t;
      KeyCountConcat(s[1..], t, dev, block);
    }
  }

  /** What a process has, from what it holds and from where it is. */
  lemma LoadIs(p: Proc, dev: Dev, block: BlockNr)
    ensures Load(p, dev, block)
            == KeyCount(p.held, dev, block) + Wants(p.pc, dev, block)
               + (if (p.pc.HashWait? || p.pc.ReleaseWait?) && p.pc.r.dev == dev && p.pc.r.block == block then 1 else 0)
  {
    match p.pc
    case HashWait(r, _) =>
      KeyCountConcat(p.held, [r], dev, block);
    case ReleaseWait(r) =>
      KeyCountConcat(p.held, [r], dev, block);
    case _ =>
      assert p.held + [] == p.held;
  }

  /** One more reference, for a block, than a process holds. */
  function Ask(held: seq<Ref>, dev: Dev, block: BlockNr, d: Dev, b: BlockNr): nat {
    KeyCount(held, d, b) + (if d == dev && b == block then 1 else 0)
  }

  lemma LookupLoad(s: State, i: nat, dev: Dev, block: BlockNr, get: bool, d: Dev, b: BlockNr)
    requires Inv(s) && i < |s.procs|
    ensures var s' := Lookup(s, i, dev, block, get);
            && |s'.procs| == |s.procs| && s'.procs == s.procs[i := s'.procs[i]]
            && Load(s'.procs[i], d, b) <= Ask(s.procs[i].held, dev, block, d, b)
  {
    hide Queues, Find, Pick, Inv, Load, KeyCount;
    var q := Lookup(s, i, dev, block, get).procs[i];
    LoadIs(q, d, b);
  }

  lemma AfterWaitLoad(s: State, i: nat, c: Ptr, dev: Dev, block: BlockNr, d: Dev, b: BlockNr)
    requires Inv(s) && i < |s.procs| && IsHead(s.cache.heads, c)
    requires s.procs[i].pc == CandidateWait(c, dev, block)
    ensures var s' := AfterWait(s, i, c, dev, block);
            && |s'.procs| == |s.procs| && s'.procs == s.procs[i := s'.procs[i]]
            && Load(s'.procs[i], d, b) <= Load(s.procs[i], d, b)
  {
    hide Queues, Find, Inv, Load, KeyCount, Lookup, Rekey, Removable, CanInsertAt, RekeyedChains;
    var p, s' := s.procs[i], AfterWait(s, i, c, dev, block);
    LoadIs(p, d, b);
    LookupLoad(s, i, dev, block, true, d, b);
    LoadIs(s'.procs[i], d, b);
    KeyCountConcat(p.held, [Ref(c, dev, block)], d, b);
    KeyCountOne(Ref(c, dev, block), d, b);
  }

  lemma ResumeLoad(s: State, i: nat, d: Dev, b: BlockNr)
    requires Inv(s) && CanResume(s, i)
    ensures var s' := Resume(s, i);
            && |s'.procs| == |s.procs| && s'.procs == s.procs[i := s'.procs[i]]
            && Load(s'.procs[i], d, b) <= Load(s.procs[i], d, b)
  {
    hide Queues, Find, Inv, Load, KeyCount, Lookup, AfterWait;
    var p, s' := s.procs[i], Resume(s, i);
    LoadIs(p, d, b);
    match p.pc
    case HashWait(r, get) =>
      if Carries(s.cache.heads[r.b], r.dev, r.block) {
        LoadIs(s'.procs[i], d, b);
        KeyCountConcat(p.held, [r], d, b);
        KeyCountOne(r, d, b);
      } else {
        CountedDownInv(s, i, r);
        LookupLoad(CountedDown(s, i, r), i, r.dev, r.block, get, d, b);
      }
    case NoBuffer(dev, block) => LookupLoad(s, i, dev, block, true, d, b);
    case CandidateWait(c, dev, block) =>
      AfterWaitLoad(s, i, c, dev, block, d, b);
    case SyncWait(_, _, _) => LoadIs(s'.procs[i], d, b);
    case ReleaseWait(_) => LoadIs(s'.procs[i], d, b);
  }

  lemma KeyCountOne(r: Ref, d: Dev, b: BlockNr)
    ensures KeyCount([r], d, b) == if r.dev == d && r.block == b then 1 else 0
  {
  }

  lemma ReleaseLoad(s: State, i: nat, k: nat, d: Dev, b: BlockNr)
    requires i < |s.procs| && s.procs[i].pc.Idle? && k < |s.procs[i].held|
    ensures var s' := Release(s, i, k);
            && |s'.procs| == |s.procs| && s'.procs == s.procs[i := s'.procs[i]]
            && Load(s'.procs[i], d, b) <= Load(s.procs[i], d, b)
  {
    var p, q := s.procs[i], Release(s, i, k).procs[i];
    LoadIs(p, d, b);
    LoadIs(q, d, b);
    hide KeyCount, Load;
    var x, y, z := p.held[..k], [p.held[k]], p.held[k + 1..];
    assert p.held == x + (y + z);
    KeyCountConcat(x, y + z, d, b);
    KeyCountConcat(y, z, d, b);
    KeyCountConcat(x, z, d, b);
    KeyCountOne(p.held[k], d, b);
  }

  lemma StepLoad(s: State, l: Label, s': State, k: nat, d: Dev, b: BlockNr)
    requires Inv(s) && Does(s, l, s') && Modest(s.procs, k) && Polite(s, l, k)
    ensures |s'.procs| == |s.procs|
    ensures forall j :: 0 <= j < |s.procs| ==> Load(s'.procs[j], d, b) <= k
  {
    hide Inv, Lookup, Resume, Load, KeyCount;
    match l
    case Call(i, dev, block, get) =>
      LookupLoad(s, i, dev, block, get, d, b);
      LoadIs(s.procs[i], d, b);
    case Wake(i) => ResumeLoad(s, i, d, b);
    case GiveBack(i, n) => ReleaseLoad(s, i, n, d, b);
    case Device(h) =>
  }

  /** As long as every caller looks first, no process ever has more than k references to a block. */
  lemma StepModest(s: State, l: Label, s': State, k: nat)
    requires Inv(s) && Does(s, l, s') && Modest(s.procs, k) && Polite(s, l, k)
    ensures Modest(s'.procs, k) && |s'.procs| == |s.procs|
  {
    hide Inv, Does, Load, Polite;
    StepLoad(s, l, s', k, 0, 0);
    forall j, d: Dev, b: BlockNr | 0 <= j < |s'.procs| ensures Load(s'.procs[j], d, b) <= k {
      StepLoad(s, l, s', k, d, b);
    }
  }

  lemma {:induction false} CountWithin(s: seq<Ref>, b: Ptr, dev: Dev, block: BlockNr)
    requires forall r :: r in s && r.b == b ==> r.dev == dev && r.block == block
    ensures CountIn(s, b) <= KeyCount(s, dev, block)
  {
    if s != [] {
      CountWithin(s[1..], b, dev, block);
    }
  }

  lemma {:induction false} TotalWithin(h: seq<Head>, procs: seq<Proc>, b: Ptr, k: nat)
    requires AllKeyed(h, procs) && IsHead(h, b) && Modest(procs, k)
    ensures Total(procs, b) <= |procs| * k
  {
    hide Refs;
    if procs != [] {
      var dev, block := h[b].dev, h[b].block;
      forall r | r in Refs(procs[0]) && r.b == b ensures r.dev == dev && r.block == block {
        assert Keyed(h, r);
      }
      CountWithin(Refs(procs[0]), b, dev, block);
      assert Load(procs[0], dev, block) <= k;
      forall i, r | 0 <= i < |procs[1..]| && r in Refs(procs[1..][i]) ensures Keyed(h, r) {
        assert r in Refs(procs[i + 1]);
      }
      forall i, d: Dev, x: BlockNr | 0 <= i < |procs[1..]| ensures Load(procs[1..][i], d, x) <= k {
        assert procs[1..][i] == procs[i + 1];
      }
      TotalWithin(h, procs[1..], b, k);
      assert |procs| * k == |procs[1..]| * k + k;
    }
  }

  // ---------------------------------------------------------------- runs

  ghost predicate PoliteRun(run: seq<State>, labels: seq<Label>, k: nat) {
    IsRun(run, labels) && forall m :: 0 <= m < |labels| ==> Polite(run[m], labels[m], k)
  }

  /** In a run of callers that look first, few enough of them, no count ever wraps and every
      reference leads to the block it was made for. */
  lemma {:induction false} RunKeyed(run: seq<State>, labels: seq<Label>, k: nat, n: nat)
    requires PoliteRun(run, labels, k) && |run[0].procs| * k < COUNTS && n < |run|
    ensures |run[n].procs| == |run[0].procs| && Modest(run[n].procs, k)
    ensures Fits(run[n]) && AllKeyed(run[n].cache.heads, run[n].procs)
  {
    hide Inv, Does, Modest, AllKeyed, Total, Queues;
    if n == 0 {
      StartedIsSafe(run[0], k);
    } else {
      RunKeyed(run, labels, k, n - 1);
      RunInv(run, labels, n - 1);
      assert StepAt(run, labels, n - 1) && Polite(run[n - 1], labels[n - 1], k);
      StepModest(run[n - 1], labels[n - 1], run[n], k);
      StepKeyed(run[n - 1], labels[n - 1], run[n]);
      FitsNeverSnatches(run[n - 1], labels[n - 1]);
    }
    ModestFits(run[n], k);
  }

  lemma StartedIsSafe(s: State, k: nat)
    requires Started(s)
    ensures Modest(s.procs, k) && AllKeyed(s.cache.heads, s.procs)
  {
    hide Queues;
    StartedInv(s);
    forall i, d: Dev, b: BlockNr | 0 <= i < |s.procs| ensures Load(s.procs[i], d, b) <= k {
      LoadIs(s.procs[i], d, b);
    }
  }

  lemma ModestFits(s: State, k: nat)
    requires AllKeyed(s.cache.heads, s.procs) && Modest(s.procs, k) && |s.procs| * k < COUNTS
    ensures Fits(s)
  {
    hide AllKeyed, Modest, Total;
    forall b | IsHead(s.cache.heads, b) ensures Total(s.procs, b) < COUNTS {
      TotalWithin(s.cache.heads, s.procs, b, k);
    }
  }

  lemma FitsNeverSnatches(s: State, l: Label)
    requires Inv(s) && Fits(s)
    ensures !Snatches(s, l)
  {
    hide Inv, Find, Total;
  }

  /** What this means for the processes: references to one block of a device are references to
      one buffer, the re-check after waiting for the lock never fails, and brelse never finds a
      count of zero. With the 64 tasks there are, three references to a block for each task are
      few enough. */
  lemma RunSafe(run: seq<State>, labels: seq<Label>, k: nat, n: nat, i: nat, j: nat, r: Ref, t: Ref)
    requires PoliteRun(run, labels, k) && |run[0].procs| * k < COUNTS && n < |run|
    requires i < |run[n].procs| && j < |run[n].procs|
    requires r in Refs(run[n].procs[i]) && t in Refs(run[n].procs[j])
    ensures IsHead(run[n].cache.heads, r.b) && Carries(run[n].cache.heads[r.b], r.dev, r.block)
    ensures r.dev == t.dev && r.block == t.block && r.dev != 0 ==> r.b == t.b
    ensures run[n].cache.heads[r.b].count != 0
  {
    hide Queues, Total, Modest;
    RunInv(run, labels, n);
    RunKeyed(run, labels, k, n);
    assert Keyed(run[n].cache.heads, r) && Keyed(run[n].cache.heads, t);
    ReferencedIsCounted(run[n].procs, i, r);
  }

  // ---------------------------------------------------------------- a run that goes wrong

  /** Two buffers after buffer_init, and one process. */
  function TwoBuffers(): State {
    var h := [Head(0, 0, 0, false, false, false, NULL, NULL, 1, 1),
              Head(0, 0, 0, false, false, false, NULL, NULL, 0, 0)];
    State(Cache(h, seq(NR_HASH, _ => NULL), 0), [0, 1], seq(NR_HASH, _ => []), [Proc(Idle, [])])
  }

  lemma TwoBuffersStart()
    ensures IsRun([TwoBuffers()], [])
  {
    var s := TwoBuffers();
    var h, chains := s.cache.heads, s.chains;
    assert Ring(h, 0, [0, 1]);
    TwoUnhashed(h, s.cache.table, chains);
    hide Ring, Buckets, Members;
    assert AllOn(h, [0, 1], NULL) by {
      assert [0, 1][0] == 0 && [0, 1][1] == 1;
    }
    assert Queues(s.cache, s.free, chains, NULL);
    hide Queues, Inv, Does;
    assert Started(s);
    assert IsRun([s], []);
  }

  lemma TwoUnhashed(h: seq<Head>, table: seq<Ptr>, chains: seq<seq<Ptr>>)
    requires forall b :: IsHead(h, b) ==> h[b].dev == 0 && h[b].next == NULL && h[b].prev == NULL
    requires |table| == NR_HASH && forall k :: 0 <= k < NR_HASH ==> table[k] == NULL
    requires |chains| == NR_HASH && forall k :: 0 <= k < NR_HASH ==> chains[k] == []
    ensures Buckets(h, table, chains) && Members(h, chains, NULL)
  {
    forall k, b | 0 <= k < NR_HASH ensures b !in chains[k] {
      assert chains[k] == [];
    }
  }

  lemma Longer(run: seq<State>, labels: seq<Label>, l: Label, s: State)
    requires IsRun(run, labels) && Inv(run[|labels|]) && Does(run[|labels|], l, s)
    ensures IsRun(run + [s], labels + [l])
  {
    hide Inv, Does, Started;
    var run', labels' := run + [s], labels + [l];
    forall i | 0 <= i < |labels'| ensures StepAt(run', labels', i) {
      if i < |labels| {
        assert StepAt(run, labels, i);
        assert run'[i] == run[i] && run'[i + 1] == run[i + 1] && labels'[i] == labels[i];
      }
    }
  }

  /** One process that waits for nothing, and two buffers that nobody writes to. */
  ghost predicate Calm(s: State) {
    && Inv(s) && |s.procs| == 1 && s.procs[0].pc.Idle? && |s.cache.heads| == 2
    && forall b :: IsHead(s.cache.heads, b) ==> !s.cache.heads[b].lock && !s.cache.heads[b].dirt
  }

  /** Getting a block that is cached: one more reference to its buffer. */
  lemma GetCached(s: State, r: Ref) returns (s1: State, s2: State)
    requires Calm(s) && r.dev != 0 && Keyed(s.cache.heads, r)
    ensures Does(s, Call(0, r.dev, r.block, true), s1) && Inv(s1) && Does(s1, Wake(0), s2)
    ensures Calm(s2) && s2.procs[0].held == s.procs[0].held + [r]
    ensures forall b :: IsHead(s.cache.heads, b) ==> SameKey(s2.cache.heads[b], s.cache.heads[b])
  {
    hide Queues, Total, Find, Pick;
    FindCorrect(s.cache, s.free, s.chains, r.dev, r.block);
    s1 := Lookup(s, 0, r.dev, r.block, true);
    StepInv(s, Call(0, r.dev, r.block, true), s1);
    s2 := Resume(s1, 0);
    StepInv(s1, Wake(0), s2);
  }

  ghost predicate Uncached(h: seq<Head>, dev: Dev, block: BlockNr) {
    forall b :: IsHead(h, b) ==> !Carries(h[b], dev, block)
  }

  /** Asking for a block that is not cached: an unused buffer is chosen. */
  lemma Choose(s: State, dev: Dev, block: BlockNr, b: Ptr) returns (s1: State, v: Ptr)
    requires Calm(s) && dev != 0 && Uncached(s.cache.heads, dev, block)
    requires IsHead(s.cache.heads, b) && s.cache.heads[b].count == 0
    ensures Does(s, Call(0, dev, block, true), s1) && Inv(s1)
    ensures IsHead(s.cache.heads, v) && s.cache.heads[v].count == 0
    ensures s1 == AtPC(s, 0, CandidateWait(v, dev, block))
  {
    hide Total, Find, Pick, Ring, Buckets, Members;
    FindCorrect(s.cache, s.free, s.chains, dev, block);
    RingFacts(s.cache.heads, s.cache.freeList, s.free);
    v := Pick(s.cache.heads, s.free, NULL);
    PickCorrect(s.cache.heads, s.free, NULL);
    PickOnList(s.cache, s.free, s.chains);
    assert b in s.free;
    hide Queues, AllOn;
    s1 := Lookup(s, 0, dev, block, true);
    StepInv(s, Call(0, dev, block, true), s1);
  }

  /** The chosen buffer is taken over at once: nobody else runs. */
  lemma Take(s: State, dev: Dev, block: BlockNr, v: Ptr) returns (s2: State)
    requires Inv(s) && |s.procs| == 1 && |s.cache.heads| == 2 && dev != 0 && Uncached(s.cache.heads, dev, block)
    requires s.procs[0].pc == CandidateWait(v, dev, block) && IsHead(s.cache.heads, v) && s.cache.heads[v].count == 0
    requires forall b :: IsHead(s.cache.heads, b) ==> !s.cache.heads[b].lock && !s.cache.heads[b].dirt
    ensures Does(s, Wake(0), s2) && Calm(s2) && s2.procs[0].held == s.procs[0].held + [Ref(v, dev, block)]
    ensures Carries(s2.cache.heads[v], dev, block) && s2.cache.heads[v].count == 1
    ensures forall b :: IsHead(s.cache.heads, b) && b != v ==> SameButLinks(s2.cache.heads[b], s.cache.heads[b])
  {
    hide Total, Find, Rekey, Removable, CanInsertAt, RekeyedChains, Queues, Lookup, Unique, Counted, AllSane;
    FindCorrect(s.cache, s.free, s.chains, dev, block);
    RekeyQueues(s.cache, s.free, s.chains, v, dev, block);
    s2 := Resume(s, 0);
    StepInv(s, Wake(0), s2);
  }

  /** The process holds k references to b, all for one block, and the other buffer is unused. */
  ghost predicate Hoards(s: State, r: Ref, k: nat) {
    && Calm(s) && Keyed(s.cache.heads, r)
    && |s.procs[0].held| == k && (forall i :: 0 <= i < k ==> s.procs[0].held[i] == r)
    && forall b :: IsHead(s.cache.heads, b) && b != r.b ==> s.cache.heads[b].dev == 0
  }

  /** A run from two buffers and one process to a state. */
  ghost predicate Ends(run: seq<State>, labels: seq<Label>, s: State) {
    IsRun(run, labels) && run[0] == TwoBuffers() && run[|labels|] == s
  }

  lemma Two(run: seq<State>, labels: seq<Label>, s: State, l: Label, s1: State, s2: State)
      returns (run': seq<State>, labels': seq<Label>)
    requires Ends(run, labels, s) && Inv(s) && Does(s, l, s1) && Inv(s1) && Does(s1, Wake(0), s2)
    ensures Ends(run', labels', s2)
  {
    hide Inv, Does;
    Longer(run, labels, l, s1);
    Longer(run + [s1], labels + [l], Wake(0), s2);
    run', labels' := run + [s1] + [s2], labels + [l] + [Wake(0)];
  }

  lemma {:induction false} Hoard(k: nat) returns (run: seq<State>, labels: seq<Label>, s: State, r: Ref)
    requires k > 0
    ensures Ends(run, labels, s) && Hoards(s, r, k) && r.dev == 1 && r.block == 0
  {
    hide Queues, Does, Inv;
    if k == 1 {
      var s0 := TwoBuffers();
      TwoBuffersStart();
      StartedInv(s0);
      var s1, v := Choose(s0, 1, 0, 0);
      var s2 := Take(s1, 1, 0, v);
      run, labels := Two([s0], [], s0, Call(0, 1, 0, true), s1, s2);
      s, r := s2, Ref(v, 1, 0);
    } else {
      var s0;
      run, labels, s0, r := Hoard(k - 1);
      var s1, s2 := GetCached(s0, r);
      run, labels := Two(run, labels, s0, Call(0, 1, 0, true), s1, s2);
      s := s2;
    }
  }

  lemma {:induction false} CountAll(s: seq<Ref>, r: Ref)
    requires forall i :: 0 <= i < |s| ==> s[i] == r
    ensures CountIn(s, r.b) == |s|
  {
    if s != [] {
      CountAll(s[1..], r);
    }
  }

  /** With as many references as a count can tell from none, the buffer counts as unused. */
  lemma HoardedLooksUnused(s: State, r: Ref)
    requires Hoards(s, r, COUNTS)
    ensures s.cache.heads[r.b].count == 0
  {
    hide Queues;
    CountAll(s.procs[0].held, r);
    assert Refs(s.procs[0]) == s.procs[0].held;
    assert Total(s.procs, r.b) == CountIn(Refs(s.procs[0]), r.b) + Total(s.procs[1..], r.b);
  }

  lemma Lost(s: State, r: Ref)
    requires |s.procs| == 1 && s.procs[0].pc.Idle? && r in s.procs[0].held && !Keyed(s.cache.heads, r)
    ensures !AllKeyed(s.cache.heads, s.procs)
  {
    assert r in Refs(s.procs[0]);
  }

  /** A run in which references are lost: one process takes 256 references to a block, and asking
      for one or two others takes the buffer away from under them. */
  lemma SomeRunSnatches() returns (run: seq<State>, labels: seq<Label>)
    ensures IsRun(run, labels) && run[0] == TwoBuffers()
    ensures !AllKeyed(run[|labels|].cache.heads, run[|labels|].procs)
  {
    hide Inv, Does, IsRun, TwoBuffers, AllKeyed;
    var s, r;
    run, labels, s, r := Hoard(COUNTS);
    HoardedLooksUnused(s, r);
    var s1, v := Choose(s, 1, 1, r.b);
    var s2 := Take(s1, 1, 1, v);
    run, labels := Two(run, labels, s, Call(0, 1, 1, true), s1, s2);
    assert s.procs[0].held[0] == r && s2.procs[0].held[0] == r;
    if v != r.b {
      var s3, x := Choose(s2, 1, 2, r.b);
      var s4 := Take(s3, 1, 2, x);
      run, labels := Two(run, labels, s2, Call(0, 1, 2, true), s3, s4);
      assert s4.procs[0].held[0] == r;
      Lost(s4, r);
    } else {
      Lost(s2, r);
    }
  }
}
