/**
 Descriptors, the file table and process numbers of Linux 0.11. A system call that may sleep in
 the middle is split at that point: between its two halves other tasks make their own calls.
 */
module LinuxFiles {
  import Common

  const NR_OPEN := 20
  const NR_FILE := 64
  const NR_TASKS := 64
  const NULL := -1
  const COUNTS := 0x10000        // f_count is an unsigned short
  const MAX_PID := 0x7fff_ffff

  const EBADF := 9
  const EINVAL := 22
  const EMFILE := 24
  const EAGAIN := 11

  /** `filp[fd]` is an index into the file table, or NULL. */
  datatype Task = Task(pid: int, father: int, filp: seq<int>)

  datatype Slot = Free | Used(task: Task)

  predicate FilpOk(filp: seq<int>) {
    |filp| == NR_OPEN && forall fd :: 0 <= fd < NR_OPEN ==> NULL <= filp[fd] < NR_FILE
  }

  predicate TasksOk(tasks: seq<Slot>) {
    |tasks| == NR_TASKS && forall t :: 0 <= t < NR_TASKS && tasks[t].Used? ==> FilpOk(tasks[t].task.filp)
  }

  // ---------------------------------------------------------------- counting

  function CountIn(filp: seq<int>, f: int): nat {
    if filp == [] then 0 else (if filp[0] == f then 1 else 0) + CountIn(filp[1..], f)
  }

  function InSlot(s: Slot, f: int): nat {
    if s.Free? then 0 else CountIn(s.task.filp, f)
  }

  /** How many descriptors of all tasks lead to entry `f` of the file table. */
  function Refs(tasks: seq<Slot>, f: int): nat {
    if tasks == [] then 0 else InSlot(tasks[0], f) + Refs(tasks[1..], f)
  }

  lemma {:induction false} CountUpdate(filp: seq<int>, fd: nat, g: int, f: int)
    requires fd < |filp|
    ensures CountIn(filp[fd := g], f)
            == CountIn(filp, f) - (if filp[fd] == f then 1 else 0) + (if g == f then 1 else 0)
    ensures filp[fd] == f ==> CountIn(filp, f) > 0
  {
    if fd == 0 {
      assert filp[0 := g] == [g] + filp[1..];
    } else {
      assert filp[fd := g][1..] == filp[1..][fd - 1 := g];
      CountUpdate(filp[1..], fd - 1, g, f);
    }
  }

  lemma {:induction false} RefsUpdate(tasks: seq<Slot>, t: nat, s: Slot, f: int)
    requires t < |tasks|
    ensures Refs(tasks[t := s], f) == Refs(tasks, f) - InSlot(tasks[t], f) + InSlot(s, f)
    ensures InSlot(tasks[t], f) <= Refs(tasks, f)
  {
    if t == 0 {
      assert tasks[0 := s] == [s] + tasks[1..];
    } else {
      assert tasks[t := s][1..] == tasks[1..][t - 1 := s];
      RefsUpdate(tasks[1..], t - 1, s, f);
    }
  }

  lemma {:induction false} CountBound(filp: seq<int>, f: int)
    ensures CountIn(filp, f) <= |filp|
  {
    if filp != [] { CountBound(filp[1..], f); }
  }

  /** All descriptors together are far fewer than a count can hold. */
  lemma {:induction false} RefsBound(tasks: seq<Slot>, f: int)
    requires forall t :: 0 <= t < |tasks| && tasks[t].Used? ==> FilpOk(tasks[t].task.filp)
    ensures Refs(tasks, f) <= NR_OPEN * |tasks|
  {
    if tasks != [] {
      if tasks[0].Used? { CountBound(tasks[0].task.filp, f); }
      RefsBound(tasks[1..], f);
    }
  }

  /** One descriptor of one task changed. */
  function WithFd(tasks: seq<Slot>, t: nat, fd: nat, g: int): seq<Slot>
    requires t < |tasks| && tasks[t].Used? && fd < |tasks[t].task.filp|
  {
    tasks[t := Used(tasks[t].task.(filp := tasks[t].task.filp[fd := g]))]
  }

  lemma SameFd(tasks: seq<Slot>, t: nat, fd: nat)
    requires t < |tasks| && tasks[t].Used? && fd < |tasks[t].task.filp|
    ensures WithFd(tasks, t, fd, tasks[t].task.filp[fd]) == tasks
    ensures forall g, h :: WithFd(tasks, t, fd, g)[t].task.filp[fd] == g
                           && WithFd(WithFd(tasks, t, fd, g), t, fd, h) == WithFd(tasks, t, fd, h)
  {
    assert tasks[t].task.filp[fd := tasks[t].task.filp[fd]] == tasks[t].task.filp;
    forall g, h ensures WithFd(WithFd(tasks, t, fd, g), t, fd, h) == WithFd(tasks, t, fd, h) {
      assert tasks[t].task.filp[fd := g][fd := h] == tasks[t].task.filp[fd := h];
    }
  }

  lemma RefsWithFd(tasks: seq<Slot>, t: nat, fd: nat, g: int, f: int)
    requires t < |tasks| && tasks[t].Used? && fd < |tasks[t].task.filp|
    ensures var was := tasks[t].task.filp[fd];
            Refs(WithFd(tasks, t, fd, g), f)
            == Refs(tasks, f) - (if was == f then 1 else 0) + (if g == f then 1 else 0)
    ensures tasks[t].task.filp[fd] == f ==> Refs(tasks, f) > 0
  {
    CountUpdate(tasks[t].task.filp, fd, g, f);
    RefsUpdate(tasks, t, WithFd(tasks, t, fd, g)[t], f);
  }

  // ---------------------------------------------------------------- inodes held by the file table

  /** An entry that is in use and whose inode is set. */
  predicate Holds(counts: seq<nat>, inodes: seq<nat>, reserved: set<int>, f: nat, x: nat)
    requires f < |counts| && |inodes| == |counts|
  {
    counts[f] != 0 && f !in reserved && inodes[f] == x
  }

  /** How many entries below `n` hold inode `x`. */
  function Holders(counts: seq<nat>, inodes: seq<nat>, reserved: set<int>, x: nat, n: nat): nat
    requires n <= |counts| && |inodes| == |counts|
  {
    if n == 0 then 0
    else (if Holds(counts, inodes, reserved, n - 1, x) then 1 else 0) + Holders(counts, inodes, reserved, x, n - 1)
  }

  /** Changing one entry. */
  lemma {:induction false} HoldersUpdate(counts: seq<nat>, inodes: seq<nat>, reserved: set<int>,
                                         counts': seq<nat>, inodes': seq<nat>, reserved': set<int>,
                                         f: nat, x: nat, n: nat)
    requires |inodes| == |counts| == |inodes'| == |counts'| && n <= |counts| && f < |counts|
    requires forall g: nat :: g < |counts| && g != f ==>
      (Holds(counts', inodes', reserved', g, x) <==> Holds(counts, inodes, reserved, g, x))
    ensures Holders(counts', inodes', reserved', x, n)
            == Holders(counts, inodes, reserved, x, n)
               - (if f < n && Holds(counts, inodes, reserved, f, x) then 1 else 0)
               + (if f < n && Holds(counts', inodes', reserved', f, x) then 1 else 0)
  {
    if n > 0 {
      HoldersUpdate(counts, inodes, reserved, counts', inodes', reserved', f, x, n - 1);
    }
  }

  lemma {:induction false} HolderCounts(counts: seq<nat>, inodes: seq<nat>, reserved: set<int>, f: nat, x: nat, n: nat)
    requires n <= |counts| && |inodes| == |counts| && f < n && Holds(counts, inodes, reserved, f, x)
    ensures Holders(counts, inodes, reserved, x, n) > 0
  {
    if f < n - 1 {
      HolderCounts(counts, inodes, reserved, f, x, n - 1);
    }
  }

  function HeldIn(m: map<nat, int>, x: nat): int {
    if x in m then m[x] else 0
  }

  function Decrease(m: map<nat, int>, x: nat): map<nat, int> {
    m[x := HeldIn(m, x) - 1]
  }

  function Increase(m: map<nat, int>, x: nat): map<nat, int> {
    m[x := HeldIn(m, x) + 1]
  }

  // ---------------------------------------------------------------- the kernel's tables

  /** Where an entry is reserved for a call that sleeps: open in open_namei, or pipe in
      get_pipe_inode. */
  datatype Place = Place(t: nat, fd: nat)

  predicate Busy(pending: map<int, Place>, t: nat) {
    exists f :: f in pending && pending[f].t == t
  }

  /** The descriptor counts are exact, and the file table holds one reference to an inode for
      every entry in use whose inode is set; `held` counts what open and pipe were given and iput
      has not taken back. */
  ghost predicate Consistent(tasks: seq<Slot>, counts: seq<nat>, inodes: seq<nat>, held: map<nat, int>,
                             pending: map<int, Place>)
  {
    && TasksOk(tasks) && |counts| == |inodes| == NR_FILE
    && (forall f: nat :: f < NR_FILE ==> counts[f] == Refs(tasks, f))
    && (forall x: nat :: HeldIn(held, x) == Holders(counts, inodes, pending.Keys, x, NR_FILE))
    && (forall f :: f in pending ==> 0 <= f < NR_FILE && counts[f] == 1 && At(tasks, pending[f], f))
  }

  ghost predicate At(tasks: seq<Slot>, p: Place, f: int)
    requires TasksOk(tasks)
  {
    p.t < NR_TASKS && tasks[p.t].Used? && p.fd < NR_OPEN && tasks[p.t].task.filp[p.fd] == f
  }

  lemma OtherSlot(tasks: seq<Slot>, p: Place, q: Place, g: int)
    requires TasksOk(tasks) && At(tasks, p, g) && At(tasks, q, g) && p != q && g != NULL
    ensures Refs(tasks, g) >= 2
  {
    RefsWithFd(tasks, p.t, p.fd, NULL, g);
    var rest := WithFd(tasks, p.t, p.fd, NULL);
    assert rest[q.t].task.filp[q.fd] == g;
    RefsWithFd(rest, q.t, q.fd, NULL, g);
  }

  /** What a task not in the middle of a call has open is not reserved by anybody. */
  lemma NotReserved(tasks: seq<Slot>, counts: seq<nat>, inodes: seq<nat>, held: map<nat, int>,
                    pending: map<int, Place>, t: nat, fd: nat)
    requires Consistent(tasks, counts, inodes, held, pending)
    requires t < NR_TASKS && tasks[t].Used? && !Busy(pending, t) && fd < NR_OPEN && tasks[t].task.filp[fd] != NULL
    ensures var g := tasks[t].task.filp[fd];
            0 <= g < NR_FILE && 0 < counts[g] <= NR_OPEN * NR_TASKS && g !in pending
  {
    hide Holders, Refs, CountIn;
    var g: nat := tasks[t].task.filp[fd];
    RefsWithFd(tasks, t, fd, NULL, g);
    RefsBound(tasks, g);
    if g in pending {
      OtherSlot(tasks, Place(t, fd), pending[g], g);
    }
  }

  /** Changing a descriptor that is not reserved. */
  lemma PlacesKept(tasks: seq<Slot>, t: nat, fd: nat, g: int, pending: map<int, Place>)
    requires TasksOk(tasks) && t < NR_TASKS && tasks[t].Used? && fd < NR_OPEN && NULL <= g < NR_FILE
    requires tasks[t].task.filp[fd] !in pending
    requires forall f :: f in pending ==> At(tasks, pending[f], f)
    ensures TasksOk(WithFd(tasks, t, fd, g))
    ensures forall f :: f in pending ==> At(WithFd(tasks, t, fd, g), pending[f], f)
  {
  }

  /** One more descriptor for an entry that is in use. */
  lemma Shared(tasks: seq<Slot>, counts: seq<nat>, inodes: seq<nat>, held: map<nat, int>,
               pending: map<int, Place>, t: nat, fd: nat, g: nat)
    requires Consistent(tasks, counts, inodes, held, pending)
    requires t < NR_TASKS && tasks[t].Used? && fd < NR_OPEN && tasks[t].task.filp[fd] == NULL
    requires g < NR_FILE && counts[g] > 0 && g !in pending
    ensures counts[g] + 1 < COUNTS
    ensures Consistent(WithFd(tasks, t, fd, g), counts[g := counts[g] + 1], inodes, held, pending)
  {
    hide Refs, CountIn;
    var tasks', counts' := WithFd(tasks, t, fd, g), counts[g := counts[g] + 1];
    PlacesKept(tasks, t, fd, g, pending);
    RefsBound(tasks, g);
    forall f: nat | f < NR_FILE ensures counts'[f] == Refs(tasks', f) {
      RefsWithFd(tasks, t, fd, g, f);
    }
    forall x: nat ensures HeldIn(held, x) == Holders(counts', inodes, pending.Keys, x, NR_FILE) {
      HoldersUpdate(counts, inodes, pending.Keys, counts', inodes, pending.Keys, g, x, NR_FILE);
    }
  }

  /** close: the entry's inode is given back by the last descriptor, and was held until then. */
  lemma Closed(tasks: seq<Slot>, counts: seq<nat>, inodes: seq<nat>, held: map<nat, int>,
               pending: map<int, Place>, t: nat, fd: nat)
    requires Consistent(tasks, counts, inodes, held, pending)
    requires t < NR_TASKS && tasks[t].Used? && !Busy(pending, t) && fd < NR_OPEN && tasks[t].task.filp[fd] != NULL
    ensures var g := tasks[t].task.filp[fd];
            && 0 <= g < NR_FILE && counts[g] > 0
            && (counts[g] == 1 ==> HeldIn(held, inodes[g]) > 0)
            && Consistent(WithFd(tasks, t, fd, NULL), counts[g := counts[g] - 1], inodes,
                          if counts[g] == 1 then Decrease(held, inodes[g]) else held, pending)
  {
    hide Refs, CountIn;
    var g: nat := tasks[t].task.filp[fd];
    NotReserved(tasks, counts, inodes, held, pending, t, fd);
    var tasks', counts' := WithFd(tasks, t, fd, NULL), counts[g := counts[g] - 1];
    PlacesKept(tasks, t, fd, NULL, pending);
    forall f: nat | f < NR_FILE ensures counts'[f] == Refs(tasks', f) {
      RefsWithFd(tasks, t, fd, NULL, f);
    }
    HolderCounts(counts, inodes, pending.Keys, g, inodes[g], NR_FILE);
    var held' := if counts[g] == 1 then Decrease(held, inodes[g]) else held;
    forall x: nat ensures HeldIn(held', x) == Holders(counts', inodes, pending.Keys, x, NR_FILE) {
      HoldersUpdate(counts, inodes, pending.Keys, counts', inodes, pending.Keys, g, x, NR_FILE);
    }
  }

  /** The first half of open: a free entry and a free descriptor are taken. */
  lemma Reserved(tasks: seq<Slot>, counts: seq<nat>, inodes: seq<nat>, held: map<nat, int>,
                 pending: map<int, Place>, t: nat, fd: nat, f: nat)
    requires Consistent(tasks, counts, inodes, held, pending)
    requires t < NR_TASKS && tasks[t].Used? && fd < NR_OPEN && tasks[t].task.filp[fd] == NULL
    requires f < NR_FILE && counts[f] == 0
    ensures Consistent(WithFd(tasks, t, fd, f), counts[f := 1], inodes, held, pending[f := Place(t, fd)])
  {
    hide Refs, CountIn;
    var tasks', counts' := WithFd(tasks, t, fd, f), counts[f := 1];
    var pending' := pending[f := Place(t, fd)];
    PlacesKept(tasks, t, fd, f, pending);
    forall g: nat | g < NR_FILE ensures counts'[g] == Refs(tasks', g) {
      RefsWithFd(tasks, t, fd, f, g);
    }
    forall x: nat ensures HeldIn(held, x) == Holders(counts', inodes, pending'.Keys, x, NR_FILE) {
      HoldersUpdate(counts, inodes, pending.Keys, counts', inodes, pending'.Keys, f, x, NR_FILE);
    }
  }

  /** The second half, when it fails: entry and descriptor are free again. */
  lemma Unreserved(tasks: seq<Slot>, counts: seq<nat>, inodes: seq<nat>, held: map<nat, int>,
                   pending: map<int, Place>, f: nat)
    requires Consistent(tasks, counts, inodes, held, pending) && f in pending
    ensures var Place(t, fd) := pending[f];
            && At(tasks, pending[f], f) && |tasks[t].task.filp| == NR_OPEN && f < NR_FILE
            && Consistent(WithFd(tasks, t, fd, NULL), counts[f := 0], inodes, held, pending - {f})
  {
    hide Refs, CountIn;
    var Place(t, fd) := pending[f];
    var tasks', counts', pending' := WithFd(tasks, t, fd, NULL), counts[f := 0], pending - {f};
    PlacesKept(tasks, t, fd, NULL, pending');
    forall g: nat | g < NR_FILE ensures counts'[g] == Refs(tasks', g) {
      RefsWithFd(tasks, t, fd, NULL, g);
    }
    forall x: nat ensures HeldIn(held, x) == Holders(counts', inodes, pending'.Keys, x, NR_FILE) {
      HoldersUpdate(counts, inodes, pending.Keys, counts', inodes, pending'.Keys, f, x, NR_FILE);
    }
  }

  /** The second half, when it succeeds: the entry now holds the inode it was given. */
  lemma Opened(tasks: seq<Slot>, counts: seq<nat>, inodes: seq<nat>, held: map<nat, int>,
               pending: map<int, Place>, f: nat, x: nat)
    requires Consistent(tasks, counts, inodes, held, pending) && f in pending
    ensures f < NR_FILE && counts[f] == 1
    ensures Consistent(tasks, counts, inodes[f := x], Increase(held, x), pending - {f})
  {
    hide Refs, CountIn;
    var pending' := pending - {f};
    forall y: nat ensures HeldIn(Increase(held, x), y) == Holders(counts, inodes[f := x], pending'.Keys, y, NR_FILE) {
      HoldersUpdate(counts, inodes, pending.Keys, counts, inodes[f := x], pending'.Keys, f, y, NR_FILE);
    }
  }

  /** An entry nobody refers to is not in any descriptor, so that it may be used again; and the
      close that makes a count zero was the last. */
  lemma Unreferenced(tasks: seq<Slot>, f: int, t: nat, fd: nat)
    requires TasksOk(tasks) && Refs(tasks, f) == 0 && f != NULL
    requires t < NR_TASKS && tasks[t].Used? && fd < NR_OPEN
    ensures tasks[t].task.filp[fd] != f
  {
    RefsWithFd(tasks, t, fd, NULL, f);
  }

  ghost predicate PidsUnique(tasks: seq<Slot>) {
    forall t, u :: 0 <= t < u < |tasks| && tasks[t].Used? && tasks[u].Used? ==> tasks[t].task.pid != tasks[u].task.pid
  }

  /** The tables after fork: the child's descriptors lead where the parent's do. */
  lemma Forked(tasks: seq<Slot>, counts: seq<nat>, inodes: seq<nat>, held: map<nat, int>,
               pending: map<int, Place>, t: nat, nr: nat, child: Task, counts': seq<nat>)
    requires Consistent(tasks, counts, inodes, held, pending)
    requires t < NR_TASKS && tasks[t].Used? && !Busy(pending, t) && child.filp == tasks[t].task.filp
    requires nr < NR_TASKS && tasks[nr].Free? && |counts'| == NR_FILE
    requires forall f: nat :: f < NR_FILE ==> counts'[f] == counts[f] + CountIn(child.filp, f)
    ensures Consistent(tasks[nr := Used(child)], counts', inodes, held, pending)
  {
    hide Refs, CountIn;
    var tasks' := tasks[nr := Used(child)];
    forall f: nat | f < NR_FILE
      ensures counts'[f] == Refs(tasks', f)
      ensures counts'[f] == 0 <==> counts[f] == 0
      ensures f in pending ==> counts'[f] == counts[f]
    {
      RefsUpdate(tasks, nr, Used(child), f);
      RefsUpdate(tasks, t, tasks[t], f);
      if f in pending && CountIn(child.filp, f) > 0 {
        var fd := Occurs(child.filp, f);
        NotReserved(tasks, counts, inodes, held, pending, t, fd);
      }
    }
    forall x: nat
      ensures Holders(counts', inodes, pending.Keys, x, NR_FILE)
           == Holders(counts, inodes, pending.Keys, x, NR_FILE)
    {
      SameHolders(counts, counts', inodes, pending.Keys, x, NR_FILE);
    }
  }

  lemma {:induction false} Occurs(filp: seq<int>, f: int) returns (fd: nat)
    requires CountIn(filp, f) > 0
    ensures fd < |filp| && filp[fd] == f
  {
    if filp[0] == f {
      fd := 0;
    } else {
      fd := Occurs(filp[1..], f);
      fd := fd + 1;
    }
  }

  lemma {:induction false} SameHolders(counts: seq<nat>, counts': seq<nat>, inodes: seq<nat>, reserved: set<int>,
                                       x: nat, n: nat)
    requires |counts| == |counts'| == |inodes| && n <= |counts|
    requires forall f: nat :: f < |counts| ==> (counts'[f] == 0 <==> counts[f] == 0)
    ensures Holders(counts', inodes, reserved, x, n) == Holders(counts, inodes, reserved, x, n)
  {
    if n > 0 {
      SameHolders(counts, counts', inodes, reserved, x, n - 1);
    }
  }

  lemma {:induction false} AllNull(filp: seq<int>, f: int)
    requires f != NULL && forall fd :: 0 <= fd < |filp| ==> filp[fd] == NULL
    ensures CountIn(filp, f) == 0
  {
    if filp != [] { AllNull(filp[1..], f); }
  }

  /** A task with nothing open leaves. */
  lemma Released(tasks: seq<Slot>, counts: seq<nat>, inodes: seq<nat>, held: map<nat, int>,
                 pending: map<int, Place>, t: nat)
    requires Consistent(tasks, counts, inodes, held, pending)
    requires t < NR_TASKS && tasks[t].Used? && forall fd :: 0 <= fd < NR_OPEN ==> tasks[t].task.filp[fd] == NULL
    ensures Consistent(tasks[t := Free], counts, inodes, held, pending)
  {
    hide Refs, CountIn;
    forall f: nat | f < NR_FILE ensures Refs(tasks[t := Free], f) == Refs(tasks, f) {
      RefsUpdate(tasks, t, Free, f);
      AllNull(tasks[t].task.filp, f);
    }
  }

  // ---------------------------------------------------------------- process numbers

  function NextPid(p: int): int {
    if p >= MAX_PID then 1 else p + 1
  }

  /** The k-th number tried, counting from the last one given out. */
  function Tried(last: int, k: nat): int {
    (last + k - 1) % MAX_PID + 1
  }

  lemma TriedNext(last: int, k: nat)
    requires 0 <= last <= MAX_PID
    ensures NextPid(if k == 0 then last else Tried(last, k)) == Tried(last, k + 1)
  {
    if k > 0 {
      var m := last + k - 1;
      assert (m + 1) % MAX_PID == if m % MAX_PID == MAX_PID - 1 then 0 else m % MAX_PID + 1;
    }
  }

  lemma TriedDiffer(last: int, j: nat, k: nat)
    requires 1 <= j < k <= 100
    ensures Tried(last, j) != Tried(last, k)
  {
  }

  ghost function PidsIn(tasks: seq<Slot>): set<int> {
    set t | 0 <= t < |tasks| && tasks[t].Used? :: tasks[t].task.pid
  }

  lemma {:induction false} FewPids(tasks: seq<Slot>)
    ensures |PidsIn(tasks)| <= |tasks|
  {
    if tasks == [] {
      assert PidsIn(tasks) == {};
    } else {
      var n := |tasks| - 1;
      FewPids(tasks[..n]);
      assert PidsIn(tasks) == PidsIn(tasks[..n]) + (if tasks[n].Used? then {tasks[n].task.pid} else {});
    }
  }

  // ---------------------------------------------------------------- the calls

  function Booted(): (tasks: seq<Slot>)
    ensures TasksOk(tasks) && tasks[0].Used? && tasks[0].task.pid == 0
    ensures forall t :: 0 < t < NR_TASKS ==> tasks[t] == Free
    ensures forall fd :: 0 <= fd < NR_OPEN ==> tasks[0].task.filp[fd] == NULL
  {
    [Used(Task(0, -1, seq(NR_OPEN, _ => NULL)))] + seq(NR_TASKS - 1, _ => Free)
  }

  lemma {:induction false} NothingOpen(tasks: seq<Slot>, f: nat)
    requires forall t :: 0 <= t < |tasks| && tasks[t].Used? ==>
      forall fd :: 0 <= fd < |tasks[t].task.filp| ==> tasks[t].task.filp[fd] == NULL
    ensures Refs(tasks, f) == 0
  {
    if tasks != [] {
      if tasks[0].Used? {
        AllNull(tasks[0].task.filp, f);
      }
      NothingOpen(tasks[1..], f);
    }
  }

  lemma {:induction false} NothingHeld(counts: seq<nat>, inodes: seq<nat>, reserved: set<int>, x: nat, n: nat)
    requires n <= |counts| == |inodes| && forall f :: 0 <= f < n ==> counts[f] == 0
    ensures Holders(counts, inodes, reserved, x, n) == 0
  {
    if n > 0 {
      NothingHeld(counts, inodes, reserved, x, n - 1);
    }
  }

  class Kernel {
    var tasks: seq<Slot>
    var counts: seq<nat>
    var inodes: seq<nat>
    var held: map<nat, int>
    var pending: map<int, Place>
    var lastPid: int

    ghost predicate Valid()
      reads this
    {
      Consistent(tasks, counts, inodes, held, pending) && PidsUnique(tasks) && 0 <= lastPid <= MAX_PID
    }

    /** The start: task 0 with nothing open, and nothing in the file table. */
    constructor ()
      ensures Valid() && pending == map[] && held == map[] && Runs(0)
      ensures forall f :: 0 <= f < NR_FILE ==> counts[f] == 0
    {
      tasks := Booted();
      counts, inodes := seq(NR_FILE, _ => 0), seq(NR_FILE, _ => 0);
      held, pending, lastPid := map[], map[], 0;
      new;
      forall f: nat | f < NR_FILE ensures Refs(tasks, f) == 0 {
        NothingOpen(tasks, f);
      }
      forall x: nat ensures Holders(counts, inodes, pending.Keys, x, NR_FILE) == 0 {
        NothingHeld(counts, inodes, pending.Keys, x, NR_FILE);
      }
    }

    /** A task that runs: it is in no other call. */
    ghost predicate Runs(t: nat)
      reads this
    {
      t < |tasks| && tasks[t].Used? && !Busy(pending, t)
    }

    /** The first descriptor of a task that is not in use, from `from` on; NR_OPEN if none. */
    method FindFd(t: nat, from: nat) returns (fd: nat)
      requires Valid() && Runs(t)
      ensures from <= NR_OPEN ==> fd <= NR_OPEN
      ensures fd < NR_OPEN ==> from <= fd && tasks[t].task.filp[fd] == NULL
      ensures forall d :: from <= d < fd && d < NR_OPEN ==> tasks[t].task.filp[d] != NULL
    {
      fd := from;
      while fd < NR_OPEN && tasks[t].task.filp[fd] != NULL
        invariant from <= NR_OPEN ==> fd <= NR_OPEN
        invariant from <= fd && forall d :: from <= d < fd && d < NR_OPEN ==> tasks[t].task.filp[d] != NULL
      {
        fd := fd + 1;
      }
    }

    method FindEntry(from: nat) returns (f: nat)
      requires Valid() && from <= NR_FILE
      ensures from <= f <= NR_FILE && (f < NR_FILE ==> counts[f] == 0)
      ensures forall g :: from <= g < f ==> counts[g] != 0
    {
      f := from;
      while f < NR_FILE && counts[f] != 0
        invariant from <= f <= NR_FILE && forall g :: from <= g < f ==> counts[g] != 0
      {
        f := f + 1;
      }
    }

    method SetFd(t: nat, fd: nat, g: int)
      requires t < |tasks| && tasks[t].Used? && fd < |tasks[t].task.filp|
      modifies this`tasks
      ensures tasks == WithFd(old(tasks), t, fd, g)
    {
      tasks := tasks[t := Used(tasks[t].task.(filp := tasks[t].task.filp[fd := g]))];
    }

    /** sys_open up to open_namei: the number of the entry reserved, or -EINVAL. An entry is taken
        only if no descriptor leads to it. */
    method OpenBegin(t: nat) returns (r: int)
      requires Valid() && Runs(t)
      modifies this`tasks, this`counts, this`pending
      ensures Valid()
      ensures r < 0 ==> r == -EINVAL && tasks == old(tasks) && counts == old(counts) && pending == old(pending)
      ensures r < 0 ==> (forall d :: 0 <= d < NR_OPEN ==> tasks[t].task.filp[d] != NULL)
                        || (forall f :: 0 <= f < NR_FILE ==> counts[f] != 0)
      ensures r >= 0 ==> r < NR_FILE && Refs(old(tasks), r) == 0 && r in pending && pending[r].t == t
      ensures r >= 0 ==> pending == old(pending)[r := pending[r]] && tasks == WithFd(old(tasks), t, pending[r].fd, r)
      ensures r >= 0 ==> forall d :: 0 <= d < pending[r].fd ==> old(tasks)[t].task.filp[d] != NULL
    {
      hide Holders, Refs, CountIn;
      var fd := FindFd(t, 0);
      if fd >= NR_OPEN {
        return -EINVAL;
      }
      var f := FindEntry(0);
      if f >= NR_FILE {
        return -EINVAL;
      }
      Reserved(tasks, counts, inodes, held, pending, t, fd, f);
      SetFd(t, fd, f);
      counts := counts[f := counts[f] + 1];
      pending := pending[f := Place(t, fd)];
      return f;
    }

    /** open_namei failed, or the terminal was refused after its inode was put back. */
    method OpenFail(f: int)
      requires Valid() && f in pending
      modifies this`tasks, this`counts, this`pending
      ensures Valid() && pending == old(pending) - {f}
      ensures tasks == WithFd(old(tasks), old(pending)[f].t, old(pending)[f].fd, NULL)
    {
      hide Holders, Refs, CountIn;
      Unreserved(tasks, counts, inodes, held, pending, f);
      SetFd(pending[f].t, pending[f].fd, NULL);
      counts := counts[f := 0];
      pending := pending - {f};
    }

    /** open_namei gave an inode, with one reference for this entry. */
    method OpenDone(f: int, x: nat) returns (fd: nat)
      requires Valid() && f in pending
      modifies this`counts, this`inodes, this`held, this`pending
      ensures Valid() && pending == old(pending) - {f} && fd == old(pending)[f].fd
      ensures counts == old(counts) && inodes == old(inodes)[f := x] && held == Increase(old(held), x)
    {
      hide Holders, Refs, CountIn;
      Opened(tasks, counts, inodes, held, pending, f, x);
      fd := pending[f].fd;
      assert counts[f := 1] == counts;
      counts := counts[f := 1];
      inodes := inodes[f := x];
      held := Increase(held, x);
      pending := pending - {f};
    }

    /** sys_close: the inode is put back exactly when this was the last descriptor of its entry.
        A count of zero, which is a panic, does not occur. */
    method Close(t: nat, fd: nat) returns (r: int)
      requires Valid() && Runs(t)
      modifies this`tasks, this`counts, this`held
      ensures Valid() && Runs(t)
      ensures r != 0 <==> fd >= NR_OPEN || old(tasks)[t].task.filp[fd] == NULL
      ensures r != 0 ==> r == -EINVAL && tasks == old(tasks) && counts == old(counts) && held == old(held)
      ensures r == 0 ==> tasks == WithFd(old(tasks), t, fd, NULL)
      ensures r == 0 ==> var g := old(tasks)[t].task.filp[fd];
        held == if Refs(tasks, g) == 0 then Decrease(old(held), inodes[g]) else old(held)
    {
      hide Holders, CountIn;
      if fd >= NR_OPEN {
        return -EINVAL;
      }
      var g := tasks[t].task.filp[fd];
      if g == NULL {
        return -EINVAL;
      }
      Closed(tasks, counts, inodes, held, pending, t, fd);
      RefsWithFd(tasks, t, fd, NULL, g);
      SetFd(t, fd, NULL);
      counts := counts[g := counts[g] - 1];
      if counts[g] != 0 {
        return 0;
      }
      held := Decrease(held, inodes[g]);
      return 0;
    }

    /** dupfd. */
    method DupFd(t: nat, fd: nat, arg: nat) returns (r: int)
      requires Valid() && Runs(t)
      modifies this`tasks, this`counts
      ensures Valid() && Runs(t)
      ensures r < 0 ==> tasks == old(tasks) && counts == old(counts)
      ensures r == -EBADF <==> fd >= NR_OPEN || old(tasks)[t].task.filp[fd] == NULL
      ensures r == -EINVAL <==> r != -EBADF && arg >= NR_OPEN
      ensures r == -EMFILE ==> forall d :: arg <= d < NR_OPEN ==> old(tasks)[t].task.filp[d] != NULL
      ensures r < 0 ==> r in {-EBADF, -EINVAL, -EMFILE}
      ensures r >= 0 ==> fd < NR_OPEN && arg <= r < NR_OPEN && old(tasks)[t].task.filp[r] == NULL
      ensures r >= 0 ==> forall d :: arg <= d < r ==> old(tasks)[t].task.filp[d] != NULL
      ensures r >= 0 ==> tasks == WithFd(old(tasks), t, r, old(tasks)[t].task.filp[fd])
    {
      hide Holders, Refs, CountIn;
      if fd >= NR_OPEN || tasks[t].task.filp[fd] == NULL {
        return -EBADF;
      }
      if arg >= NR_OPEN {
        return -EINVAL;
      }
      var d := FindFd(t, arg);
      if d >= NR_OPEN {
        return -EMFILE;
      }
      var g := tasks[t].task.filp[fd];
      NotReserved(tasks, counts, inodes, held, pending, t, fd);
      Shared(tasks, counts, inodes, held, pending, t, d, g);
      SetFd(t, d, g);
      counts := counts[g := (counts[g] + 1) % COUNTS];
      return d;
    }

    /** sys_dup2. The descriptor asked for is closed first, even when it is the one to copy: then
        there is nothing left to copy. */
    method Dup2(t: nat, oldfd: nat, newfd: nat) returns (r: int)
      requires Valid() && Runs(t)
      modifies this`tasks, this`counts, this`held
      ensures Valid()
      ensures oldfd == newfd && oldfd < NR_OPEN ==> r == -EBADF
      ensures oldfd != newfd && oldfd < NR_OPEN && newfd < NR_OPEN && old(tasks)[t].task.filp[oldfd] != NULL
        ==> r == newfd && tasks == WithFd(old(tasks), t, newfd, old(tasks)[t].task.filp[oldfd])
      ensures oldfd >= NR_OPEN || old(tasks)[t].task.filp[oldfd] == NULL ==> r == -EBADF
      ensures r == -EBADF && newfd < NR_OPEN ==> tasks == WithFd(old(tasks), t, newfd, NULL)
      ensures newfd >= NR_OPEN ==> r < 0 && tasks == old(tasks)
    {
      hide Holders, Refs, CountIn;
      if newfd < NR_OPEN {
        SameFd(tasks, t, newfd);
      }
      var c := Close(t, newfd);
      assert newfd < NR_OPEN ==> tasks == WithFd(old(tasks), t, newfd, NULL);
      r := DupFd(t, oldfd, newfd);
    }

    /** sys_pipe up to get_pipe_inode: two entries and two descriptors, or nothing. */
    method PipeBegin(t: nat) returns (f0: int, f1: int)
      requires Valid() && Runs(t)
      modifies this`tasks, this`counts, this`pending
      ensures Valid()
      ensures f0 < 0 ==> tasks == old(tasks) && counts == old(counts) && pending == old(pending)
      ensures f0 >= 0 ==> f0 < f1 < NR_FILE && Refs(old(tasks), f0) == 0 && Refs(old(tasks), f1) == 0
      ensures f0 >= 0 ==> f0 in pending && f1 in pending && pending[f0].t == pending[f1].t == t
                          && pending[f0].fd < pending[f1].fd
                          && pending == old(pending)[f0 := pending[f0]][f1 := pending[f1]]
                          && tasks == WithFd(WithFd(old(tasks), t, pending[f0].fd, f0), t, pending[f1].fd, f1)
      ensures f0 >= 0 ==>
        forall d :: 0 <= d < pending[f1].fd && d != pending[f0].fd ==> old(tasks)[t].task.filp[d] != NULL
      ensures f0 < 0 ==> (forall f, g :: 0 <= f < g < NR_FILE ==> counts[f] != 0 || counts[g] != 0)
                         || (forall d, e :: 0 <= d < e < NR_OPEN ==>
                               tasks[t].task.filp[d] != NULL || tasks[t].task.filp[e] != NULL)
    {
      hide Holders, Refs, CountIn;
      f0, f1 := -1, -1;
      var a := FindEntry(0);
      if a >= NR_FILE {
        return;
      }
      var b := FindEntry(a + 1);
      if b >= NR_FILE {
        return;
      }
      var fd0 := FindFd(t, 0);
      if fd0 >= NR_OPEN {
        return;
      }
      var fd1 := FindFd(t, fd0 + 1);
      if fd1 >= NR_OPEN {
        return;
      }
      Reserved(tasks, counts, inodes, held, pending, t, fd0, a);
      SetFd(t, fd0, a);
      counts := counts[a := counts[a] + 1];
      pending := pending[a := Place(t, fd0)];
      Reserved(tasks, counts, inodes, held, pending, t, fd1, b);
      SetFd(t, fd1, b);
      counts := counts[b := counts[b] + 1];
      pending := pending[b := Place(t, fd1)];
      return a, b;
    }

    /** get_pipe_inode failed. */
    method PipeFail(f0: int, f1: int)
      requires Valid() && f0 in pending && f1 in pending && f0 != f1
      modifies this`tasks, this`counts, this`pending
      ensures Valid() && pending == old(pending) - {f0} - {f1}
    {
      OpenFail(f0);
      OpenFail(f1);
    }

    /** get_pipe_inode gave an inode with two references, one for each end. */
    method PipeDone(f0: int, f1: int, x: nat)
      requires Valid() && f0 in pending && f1 in pending && f0 != f1
      modifies this`counts, this`inodes, this`held, this`pending
      ensures Valid() && pending == old(pending) - {f0} - {f1}
      ensures held == Increase(Increase(old(held), x), x) && inodes == old(inodes)[f0 := x][f1 := x]
    {
      var fd0 := OpenDone(f0, x);
      var fd1 := OpenDone(f1, x);
    }

    /** find_empty_process: a number no task has, and a free slot other than 0 if there is one. */
    method FindEmptyProcess() returns (nr: int)
      requires Valid()
      modifies this`lastPid
      ensures Valid() && 1 <= lastPid <= MAX_PID && lastPid !in PidsIn(tasks)
      ensures nr < 0 ==> nr == -EAGAIN && forall i :: 1 <= i < NR_TASKS ==> tasks[i].Used?
      ensures nr >= 0 ==> 1 <= nr < NR_TASKS && tasks[nr].Free? && forall i :: 1 <= i < nr ==> tasks[i].Used?
    {
      ghost var last, k := lastPid, 0;
      ghost var tried: set<int> := {};
      FewPids(tasks);
      while true
        invariant 0 <= lastPid <= MAX_PID && k == |tried| && tried <= PidsIn(tasks)
        invariant lastPid == if k == 0 then last else Tried(last, k)
        invariant forall p :: p in tried ==> exists j: nat :: 1 <= j <= k && p == Tried(last, j)
        decreases NR_TASKS - k
      {
        Common.SubsetSize(tried, PidsIn(tasks));
        TriedNext(last, k);
        lastPid := NextPid(lastPid);
        k := k + 1;
        forall p | p in tried ensures p != lastPid {
          var j: nat :| 1 <= j <= k - 1 && p == Tried(last, j);
          TriedDiffer(last, j, k);
        }
        var i := 0;
        while i < NR_TASKS && !(tasks[i].Used? && tasks[i].task.pid == lastPid)
          invariant 0 <= i <= NR_TASKS && forall j :: 0 <= j < i && tasks[j].Used? ==> tasks[j].task.pid != lastPid
        {
          i := i + 1;
        }
        if i == NR_TASKS {
          break;
        }
        tried := tried + {lastPid};
        Common.SubsetSize(tried, PidsIn(tasks));
      }
      nr := 1;
      while nr < NR_TASKS && tasks[nr].Used?
        invariant 1 <= nr <= NR_TASKS && forall i :: 1 <= i < nr ==> tasks[i].Used?
      {
        nr := nr + 1;
      }
      if nr == NR_TASKS {
        nr := -EAGAIN;
      }
    }

    /** The part of copy_process about descriptors: the child shares every entry its parent has
        open. `ok` says whether there was memory for the child. */
    method CopyProcess(t: nat, nr: nat, ok: bool) returns (r: int)
      requires Valid() && Runs(t) && nr < NR_TASKS && tasks[nr].Free? && lastPid !in PidsIn(tasks)
      modifies this`tasks, this`counts
      ensures Valid()
      ensures !ok ==> r == -EAGAIN && tasks == old(tasks) && counts == old(counts)
      ensures ok ==> r == lastPid
      ensures ok ==> tasks == old(tasks)[nr := Used(Task(lastPid, old(tasks)[t].task.pid, old(tasks)[t].task.filp))]
    {
      hide Holders, Refs, CountIn;
      if !ok {
        return -EAGAIN;
      }
      ghost var was := counts;
      var child := Task(lastPid, tasks[t].task.pid, tasks[t].task.filp);
      ghost var before := tasks;
      tasks := tasks[nr := Used(child)];
      CountOfNothing(child.filp);
      for i := 0 to NR_OPEN
        invariant |counts| == NR_FILE && tasks == before[nr := Used(child)]
        invariant forall f: nat :: f < NR_FILE ==> counts[f] == was[f] + CountIn(child.filp[..i], f)
      {
        var f := child.filp[i];
        CountPrefix(child.filp, i);
        if f != NULL {
          NotReserved(before, was, inodes, held, pending, t, i);
          CountBound(child.filp[..i], f);
          counts := counts[f := (counts[f] + 1) % COUNTS];
        }
      }
      assert child.filp[..NR_OPEN] == child.filp;
      Forked(before, was, inodes, held, pending, t, nr, child, counts);
      PidStaysUnique(before, nr, child);
      return lastPid;
    }

    /** The closing loop of do_exit. */
    method CloseAll(t: nat)
      requires Valid() && Runs(t)
      modifies this`tasks, this`counts, this`held
      ensures Valid() && Runs(t) && forall fd :: 0 <= fd < NR_OPEN ==> tasks[t].task.filp[fd] == NULL
      ensures |tasks| == |old(tasks)| && forall u :: 0 <= u < |tasks| && u != t ==> tasks[u] == old(tasks)[u]
    {
      hide Refs, CountIn, Holders;
      for i := 0 to NR_OPEN
        invariant Valid() && Runs(t) && |tasks| == |old(tasks)| && |tasks[t].task.filp| == NR_OPEN
        invariant forall fd :: 0 <= fd < i ==> tasks[t].task.filp[fd] == NULL
        invariant forall u :: 0 <= u < |tasks| && u != t ==> tasks[u] == old(tasks)[u]
      {
        if tasks[t].task.filp[i] != NULL {
          var r := Close(t, i);
        }
      }
    }

    /** release, once the task has closed everything. */
    method Release(t: nat)
      requires Valid() && Runs(t) && forall fd :: 0 <= fd < NR_OPEN ==> tasks[t].task.filp[fd] == NULL
      modifies this`tasks
      ensures Valid() && tasks == old(tasks)[t := Free]
    {
      hide Refs, CountIn, Holders;
      Released(tasks, counts, inodes, held, pending, t);
      tasks := tasks[t := Free];
    }
  }

  lemma {:induction false} CountPrefix(filp: seq<int>, i: nat)
    requires i < |filp|
    ensures forall f :: CountIn(filp[..i + 1], f) == CountIn(filp[..i], f) + (if filp[i] == f then 1 else 0)
  {
    if i == 0 {
      assert filp[..1][1..] == [] && filp[..0] == [];
    } else {
      CountPrefix(filp[1..], i - 1);
      assert filp[..i + 1][1..] == filp[1..][..i] && filp[..i][1..] == filp[1..][..i - 1];
    }
  }

  lemma CountOfNothing(filp: seq<int>)
    ensures forall f :: CountIn(filp[..0], f) == 0
  {
  }

  lemma PidStaysUnique(tasks: seq<Slot>, nr: nat, child: Task)
    requires PidsUnique(tasks) && nr < |tasks| && child.pid !in PidsIn(tasks)
    ensures PidsUnique(tasks[nr := Used(child)])
  {
    assert forall t :: 0 <= t < |tasks| && tasks[t].Used? ==> tasks[t].task.pid in PidsIn(tasks);
  }
}
