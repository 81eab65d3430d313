/**
 Pipes: one page used as a ring, filled at the head and emptied at the tail by processes that
 sleep when they cannot go on.

 The ring's readers and writers are proved to move bytes through a bounded queue. The protocol
 is then a state machine over that queue: one step is all a process does in the kernel from the
 moment it runs until it returns or sleeps. A wake-up makes every sleeper runnable.
 */
module LinuxPipe {

  const PAGE_SIZE := 4096

  type Byte = x: int | 0 <= x < 256

  // ---------------------------------------------------------------- one call on a queue

  function Min(a: int, b: int): int {
    if a < b then a else b
  }

  /** How many bytes a reader that still wants `left` gets before it returns or sleeps. */
  function Taken(held: nat, left: int): nat {
    if left <= 0 then 0 else Min(held, left)
  }

  /** How many bytes a writer that still has `left` puts before it returns or sleeps. */
  function Put(held: nat, left: int): nat
    requires held < PAGE_SIZE
  {
    if left <= 0 then 0 else Min(PAGE_SIZE - 1 - held, left)
  }

  // ---------------------------------------------------------------- the ring

  /** The number of bytes from tail to head, around the end of the page. */
  function Distance(head: nat, tail: nat): nat {
    (head - tail) % PAGE_SIZE
  }

  function Wrap(i: nat): nat {
    i % PAGE_SIZE
  }

  lemma DistanceIs(head: nat, tail: nat)
    requires head < PAGE_SIZE && tail < PAGE_SIZE
    ensures Distance(head, tail) == if tail <= head then head - tail else PAGE_SIZE - tail + head
  {
  }

  lemma WrapIs(i: nat)
    requires i <= PAGE_SIZE
    ensures Wrap(i) == if i == PAGE_SIZE then 0 else i
  {
  }

  /** The unread bytes, oldest first. */
  function Held(page: seq<Byte>, head: nat, tail: nat): (q: seq<Byte>)
    requires |page| == PAGE_SIZE && head < PAGE_SIZE && tail < PAGE_SIZE
    ensures |q| == Distance(head, tail) < PAGE_SIZE
  {
    DistanceIs(head, tail);
    if tail <= head then page[tail..head] else page[tail..] + page[..head]
  }

  /** Taking a stretch that does not cross the end of the page. */
  lemma TakeStretch(page: seq<Byte>, head: nat, tail: nat, n: nat)
    requires |page| == PAGE_SIZE && head < PAGE_SIZE && tail < PAGE_SIZE
    requires n <= PAGE_SIZE - tail && n <= Distance(head, tail)
    ensures Held(page, head, tail)[..n] == page[tail..tail + n]
    ensures Wrap(tail + n) < PAGE_SIZE && Held(page, head, Wrap(tail + n)) == Held(page, head, tail)[n..]
  {
    hide Wrap, Distance;
    WrapIs(tail + n);
    DistanceIs(head, tail);
  }

  /** Filling a stretch that does not cross the end of the page and leaves one byte free. */
  lemma PutStretch(page: seq<Byte>, page': seq<Byte>, head: nat, tail: nat, n: nat)
    requires |page| == |page'| == PAGE_SIZE && head < PAGE_SIZE && tail < PAGE_SIZE
    requires n <= PAGE_SIZE - head && n <= PAGE_SIZE - 1 - Distance(head, tail)
    requires page'[..head] == page[..head] && page'[head + n..] == page[head + n..]
    ensures Wrap(head + n) < PAGE_SIZE
    ensures Held(page', Wrap(head + n), tail) == Held(page, head, tail) + page'[head..head + n]
  {
    hide Wrap, Distance;
    WrapIs(head + n);
    DistanceIs(head, tail);
    var chunk := page'[head..head + n];
    if tail <= head {
      assert page'[tail..head] == page'[..head][tail..] == page[tail..head];
      assert page'[tail..head + n] == page[tail..head] + chunk;
      if head + n == PAGE_SIZE {
        assert page'[tail..] + page'[..0] == page'[tail..head + n];
      }
    } else {
      assert page'[tail..] == page'[head + n..][tail - head - n..] == page[tail..];
      assert page'[..head + n] == page[..head] + chunk;
      assert page[tail..] + page[..head] + chunk == page[tail..] + (page[..head] + chunk);
    }
  }

  /** A buffer after a chunk was copied to a place in it. */
  ghost predicate Pasted(was: seq<Byte>, now: seq<Byte>, at: nat, chunk: seq<Byte>) {
    && |now| == |was| && at + |chunk| <= |was|
    && now[..at] == was[..at] && now[at..at + |chunk|] == chunk && now[at + |chunk|..] == was[at + |chunk|..]
  }

  /** A buffer that held b, with the front of a queue copied to its stretch from got to read. */
  ghost predicate Filled(q: seq<Byte>, b: seq<Byte>, now: seq<Byte>, got: nat, read: nat) {
    && got <= read <= |now| == |b| && read - got <= |q|
    && now[got..read] == q[..read - got] && now[..got] == b[..got] && now[read..] == b[read..]
  }

  lemma FilledNothing(q: seq<Byte>, b: seq<Byte>, got: nat)
    requires got <= |b|
    ensures Filled(q, b, b, got, got)
  {
  }

  lemma FilledMore(q: seq<Byte>, b: seq<Byte>, was: seq<Byte>, now: seq<Byte>, got: nat, read: nat, n: nat)
    requires Filled(q, b, was, got, read) && read - got + n <= |q|
    requires Pasted(was, now, read, q[read - got..][..n])
    ensures Filled(q, b, now, got, read + n)
    ensures q[read - got..][n..] == q[read + n - got..]
  {
    var chunk := q[read - got..][..n];
    assert now[got..read] == now[..read][got..] == was[..read][got..] == was[got..read];
    assert now[got..read + n] == now[got..read] + now[read..read + n];
    assert q[..read + n - got] == q[..read - got] + chunk;
    assert now[..got] == now[..read][..got] == was[..read][..got] == was[..got];
    assert now[read + n..] == was[read..][n..] == b[read..][n..] == b[read + n..];
  }

  lemma Extended(q: seq<Byte>, buf: seq<Byte>, start: nat, middle: nat, n: nat)
    requires start <= middle && middle + n <= |buf|
    ensures (q + buf[start..middle]) + buf[middle..middle + n] == q + buf[start..middle + n]
  {
    assert buf[start..middle] + buf[middle..middle + n] == buf[start..middle + n];
  }

  lemma PastedByIndex(was: seq<Byte>, now: seq<Byte>, at: nat, chunk: seq<Byte>)
    requires |now| == |was| && at + |chunk| <= |was|
    requires forall i :: 0 <= i < |was| ==> now[i] == if at <= i < at + |chunk| then chunk[i - at] else was[i]
    ensures Pasted(was, now, at, chunk)
  {
  }

  method CopyBytes(src: array<Byte>, from: nat, dst: array<Byte>, to: nat, n: nat)
    requires src != dst && from + n <= src.Length && to + n <= dst.Length
    modifies dst
    ensures Pasted(old(dst[..]), dst[..], to, src[from..from + n])
  {
    var k := 0;
    while k < n
      invariant k <= n
      invariant forall i :: to <= i < to + k ==> dst[i] == src[from + (i - to)]
      invariant forall i :: 0 <= i < dst.Length && !(to <= i < to + k) ==> dst[i] == old(dst[i])
    {
      dst[to + k] := src[from + k];
      k := k + 1;
    }
    PastedByIndex(old(dst[..]), dst[..], to, src[from..from + n]);
  }

  lemma PutPasted(page: seq<Byte>, page': seq<Byte>, head: nat, tail: nat, chunk: seq<Byte>)
    requires |page| == PAGE_SIZE && head < PAGE_SIZE && tail < PAGE_SIZE
    requires |chunk| <= PAGE_SIZE - head && |chunk| <= PAGE_SIZE - 1 - Distance(head, tail)
    requires Pasted(page, page', head, chunk)
    ensures Wrap(head + |chunk|) < PAGE_SIZE && |page'| == PAGE_SIZE
    ensures Held(page', Wrap(head + |chunk|), tail) == Held(page, head, tail) + chunk
  {
    hide Held, Distance, Wrap;
    PutStretch(page, page', head, tail, |chunk|);
  }

  /** A pipe's inode; `users` is its i_count, 2 while both ends are open. */
  class Pipe {
    var head: nat
    var tail: nat
    var users: nat
    const page: array<Byte>

    ghost predicate Valid()
      reads this
    {
      head < PAGE_SIZE && tail < PAGE_SIZE && page.Length == PAGE_SIZE
    }

    ghost function Contents(): seq<Byte>
      reads this, page
      requires Valid()
    {
      Held(page[..], head, tail)
    }

    constructor (page: array<Byte>)
      requires page.Length == PAGE_SIZE
      ensures Valid() && Contents() == [] && users == 2 && this.page == page
    {
      this.head, this.tail, this.users, this.page := 0, 0, 2, page;
    }

    /** Moves the tail over a stretch of the page, then copies the stretch out. */
    method TakeChunk(buf: array<Byte>, at: nat, chars: nat)
      requires Valid() && buf != page && at + chars <= buf.Length
      requires chars <= PAGE_SIZE - tail && chars <= |Contents()|
      modifies `tail, buf
      ensures Valid() && Contents() == old(Contents())[chars..]
      ensures Pasted(old(buf[..]), buf[..], at, old(Contents())[..chars])
    {
      hide Held, Distance, Wrap, Pasted;
      TakeStretch(page[..], head, tail, chars);
      var from := tail;
      tail := Wrap(tail + chars);
      assert page[..][from..from + chars] == page[from..from + chars];
      CopyBytes(page, from, buf, at, chars);
    }

    /** A reader runs until it returns or sleeps. It asked for `count` bytes and has `got` of
        them already; after a sleep it is entered again with what it had. */
    method ReadPipe(buf: array<Byte>, count: int, got: nat) returns (read: nat, asleep: bool)
      requires Valid() && buf != page
      requires got <= buf.Length && (count > 0 ==> got <= count <= buf.Length)
      modifies `tail, buf
      ensures Valid()
      ensures read == got + Taken(|old(Contents())|, count - got)
      ensures Contents() == old(Contents())[read - got..]
      ensures Filled(old(Contents()), old(buf[..]), buf[..], got, read)
      ensures asleep <==> read < count && users == 2
    {
      hide Held, Distance, Wrap, Filled, Pasted;
      ghost var q, b := Contents(), buf[..];
      read, asleep := got, false;
      FilledNothing(q, b, got);
      var left := count - got;
      while left > 0
        invariant Valid()
        invariant got <= read <= buf.Length && left == count - read && (count > 0 ==> read <= count)
        invariant (count <= 0 ==> read == got) && read - got <= |q|
        invariant Contents() == q[read - got..]
        invariant Filled(q, b, buf[..], got, read)
        decreases left
      {
        var size := Distance(head, tail);
        if size == 0 {
          asleep := users == 2;
          return;
        }
        var chars := PAGE_SIZE - tail;
        if chars > left {
          chars := left;
        }
        if chars > size {
          chars := size;
        }
        left := left - chars;
        ghost var was := buf[..];
        TakeChunk(buf, read, chars);
        FilledMore(q, b, was, buf[..], got, read, chars);
        read := read + chars;
      }
    }

    /** A writer runs until it returns or sleeps; `written` of its bytes are in the pipe already.
        With no reader left it is sent SIGPIPE, and gets -1 if nothing was written at all. */
    method WritePipe(buf: array<Byte>, count: int, written: nat)
        returns (put: nat, asleep: bool, sigpipe: bool, result: int)
      requires Valid() && buf != page
      requires written <= buf.Length && (count > 0 ==> written <= count <= buf.Length)
      modifies `head, page
      ensures Valid()
      ensures put == written + Put(|old(Contents())|, count - written) <= buf.Length
      ensures Contents() == old(Contents()) + buf[written..put]
      ensures asleep <==> put < count && users == 2
      ensures sigpipe <==> put < count && users != 2
      ensures result == if sigpipe && put == 0 then -1 else put
    {
      hide Held, Distance, Wrap, Pasted;
      ghost var q := Contents();
      put, asleep, sigpipe := written, false, false;
      var left := count - written;
      while left > 0
        invariant Valid()
        invariant written <= put <= buf.Length && left == count - put
        invariant count > 0 ==> put <= count
        invariant (count <= 0 ==> put == written) && put - written <= PAGE_SIZE - 1 - |q|
        invariant Contents() == q + buf[written..put]
        decreases left
      {
        var size := PAGE_SIZE - 1 - Distance(head, tail);
        if size == 0 {
          asleep, sigpipe := users == 2, users != 2;
          result := if sigpipe && put == 0 then -1 else put;
          return;
        }
        var chars := PAGE_SIZE - head;
        if chars > left {
          chars := left;
        }
        if chars > size {
          chars := size;
        }
        left := left - chars;
        ghost var was := page[..];
        var to := head;
        head := Wrap(head + chars);
        CopyBytes(buf, put, page, to, chars);
        PutPasted(was, page[..], to, tail, buf[put..put + chars]);
        Extended(q, buf[..], written, put, chars);
        put := put + chars;
      }
      result := put;
    }
  }

  // ---------------------------------------------------------------- the protocol

  type Queue = q: seq<Byte> | |q| < PAGE_SIZE

  /** What a task is doing with the pipe: a writer has `put` bytes in and `rest` still to go. */
  datatype Call =
    | Idle
    | Reading(want: int, got: seq<Byte>, asleep: bool)
    | Writing(rest: seq<Byte>, put: nat, asleep: bool)

  /** `accepted` and `delivered` are all bytes ever written to and read from the pipe. */
  datatype World = World(queue: Queue, users: nat, calls: seq<Call>,
                         accepted: seq<Byte>, delivered: seq<Byte>)

  datatype Event =
    | Read(task: nat, want: int)
    | Write(task: nat, src: seq<Byte>)
    | Run(task: nat)
    | CloseEnd

  function Fresh(tasks: nat): World {
    World([], 2, seq(tasks, _ => Idle), [], [])
  }

  predicate Enabled(w: World, e: Event) {
    match e
    case Read(i, _) => i < |w.calls| && w.calls[i].Idle?
    case Write(i, _) => i < |w.calls| && w.calls[i].Idle?
    case Run(i) => i < |w.calls| && !w.calls[i].Idle? && !w.calls[i].asleep
    case CloseEnd => w.users > 0
  }

  function Woken(calls: seq<Call>): (woken: seq<Call>)
    ensures |woken| == |calls|
    ensures forall i :: 0 <= i < |calls| && calls[i].Idle? ==> woken[i] == Idle
    ensures forall i :: 0 <= i < |calls| && !calls[i].Idle? ==> woken[i] == calls[i].(asleep := false)
  {
    seq(|calls|, i requires 0 <= i < |calls| => if calls[i].Idle? then Idle else calls[i].(asleep := false))
  }

  function ReadRun(w: World, i: nat): World
    requires i < |w.calls| && w.calls[i].Reading?
  {
    var c := w.calls[i];
    var n := Taken(|w.queue|, c.want - |c.got|);
    var got := c.got + w.queue[..n];
    var c' := if |got| < c.want && w.users == 2 then Reading(c.want, got, true) else Idle;
    World(w.queue[n..], w.users, Woken(w.calls)[i := c'], w.accepted, w.delivered + w.queue[..n])
  }

  function WriteRun(w: World, i: nat): World
    requires i < |w.calls| && w.calls[i].Writing?
  {
    var c := w.calls[i];
    var n := Put(|w.queue|, |c.rest|);
    var c' := if n < |c.rest| && w.users == 2 then Writing(c.rest[n..], c.put + n, true) else Idle;
    World(w.queue + c.rest[..n], w.users, Woken(w.calls)[i := c'],
          w.accepted + c.rest[..n], w.delivered)
  }

  function Stepped(w: World, e: Event): World
    requires Enabled(w, e)
  {
    match e
    case Read(i, want) => w.(calls := w.calls[i := Reading(want, [], false)])
    case Write(i, src) => w.(calls := w.calls[i := Writing(src, 0, false)])
    case Run(i) => if w.calls[i].Reading? then ReadRun(w, i) else WriteRun(w, i)
    case CloseEnd => w.(users := w.users - 1, calls := Woken(w.calls))
  }

  // ---------------------------------------------------------------- what every step keeps

  /** A sleeping reader wants more and a sleeping writer has more, and neither can go on: the
      pipe is empty, or full, and the other end is still open. */
  predicate CallOk(c: Call, queue: Queue, users: nat) {
    match c
    case Idle => true
    case Reading(want, got, asleep) =>
      (want > 0 ==> |got| <= want) && (asleep ==> |got| < want && queue == [] && users == 2)
    case Writing(rest, _, asleep) =>
      asleep ==> rest != [] && |queue| == PAGE_SIZE - 1 && users == 2
  }

  ghost predicate CallsOk(w: World) {
    forall i :: 0 <= i < |w.calls| ==> CallOk(w.calls[i], w.queue, w.users)
  }

  predicate Asleep(c: Call) {
    !c.Idle? && c.asleep
  }

  /** Whoever goes to sleep wakes all the others first. */
  ghost predicate OneAsleep(calls: seq<Call>) {
    forall i, j :: 0 <= i < j < |calls| ==> !(Asleep(calls[i]) && Asleep(calls[j]))
  }

  ghost predicate Inv(w: World) {
    w.accepted == w.delivered + w.queue && CallsOk(w) && OneAsleep(w.calls)
  }

  lemma WokenSleep(calls: seq<Call>, i: nat, c: Call)
    requires i < |calls|
    ensures OneAsleep(Woken(calls)) && OneAsleep(Woken(calls)[i := c])
  {
    assert forall j :: 0 <= j < |calls| ==> !Asleep(Woken(calls)[j]);
  }

  lemma WokenOk(w: World, i: nat, c: Call, queue: Queue, users: nat)
    requires CallsOk(w) && i < |w.calls| && CallOk(c, queue, users)
    ensures var calls := Woken(w.calls)[i := c]; forall j :: 0 <= j < |calls| ==> CallOk(calls[j], queue, users)
  {
    var calls := Woken(w.calls)[i := c];
    forall j | 0 <= j < |calls| ensures CallOk(calls[j], queue, users) {
      assert CallOk(w.calls[j], w.queue, w.users);
    }
  }

  lemma ReadRunKeepsInv(w: World, i: nat)
    requires Inv(w) && i < |w.calls| && w.calls[i].Reading?
    ensures Inv(ReadRun(w, i))
  {
    var c, w' := w.calls[i], ReadRun(w, i);
    var n := Taken(|w.queue|, c.want - |c.got|);
    assert CallOk(c, w.queue, w.users);
    assert w'.queue == w.queue[n..] && w'.delivered == w.delivered + w.queue[..n];
    hide CallOk, Woken;
    assert (w.delivered + w.queue[..n]) + w.queue[n..] == w.delivered + w.queue;
    WokenOk(w, i, w'.calls[i], w'.queue, w'.users);
    WokenSleep(w.calls, i, w'.calls[i]);
  }

  lemma WriteRunKeepsInv(w: World, i: nat)
    requires Inv(w) && i < |w.calls| && w.calls[i].Writing?
    ensures Inv(WriteRun(w, i))
  {
    var c, w' := w.calls[i], WriteRun(w, i);
    assert CallOk(c, w.queue, w.users);
    WokenOk(w, i, w'.calls[i], w'.queue, w'.users);
    WokenSleep(w.calls, i, w'.calls[i]);
  }

  /** No step of any task loses, doubles or reorders a byte, or puts a task to sleep that could
      go on, or leaves one asleep that now could. */
  lemma StepKeepsInv(w: World, e: Event)
    requires Inv(w) && Enabled(w, e)
    ensures Inv(Stepped(w, e))
  {
    match e
    case Run(i) =>
      if w.calls[i].Reading? {
        ReadRunKeepsInv(w, i);
      } else {
        WriteRunKeepsInv(w, i);
      }
    case CloseEnd =>
      var w' := Stepped(w, e);
      forall j | 0 <= j < |w'.calls| ensures CallOk(w'.calls[j], w'.queue, w'.users) {
        assert CallOk(w.calls[j], w.queue, w.users);
      }
      if w.calls != [] {
        WokenSleep(w.calls, 0, w.calls[0]);
      }
    case Read(_, _) =>
    case Write(_, _) =>
  }

  /** A reader that runs gets exactly the oldest unread bytes, in order; if it returns with less
      than it asked for, nothing accepted is left undelivered. */
  lemma ReaderGetsTheNextBytes(w: World, i: nat)
    requires Inv(w) && Enabled(w, Run(i)) && w.calls[i].Reading?
    ensures
      var c, w' := w.calls[i], Stepped(w, Run(i));
      var next := w'.delivered[|w.delivered|..];
      && w.delivered <= w'.delivered <= w.accepted == w'.accepted
      && (w'.calls[i].Reading? ==> w'.calls[i].got == c.got + next)
      && (|c.got| + |next| < c.want ==> w'.delivered == w'.accepted)
  {
    var c, w' := w.calls[i], Stepped(w, Run(i));
    var n := Taken(|w.queue|, c.want - |c.got|);
    assert CallOk(c, w.queue, w.users);
    assert w'.delivered[|w.delivered|..] == w.queue[..n];
    assert w.accepted[|w.delivered|..] == w.queue;
    assert w.accepted == (w.delivered + w.queue[..n]) + w.queue[n..];
  }

  /** What a writer adds are the next bytes of its own buffer, behind all bytes accepted before;
      it stops short only when the page is full. */
  lemma WriterAddsItsNextBytes(w: World, i: nat)
    requires Inv(w) && Enabled(w, Run(i)) && w.calls[i].Writing?
    ensures
      var c, w' := w.calls[i], Stepped(w, Run(i));
      var n := |w'.accepted| - |w.accepted|;
      && w'.delivered == w.delivered
      && 0 <= n <= |c.rest| && w'.accepted == w.accepted + c.rest[..n]
      && (w'.calls[i].Writing? ==> c.rest == c.rest[..n] + w'.calls[i].rest && w'.calls[i].put == c.put + n)
      && (n < |c.rest| ==> |w'.accepted| - |w'.delivered| == PAGE_SIZE - 1)
  {
  }

  // ---------------------------------------------------------------- whole runs

  /** The worlds reached by a list of events from a fresh pipe. */
  ghost predicate IsRun(ws: seq<World>, es: seq<Event>) {
    |ws| == |es| + 1 && ws[0] == Fresh(|ws[0].calls|) && forall k :: 0 <= k < |es| ==> StepAt(ws, es, k)
  }

  ghost predicate StepAt(ws: seq<World>, es: seq<Event>, k: nat)
    requires k < |es| && |ws| == |es| + 1
  {
    Enabled(ws[k], es[k]) && ws[k + 1] == Stepped(ws[k], es[k])
  }

  lemma {:induction false} RunKeepsInv(ws: seq<World>, es: seq<Event>, k: nat)
    requires IsRun(ws, es) && k < |ws|
    ensures Inv(ws[k])
    decreases k
  {
    if k == 0 {
      FreshIsOk(|ws[0].calls|);
    } else {
      RunKeepsInv(ws, es, k - 1);
      hide Inv, Stepped, Enabled;
      assert StepAt(ws, es, k - 1);
      StepKeepsInv(ws[k - 1], es[k - 1]);
    }
  }

  lemma FreshIsOk(tasks: nat)
    ensures Inv(Fresh(tasks))
  {
    var w := Fresh(tasks);
    assert w.accepted == w.delivered + w.queue;
    assert forall i :: 0 <= i < |w.calls| ==> w.calls[i] == Idle;
  }

  /** Whatever the interleaving: the bytes delivered are the first of the bytes accepted, in
      order; at most a page less one byte is under way; and at most one task is asleep, so that
      the two ends cannot wait for each other. */
  lemma RunIsAFifo(ws: seq<World>, es: seq<Event>, k: nat)
    requires IsRun(ws, es) && k < |ws|
    ensures ws[k].delivered <= ws[k].accepted
    ensures ws[k].accepted[|ws[k].delivered|..] == ws[k].queue
    ensures |ws[k].accepted| - |ws[k].delivered| <= PAGE_SIZE - 1
    ensures forall i, j :: 0 <= i < j < |ws[k].calls| ==> !(Asleep(ws[k].calls[i]) && Asleep(ws[k].calls[j]))
  {
    RunKeepsInv(ws, es, k);
  }
}
