/** The protocol between the driver of kernel/virtio_disk.c and a disk: requests as chains of three descriptors,
    posted in one ring and handed back in another. Submitters, the interrupt handler and the device take turns in any
    order; the driver's own steps are serialised by the disk's lock. */
module VirtioRing {
  import opened Basics

  const NUM := 64
  const WORD16 := 65536

  /** What a caller asks for: a write or a read of a disk sector, from or into a buffer. */
  datatype Request = Request(write: bool, sector: int, buf: int)

  /** What a descriptor points at: a command header, a caller's buffer, or a status byte. */
  datatype Place = Nowhere | Command(i: int) | Buffer(buf: int) | Status(i: int)

  datatype Desc = Desc(at: Place, len: int, more: bool, deviceWrites: bool, next: int)

  /** A command header, struct virtio_blk_req. */
  datatype Header = Header(write: bool, sector: int)

  const HEADER_SIZE := 16

  datatype Info = Info(comp: Option<nat>, done: bool, status: int)

  datatype Lock = Open | Submitter(head: int) | Handler

  /** Where a request is: in the avail ring, with the device, in the used ring, or signalled to its submitter. */
  datatype Phase = Posted | Taken | Returned | Signalled

  /** A request in flight: its other two descriptors, its phase, and the number of its submission, which also stands
      for the completion on the submitter's stack. */
  datatype Chain = Chain(mid: int, last: int, phase: Phase, ticket: nat, request: Request)

  /** The memory shared with the device and the driver's own, with a record of what has happened: the chains in
      flight, the heads waiting in each ring, counts that do not wrap, and the submissions signalled so far. */
  datatype State = State(
    free: set<int>, desc: seq<Desc>, ops: seq<Header>,
    avail: seq<int>, availIdx: int,
    used: seq<int>, usedIdx: int, seen: int,
    info: seq<Info>, lock: Lock,
    live: map<int, Chain>, pending: seq<int>, returned: seq<int>,
    posted: nat, handled: nat, tickets: nat, log: seq<nat>)

  // ---------- the invariant ----------

  ghost predicate Sized(s: State) {
    |s.desc| == |s.ops| == |s.avail| == |s.used| == |s.info| == NUM
  }

  predicate Belongs(live: map<int, Chain>, h: int, i: int)
    requires h in live
  {
    i == h || i == live[h].mid || i == live[h].last
  }

  /** Free descriptors and the chains in flight divide the descriptors between them. */
  ghost predicate Partition(free: set<int>, live: map<int, Chain>) {
    && (forall i :: i in free ==> 0 <= i < NUM)
    && (forall h, i :: h in live && Belongs(live, h, i) ==> 0 <= i < NUM && i !in free)
    && (forall h :: h in live ==> h != live[h].mid && h != live[h].last && live[h].mid != live[h].last)
    && (forall h, g, i :: h in live && g in live && Belongs(live, h, i) && Belongs(live, g, i) ==> h == g)
    && (forall i :: 0 <= i < NUM && i !in free ==> exists h :: h in live && Belongs(live, h, i))
  }

  /** The three descriptors of a request, as section 5.2.6 of VIRTIO 1.1 has them: the header, the data, the status. */
  function First(h: int, mid: int): Desc { Desc(Command(h), HEADER_SIZE, true, false, mid) }
  function Second(q: Request, last: int): Desc { Desc(Buffer(q.buf), BSIZE, true, !q.write, last) }
  function Third(h: int): Desc { Desc(Status(h), 1, false, true, 0) }

  ghost predicate Chained(desc: seq<Desc>, live: map<int, Chain>)
    requires |desc| == NUM
  {
    forall h :: h in live && 0 <= h < NUM && 0 <= live[h].mid < NUM && 0 <= live[h].last < NUM ==>
      desc[h] == First(h, live[h].mid) && desc[live[h].mid] == Second(live[h].request, live[h].last) && desc[live[h].last] == Third(h)
  }

  /** The command headers of requests in flight. */
  ghost predicate OpsOk(ops: seq<Header>, live: map<int, Chain>)
    requires |ops| == NUM
  {
    forall h :: h in live && 0 <= h < NUM ==> ops[h] == Header(live[h].request.write, live[h].request.sector)
  }

  /** The ring has the heads `queue` from position `start` on. */
  ghost predicate Window(ring: seq<int>, start: int, queue: seq<int>)
    requires |ring| == NUM
  {
    forall i :: 0 <= i < |queue| ==> ring[(start + i) % NUM] == queue[i]
  }

  /** The queue has each head in the given phase, once. */
  ghost predicate Queued(queue: seq<int>, live: map<int, Chain>, phase: Phase) {
    Distinct(queue) && forall h :: h in queue <==> h in live && live[h].phase == phase
  }

  ghost predicate AvailOk(s: State)
    requires Sized(s)
  {
    && |s.pending| <= s.posted && s.availIdx == s.posted % WORD16
    && Window(s.avail, s.posted - |s.pending|, s.pending) && Queued(s.pending, s.live, Posted)
  }

  ghost predicate UsedOk(s: State)
    requires Sized(s)
  {
    && s.seen == s.handled % WORD16 && s.usedIdx == (s.handled + |s.returned|) % WORD16
    && Window(s.used, s.handled, s.returned) && Queued(s.returned, s.live, Returned)
  }

  /** What the driver has noted of a request whose submitter has let go of the lock. */
  ghost predicate Noted(info: Info, c: Chain) {
    info.comp == Some(c.ticket) && info.done == (c.phase == Signalled)
  }

  /** The status byte: set by the driver, and cleared by the device when it is done with the request. */
  function StatusIn(phase: Phase): int {
    if phase == Posted || phase == Taken then 255 else 0
  }

  ghost predicate InfoOk(s: State)
    requires Sized(s)
  {
    && (s.lock.Submitter? ==> s.lock.head in s.live && s.live[s.lock.head].phase != Signalled)
    && forall h :: h in s.live && 0 <= h < NUM ==>
         s.info[h].status == StatusIn(s.live[h].phase) && (s.lock != Submitter(h) ==> Noted(s.info[h], s.live[h]))
  }

  /** Submission `t` is in flight and has not been signalled. */
  ghost predicate Waiting(live: map<int, Chain>, t: nat) {
    exists h :: h in live && live[h].ticket == t && live[h].phase != Signalled
  }

  /** Each submission has been signalled at most once, and all have been but those still waiting. */
  ghost predicate LogOk(s: State) {
    && (forall h :: h in s.live ==> s.live[h].ticket < s.tickets)
    && (forall h, g :: h in s.live && g in s.live && s.live[h].ticket == s.live[g].ticket ==> h == g)
    && Distinct(s.log)
    && forall t: nat :: t in s.log <==> t < s.tickets && !Waiting(s.live, t)
  }

  ghost predicate Good(s: State) {
    && Sized(s) && Partition(s.free, s.live) && Chained(s.desc, s.live) && OpsOk(s.ops, s.live)
    && AvailOk(s) && UsedOk(s) && InfoOk(s) && LogOk(s)
  }

  // ---------- the steps ----------

  function Inc(i: int): int {
    (i + 1) % WORD16
  }

  /** virtio_disk_rw up to the notification, with three descriptors already taken: the lock stays with the submitter */
  function Post(s: State, a: int, b: int, c: int, q: Request): State
    requires |s.desc| == |s.ops| == |s.avail| == |s.info| == NUM && 0 <= a < NUM && 0 <= b < NUM && 0 <= c < NUM
  {
    s.(ops := s.ops[a := Header(q.write, q.sector)],
       free := s.free - {a, b, c},
       desc := s.desc[a := First(a, b)][b := Second(q, c)][c := Third(a)],
       info := s.info[a := s.info[a].(status := 255)],
       avail := s.avail[s.availIdx % NUM := a], availIdx := Inc(s.availIdx), lock := Submitter(a),
       live := s.live[a := Chain(b, c, Posted, s.tickets, q)], pending := s.pending + [a],
       posted := s.posted + 1, tickets := s.tickets + 1)
  }

  /** the rest of that critical section */
  function Arm(s: State): State
    requires s.lock.Submitter? && s.lock.head in s.live && 0 <= s.lock.head < |s.info|
  {
    var h := s.lock.head;
    s.(info := s.info[h := s.info[h].(comp := Some(s.live[h].ticket), done := false)], lock := Open)
  }

  /** The device takes the oldest request it has not taken. */
  function Fetch(s: State): State
    requires s.pending != [] && s.pending[0] in s.live
  {
    var h := s.pending[0];
    s.(pending := s.pending[1..], live := s.live[h := s.live[h].(phase := Taken)])
  }

  /** The device is done with one of the requests it has: it writes the status, then the used ring. */
  function Return(s: State, h: int): State
    requires |s.used| == |s.info| == NUM && h in s.live && 0 <= h < NUM
  {
    s.(info := s.info[h := s.info[h].(status := 0)], used := s.used[s.usedIdx % NUM := h], usedIdx := Inc(s.usedIdx),
       live := s.live[h := s.live[h].(phase := Returned)], returned := s.returned + [h])
  }

  /** One round of the handler's loop */
  function Signal(s: State): State
    requires |s.used| == |s.info| == NUM && 0 <= s.used[s.seen % NUM] < NUM && s.used[s.seen % NUM] in s.live && s.returned != []
  {
    var id := s.used[s.seen % NUM];
    s.(info := s.info[id := s.info[id].(done := true)], seen := Inc(s.seen),
       live := s.live[id := s.live[id].(phase := Signalled)], returned := s.returned[1..], handled := s.handled + 1,
       log := s.log + [s.live[id].ticket])
  }

  /** virtio_disk_rw after the wait: the chain is freed */
  function Reap(s: State, h: int): State
    requires |s.info| == |s.desc| == NUM && h in s.live && 0 <= h < NUM && 0 <= s.live[h].mid < NUM && 0 <= s.live[h].last < NUM
  {
    var c, z := s.live[h], Desc(Nowhere, 0, false, false, 0);
    s.(info := s.info[h := s.info[h].(comp := None)], free := s.free + {h, c.mid, c.last},
       desc := s.desc[h := z][c.mid := z][c.last := z], live := s.live - {h})
  }

  // ---------- rings ----------

  lemma Wrapped(n: nat)
    ensures n % WORD16 % NUM == n % NUM && (n + 1) % WORD16 == Inc(n % WORD16)
  {
  }

  lemma Fits(queue: seq<int>)
    requires Distinct(queue) && forall i :: 0 <= i < |queue| ==> 0 <= queue[i] < NUM
    ensures |queue| <= NUM
  {
    Subset(queue, Upto(NUM));
  }

  ghost function Upto(n: nat): (r: set<int>)
    ensures |r| == n && forall i :: i in r <==> 0 <= i < n
  {
    if n == 0 then {} else Upto(n - 1) + {n - 1}
  }

  lemma Subset(queue: seq<int>, all: set<int>)
    requires Distinct(queue) && forall i :: 0 <= i < |queue| ==> queue[i] in all
    ensures |queue| <= |all|
  {
    if queue != [] {
      var n := |queue| - 1;
      Subset(queue[..n], all - {queue[n]});
    }
  }

  lemma SlotApart(x: int, d: int)
    requires 0 < d < NUM
    ensures (x - d) % NUM != x % NUM
  {
  }

  /** Adding to a ring with room leaves what waits in it alone. */
  lemma WindowAdd(ring: seq<int>, start: nat, queue: seq<int>, at: int, h: int)
    requires |ring| == NUM && |queue| < NUM && Window(ring, start, queue) && at == (start + |queue|) % NUM
    ensures Window(ring[at := h], start, queue + [h])
  {
    var all := queue + [h];
    forall i | 0 <= i < |all| ensures ring[at := h][(start + i) % NUM] == all[i] {
      if i < |queue| { SlotApart(start + |queue|, |queue| - i); }
    }
  }

  lemma WindowDrop(ring: seq<int>, start: int, queue: seq<int>)
    requires |ring| == NUM && queue != [] && Window(ring, start, queue)
    ensures ring[start % NUM] == queue[0] && Window(ring, start + 1, queue[1..])
  {
    assert ring[(start + 0) % NUM] == queue[0];
    forall i | 0 <= i < |queue| - 1 ensures ring[(start + 1 + i) % NUM] == queue[1..][i] {
      assert ring[(start + (i + 1)) % NUM] == queue[i + 1];
    }
  }

  // ---------- every step keeps the invariant ----------

  lemma QueueRoom(s: State, queue: seq<int>, phase: Phase, h: int)
    requires Good(s) && Queued(queue, s.live, phase) && h !in queue && 0 <= h < NUM
    ensures |queue| < NUM
  {
    var all := queue + [h];
    forall i | 0 <= i < |all| ensures 0 <= all[i] < NUM {
      if i < |queue| { assert all[i] in queue; assert Belongs(s.live, all[i], all[i]); }
    }
    Fits(all);
  }

  lemma PostPartition(s: State, a: int, b: int, c: int, q: Request)
    requires Good(s) && {a, b, c} <= s.free && a != b && a != c && b != c
    ensures Partition(Post(s, a, b, c, q).free, Post(s, a, b, c, q).live)
  {
    var live := Post(s, a, b, c, q).live;
    assert a !in s.live by { if a in s.live { assert Belongs(s.live, a, a); } }
    forall h, i | h in live && Belongs(live, h, i) ensures h in s.live ==> Belongs(s.live, h, i) && i !in s.free { }
    forall i | 0 <= i < NUM && i !in s.free - {a, b, c} ensures exists h :: h in live && Belongs(live, h, i) {
      if i in s.free { assert Belongs(live, a, i); }
      else {
        var h :| h in s.live && Belongs(s.live, h, i);
        assert Belongs(live, h, i);
      }
    }
  }

  lemma PostChained(s: State, a: int, b: int, c: int, q: Request)
    requires Good(s) && {a, b, c} <= s.free && a != b && a != c && b != c
    ensures Chained(Post(s, a, b, c, q).desc, Post(s, a, b, c, q).live)
  {
    hide AvailOk, UsedOk, InfoOk, LogOk;
    NotLive(s, a);
    forall h | h in s.live ensures h !in s.free && s.live[h].mid !in s.free && s.live[h].last !in s.free {
      assert Belongs(s.live, h, h) && Belongs(s.live, h, s.live[h].mid) && Belongs(s.live, h, s.live[h].last);
    }
    assert 0 <= a < NUM && 0 <= b < NUM && 0 <= c < NUM;
    hide Partition;
    var desc, live := Post(s, a, b, c, q).desc, Post(s, a, b, c, q).live;
    assert desc[a] == First(a, b) && desc[b] == Second(q, c) && desc[c] == Third(a);
    forall i | 0 <= i < NUM && i !in {a, b, c} ensures desc[i] == s.desc[i] { }
    forall h | h in s.live ensures h != a && live[h] == s.live[h] { }
  }

  lemma PostAvail(s: State, a: int, b: int, c: int, q: Request)
    requires Good(s) && {a, b, c} <= s.free
    ensures AvailOk(Post(s, a, b, c, q))
  {
    assert a !in s.live by { if a in s.live { assert Belongs(s.live, a, a); } }
    assert a !in s.pending;
    QueueRoom(s, s.pending, Posted, a);
    Wrapped(s.posted);
    WindowAdd(s.avail, s.posted - |s.pending|, s.pending, s.posted % NUM, a);
  }

  lemma PostLog(s: State, a: int, b: int, c: int, q: Request)
    requires Good(s) && {a, b, c} <= s.free
    ensures LogOk(Post(s, a, b, c, q))
  {
    assert a !in s.live by { if a in s.live { assert Belongs(s.live, a, a); } }
    var live := Post(s, a, b, c, q).live;
    forall t: nat ensures Waiting(live, t) <==> Waiting(s.live, t) || t == s.tickets {
      if Waiting(s.live, t) {
        var h :| h in s.live && s.live[h].ticket == t && s.live[h].phase != Signalled;
        assert h in live && live[h] == s.live[h];
      }
      if t == s.tickets { assert a in live && live[a].ticket == t; }
    }
  }

  /** A submitter that holds the lock and has three free descriptors. */
  lemma PostGood(s: State, a: int, b: int, c: int, q: Request)
    requires Good(s) && s.lock == Open && {a, b, c} <= s.free && a != b && a != c && b != c
    ensures Good(Post(s, a, b, c, q))
  {
    assert 0 <= a < NUM && 0 <= b < NUM && 0 <= c < NUM;
    hide Partition, Chained, AvailOk, UsedOk, InfoOk, LogOk;
    PostPartition(s, a, b, c, q);
    PostChained(s, a, b, c, q);
    assert OpsOk(Post(s, a, b, c, q).ops, Post(s, a, b, c, q).live);
    PostAvail(s, a, b, c, q);
    PostUsed(s, a, b, c, q);
    PostInfo(s, a, b, c, q);
    PostLog(s, a, b, c, q);
  }

  lemma PostUsed(s: State, a: int, b: int, c: int, q: Request)
    requires Good(s) && {a, b, c} <= s.free
    ensures UsedOk(Post(s, a, b, c, q))
  {
    hide AvailOk, Chained, InfoOk, LogOk;
    NotLive(s, a);
  }

  lemma PostInfo(s: State, a: int, b: int, c: int, q: Request)
    requires Good(s) && s.lock == Open && {a, b, c} <= s.free
    ensures InfoOk(Post(s, a, b, c, q))
  {
    hide AvailOk, UsedOk, Chained, LogOk;
    NotLive(s, a);
  }

  lemma NotLive(s: State, a: int)
    requires Good(s) && a in s.free
    ensures a !in s.live
  {
    if a in s.live { assert Belongs(s.live, a, a); }
  }

  lemma ArmGood(s: State)
    requires Good(s) && s.lock.Submitter?
    ensures s.lock.head in s.live && 0 <= s.lock.head < NUM && Good(Arm(s))
  {
    assert Belongs(s.live, s.lock.head, s.lock.head);
  }

  /** A request moves to another phase. */
  ghost predicate Moved(live: map<int, Chain>, live': map<int, Chain>, h: int, phase: Phase) {
    h in live && live' == live[h := live[h].(phase := phase)]
  }

  lemma MovedParts(free: set<int>, desc: seq<Desc>, ops: seq<Header>, live: map<int, Chain>, live': map<int, Chain>, h: int, phase: Phase)
    requires |desc| == |ops| == NUM && Partition(free, live) && Chained(desc, live) && OpsOk(ops, live) && Moved(live, live', h, phase)
    ensures Partition(free, live') && Chained(desc, live') && OpsOk(ops, live')
  {
    forall g, i | g in live ensures Belongs(live', g, i) <==> Belongs(live, g, i) { }
  }

  lemma MovedLog(s: State, s': State, h: int, phase: Phase)
    requires LogOk(s) && Moved(s.live, s'.live, h, phase) && s.live[h].phase != Signalled && phase != Signalled
    requires s'.log == s.log && s'.tickets == s.tickets
    ensures LogOk(s')
  {
    forall t: nat ensures Waiting(s'.live, t) <==> Waiting(s.live, t) {
      if Waiting(s.live, t) {
        var g :| g in s.live && s.live[g].ticket == t && s.live[g].phase != Signalled;
        assert g in s'.live && s'.live[g].ticket == t;
      }
    }
  }

  lemma QueuedDrop(queue: seq<int>, live: map<int, Chain>, live': map<int, Chain>, phase: Phase, next: Phase)
    requires queue != [] && Queued(queue, live, phase) && Moved(live, live', queue[0], next) && next != phase
    ensures Queued(queue[1..], live', phase)
  {
    assert queue == [queue[0]] + queue[1..];
    forall h ensures h in queue[1..] <==> h in live' && live'[h].phase == phase { }
  }

  lemma QueuedAdd(queue: seq<int>, live: map<int, Chain>, live': map<int, Chain>, phase: Phase, h: int)
    requires Queued(queue, live, phase) && h in live && live[h].phase != phase && Moved(live, live', h, phase)
    ensures Queued(queue + [h], live', phase) && h !in queue
  {
    forall g ensures g in queue + [h] <==> g in live' && live'[g].phase == phase { }
  }

  lemma QueuedOther(queue: seq<int>, live: map<int, Chain>, live': map<int, Chain>, phase: Phase, h: int, next: Phase)
    requires Queued(queue, live, phase) && Moved(live, live', h, next) && next != phase && live[h].phase != phase
    ensures Queued(queue, live', phase)
  {
  }

  /** What the device makes of the chain at a head: the command, the buffer and its direction, and the status byte. */
  ghost predicate Means(s: State, h: int, q: Request)
    requires Sized(s) && 0 <= h < NUM
  {
    var d0 := s.desc[h];
    d0.more && !d0.deviceWrites && d0.at == Command(h) && d0.len == HEADER_SIZE && s.ops[h] == Header(q.write, q.sector)
    && 0 <= d0.next < NUM && var d1 := s.desc[d0.next];
    d1.more && d1.at == Buffer(q.buf) && d1.len == BSIZE && d1.deviceWrites == !q.write
    && 0 <= d1.next < NUM && var d2 := s.desc[d1.next];
    !d2.more && d2.deviceWrites && d2.at == Status(h) && d2.len == 1
  }

  /** For as long as a request is in flight, its chain says what its submitter asked for. */
  lemma ChainMeans(s: State, h: int)
    requires Good(s) && h in s.live
    ensures 0 <= h < NUM && Means(s, h, s.live[h].request)
  {
    Ranged(s, h);
    hide AvailOk, UsedOk, InfoOk, LogOk, Partition;
  }

  /** The device finds the head in the ring, at its own count of requests taken. */
  lemma FetchGood(s: State)
    requires Good(s) && s.pending != []
    ensures s.pending[0] in s.live && s.avail[(s.posted - |s.pending|) % NUM] == s.pending[0] && Good(Fetch(s))
  {
    hide Partition, Chained, LogOk, Window, Queued;
    var h := s.pending[0];
    assert h in s.pending;
    QueueHas(s.pending, s.live, Posted, h);
    var s' := Fetch(s);
    MovedParts(s.free, s.desc, s.ops, s.live, s'.live, h, Taken);
    MovedLog(s, s', h, Taken);
    QueuedDrop(s.pending, s.live, s'.live, Posted, Taken);
    QueuedOther(s.returned, s.live, s'.live, Returned, h, Taken);
    WindowDrop(s.avail, s.posted - |s.pending|, s.pending);
    assert s.posted - |s'.pending| == s.posted - |s.pending| + 1;
  }

  lemma QueueHas(queue: seq<int>, live: map<int, Chain>, phase: Phase, h: int)
    requires Queued(queue, live, phase)
    ensures h in queue <==> h in live && live[h].phase == phase
  {
  }

  lemma Ranged(s: State, h: int)
    requires Good(s) && h in s.live
    ensures 0 <= h < NUM && 0 <= s.live[h].mid < NUM && 0 <= s.live[h].last < NUM
  {
    assert Belongs(s.live, h, h) && Belongs(s.live, h, s.live[h].mid) && Belongs(s.live, h, s.live[h].last);
  }

  lemma ReturnInfo(s: State, h: int)
    requires Sized(s) && InfoOk(s) && h in s.live && s.live[h].phase == Taken && 0 <= h < NUM
    ensures InfoOk(Return(s, h))
  {
  }

  lemma ReturnUsed(s: State, h: int)
    requires Good(s) && h in s.live && s.live[h].phase == Taken && 0 <= h < NUM
    ensures UsedOk(Return(s, h))
  {
    hide Partition, Chained, OpsOk, LogOk, Window, Queued, Distinct, InfoOk, AvailOk;
    var s' := Return(s, h);
    QueuedAdd(s.returned, s.live, s'.live, Returned, h);
    QueueRoom(s, s.returned, Returned, h);
    Wrapped(s.handled + |s.returned|);
    WindowAdd(s.used, s.handled, s.returned, (s.handled + |s.returned|) % NUM, h);
  }

  /** The device may return the requests it has in any order. */
  lemma ReturnGood(s: State, h: int)
    requires Good(s) && h in s.live && s.live[h].phase == Taken
    ensures 0 <= h < NUM && Good(Return(s, h))
  {
    Ranged(s, h);
    hide Partition, Chained, OpsOk, LogOk, Window, Queued, Distinct;
    var s' := Return(s, h);
    ReturnInfo(s, h);
    ReturnUsed(s, h);
    hide InfoOk, UsedOk;
    MovedParts(s.free, s.desc, s.ops, s.live, s'.live, h, Returned);
    MovedLog(s, s', h, Returned);
    assert Queued(s.pending, s'.live, Posted) by { QueuedOther(s.pending, s.live, s'.live, Posted, h, Returned); }
  }

  /** The handler sees a difference between the two 16-bit counts exactly when a request waits to be signalled. */
  lemma SeesReturned(s: State)
    requires Good(s)
    ensures s.seen != s.usedIdx <==> s.returned != []
  {
    forall i | 0 <= i < |s.returned| ensures 0 <= s.returned[i] < NUM {
      assert s.returned[i] in s.returned;
      Ranged(s, s.returned[i]);
    }
    Fits(s.returned);
  }

  lemma SignalLog(s: State, s': State, id: int)
    requires LogOk(s) && Moved(s.live, s'.live, id, Signalled) && s.live[id].phase != Signalled
    requires s'.log == s.log + [s.live[id].ticket] && s'.tickets == s.tickets
    ensures LogOk(s')
  {
    var k := s.live[id].ticket;
    assert Waiting(s.live, k);
    forall t: nat ensures Waiting(s'.live, t) <==> Waiting(s.live, t) && t != k {
      if Waiting(s.live, t) && t != k {
        var g :| g in s.live && s.live[g].ticket == t && s.live[g].phase != Signalled;
        assert g in s'.live && s'.live[g] == s.live[g];
      }
    }
  }

  /** When the handler looks at a request, its completion is there, it has not been signalled, and the status is 0. */
  lemma SignalGood(s: State)
    requires Good(s) && s.lock == Handler && s.returned != []
    ensures var id := s.used[s.seen % NUM];
            && id in s.live && 0 <= id < NUM && s.live[id].phase == Returned
            && s.info[id].status == 0 && s.info[id].comp == Some(s.live[id].ticket) && !s.info[id].done
            && s.live[id].ticket !in s.log
    ensures Good(Signal(s))
  {
    hide Partition, Chained, Window, Queued;
    var id := s.returned[0];
    Wrapped(s.handled);
    WindowDrop(s.used, s.handled, s.returned);
    assert id in s.returned;
    QueueHas(s.returned, s.live, Returned, id);
    Ranged(s, id);
    assert Waiting(s.live, s.live[id].ticket);
    var s' := Signal(s);
    MovedParts(s.free, s.desc, s.ops, s.live, s'.live, id, Signalled);
    SignalLog(s, s', id);
    hide LogOk, Waiting;
    QueuedDrop(s.returned, s.live, s'.live, Returned, Signalled);
    QueuedOther(s.pending, s.live, s'.live, Posted, id, Signalled);
  }

  lemma ReapPartition(s: State, h: int)
    requires Good(s) && h in s.live
    ensures Partition(s.free + {h, s.live[h].mid, s.live[h].last}, s.live - {h})
  {
    hide AvailOk, UsedOk, InfoOk, LogOk, Chained;
    Ranged(s, h);
    var live, free := s.live - {h}, s.free + {h, s.live[h].mid, s.live[h].last};
    forall i | i in free && i !in s.free ensures Belongs(s.live, h, i) { }
    forall g, i | g in live && Belongs(live, g, i) ensures 0 <= i < NUM && i !in free { assert Belongs(s.live, g, i); }
    forall i | 0 <= i < NUM && i !in free ensures exists g :: g in live && Belongs(live, g, i) {
      var g :| g in s.live && Belongs(s.live, g, i);
      assert Belongs(live, g, i);
    }
    forall g, k, i | g in live && k in live && Belongs(live, g, i) && Belongs(live, k, i) ensures g == k {
      assert Belongs(s.live, g, i) && Belongs(s.live, k, i);
    }
  }

  /** Descriptors of another request are none of this one's. */
  lemma NotShared(s: State, g: int, h: int, i: int)
    requires Good(s) && g in s.live && h in s.live && g != h && Belongs(s.live, g, i)
    ensures i != h && i != s.live[h].mid && i != s.live[h].last && 0 <= i < NUM
  {
    hide AvailOk, UsedOk, InfoOk, LogOk, Chained, OpsOk;
    assert Belongs(s.live, h, h) && Belongs(s.live, h, s.live[h].mid) && Belongs(s.live, h, s.live[h].last);
  }

  lemma ReapChained(s: State, h: int)
    requires Good(s) && h in s.live
    ensures 0 <= h < NUM && 0 <= s.live[h].mid < NUM && 0 <= s.live[h].last < NUM
    ensures Chained(Reap(s, h).desc, s.live - {h}) && OpsOk(s.ops, s.live - {h})
  {
    Ranged(s, h);
    hide AvailOk, UsedOk, InfoOk, LogOk, Partition;
    var desc := Reap(s, h).desc;
    forall g, i | g in s.live && g != h && Belongs(s.live, g, i) ensures 0 <= i < NUM && desc[i] == s.desc[i] { NotShared(s, g, h, i); }
    forall g | g in s.live ensures Belongs(s.live, g, g) && Belongs(s.live, g, s.live[g].mid) && Belongs(s.live, g, s.live[g].last) { }
  }

  lemma ReapLog(s: State, s': State, h: int)
    requires LogOk(s) && h in s.live && s.live[h].phase == Signalled && s'.live == s.live - {h} && s'.log == s.log && s'.tickets == s.tickets
    ensures LogOk(s')
  {
    forall t: nat ensures Waiting(s'.live, t) <==> Waiting(s.live, t) {
      if Waiting(s.live, t) {
        var g :| g in s.live && s.live[g].ticket == t && s.live[g].phase != Signalled;
        assert g in s'.live && s'.live[g] == s.live[g];
      }
    }
  }

  /** When a woken submitter has the lock again its request is done, was signalled once, and its descriptors go back. */
  lemma ReapGood(s: State, h: int)
    requires Good(s) && s.lock == Open && h in s.live && s.live[h].phase == Signalled
    ensures 0 <= h < NUM && s.info[h].done && s.live[h].ticket in s.log
    ensures 0 <= s.live[h].mid < NUM && 0 <= s.live[h].last < NUM && Good(Reap(s, h))
  {
    Ranged(s, h);
    assert s.live[h].ticket in s.log by { SignalledLogged(s, h); }
    ReapPartition(s, h);
    ReapChained(s, h);
    hide Partition, Chained, Window, Distinct;
    var s' := Reap(s, h);
    ReapLog(s, s', h);
    hide LogOk;
  }

  lemma SignalledLogged(s: State, h: int)
    requires LogOk(s) && h in s.live && s.live[h].phase == Signalled
    ensures s.live[h].ticket in s.log
  {
    var t := s.live[h].ticket;
    assert !Waiting(s.live, t);
  }

  // ---------- whole runs ----------

  datatype Move = Submit(a: int, b: int, c: int, q: Request) | Release | DeviceTakes | DeviceReturns(h: int)
                | Interrupt | Round | EndInterrupt | Resume(head: int)

  /** One step of a submitter, of the device, of the handler, or of a submitter whose request is done. */
  ghost predicate Next(s: State, m: Move, s': State) {
    match m
    case Submit(a, b, c, q) => Sized(s) && s.lock == Open && {a, b, c} <= s.free <= Upto(NUM) && a != b && a != c && b != c && s' == Post(s, a, b, c, q)
    case Release => s.lock.Submitter? && s.lock.head in s.live && 0 <= s.lock.head < |s.info| && s' == Arm(s)
    case DeviceTakes => s.pending != [] && s.pending[0] in s.live && s' == Fetch(s)
    case DeviceReturns(h) => Sized(s) && h in s.live && s.live[h].phase == Taken && 0 <= h < NUM && s' == Return(s, h)
    case Interrupt => s.lock == Open && s' == s.(lock := Handler)
    case Round => s.lock == Handler && s.seen != s.usedIdx && CanSignal(s) && s' == Signal(s)
    case EndInterrupt => s.lock == Handler && s.seen == s.usedIdx && s' == s.(lock := Open)
    case Resume(h) => s.lock == Open && CanReap(s, h) && s.info[h].done && s.live[h].phase == Signalled && s' == Reap(s, h)
  }

  /** Nothing the handler checks before it signals a request fails. */
  ghost predicate CanSignal(s: State) {
    && Sized(s) && s.returned != []
    && var id := s.used[s.seen % NUM];
       0 <= id < NUM && id in s.live && s.info[id].comp == Some(s.live[id].ticket) && !s.info[id].done && s.info[id].status == 0
  }

  ghost predicate CanReap(s: State, h: int) {
    Sized(s) && h in s.live && 0 <= h < NUM && 0 <= s.live[h].mid < NUM && 0 <= s.live[h].last < NUM
  }

  lemma LockGood(s: State, lock: Lock)
    requires Good(s) && !s.lock.Submitter? && !lock.Submitter?
    ensures Good(s.(lock := lock))
  {
    hide Partition, Chained, Window, Queued, Distinct, Waiting;
  }

  lemma NextGood(s: State, m: Move, s': State)
    requires Good(s) && Next(s, m, s')
    ensures Good(s')
  {
    match m {
      case Submit(a, b, c, q) => PostGood(s, a, b, c, q);
      case Release => ArmGood(s);
      case DeviceTakes => FetchGood(s);
      case DeviceReturns(h) => ReturnGood(s, h);
      case Interrupt => LockGood(s, Handler);
      case Round => SignalGood(s);
      case EndInterrupt => LockGood(s, Open);
      case Resume(h) => ReapGood(s, h);
    }
  }

  /** The handler's checks, and the submitter's, hold whenever they are made. */
  lemma NoCheckFails(s: State, h: int)
    requires Good(s)
    ensures s.lock == Handler && s.seen != s.usedIdx ==> CanSignal(s)
    ensures s.lock == Open && h in s.live && s.live[h].phase == Signalled ==> CanReap(s, h) && s.info[h].done
  {
    SeesReturned(s);
    if s.lock == Handler && s.seen != s.usedIdx { SignalGood(s); }
    if s.lock == Open && h in s.live && s.live[h].phase == Signalled { ReapGood(s, h); }
  }

  /** Nothing posted, all descriptors free. */
  ghost predicate Fresh(s: State) {
    && Sized(s) && s.free == Upto(NUM) && s.live == map[] && s.pending == [] && s.returned == []
    && s.posted == s.handled == s.tickets == 0 && s.log == [] && s.lock == Open
    && s.availIdx == 0 && s.usedIdx == 0 && s.seen == 0
  }

  lemma FreshGood(s: State)
    requires Fresh(s)
    ensures Good(s)
  {
  }

  ghost predicate IsRun(states: seq<State>, moves: seq<Move>) {
    && |states| == |moves| + 1 && Fresh(states[0])
    && forall i :: 0 <= i < |moves| ==> Next(states[i], moves[i], states[i + 1])
  }

  lemma {:induction false} RunGood(states: seq<State>, moves: seq<Move>, k: nat)
    requires IsRun(states, moves) && k < |states|
    ensures Good(states[k])
  {
    hide Good, Next, Fresh;
    if k == 0 {
      FreshGood(states[0]);
    } else {
      RunGood(states, moves, k - 1);
      NextGood(states[k - 1], moves[k - 1], states[k]);
    }
  }

  /** A request in flight stays what it was asked to be. */
  lemma RequestKept(s: State, m: Move, s': State, h: int)
    requires Good(s) && Next(s, m, s') && h in s.live && m != Resume(h)
    ensures h in s'.live && s'.live[h].request == s.live[h].request && s'.live[h].ticket == s.live[h].ticket
  {
    if m.Submit? { NotLive(s, m.a); }
    hide Good;
  }

  lemma AskedThen(s: State, a: int, b: int, c: int, q: Request, s': State)
    requires Next(s, Submit(a, b, c, q), s')
    ensures a in s'.live && s'.live[a].request == q
  {
  }

  /** From its submission until its submitter takes the descriptors back, the chain at a head says what was asked for: the
      command, the sector, the buffer and the direction. */
  lemma {:induction false} MeansAsked(states: seq<State>, moves: seq<Move>, i: nat, j: nat, a: int, b: int, c: int, q: Request)
    requires IsRun(states, moves) && i < j < |states| && moves[i] == Submit(a, b, c, q) && forall n :: i < n < j ==> moves[n] != Resume(a)
    ensures Good(states[j]) && 0 <= a < NUM && a in states[j].live && states[j].live[a].request == q && Means(states[j], a, q)
    decreases j
  {
    hide Good, Next, Means;
    RunGood(states, moves, j);
    if j == i + 1 {
      AskedThen(states[i], a, b, c, q, states[j]);
    } else {
      MeansAsked(states, moves, i, j - 1, a, b, c, q);
      RequestKept(states[j - 1], moves[j - 1], states[j], a);
    }
    ChainMeans(states[j], a);
  }

  /** The status byte says whether the device is done with a request. */
  lemma StatusTells(s: State, h: int)
    requires Good(s) && h in s.live
    ensures 0 <= h < NUM && s.info[h].status == if s.live[h].phase in {Returned, Signalled} then 0 else 255
  {
    Ranged(s, h);
  }

  /** However the steps interleave, a submission that has returned was signalled exactly once. */
  lemma SignalledOnce(states: seq<State>, moves: seq<Move>, k: nat, t: nat)
    requires IsRun(states, moves) && k < |states| && t < states[k].tickets
    ensures multiset(states[k].log)[t] == if Waiting(states[k].live, t) then 0 else 1
  {
    RunGood(states, moves, k);
    CountDistinct(states[k].log, t);
  }

  lemma {:induction false} CountDistinct(log: seq<nat>, t: nat)
    requires Distinct(log)
    ensures multiset(log)[t] == if t in log then 1 else 0
  {
    if log != [] {
      var n := |log| - 1;
      assert log == log[..n] + [log[n]];
      CountDistinct(log[..n], t);
    }
  }
}
