/** The driver side of kernel/virtio_disk.c, on its arrays, and the free list of kernel/inc/freelist.h that hands out
    descriptors. */
module VirtioDisk {
  import opened Basics
  import opened VirtioRing

  /** The first `n` entries of the list are the items marked free, each once. */
  ghost predicate ListsFree(free: seq<bool>, list: seq<int>, n: int) {
    && |free| == |list| && 0 <= n <= |list| && Distinct(list[..n])
    && (forall k :: 0 <= k < n ==> 0 <= list[k] < |free| && free[list[k]])
    && (forall i :: 0 <= i < |free| && free[i] ==> i in list[..n])
  }

  ghost function FreeIn(free: seq<bool>): set<int> {
    set i | i in Upto(|free|) && free[i]
  }

  lemma TakeLast(free: seq<bool>, list: seq<int>, n: int)
    requires ListsFree(free, list, n) && n > 0
    ensures 0 <= list[n - 1] < |free| && free[list[n - 1]]
    ensures ListsFree(free[list[n - 1] := false], list, n - 1)
    ensures FreeIn(free[list[n - 1] := false]) == FreeIn(free) - {list[n - 1]}
  {
    assert list[..n] == list[..n - 1] + [list[n - 1]];
  }

  lemma GiveBack(free: seq<bool>, list: seq<int>, n: int, i: int)
    requires ListsFree(free, list, n) && 0 <= i < |free| && !free[i]
    ensures n < |list|
    ensures ListsFree(free[i := true], list[n := i], n + 1) && FreeIn(free[i := true]) == FreeIn(free) + {i}
  {
    assert i !in list[..n];
    assert forall k :: 0 <= k < n ==> list[..n][k] == list[k];
    Subset(list[..n], Upto(|list|) - {i});
    GiveBackList(free, list, n, i);
    GiveBackSet(free, i);
  }

  lemma GiveBackList(free: seq<bool>, list: seq<int>, n: int, i: int)
    requires ListsFree(free, list, n) && 0 <= i < |free| && !free[i] && n < |list|
    ensures ListsFree(free[i := true], list[n := i], n + 1)
  {
    var list', front := list[n := i], list[..n];
    assert list'[..n + 1] == front + [i];
    assert forall k :: 0 <= k < n ==> list'[k] == front[k] != i;
  }

  lemma GiveBackSet(free: seq<bool>, i: int)
    requires 0 <= i < |free|
    ensures FreeIn(free[i := true]) == FreeIn(free) + {i}
  {
  }

  lemma NoneFree(free: seq<bool>, list: seq<int>, n: int)
    requires ListsFree(free, list, n)
    ensures n == |FreeIn(free)|
  {
    Gather(list[..n], FreeIn(free));
  }

  lemma Gather(s: seq<int>, all: set<int>)
    requires Distinct(s) && forall i :: i in s <==> i in all
    ensures |s| == |all|
  {
    if s == [] {
      assert forall i :: i in all ==> i in s;
    } else {
      var n := |s| - 1;
      assert s == s[..n] + [s[n]];
      Gather(s[..n], all - {s[n]});
    }
  }

  class Freelist {
    const free: array<bool>
    const list: array<int>
    var idx: int

    ghost predicate Valid()
      reads this, free, list
    {
      ListsFree(free[..], list[..], idx)
    }

    ghost function Free(): set<int>
      reads free
    {
      FreeIn(free[..])
    }

    /** freelist_init */
    constructor (maxItems: nat)
      ensures Valid() && Free() == Upto(maxItems) && free.Length == maxItems && fresh(free) && fresh(list)
    {
      free := new bool[maxItems];
      list := new int[maxItems];
      new;
      idx := 0;
      var i := 0;
      while i < maxItems
        invariant 0 <= i <= maxItems && idx == i
        invariant forall k :: 0 <= k < i ==> free[k] && list[k] == k
      {
        free[i], list[i] := true, i;
        idx := idx + 1;
        i := i + 1;
      }
      assert forall k :: 0 <= k < maxItems ==> list[..][..maxItems][k] == k;
    }

    /** freelist_alloc */
    method Alloc() returns (r: int)
      requires Valid()
      modifies this`idx, free
      ensures Valid() && (r == -1 <==> old(Free()) == {})
      ensures r != -1 ==> r in old(Free()) && Free() == old(Free()) - {r}
      ensures r == -1 ==> Free() == old(Free())
    {
      NoneFree(free[..], list[..], idx);
      if idx <= 0 { return -1; }
      TakeLast(free[..], list[..], idx);
      idx := idx - 1;
      r := list[idx];
      ghost var was := free[..];
      free[r] := false;
      assert free[..] == was[r := false];
    }

    /** freelist_free: it refuses an item out of range or already free, and never finds the list overfull */
    method Release(i: int) returns (r: int)
      requires Valid()
      modifies this`idx, free, list
      ensures Valid()
      ensures r == if 0 <= i < free.Length && i !in old(Free()) then 0 else -1
      ensures Free() == if r == 0 then old(Free()) + {i} else old(Free())
    {
      if i < 0 || i >= free.Length { return -1; }
      if free[i] { return -1; }
      ghost var was, order := free[..], list[..];
      GiveBack(was, order, idx, i);
      free[i] := true;
      list[idx] := i;
      idx := idx + 1;
      assert free[..] == was[i := true] && list[..] == order[idx - 1 := i];
      if idx > free.Length { return -1; }
      return 0;
    }
  }

  const ZERO := Desc(Nowhere, 0, false, false, 0)

  /** Descriptor `h` leads to `mid`, that to `last`, and that to none. */
  ghost predicate Linked(desc: seq<Desc>, h: int, mid: int, last: int) {
    && 0 <= h < |desc| && 0 <= mid < |desc| && 0 <= last < |desc| && h != mid && h != last && mid != last
    && desc[h].more && desc[h].next == mid && desc[mid].more && desc[mid].next == last && !desc[last].more
  }

  class Driver {
    const fl: Freelist
    const desc: array<Desc>
    const ops: array<Header>
    const availRing: array<int>
    const usedRing: array<int>
    const info: array<Info>
    var availIdx: int
    var usedIdx: int
    var seen: int
    var lock: Lock

    ghost var live: map<int, Chain>
    ghost var pending: seq<int>
    ghost var returned: seq<int>
    ghost var posted: nat
    ghost var handled: nat
    ghost var tickets: nat
    ghost var log: seq<nat>

    ghost function View(): State
      reads this, fl.free, desc, ops, availRing, usedRing, info
    {
      State(fl.Free(), desc[..], ops[..], availRing[..], availIdx, usedRing[..], usedIdx, seen, info[..], lock,
            live, pending, returned, posted, handled, tickets, log)
    }

    ghost predicate Apart()
      reads this
    {
      availRing != usedRing && fl.list != availRing && fl.list != usedRing && desc.Length == fl.free.Length == NUM
    }

    ghost predicate Valid()
      reads this, fl, fl.free, fl.list, desc, ops, availRing, usedRing, info
    {
      Apart() && fl.Valid() && Good(View())
    }

    /** Over freshly initialised memory */
    constructor (fl: Freelist, desc: array<Desc>, ops: array<Header>, availRing: array<int>, usedRing: array<int>, info: array<Info>)
      requires fl.Valid() && fl.Free() == Upto(NUM) && desc.Length == ops.Length == fl.free.Length == availRing.Length == usedRing.Length == info.Length == NUM
      requires availRing != usedRing && fl.list != availRing && fl.list != usedRing
      ensures Valid() && Fresh(View())
      ensures this.fl == fl && this.desc == desc && this.ops == ops && this.availRing == availRing && this.usedRing == usedRing && this.info == info
    {
      hide Good, ListsFree, FreeIn, Upto;
      this.fl, this.desc, this.ops, this.availRing, this.usedRing, this.info := fl, desc, ops, availRing, usedRing, info;
      availIdx, usedIdx, seen, lock := 0, 0, 0, Open;
      live, pending, returned, posted, handled, tickets, log := map[], [], [], 0, 0, 0, [];
      new;
      FreshGood(View());
    }

    /** free_desc: panics on a descriptor out of range or already free, which is never asked of it */
    method FreeDesc(i: int)
      requires Apart() && fl.Valid() && 0 <= i < NUM && i !in fl.Free()
      modifies fl, fl.free, fl.list, desc
      ensures fl.Valid() && fl.Free() == old(fl.Free()) + {i} && desc[..] == old(desc[..])[i := ZERO]
    {
      hide ListsFree, FreeIn;
      var r := fl.Release(i);
      assert r == 0;
      desc[i] := ZERO;
    }

    /** free_chain: frees the three descriptors of a request and no others */
    method FreeChain(h: int, ghost mid: int, ghost last: int)
      requires Apart() && fl.Valid() && Linked(desc[..], h, mid, last) && h !in fl.Free() && mid !in fl.Free() && last !in fl.Free()
      modifies fl, fl.free, fl.list, desc
      ensures fl.Valid() && fl.Free() == old(fl.Free()) + {h, mid, last}
      ensures desc[..] == old(desc[..])[h := ZERO][mid := ZERO][last := ZERO]
    {
      hide ListsFree, FreeIn;
      ghost var d, f := desc[..], fl.Free();
      var i, more := h, true;
      ghost var n := 0;
      while more
        invariant fl.Valid() && 0 <= n <= 3 && (more <==> n < 3)
        invariant n == 0 ==> i == h && desc[..] == d && fl.Free() == f
        invariant n == 1 ==> i == mid && desc[..] == d[h := ZERO] && fl.Free() == f + {h}
        invariant n == 2 ==> i == last && desc[..] == d[h := ZERO][mid := ZERO] && fl.Free() == f + {h, mid}
        invariant n == 3 ==> desc[..] == d[h := ZERO][mid := ZERO][last := ZERO] && fl.Free() == f + {h, mid, last}
        decreases 3 - n
      {
        ghost var now := desc[..];
        assert now[i] == d[i];
        var flag, nxt := desc[i].more, desc[i].next;
        FreeDesc(i);
        if flag { i := nxt; } else { more := false; }
        n := n + 1;
      }
    }

    /** Frees the descriptors an alloc3_desc that ran out has taken. */
    method PutBack(idx: seq<int>, ghost f: set<int>)
      requires Apart() && fl.Valid() && Distinct(idx) && (forall k :: 0 <= k < |idx| ==> idx[k] in f && 0 <= idx[k] < NUM)
      requires fl.Free() == f - Members(idx)
      modifies fl, fl.free, fl.list, desc
      ensures fl.Valid() && fl.Free() == f
      ensures forall i :: 0 <= i < NUM && desc[i] != old(desc[i]) ==> i in f
    {
      hide ListsFree, FreeIn, Distinct, Members;
      assert idx[0..] == idx;
      var j := 0;
      while j < |idx|
        invariant 0 <= j <= |idx| && fl.Valid() && fl.Free() == f - Members(idx[j..])
        invariant forall k :: 0 <= k < NUM && desc[k] != old(desc[k]) ==> k in f
      {
        OneBack(f, idx, j);
        FreeDesc(idx[j]);
        j := j + 1;
      }
      assert idx[j..] == [];
      assert f - Members([]) == f;
    }

    /** alloc3_desc: three different free descriptors, or none at all */
    method Alloc3Desc() returns (ok: bool, idx: seq<int>)
      requires Apart() && fl.Valid()
      modifies fl, fl.free, fl.list, desc
      ensures fl.Valid() && (ok <==> |old(fl.Free())| >= 3)
      ensures ok ==> |idx| == 3 && Distinct(idx) && desc[..] == old(desc[..])
      ensures ok ==> {idx[0], idx[1], idx[2]} <= old(fl.Free()) && fl.Free() == old(fl.Free()) - {idx[0], idx[1], idx[2]}
      ensures !ok ==> fl.Free() == old(fl.Free())
      ensures forall i :: 0 <= i < NUM && desc[i] != old(desc[i]) ==> i in old(fl.Free())
    {
      hide ListsFree, FreeIn, Members, Distinct;
      ghost var f := fl.Free();
      FreeRange(fl.free[..]);
      idx := [];
      NoMembers(f);
      var i := 0;
      while i < 3
        invariant 0 <= i <= 3 && |idx| == i && fl.Valid() && Distinct(idx) && desc[..] == old(desc[..])
        invariant (forall k :: 0 <= k < i ==> idx[k] in f) && fl.Free() == f - Members(idx)
      {
        var d := fl.Alloc();
        if d < 0 {
          AllTaken(f, idx);
          PutBack(idx, f);
          return false, [];
        }
        OneMore(f, idx, d);
        idx := idx + [d];
        i := i + 1;
      }
      MembersThree(idx);
      AtLeast(f, idx);
      ok := true;
    }

    /** Formats the command header and the three descriptors. */
    method Format(a: int, b: int, c: int, q: Request)
      requires desc.Length == ops.Length == NUM && 0 <= a < NUM && 0 <= b < NUM && 0 <= c < NUM
      modifies desc, ops
      ensures ops[..] == old(ops[..])[a := Header(q.write, q.sector)]
      ensures desc[..] == old(desc[..])[a := First(a, b)][b := Second(q, c)][c := Third(a)]
    {
      ops[a] := Header(q.write, q.sector);
      desc[a] := Desc(Command(a), HEADER_SIZE, true, false, b);
      desc[b] := Desc(Buffer(q.buf), BSIZE, true, !q.write, c);
      desc[c] := Desc(Status(a), 1, false, true, 0);
    }

    /** Puts a head in the avail ring. */
    method Offer(a: int)
      requires availRing.Length == info.Length == NUM && 0 <= a < NUM && 0 <= availIdx
      modifies availRing, info, this`availIdx
      ensures availRing[..] == old(availRing[..])[old(availIdx) % NUM := a] && availIdx == Inc(old(availIdx))
      ensures info[..] == old(info[..])[a := old(info[a]).(status := 255)]
    {
      info[a] := info[a].(status := 255);
      availRing[availIdx % NUM] := a;
      availIdx := (availIdx + 1) % WORD16;
    }

    /** virtio_disk_rw up to the notification; without three free descriptors it waits, and nothing has changed for
        anyone. The lock is still held when this returns. */
    method Submit(q: Request) returns (ok: bool, head: int, ghost b: int, ghost c: int)
      requires Valid() && lock == Open
      modifies this, fl, fl.free, fl.list, desc, ops, availRing, info
      ensures Valid() && (ok <==> |old(fl.Free())| >= 3)
      ensures !ok ==> View() == old(View()).(desc := desc[..])
      ensures ok ==> {head, b, c} <= old(fl.Free()) && Distinct([head, b, c]) && View() == Post(old(View()), head, b, c, q)
      // The chain says what was asked for, its head is the next one the device finds, and no other request is touched.
      ensures ok ==> 0 <= head < NUM && Sized(View()) && Means(View(), head, q) && info[head].status == 255
      ensures ok ==> 0 <= old(availIdx) && availRing[old(availIdx) % NUM] == head && availIdx == (old(availIdx) + 1) % 65536
      ensures ok ==> fl.Free() == old(fl.Free()) - {head, b, c} && lock == Submitter(head) && head !in old(live)
      ensures ok ==> forall i :: 0 <= i < NUM && i !in {head, b, c} ==> desc[i] == old(desc[i]) && ops[i] == old(ops[i]) && info[i] == old(info[i])
    {
      hide Good, ListsFree, FreeIn, Upto, Distinct;
      ghost var s := View();
      Facts(s);
      var idx;
      ok, idx := Alloc3Desc();
      if !ok {
        FreeDescs(s, desc[..]);
        return false, -1, 0, 0;
      }
      head, b, c := idx[0], idx[1], idx[2];
      assert idx == [head, b, c];
      Three(s, idx);
      PostGood(s, head, b, c, q);
      Publish(head, idx[1], idx[2], q, s);
      PostedMeans(s, head, b, c, q);
      PostedElse(s, head, b, c, q);
      hide Post, Means;
      assert desc[..] == View().desc && ops[..] == View().ops && info[..] == View().info && availRing[..] == View().avail;
    }

    static lemma PostedMeans(s: State, a: int, b: int, c: int, q: Request)
      requires Good(s) && a in s.free && 0 <= a < NUM && 0 <= b < NUM && 0 <= c < NUM && Sized(s) && Good(Post(s, a, b, c, q))
      ensures Sized(Post(s, a, b, c, q)) && Means(Post(s, a, b, c, q), a, q) && a !in s.live
    {
      hide Good, Means;
      var s' := Post(s, a, b, c, q);
      ChainMeans(s', a);
      NotLive(s, a);
    }

    static lemma PostedElse(s: State, a: int, b: int, c: int, q: Request)
      requires Sized(s) && 0 <= a < NUM && 0 <= b < NUM && 0 <= c < NUM && 0 <= s.availIdx
      ensures var s' := Post(s, a, b, c, q);
              && s'.info[a].status == 255 && s'.avail[s.availIdx % NUM] == a && s'.availIdx == (s.availIdx + 1) % 65536
              && forall i :: 0 <= i < NUM && i !in {a, b, c} ==> s'.desc[i] == s.desc[i] && s'.ops[i] == s.ops[i] && s'.info[i] == s.info[i]
    {
    }

    method Publish(a: int, b: int, c: int, q: Request, ghost s: State)
      requires Sized(s) && 0 <= a < NUM && 0 <= b < NUM && 0 <= c < NUM && 0 <= availIdx
      requires Apart() && View() == s.(free := s.free - {a, b, c})
      modifies this`availIdx, this`lock, this`live, this`pending, this`posted, this`tickets, desc, ops, availRing, info
      ensures View() == Post(s, a, b, c, q)
    {
      hide FreeIn;
      Format(a, b, c, q);
      Offer(a);
      lock := Submitter(a);
      live, pending := live[a := Chain(b, c, Posted, tickets, q)], pending + [a];
      posted, tickets := posted + 1, tickets + 1;
    }

    /** The end of that critical section: the submitter's completion is noted and the lock let go */
    method Release(comp: nat)
      requires Valid() && lock.Submitter? && lock.head in live && live[lock.head].ticket == comp
      modifies this`lock, info
      ensures 0 <= old(lock.head) < info.Length && Valid() && View() == Arm(old(View()))
      ensures info[old(lock.head)].comp == Some(comp) && !info[old(lock.head)].done && info[old(lock.head)].status == old(info[lock.head].status) && lock == Open
      ensures forall i :: 0 <= i < info.Length && i != old(lock.head) ==> info[i] == old(info[i])
    {
      hide Good, FreeIn, ListsFree;
      ghost var s := View();
      Facts(s);
      ArmGood(s);
      NoteComp(comp, s);
    }

    method NoteComp(comp: nat, ghost s: State)
      requires View() == s && lock.Submitter? && lock.head in live && live[lock.head].ticket == comp && 0 <= lock.head < info.Length
      modifies this`lock, info
      ensures View() == Arm(s)
    {
      hide FreeIn;
      var h := lock.head;
      info[h] := info[h].(comp := Some(comp), done := false);
      lock := Open;
    }

    /** One round of virtio_disk_intr's loop. The checks the source makes are assertions here. */
    method SignalOne()
      requires Valid() && lock == Handler && seen != usedIdx
      modifies this`seen, this`live, this`returned, this`handled, this`log, info
      ensures CanSignal(old(View())) && Valid() && View() == Signal(old(View()))
      // The request that is next in the used ring, and no other, is marked done and signalled.
      ensures var id := old(usedRing[seen % NUM]);
              && id in old(live) && 0 <= id < info.Length && info[..] == old(info[..])[id := old(info[..])[id].(done := true)]
              && log == old(log) + [old(live)[id].ticket] && seen == (old(seen) + 1) % 65536
    {
      hide Good, FreeIn, ListsFree, Signal, CanSignal;
      ghost var s := View();
      NextSignal(s);
      var id := usedRing[seen % NUM];
      assert info[id].status == 0;
      assert info[id].comp != None;
      assert !info[id].done;
      MarkDone(id, s);
    }

    static lemma NextSignal(s: State)
      requires Good(s) && s.lock == Handler && s.seen != s.usedIdx
      ensures CanSignal(s) && Good(Signal(s)) && |s.used| == |s.info| == NUM && 0 <= s.seen
      ensures var id := s.used[s.seen % NUM];
              id in s.live && 0 <= id < NUM && s.info[id].status == 0 && s.info[id].comp != None && !s.info[id].done
    {
      hide Good, Signal;
      Facts(s);
      SeesReturned(s);
      SignalGood(s);
    }

    method MarkDone(id: int, ghost s: State)
      requires CanSignal(s) && View() == s && 0 <= seen && id == usedRing[seen % NUM]
      modifies this`seen, this`live, this`returned, this`handled, this`log, info
      ensures View() == Signal(s)
      ensures info[..] == s.info[id := s.info[id].(done := true)] && log == s.log + [s.live[id].ticket] && seen == (s.seen + 1) % 65536
    {
      hide FreeIn;
      info[id] := info[id].(done := true);
      log, returned, handled := log + [live[id].ticket], returned[1..], handled + 1;
      live := live[id := live[id].(phase := Signalled)];
      seen := (seen + 1) % WORD16;
    }

    /** virtio_disk_intr: signals every request returned so far, in the order of the used ring */
    method HandleInterrupt()
      requires Valid() && lock == Open
      modifies this`lock, this`seen, this`live, this`returned, this`handled, this`log, info
      ensures Valid() && lock == Open && returned == [] && fl.Free() == old(fl.Free()) && live.Keys == old(live.Keys)
      ensures |log| == |old(log)| + |old(returned)|
      ensures forall h :: h in live ==> live[h] == if h in old(returned) then old(live)[h].(phase := Signalled) else old(live)[h]
    {
      hide Good, FreeIn, ListsFree, CanSignal, Progress, Signal;
      ghost var s0, done := View(), [];
      LockGood(s0, Handler);
      lock := Handler;
      ProgressStart(s0, View());
      while seen != usedIdx
        invariant Valid() && lock == Handler && Progress(s0, View(), done)
        decreases |returned|
      {
        ghost var s := View();
        SeesReturned(s);
        done := done + [returned[0]];
        SignalOne();
        ProgressStep(s0, s, done);
      }
      SeesReturned(View());
      ProgressEnd(s0, View(), done);
      LockGood(View(), Open);
      lock := Open;
    }

    /** The requests `done` have been signalled since `s0`, and nothing else has happened. */
    static ghost predicate Progress(s0: State, s: State, done: seq<int>) {
      && done + s.returned == s0.returned && s.live.Keys == s0.live.Keys && s.free == s0.free && |s.log| == |s0.log| + |done|
      && forall h :: h in s.live ==> s.live[h] == if h in done then s0.live[h].(phase := Signalled) else s0.live[h]
    }

    static lemma ProgressStart(s0: State, s: State)
      requires s == s0.(lock := Handler)
      ensures Progress(s0, s, [])
    {
    }

    static lemma ProgressStep(s0: State, s: State, done: seq<int>)
      requires Good(s) && CanSignal(s) && done != [] && s.returned != [] && done[|done| - 1] == s.returned[0] && Progress(s0, s, done[..|done| - 1])
      ensures Progress(s0, Signal(s), done) && |Signal(s).returned| < |s.returned|
    {
      hide Good;
      FirstReturned(s);
      assert done == done[..|done| - 1] + [s.returned[0]];
    }

    static lemma ProgressEnd(s0: State, s: State, done: seq<int>)
      requires Progress(s0, s, done) && s.returned == []
      ensures done == s0.returned && s.live.Keys == s0.live.Keys && s.free == s0.free && |s.log| == |s0.log| + |s0.returned|
      ensures forall h :: h in s.live ==> s.live[h] == if h in s0.returned then s0.live[h].(phase := Signalled) else s0.live[h]
    {
      assert done + [] == done;
    }

    static lemma FirstReturned(s: State)
      requires Good(s) && s.returned != []
      ensures s.used[s.seen % NUM] == s.returned[0]
    {
      hide Partition, Chained, InfoOk, LogOk, AvailOk;
      Wrapped(s.handled);
      WindowDrop(s.used, s.handled, s.returned);
    }

    /** virtio_disk_rw after its wait, for a request that has been signalled: it returns its descriptors */
    method Finish(h: int)
      requires Valid() && lock == Open && h in live && live[h].phase == Signalled
      modifies fl, fl.free, fl.list, desc, info, this`live
      ensures CanReap(old(View()), h) && Valid() && View() == Reap(old(View()), h)
      ensures live == old(live) - {h} && fl.Free() == old(fl.Free()) + {h, old(live)[h].mid, old(live)[h].last} && 0 <= h < info.Length && info[h].comp == None
      ensures forall i :: 0 <= i < NUM && i !in {h, old(live)[h].mid, old(live)[h].last} ==> desc[i] == old(desc[i]) && info[i] == old(info[i])
    {
      hide Good, FreeIn, ListsFree;
      ghost var s := View();
      Facts(s);
      ReapGood(s, h);
      ChainOf(s, h);
      assert info[h].done;
      ReapFacts(s, h);
      Reclaim(h, s);
      hide Reap, CanReap;
      assert info[..] == View().info && desc[..] == View().desc;
    }

    static lemma ReapFacts(s: State, h: int)
      requires CanReap(s, h)
      ensures var c, s' := s.live[h], Reap(s, h);
              && s'.live == s.live - {h} && s'.free == s.free + {h, c.mid, c.last} && |s'.info| == |s'.desc| == NUM && s'.info[h].comp == None
              && forall i :: 0 <= i < NUM && i !in {h, c.mid, c.last} ==> s'.desc[i] == s.desc[i] && s'.info[i] == s.info[i]
    {
    }

    method Reclaim(h: int, ghost s: State)
      requires Apart() && fl.Valid() && View() == s && CanReap(s, h) && Linked(s.desc, h, s.live[h].mid, s.live[h].last)
      requires h !in s.free && s.live[h].mid !in s.free && s.live[h].last !in s.free
      modifies fl, fl.free, fl.list, desc, info, this`live
      ensures fl.Valid() && View() == Reap(s, h)
    {
      hide FreeIn, ListsFree;
      info[h] := info[h].(comp := None);
      FreeChain(h, live[h].mid, live[h].last);
      live := live - {h};
    }

    static lemma ChainOf(s: State, h: int)
      requires Good(s) && h in s.live
      ensures Linked(s.desc, h, s.live[h].mid, s.live[h].last)
      ensures h !in s.free && s.live[h].mid !in s.free && s.live[h].last !in s.free
    {
      hide InfoOk, LogOk, AvailOk, UsedOk;
      Ranged(s, h);
      assert Belongs(s.live, h, h) && Belongs(s.live, h, s.live[h].mid) && Belongs(s.live, h, s.live[h].last);
    }

    static lemma Facts(s: State)
      requires Good(s)
      ensures Sized(s) && s.free <= Upto(NUM) && 0 <= s.availIdx && 0 <= s.seen && 0 <= s.usedIdx
    {
      hide Chained, InfoOk, LogOk, Window, Queued;
    }

    static lemma Three(s: State, idx: seq<int>)
      requires Good(s) && |idx| == 3 && Distinct(idx) && {idx[0], idx[1], idx[2]} <= s.free
      ensures idx[0] != idx[1] && idx[0] != idx[2] && idx[1] != idx[2]
      ensures 0 <= idx[0] < NUM && 0 <= idx[1] < NUM && 0 <= idx[2] < NUM
    {
      hide Chained, InfoOk, LogOk, Window, Queued;
    }

    /** Free descriptors may hold anything. */
    static lemma FreeDescs(s: State, desc: seq<Desc>)
      requires Good(s) && |desc| == NUM && forall i :: 0 <= i < NUM && desc[i] != s.desc[i] ==> i in s.free
      ensures Good(s.(desc := desc))
    {
      hide Window, Queued, Distinct, Waiting, Noted;
      forall h, i | h in s.live && Belongs(s.live, h, i) ensures 0 <= i < NUM && desc[i] == s.desc[i] { }
      forall h | h in s.live ensures Belongs(s.live, h, h) && Belongs(s.live, h, s.live[h].mid) && Belongs(s.live, h, s.live[h].last) { }
    }
  }

  lemma NoMembers(f: set<int>)
    ensures f - Members([]) == f && Distinct<int>([])
  {
  }

  lemma AtLeast(f: set<int>, s: seq<int>)
    requires Distinct(s) && forall k :: 0 <= k < |s| ==> s[k] in f
    ensures |f| >= |s|
  {
    Subset(s, f);
  }

  ghost function Members(s: seq<int>): (r: set<int>)
    ensures forall i :: i in r <==> i in s
  {
    if s == [] then {} else Members(s[..|s| - 1]) + {s[|s| - 1]}
  }

  lemma FreeRange(free: seq<bool>)
    ensures forall i :: i in FreeIn(free) ==> 0 <= i < |free|
  {
  }

  lemma OneMore(f: set<int>, s: seq<int>, d: int)
    requires Distinct(s) && d in f - Members(s)
    ensures Distinct(s + [d]) && Members(s + [d]) == Members(s) + {d}
  {
    assert (s + [d])[..|s|] == s;
  }

  lemma MembersThree(s: seq<int>)
    requires |s| == 3
    ensures Members(s) == {s[0], s[1], s[2]}
  {
  }

  /** With nothing left free, what was free is what has been taken. */
  lemma AllTaken(f: set<int>, taken: seq<int>)
    requires Distinct(taken) && (forall k :: 0 <= k < |taken| ==> taken[k] in f) && f - Members(taken) == {}
    ensures |f| == |taken|
  {
    forall i ensures i in taken <==> i in f {
      if i in f { assert i !in f - Members(taken); }
    }
    Gather(taken, f);
  }

  lemma OneBack(f: set<int>, taken: seq<int>, j: int)
    requires Distinct(taken) && (forall k :: 0 <= k < |taken| ==> taken[k] in f) && 0 <= j < |taken|
    ensures taken[j] !in f - Members(taken[j..])
    ensures f - Members(taken[j + 1..]) == f - Members(taken[j..]) + {taken[j]}
  {
    assert taken[j..] == [taken[j]] + taken[j + 1..];
  }
}
