/** The operations of kernel/bio.c on its arrays and lists, with the hash list of kernel/hlist.c underneath. */
module BufferCache {
  import opened Basics
  import opened BufCache
  import opened BufTable

  class Cache {
    const hash: Hash
    const bufs: array<Buf>
    const buckets: array<seq<int>>
    var free: seq<int>
    var dirty: seq<int>
    var dirtyCount: int

    /** The block device. */
    var disk: map<Key, Data>

    ghost var refs: map<int, Ref>
    ghost var pins: seq<nat>
    ghost var changed: set<int>

    ghost function View(): State
      reads this, bufs, buckets
    {
      State(bufs[..], free, dirty, dirtyCount, buckets[..], refs, pins, disk, changed)
    }

    ghost predicate Valid()
      reads this, bufs, buckets
    {
      Good(hash, View())
    }

    /** Valid, and the buffers agree with the disk. */
    ghost predicate InStep()
      reads this, bufs, buckets
    {
      Valid() && buckets.Length > 0 && Coherent(hash, View())
    }

    /** binit: each buffer is pushed at the head of the free list */
    constructor (hash: Hash, nbuf: nat, nbuckets: nat, disk: map<Key, Data>)
      requires nbuckets > 0
      ensures InStep() && Fresh(View()) && bufs.Length == nbuf && this.disk == disk && this.hash == hash && fresh(bufs) && fresh(buckets)
    {
      this.hash, this.disk := hash, disk;
      bufs := new Buf[nbuf](_ => Buf(UNUSED, false, 0, false, []));
      buckets := new seq<int>[nbuckets](_ => []);
      free, dirty, dirtyCount, refs, pins, changed := [], [], 0, map[], seq(nbuf, _ => 0), {};
      new;
      var i := 0;
      while i < nbuf
        invariant 0 <= i <= nbuf && Distinct(free) && (forall j :: j in free <==> 0 <= j < i)
        modifies this`free
      {
        PushFront(free, i);
        free := [i] + free;
        i := i + 1;
      }
      FreshGood(hash, View());
    }

    static lemma PushFront(s: seq<int>, i: int)
      requires Distinct(s) && i !in s
      ensures Distinct([i] + s) && forall j :: j in [i] + s <==> j == i || j in s
    {
    }

    lemma Ranges()
      requires Valid()
      ensures buckets.Length > 0 && forall b, p :: 0 <= b < buckets.Length && 0 <= p < |buckets[b]| ==> 0 <= buckets[b][p] < bufs.Length
    {
      HashRange(hash, bufs[..], buckets[..]);
    }

    /** hlist_get: a scan of the bucket */
    method HlistGet(k: Key) returns (r: int)
      requires Valid()
      ensures r == -1 || 0 <= r < bufs.Length
      ensures r != -1 ==> Cached(hash, View(), r) && bufs[r].key == k
      ensures r == -1 && hash(k) != 0 ==> forall x :: Cached(hash, View(), x) ==> bufs[x].key != k
      ensures forall x :: Cached(hash, View(), x) && bufs[x].key == k ==> r == x
    {
      hide Good, HashOk;
      Ranges();
      r := -1;
      forall x | Cached(hash, View(), x) ensures bufs[x].key == k ==> Get(hash, bufs[..], buckets[..], k) == x { FoundBy(k, x); }
      if hash(k) == 0 { return; }
      var bucket := buckets[hash(k) % buckets.Length];
      var p := 0;
      while p < |bucket|
        invariant 0 <= p <= |bucket| && FindIn(bufs[..], bucket, k) == FindIn(bufs[..], bucket[p..], k)
      {
        if bufs[bucket[p]].key == k {
          r := bucket[p];
          FoundBy(k, r);
          return;
        }
        p := p + 1;
      }
    }

    lemma FoundBy(k: Key, i: int)
      requires Valid() && 0 <= i < bufs.Length
      ensures buckets.Length > 0 && forall b, p :: 0 <= b < buckets.Length && 0 <= p < |buckets[b]| ==> 0 <= buckets[b][p] < bufs.Length
      ensures bufs[i].key == k && Cached(hash, View(), i) <==> Get(hash, bufs[..], buckets[..], k) == i
    {
      Ranges();
      GetIs(hash, bufs[..], buckets[..], k, i);
    }

    /** __hlist_remove_node_entry */
    method HlistRemove(i: int)
      requires buckets.Length > 0 && 0 <= i < bufs.Length
      modifies buckets
      ensures buckets[..] == Removed(hash, bufs[..], old(buckets[..]), i)
    {
      var b := hash(bufs[i].key) % buckets.Length;
      buckets[b] := Without(buckets[b], i);
    }

    /** The push of a buffer, which fails if its key is in the table already or has hash 0. */
    method HlistInsert(i: int)
      requires 0 <= i < bufs.Length && HashOk(hash, bufs[..], buckets[..]) && Absent(hash, bufs[..], buckets[..], bufs[i].key)
      modifies buckets
      ensures buckets[..] == Inserted(hash, bufs[..], old(buckets[..]), i)
    {
      var b := hash(bufs[i].key) % buckets.Length;
      buckets[b] := buckets[b] + [i];
    }

    /** Takes the buffer's old block out of the table. The clash the source panics on cannot happen. */
    method HlistPop(i: int)
      requires Valid() && 0 <= i < bufs.Length
      modifies buckets
      ensures HashOk(hash, bufs[..], old(buckets[..])) && buckets[..] == Popped(hash, bufs[..], old(buckets[..]), i)
    {
      hide Good, HashOk;
      GoodHash(hash, View());
      Ranges();
      ClashOnlyUnused(hash, View(), i);
      ghost var was := Get(hash, bufs[..], buckets[..], bufs[i].key);
      var j := HlistGet(bufs[i].key);
      if j != -1 { FoundBy(bufs[i].key, j); } else { NotFound(bufs[i].key); }
      assert j == was;
      if j != -1 {
        HlistRemove(j);
        if j != i {
          assert bufs[i].key == UNUSED;
          PopAbsent(hash, bufs[..], old(buckets[..]), bufs[j].key, j);
          HlistInsert(j);
        }
      }
    }

    static lemma GoodHash(hash: Hash, s: State)
      requires Good(hash, s)
      ensures HashOk(hash, s.bufs, s.buckets)
    {
    }

    lemma NotFound(k: Key)
      requires Valid() && forall x :: Cached(hash, View(), x) ==> bufs[x].key != k
      ensures buckets.Length > 0 && forall b, p :: 0 <= b < buckets.Length && 0 <= p < |buckets[b]| ==> 0 <= buckets[b][p] < bufs.Length
      ensures Get(hash, bufs[..], buckets[..], k) == -1
    {
      hide Good;
      Ranges();
      var g := Get(hash, bufs[..], buckets[..], k);
      if g != -1 { FoundBy(k, g); }
    }

    /** bget up to the wait for the buffer's lock: -1 stands for its panics, when every buffer is in use and when the block has
        hash 0, so that it cannot be put in the table. After the second one the table is without the recycled buffer. */
    method Bget(k: Key, ghost t: int) returns (i: int)
      requires Valid() && t !in refs
      modifies this`free, this`refs, bufs, buckets
      ensures i == -1 <==> hash(k) == 0 || (old(free) == [] && forall x :: old(Cached(hash, View(), x)) ==> old(bufs[x].key) != k)
      ensures hash(k) != 0 ==> Valid() && (old(InStep()) ==> InStep()) && SameIdentity(old(View()), View())
      ensures hash(k) != 0 && i == -1 ==> View() == old(View())
      ensures i != -1 ==> 0 <= i < bufs.Length && bufs[i].key == k && refs == old(refs)[t := Ref(i, Wants)] && Cached(hash, View(), i)
      // The buffer the block is in, with a reference more; or the one that was released longest ago, emptied.
      ensures i != -1 ==> forall j :: 0 <= j < bufs.Length && j != i ==> bufs[j] == old(bufs[j])
      ensures i != -1 && old(Cached(hash, View(), i)) && old(bufs[..])[i].key == k ==>
                bufs[i] == old(bufs[..])[i].(refcnt := old(bufs[..])[i].refcnt + 1) && free == (if i in old(free) then Without(old(free), i) else old(free))
      ensures i != -1 && !(old(Cached(hash, View(), i)) && old(bufs[..])[i].key == k) ==>
                old(free) == free + [i] && bufs[i] == old(bufs[..])[i].(key := k, valid := false, refcnt := 1)
    {
      hide Good, HashOk, InHash, Coherent, Without, Absent;
      ghost var s := View();
      i := HlistGet(k);
      Ranges();
      if i != -1 {
        HashNotZero(hash, s, i);
        TakenGood(hash, s, t, i);
        if i in free { free := Without(free, i); }
        bufs[i] := bufs[i].(refcnt := bufs[i].refcnt + 1);
        refs := refs[t := Ref(i, Wants)];
        StillCached(hash, s, View(), i);
        return;
      }
      if free == [] { return; }
      i := Recycle(k, t);
    }

    /** The part of bget for a block that is in no buffer */
    method Recycle(k: Key, ghost t: int) returns (i: int)
      requires Valid() && t !in refs && free != [] && (hash(k) != 0 ==> forall x :: Cached(hash, View(), x) ==> bufs[x].key != k)
      modifies this`free, this`refs, bufs, buckets
      ensures i == -1 <==> hash(k) == 0
      ensures i != -1 ==> Valid() && (old(InStep()) ==> InStep()) && SameIdentity(old(View()), View())
      ensures i != -1 ==> 0 <= i < bufs.Length && bufs[i].key == k && refs == old(refs)[t := Ref(i, Wants)] && Cached(hash, View(), i)
      ensures i != -1 ==> old(free) == free + [i] && bufs[..] == old(bufs[..])[i := old(bufs[..])[i].(key := k, valid := false, refcnt := 1)]
    {
      hide Good, HashOk, InHash, Coherent, Without, Absent;
      ghost var s := View();
      GoodHash(hash, s);
      var last := |free| - 1;
      i := free[last];
      LastFree(hash, s);
      if hash(k) != 0 { NewKey(hash, s, t, k); }
      HlistPop(i);
      free := free[..last];
      bufs[i] := bufs[i].(key := k, valid := false, refcnt := 1);
      if hash(k) == 0 { return -1; }
      assert bufs[..] == s.bufs[i := bufs[i]];
      RekeyAbsent(hash, s.bufs, s.buckets, i, bufs[i]);
      HlistInsert(i);
      refs := refs[t := Ref(i, Wants)];
      assert View() == Recycled(hash, s, t, k);
    }

    static lemma LastFree(hash: Hash, s: State)
      requires Good(hash, s) && s.free != []
      ensures 0 <= s.free[|s.free| - 1] < |s.bufs|
    {
      assert s.free[|s.free| - 1] in s.free;
    }

    static lemma HashNotZero(hash: Hash, s: State, i: int)
      requires Good(hash, s) && Cached(hash, s, i)
      ensures hash(s.bufs[i].key) != 0
    {
      var b := Slot(hash, |s.buckets|, s.bufs[i].key);
      assert BucketOk(hash, s.bufs, s.buckets, b);
      var p :| 0 <= p < |s.buckets[b]| && s.buckets[b][p] == i;
    }

    static lemma NewKey(hash: Hash, s: State, t: int, k: Key)
      requires Good(hash, s) && s.free != [] && t !in s.refs && hash(k) != 0 && forall x :: Cached(hash, s, x) ==> s.bufs[x].key != k
      ensures HashOk(hash, s.bufs, s.buckets) && Absent(hash, s.bufs, s.buckets, k)
      ensures 0 <= s.free[|s.free| - 1] < |s.bufs| && Good(hash, Recycled(hash, s, t, k)) && SameIdentity(s, Recycled(hash, s, t, k))
      ensures Cached(hash, Recycled(hash, s, t, k), s.free[|s.free| - 1])
      ensures Coherent(hash, s) ==> Coherent(hash, Recycled(hash, s, t, k))
    {
      forall x | 0 <= x < |s.bufs| && InHash(hash, s.bufs, s.buckets, x) ensures s.bufs[x].key != k { assert Cached(hash, s, x); }
      RecycledGood(hash, s, t, k);
      hide Good, InHash, Coherent, Recycled;
    }

    static lemma StillCached(hash: Hash, s: State, s': State, i: int)
      requires Cached(hash, s, i) && s'.buckets == s.buckets && |s'.bufs| == |s.bufs| && s'.bufs[i].key == s.bufs[i].key
      ensures Cached(hash, s', i)
    {
    }

    /** The wait for a buffer's lock is over. */
    ghost method Lock(t: int)
      requires Valid() && t in refs && refs[t].phase == Wants && LockFree(View(), refs[t].buf)
      modifies this`refs
      ensures Valid() && refs == old(refs)[t := Ref(old(refs)[t].buf, Has)]
      ensures old(InStep()) ==> InStep() && refs[t].buf !in changed
    {
      hide Good, HashOk, InHash, Coherent;
      LockedGood(hash, View(), t);
      refs := refs[t := Ref(refs[t].buf, Has)];
    }

    /** The part of bread after bget */
    method Load(i: int, ghost t: int)
      requires Valid() && t in refs && refs[t] == Ref(i, Has)
      modifies bufs
      ensures 0 <= i < bufs.Length && Valid() && View() == Loaded(old(View()), i)
      ensures old(InStep()) ==> InStep() && (i !in changed ==> bufs[i].data == OnDisk(disk, bufs[i].key))
      ensures bufs[i] == old(bufs[..])[i].(valid := true, data := bufs[i].data) && forall j :: 0 <= j < bufs.Length && j != i ==> bufs[j] == old(bufs[j])
      ensures bufs[i].data == if old(bufs[..])[i].valid then old(bufs[..])[i].data else OnDisk(disk, bufs[i].key)
    {
      hide Good, HashOk, InHash, Coherent;
      LoadedGood(hash, View(), t);
      if !bufs[i].valid {
        bufs[i] := bufs[i].(data := if bufs[i].key in disk then disk[bufs[i].key] else [], valid := true);
      }
    }

    /** bread of a block no other thread has: the caller gets the buffer's lock and the data on the disk. -1 stands for
        the panic. */
    method Bread(k: Key, ghost t: int) returns (i: int)
      requires InStep() && t !in refs
      requires forall x :: Cached(hash, View(), x) && bufs[x].key == k ==> LockFree(View(), x)
      modifies this`free, this`refs, bufs, buckets
      ensures hash(k) != 0 ==> InStep()
      ensures i == -1 <==> hash(k) == 0 || (old(free) == [] && forall x :: old(Cached(hash, View(), x)) ==> old(bufs[x].key) != k)
      ensures i != -1 ==> 0 <= i < bufs.Length && refs == old(refs)[t := Ref(i, Has)] && bufs[i].key == k && bufs[i].data == OnDisk(disk, k)
    {
      hide Good, HashOk, InHash, Coherent;
      ghost var s := View();
      i := Bget(k, t);
      if i == -1 { return; }
      WasFree(hash, s, View(), k, t, i);
      Lock(t);
      Load(i, t);
    }

    /** Whoever holds a buffer held it before the reference was added. */
    static lemma WasFree(hash: Hash, s: State, s': State, k: Key, t: int, i: int)
      requires Good(hash, s) && Good(hash, s') && t !in s.refs && s'.refs == s.refs[t := Ref(i, Wants)] && SameIdentity(s, s')
      requires |s'.bufs| == |s.bufs| && 0 <= i < |s.bufs| && s'.bufs[i].key == k
      requires forall x :: Cached(hash, s, x) && s.bufs[x].key == k ==> LockFree(s, x)
      ensures LockFree(s', i)
    {
      forall u | u in s'.refs ensures s'.refs[u] != Ref(i, Has) {
        if u in s.refs && s.refs[u] == Ref(i, Has) {
          HeldInHash(hash, s, u);
          assert s'.refs[u].buf == s.refs[u].buf;
          assert s'.bufs[s.refs[u].buf].key == s.bufs[s.refs[u].buf].key;
          assert Cached(hash, s, i);
        }
      }
    }

    /** The holder changes the data. */
    method Edit(i: int, data: Data, ghost t: int)
      requires Valid() && t in refs && refs[t] == Ref(i, Has)
      modifies bufs, this`changed
      ensures 0 <= i < bufs.Length && Valid() && View() == Edited(old(View()), i, data) && (old(InStep()) ==> InStep())
      ensures bufs[..] == old(bufs[..])[i := old(bufs[..])[i].(data := data)] && changed == old(changed) + {i}
    {
      hide Good, HashOk, InHash, Coherent;
      EditedGood(hash, View(), t, data);
      bufs[i] := bufs[i].(data := data);
      changed := changed + {i};
    }

    /** bwrite: the disk gets the data, and the buffer is not dirty any more */
    method Bwrite(i: int, ghost t: int)
      requires Valid() && t in refs && refs[t] == Ref(i, Has)
      modifies bufs, this`dirty, this`dirtyCount, this`disk, this`changed
      ensures 0 <= i < bufs.Length && Valid() && View() == Written(old(View()), i) && (old(InStep()) ==> InStep())
      // The disk gets what the buffer had; no buffer changes but for the dirty mark, which is taken off with its entry.
      ensures disk == old(disk)[old(bufs[..])[i].key := old(bufs[..])[i].data] && changed == old(changed) - {i}
      ensures bufs[..] == old(bufs[..])[i := old(bufs[..])[i].(dirty := false)] && forall j :: j in dirty <==> j in old(dirty) && j != i
    {
      hide Good, HashOk, InHash, Coherent, Without;
      WrittenGood(hash, View(), t);
      disk := disk[bufs[i].key := bufs[i].data];
      if bufs[i].dirty {
        bufs[i] := bufs[i].(dirty := false);
        dirty := Without(dirty, i);
        dirtyCount := dirtyCount - 1;
      }
      changed := changed - {i};
    }

    /** bwrite_async */
    method BwriteAsync(i: int, ghost t: int)
      requires Valid() && t in refs && refs[t] == Ref(i, Has)
      modifies bufs, this`dirty, this`dirtyCount
      ensures 0 <= i < bufs.Length && Valid() && View() == Soiled(old(View()), i) && (old(InStep()) ==> InStep())
      ensures bufs[..] == old(bufs[..])[i := old(bufs[..])[i].(dirty := true)]
      ensures dirty == if i in old(dirty) then old(dirty) else old(dirty) + [i]
    {
      hide Good, HashOk, InHash, Coherent;
      SoiledGood(hash, View(), t);
      PinCount(hash, View(), i);
      if !bufs[i].dirty {
        bufs[i] := bufs[i].(dirty := true);
        dirty := dirty + [i];
        dirtyCount := dirtyCount + 1;
      }
    }

    /** brelse: first the lock, then the reference */
    method Brelse(i: int, ghost t: int)
      requires Valid() && t in refs && refs[t] == Ref(i, Has)
      modifies bufs, this`free, this`refs
      ensures 0 <= i < bufs.Length && Valid() && refs == old(refs) - {t} && (old(InStep()) && i !in changed ==> InStep())
      ensures View() == Dropped(Unlocked(old(View()), t), t)
      // The last reference puts the buffer at the head of the free list, the end that is recycled last.
      ensures bufs[..] == old(bufs[..])[i := old(bufs[..])[i].(refcnt := old(bufs[..])[i].refcnt - 1)]
      ensures free == (if bufs[i].refcnt == 0 then [i] else []) + old(free)
    {
      hide Good, HashOk, InHash, Coherent;
      UnlockedGood(hash, View(), t);
      refs := refs[t := Ref(i, LetGo)];
      DroppedGood(hash, View(), t);
      bufs[i] := bufs[i].(refcnt := bufs[i].refcnt - 1);
      if bufs[i].refcnt == 0 { free := [i] + free; }
      refs := refs - {t};
    }

    /** bpin */
    method Bpin(i: int)
      requires Valid() && 0 <= i < bufs.Length && Cached(hash, View(), i)
      modifies bufs, this`free, this`pins
      ensures |old(pins)| == bufs.Length && Valid() && View() == Pinned(old(View()), i) && (old(InStep()) ==> InStep())
      ensures bufs[..] == old(bufs[..])[i := old(bufs[..])[i].(refcnt := old(bufs[..])[i].refcnt + 1)] && pins == old(pins)[i := old(pins)[i] + 1]
      ensures forall j :: j in free <==> j in old(free) && j != i
    {
      hide Good, HashOk, InHash, Coherent, Without;
      PinCount(hash, View(), i);
      PinnedGood(hash, View(), i);
      WithoutIs(free, i);
      if bufs[i].refcnt == 0 && i in free { free := Without(free, i); }
      bufs[i] := bufs[i].(refcnt := bufs[i].refcnt + 1);
      pins := pins[i := pins[i] + 1];
    }

    static lemma PinCount(hash: Hash, s: State, i: int)
      requires Good(hash, s) && 0 <= i < |s.bufs|
      ensures |s.pins| == |s.bufs| && Distinct(s.free) && (i in s.free <==> s.bufs[i].refcnt == 0) && (i in s.dirty <==> s.bufs[i].dirty)
    {
    }

    /** bunpin */
    method Bunpin(i: int)
      requires Valid() && 0 <= i < bufs.Length && i < |pins| && pins[i] > 0
      modifies bufs, this`free, this`pins
      ensures |old(pins)| == bufs.Length && Valid() && View() == Unpinned(old(View()), i) && (old(InStep()) ==> InStep())
      ensures bufs[..] == old(bufs[..])[i := old(bufs[..])[i].(refcnt := old(bufs[..])[i].refcnt - 1)] && pins == old(pins)[i := old(pins)[i] - 1]
      ensures free == (if bufs[i].refcnt == 0 then [i] else []) + old(free)
    {
      hide Good, HashOk, InHash, Coherent;
      PinCount(hash, View(), i);
      UnpinnedGood(hash, View(), i);
      bufs[i] := bufs[i].(refcnt := bufs[i].refcnt - 1);
      if bufs[i].refcnt == 0 { free := [i] + free; }
      pins := pins[i := pins[i] - 1];
    }

    /** The section of bsync that takes a dirty buffer */
    method Collect(ghost t: int) returns (i: int)
      requires Valid() && t !in refs && dirty != []
      modifies bufs, this`free, this`dirty, this`dirtyCount, this`refs
      ensures 0 <= i < bufs.Length && i == old(dirty)[|old(dirty)| - 1] && refs == old(refs)[t := Ref(i, Wants)]
      ensures Valid() && View() == Collected(old(View()), t) && (old(InStep()) ==> InStep())
      ensures old(dirty) == dirty + [i] && bufs[..] == old(bufs[..])[i := old(bufs[..])[i].(dirty := false, refcnt := old(bufs[..])[i].refcnt + 1)]
      ensures forall j :: j in free <==> j in old(free) && j != i
    {
      hide Good, HashOk, InHash, Coherent, Without;
      CollectedGood(hash, View(), t);
      var last := |dirty| - 1;
      i := dirty[last];
      PinCount(hash, View(), i);
      WithoutIs(free, i);
      dirty := dirty[..last];
      dirtyCount := dirtyCount - 1;
      bufs[i] := bufs[i].(dirty := false);
      if bufs[i].refcnt == 0 && i in free { free := Without(free, i); }
      bufs[i] := bufs[i].(refcnt := bufs[i].refcnt + 1);
      refs := refs[t := Ref(i, Wants)];
    }

    /** The section of bsync that writes it */
    method Flush(i: int, ghost t: int)
      requires Valid() && t in refs && refs[t] == Ref(i, Has)
      modifies this`disk
      ensures 0 <= i < bufs.Length && Valid() && (old(InStep()) ==> InStep())
      ensures disk == if bufs[i].valid then old(disk)[bufs[i].key := bufs[i].data] else old(disk)
    {
      hide Good, HashOk, InHash, Coherent;
      StoredGood(hash, View(), t);
      if bufs[i].valid { disk := disk[bufs[i].key := bufs[i].data]; }
    }

    /** bdirty_count */
    method BdirtyCount() returns (n: int)
      requires Valid()
      ensures n == |dirty| && forall i :: i in dirty <==> 0 <= i < bufs.Length && bufs[i].dirty
    {
      n := dirtyCount;
    }
  }
}
