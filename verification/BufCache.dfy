/** The buffer cache of kernel/bio.c as threads use it: each operation is split into the sections that hold bcache.lock
    and the ones that hold a buffer's own lock, and those sections take turns in any order. */
module BufCache {
  import opened Basics
  import opened BufTable

  /** A thread that has a reference to a buffer waits for its lock, has it, or has let it go and not yet its reference. */
  datatype Phase = Wants | Has | LetGo
  datatype Ref = Ref(buf: int, phase: Phase)

  /** The cache and the disk behind it, with the references threads have, the pins, and the buffers whose holder has
      changed them since they were last written. */
  datatype State = State(bufs: seq<Buf>, free: seq<int>, dirty: seq<int>, dirtyCount: int, buckets: seq<seq<int>>,
                         refs: map<int, Ref>, pins: seq<nat>, disk: map<Key, Data>, changed: set<int>)

  function OnDisk(disk: map<Key, Data>, k: Key): Data {
    if k in disk then disk[k] else []
  }

  ghost function Users(refs: map<int, Ref>, i: int): set<int> {
    set t | t in refs && refs[t].buf == i
  }

  // ---------- the invariant ----------

  /** Every buffer is in the table under its key, but for those that were never used. */
  ghost predicate Known(hash: Hash, s: State)
    requires |s.buckets| > 0
  {
    forall i :: 0 <= i < |s.bufs| ==>
      InHash(hash, s.bufs, s.buckets, i) || (s.bufs[i].key == UNUSED && s.bufs[i].refcnt == 0 && !s.bufs[i].valid && !s.bufs[i].dirty)
  }

  /** The free list has the buffers no one refers to. */
  ghost predicate FreeOk(s: State) {
    Distinct(s.free) && forall i :: i in s.free <==> 0 <= i < |s.bufs| && s.bufs[i].refcnt == 0
  }

  ghost predicate DirtyOk(s: State) {
    && Distinct(s.dirty) && s.dirtyCount == |s.dirty|
    && forall i :: i in s.dirty <==> 0 <= i < |s.bufs| && s.bufs[i].dirty
  }

  /** A reference count is the number of threads that refer to the buffer and of its pins. */
  ghost predicate RefsOk(s: State) {
    && |s.pins| == |s.bufs|
    && (forall t :: t in s.refs ==> 0 <= s.refs[t].buf < |s.bufs|)
    && (forall i :: 0 <= i < |s.bufs| ==> s.bufs[i].refcnt == |Users(s.refs, i)| + s.pins[i])
  }

  /** One thread at most has a buffer's lock. */
  ghost predicate LocksOk(s: State) {
    forall t, u :: t in s.refs && u in s.refs && s.refs[t].phase == s.refs[u].phase == Has && s.refs[t].buf == s.refs[u].buf ==> t == u
  }

  ghost predicate Good(hash: Hash, s: State) {
    HashOk(hash, s.bufs, s.buckets) && Known(hash, s) && FreeOk(s) && DirtyOk(s) && RefsOk(s) && LocksOk(s)
  }

  /** Valid buffers have what is on the disk, unless their holder has changed them. */
  ghost predicate Coherent(hash: Hash, s: State)
    requires |s.buckets| > 0
  {
    && (forall i :: 0 <= i < |s.bufs| && InHash(hash, s.bufs, s.buckets, i) && s.bufs[i].valid && i !in s.changed ==>
          s.bufs[i].data == OnDisk(s.disk, s.bufs[i].key))
    && (forall i :: i in s.changed ==> exists t :: t in s.refs && s.refs[t] == Ref(i, Has))
  }

  /** A buffer in use is the only one with its identity. */
  lemma OneBuffer(hash: Hash, s: State, i: int, j: int)
    requires Good(hash, s) && 0 <= i < |s.bufs| && 0 <= j < |s.bufs| && s.bufs[i].refcnt > 0 && s.bufs[j].refcnt > 0 && s.bufs[i].key == s.bufs[j].key
    ensures i == j
  {
    GetIs(hash, s.bufs, s.buckets, s.bufs[i].key, i);
    GetIs(hash, s.bufs, s.buckets, s.bufs[i].key, j);
  }

  /** No buffer a thread refers to has come to stand for another block. */
  ghost predicate SameIdentity(s: State, s': State) {
    forall t :: t in s.refs && 0 <= s.refs[t].buf < |s.bufs| && t in s'.refs && s'.refs[t].buf == s.refs[t].buf && |s'.bufs| == |s.bufs| ==>
      s'.bufs[s.refs[t].buf].key == s.bufs[s.refs[t].buf].key
  }

  // ---------- references ----------

  lemma UsersAdd(refs: map<int, Ref>, t: int, r: Ref, i: int)
    requires t !in refs
    ensures |Users(refs[t := r], i)| == |Users(refs, i)| + if r.buf == i then 1 else 0
  {
    assert Users(refs[t := r], i) == Users(refs, i) + if r.buf == i then {t} else {};
  }

  lemma UsersMove(refs: map<int, Ref>, t: int, r: Ref, i: int)
    requires t in refs && refs[t].buf == r.buf
    ensures Users(refs[t := r], i) == Users(refs, i)
  {
  }

  lemma UsersDrop(refs: map<int, Ref>, t: int, i: int)
    requires t in refs
    ensures |Users(refs - {t}, i)| == |Users(refs, i)| - if refs[t].buf == i then 1 else 0
  {
    assert Users(refs, i) == Users(refs - {t}, i) + if refs[t].buf == i then {t} else {};
  }

  lemma InUse(s: State, t: int)
    requires RefsOk(s) && t in s.refs
    ensures 0 <= s.refs[t].buf < |s.bufs| && s.bufs[s.refs[t].buf].refcnt > 0
  {
    assert t in Users(s.refs, s.refs[t].buf);
  }

  // ---------- taking a reference ----------

  /** A reference to a buffer for thread `t`, which is taken off the free list if it is there. */
  function Taken(s: State, t: int, i: int): State
    requires 0 <= i < |s.bufs|
  {
    s.(bufs := s.bufs[i := s.bufs[i].(refcnt := s.bufs[i].refcnt + 1)],
       free := if i in s.free then Without(s.free, i) else s.free, refs := s.refs[t := Ref(i, Wants)])
  }

  /** The bookkeeping in a buffer has changed, not what it stands for or holds. */
  ghost predicate SameBlocks(bufs: seq<Buf>, bufs': seq<Buf>) {
    |bufs'| == |bufs| && forall i :: 0 <= i < |bufs| ==> bufs'[i].key == bufs[i].key && bufs'[i].valid == bufs[i].valid && bufs'[i].data == bufs[i].data
  }

  lemma SameHash(hash: Hash, bufs: seq<Buf>, bufs': seq<Buf>, buckets: seq<seq<int>>)
    requires HashOk(hash, bufs, buckets) && |bufs'| == |bufs| && forall i :: 0 <= i < |bufs| ==> bufs'[i].key == bufs[i].key
    ensures HashOk(hash, bufs', buckets)
    ensures forall i :: 0 <= i < |bufs| ==> (InHash(hash, bufs', buckets, i) <==> InHash(hash, bufs, buckets, i))
  {
    forall b | 0 <= b < |buckets| ensures BucketOk(hash, bufs', buckets, b) {
      assert BucketOk(hash, bufs, buckets, b);
    }
  }

  lemma TakenGood(hash: Hash, s: State, t: int, i: int)
    requires Good(hash, s) && t !in s.refs && 0 <= i < |s.bufs| && InHash(hash, s.bufs, s.buckets, i)
    ensures Good(hash, Taken(s, t, i)) && SameIdentity(s, Taken(s, t, i))
    ensures Coherent(hash, s) ==> Coherent(hash, Taken(s, t, i))
  {
    var s' := Taken(s, t, i);
    SameHash(hash, s.bufs, s'.bufs, s.buckets);
    WithoutIs(s.free, i);
    forall j | 0 <= j < |s.bufs| ensures s'.bufs[j].refcnt == |Users(s'.refs, j)| + s.pins[j] { UsersAdd(s.refs, t, Ref(i, Wants), j); }
    hide HashOk, InHash, Users, Without;
    if Coherent(hash, s) {
      forall j | j in s'.changed ensures exists u :: u in s'.refs && s'.refs[u] == Ref(j, Has) {
        var u :| u in s.refs && s.refs[u] == Ref(j, Has);
        assert s'.refs[u] == Ref(j, Has);
      }
    }
  }

  /** The oldest free buffer, to stand for block `k` from now on. Whether it is dirty is not looked at. */
  function Recycled(hash: Hash, s: State, t: int, k: Key): State
    requires HashOk(hash, s.bufs, s.buckets) && s.free != [] && 0 <= s.free[|s.free| - 1] < |s.bufs|
  {
    var last := |s.free| - 1;
    var i := s.free[last];
    var b := s.bufs[i].(key := k, valid := false, refcnt := 1);
    s.(bufs := s.bufs[i := b], free := s.free[..last], buckets := Rekeyed(hash, s.bufs, s.buckets, i, b), refs := s.refs[t := Ref(i, Wants)])
  }

  lemma FreeRecycled(s: State, s': State, i: int, b: Buf)
    requires FreeOk(s) && s.free != [] && i == s.free[|s.free| - 1] && 0 <= i < |s.bufs| && b.refcnt > 0
    requires s'.free == s.free[..|s.free| - 1] && s'.bufs == s.bufs[i := b]
    ensures FreeOk(s')
  {
    LastOut(s.free);
    forall j ensures j in s'.free <==> 0 <= j < |s'.bufs| && s'.bufs[j].refcnt == 0 { LastOutHas(s.free, j); }
  }

  lemma RecycledLists(hash: Hash, s: State, t: int, k: Key)
    requires Good(hash, s) && t !in s.refs && s.free != []
    ensures 0 <= s.free[|s.free| - 1] < |s.bufs|
    ensures FreeOk(Recycled(hash, s, t, k)) && DirtyOk(Recycled(hash, s, t, k)) && RefsOk(Recycled(hash, s, t, k)) && LocksOk(Recycled(hash, s, t, k))
    ensures SameIdentity(s, Recycled(hash, s, t, k))
  {
    var last := |s.free| - 1;
    var i := s.free[last];
    assert i in s.free;
    hide HashOk, InHash, Known, Rekeyed;
    var s' := Recycled(hash, s, t, k);
    FreeRecycled(s, s', i, s'.bufs[i]);
    hide FreeOk, Without;
    forall j | 0 <= j < |s.bufs| ensures s'.bufs[j].refcnt == |Users(s'.refs, j)| + s.pins[j] { UsersAdd(s.refs, t, Ref(i, Wants), j); }
    forall u | u in s.refs ensures s.refs[u].buf != i { InUse(s, u); }
    hide Users;
  }

  /** The checks bget panics on do not fail: a clash is only ever with a buffer that was never used, and the block is not
      in the table already. */
  lemma RecycledGood(hash: Hash, s: State, t: int, k: Key)
    requires Good(hash, s) && t !in s.refs && s.free != [] && hash(k) != 0
    requires forall x :: 0 <= x < |s.bufs| && InHash(hash, s.bufs, s.buckets, x) ==> s.bufs[x].key != k
    ensures 0 <= s.free[|s.free| - 1] < |s.bufs| && Good(hash, Recycled(hash, s, t, k)) && SameIdentity(s, Recycled(hash, s, t, k))
    ensures InHash(hash, Recycled(hash, s, t, k).bufs, Recycled(hash, s, t, k).buckets, s.free[|s.free| - 1])
    ensures Coherent(hash, s) ==> Coherent(hash, Recycled(hash, s, t, k))
  {
    var i := s.free[|s.free| - 1];
    RecycledLists(hash, s, t, k);
    var b := s.bufs[i].(key := k, valid := false, refcnt := 1);
    RekeyedOk(hash, s.bufs, s.buckets, i, b);
    hide HashOk, InHash, Users, Without, Rekeyed;
    var s' := Recycled(hash, s, t, k);
    if Coherent(hash, s) {
      forall j | j in s'.changed ensures exists u :: u in s'.refs && s'.refs[u] == Ref(j, Has) {
        var u :| u in s.refs && s.refs[u] == Ref(j, Has);
        assert s'.refs[u] == Ref(j, Has);
      }
    }
  }

  lemma ClashOnlyUnused(hash: Hash, s: State, i: int)
    requires Good(hash, s) && 0 <= i < |s.bufs|
    ensures |s.buckets| > 0 && forall b, p :: 0 <= b < |s.buckets| && 0 <= p < |s.buckets[b]| ==> 0 <= s.buckets[b][p] < |s.bufs|
    ensures Get(hash, s.bufs, s.buckets, s.bufs[i].key) in {-1, i} || s.bufs[i].key == UNUSED
  {
    GetIs(hash, s.bufs, s.buckets, s.bufs[i].key, i);
  }

  // ---------- with the buffer's lock ----------

  function Locked(s: State, t: int): State
    requires t in s.refs
  {
    s.(refs := s.refs[t := Ref(s.refs[t].buf, Has)])
  }

  function Unlocked(s: State, t: int): State
    requires t in s.refs
  {
    s.(refs := s.refs[t := Ref(s.refs[t].buf, LetGo)])
  }

  ghost predicate LockFree(s: State, i: int) {
    forall t :: t in s.refs ==> s.refs[t] != Ref(i, Has)
  }

  lemma RefsMoved(hash: Hash, s: State, t: int, phase: Phase)
    requires Good(hash, s) && t in s.refs && (phase == Has ==> LockFree(s, s.refs[t].buf))
    ensures Good(hash, s.(refs := s.refs[t := Ref(s.refs[t].buf, phase)]))
  {
    var r := Ref(s.refs[t].buf, phase);
    forall j ensures Users(s.refs[t := r], j) == Users(s.refs, j) { UsersMove(s.refs, t, r, j); }
    hide HashOk, InHash, Users, Distinct;
  }

  /** When a thread gets the lock, no other holder's unwritten change is in the buffer. */
  lemma LockedGood(hash: Hash, s: State, t: int)
    requires Good(hash, s) && t in s.refs && s.refs[t].phase == Wants && LockFree(s, s.refs[t].buf)
    ensures Good(hash, Locked(s, t)) && SameIdentity(s, Locked(s, t))
    ensures Coherent(hash, s) ==> Coherent(hash, Locked(s, t)) && s.refs[t].buf !in s.changed
  {
    RefsMoved(hash, s, t, Has);
    hide HashOk, InHash, Users;
    if Coherent(hash, s) {
      forall j | j in s.changed ensures exists u :: u in Locked(s, t).refs && Locked(s, t).refs[u] == Ref(j, Has) {
        var u :| u in s.refs && s.refs[u] == Ref(j, Has);
        assert Locked(s, t).refs[u] == Ref(j, Has);
      }
    }
  }

  /** A holder that has written what it changed may let go. */
  lemma UnlockedGood(hash: Hash, s: State, t: int)
    requires Good(hash, s) && t in s.refs && s.refs[t].phase == Has
    ensures Good(hash, Unlocked(s, t)) && SameIdentity(s, Unlocked(s, t))
    ensures Coherent(hash, s) && s.refs[t].buf !in s.changed ==> Coherent(hash, Unlocked(s, t))
  {
    RefsMoved(hash, s, t, LetGo);
    hide HashOk, InHash, Users;
    if Coherent(hash, s) && s.refs[t].buf !in s.changed {
      forall j | j in s.changed ensures exists u :: u in Unlocked(s, t).refs && Unlocked(s, t).refs[u] == Ref(j, Has) {
        var u :| u in s.refs && s.refs[u] == Ref(j, Has);
        assert Unlocked(s, t).refs[u] == Ref(j, Has);
      }
    }
  }

  /** A buffer's contents or marks change, and its key does not. */
  function Refilled(s: State, i: int, b: Buf): State
    requires 0 <= i < |s.bufs|
  {
    s.(bufs := s.bufs[i := b])
  }

  lemma RefilledGood(hash: Hash, s: State, i: int, b: Buf)
    requires Good(hash, s) && 0 <= i < |s.bufs| && InHash(hash, s.bufs, s.buckets, i)
    requires b.key == s.bufs[i].key && b.refcnt == s.bufs[i].refcnt && b.dirty == s.bufs[i].dirty
    ensures Good(hash, Refilled(s, i, b))
    ensures forall j :: 0 <= j < |s.bufs| ==> (InHash(hash, Refilled(s, i, b).bufs, s.buckets, j) <==> InHash(hash, s.bufs, s.buckets, j))
  {
    SameHash(hash, s.bufs, Refilled(s, i, b).bufs, s.buckets);
    hide HashOk, InHash, Users, Distinct;
  }

  lemma HeldInHash(hash: Hash, s: State, t: int)
    requires Good(hash, s) && t in s.refs
    ensures 0 <= s.refs[t].buf < |s.bufs| && InHash(hash, s.bufs, s.buckets, s.refs[t].buf)
  {
    InUse(s, t);
  }

  /** The part of bread that reads the disk */
  function Loaded(s: State, i: int): State
    requires 0 <= i < |s.bufs|
  {
    if s.bufs[i].valid then s else Refilled(s, i, s.bufs[i].(data := OnDisk(s.disk, s.bufs[i].key), valid := true))
  }

  /** What bread gives its caller is what is on the disk. */
  lemma LoadedGood(hash: Hash, s: State, t: int)
    requires Good(hash, s) && t in s.refs && s.refs[t].phase == Has
    ensures 0 <= s.refs[t].buf < |s.bufs| && Good(hash, Loaded(s, s.refs[t].buf))
    ensures Coherent(hash, s) ==> Coherent(hash, Loaded(s, s.refs[t].buf))
    ensures Coherent(hash, s) && s.refs[t].buf !in s.changed ==>
              Loaded(s, s.refs[t].buf).bufs[s.refs[t].buf].data == OnDisk(s.disk, s.bufs[s.refs[t].buf].key)
  {
    var i := s.refs[t].buf;
    HeldInHash(hash, s, t);
    if !s.bufs[i].valid {
      RefilledGood(hash, s, i, s.bufs[i].(data := OnDisk(s.disk, s.bufs[i].key), valid := true));
    }
    hide HashOk, InHash, Users, Distinct;
  }

  /** The holder changes the data. */
  function Edited(s: State, i: int, data: Data): State
    requires 0 <= i < |s.bufs|
  {
    Refilled(s, i, s.bufs[i].(data := data)).(changed := s.changed + {i})
  }

  lemma EditedGood(hash: Hash, s: State, t: int, data: Data)
    requires Good(hash, s) && t in s.refs && s.refs[t].phase == Has
    ensures 0 <= s.refs[t].buf < |s.bufs| && Good(hash, Edited(s, s.refs[t].buf, data))
    ensures Coherent(hash, s) ==> Coherent(hash, Edited(s, s.refs[t].buf, data))
  {
    var i := s.refs[t].buf;
    HeldInHash(hash, s, t);
    RefilledGood(hash, s, i, s.bufs[i].(data := data));
    hide HashOk, InHash, Users, Distinct;
    assert s.refs[t] == Ref(i, Has);
  }

  /** Takes a buffer's dirty mark, and it off the dirty list. */
  function Cleaned(s: State, i: int): State
    requires 0 <= i < |s.bufs|
  {
    if !s.bufs[i].dirty then s
    else s.(bufs := s.bufs[i := s.bufs[i].(dirty := false)], dirty := Without(s.dirty, i), dirtyCount := s.dirtyCount - 1)
  }

  function Soiled(s: State, i: int): State
    requires 0 <= i < |s.bufs|
  {
    if s.bufs[i].dirty then s
    else s.(bufs := s.bufs[i := s.bufs[i].(dirty := true)], dirty := s.dirty + [i], dirtyCount := s.dirtyCount + 1)
  }

  lemma CleanedDirty(s: State, i: int)
    requires DirtyOk(s) && 0 <= i < |s.bufs|
    ensures DirtyOk(Cleaned(s, i))
  {
    WithoutIs(s.dirty, i);
    forall j ensures j in Cleaned(s, i).dirty <==> 0 <= j < |s.bufs| && Cleaned(s, i).bufs[j].dirty { WithoutHas(s.dirty, i, j); }
  }

  lemma CleanedGood(hash: Hash, s: State, i: int)
    requires Good(hash, s) && 0 <= i < |s.bufs|
    ensures Good(hash, Cleaned(s, i)) && (Coherent(hash, s) ==> Coherent(hash, Cleaned(s, i)))
    ensures forall j :: 0 <= j < |s.bufs| ==> (InHash(hash, Cleaned(s, i).bufs, s.buckets, j) <==> InHash(hash, s.bufs, s.buckets, j))
  {
    SameHash(hash, s.bufs, Cleaned(s, i).bufs, s.buckets);
    CleanedDirty(s, i);
    hide HashOk, InHash, Users, Distinct, Without, DirtyOk;
  }

  lemma SoiledGood(hash: Hash, s: State, t: int)
    requires Good(hash, s) && t in s.refs
    ensures 0 <= s.refs[t].buf < |s.bufs| && Good(hash, Soiled(s, s.refs[t].buf))
    ensures Coherent(hash, s) ==> Coherent(hash, Soiled(s, s.refs[t].buf))
  {
    var i := s.refs[t].buf;
    HeldInHash(hash, s, t);
    var s' := Soiled(s, i);
    SameHash(hash, s.bufs, s'.bufs, s.buckets);
    forall j ensures j in s.dirty + [i] <==> j in s.dirty || j == i { }
    hide HashOk, InHash, Users;
  }

  /** The data goes to the disk. */
  function Stored(s: State, i: int): State
    requires 0 <= i < |s.bufs|
  {
    s.(disk := s.disk[s.bufs[i].key := s.bufs[i].data])
  }

  lemma StoredGood(hash: Hash, s: State, t: int)
    requires Good(hash, s) && t in s.refs
    ensures 0 <= s.refs[t].buf < |s.bufs| && Good(hash, Stored(s, s.refs[t].buf))
    ensures Coherent(hash, s) ==> Coherent(hash, Stored(s, s.refs[t].buf))
  {
    var i := s.refs[t].buf;
    HeldInHash(hash, s, t);
    forall j | 0 <= j < |s.bufs| && InHash(hash, s.bufs, s.buckets, j) && s.bufs[j].key == s.bufs[i].key ensures j == i {
      GetIs(hash, s.bufs, s.buckets, s.bufs[i].key, i);
      GetIs(hash, s.bufs, s.buckets, s.bufs[i].key, j);
    }
    hide HashOk, InHash, Users, Distinct;
  }

  /** bwrite */
  function Written(s: State, i: int): State
    requires 0 <= i < |s.bufs|
  {
    Cleaned(Stored(s, i), i).(changed := s.changed - {i})
  }

  lemma WrittenIs(s: State, i: int)
    requires DirtyOk(s) && 0 <= i < |s.bufs|
    ensures var s' := Written(s, i);
            && s'.disk == s.disk[s.bufs[i].key := s.bufs[i].data] && s'.bufs == s.bufs[i := s.bufs[i].(dirty := false)]
            && (forall j :: j in s'.dirty <==> j in s.dirty && j != i) && s'.changed == s.changed - {i}
            && s'.free == s.free && s'.buckets == s.buckets && s'.refs == s.refs && s'.pins == s.pins
  {
    WithoutIs(s.dirty, i);
    hide Without;
  }

  lemma WrittenGood(hash: Hash, s: State, t: int)
    requires Good(hash, s) && t in s.refs && s.refs[t].phase == Has
    ensures 0 <= s.refs[t].buf < |s.bufs| && Good(hash, Written(s, s.refs[t].buf))
    ensures Coherent(hash, s) ==> Coherent(hash, Written(s, s.refs[t].buf))
    ensures var i, s' := s.refs[t].buf, Written(s, s.refs[t].buf);
            && s'.disk == s.disk[s.bufs[i].key := s.bufs[i].data] && s'.bufs == s.bufs[i := s.bufs[i].(dirty := false)]
            && (forall j :: j in s'.dirty <==> j in s.dirty && j != i) && s'.changed == s.changed - {i}
            && s'.free == s.free && s'.buckets == s.buckets && s'.refs == s.refs && s'.pins == s.pins
  {
    var i := s.refs[t].buf;
    StoredGood(hash, s, t);
    CleanedGood(hash, Stored(s, i), i);
    WrittenIs(s, i);
    hide HashOk, InHash, Users, Distinct, Without;
    hide Good, Cleaned, Stored;
    if Coherent(hash, s) {
      assert Written(s, i).bufs[i].data == OnDisk(Written(s, i).disk, Written(s, i).bufs[i].key);
    }
  }

  // ---------- giving a reference back ----------

  /** A reference less; the last one puts the buffer at the head of the free list. */
  function Fewer(s: State, i: int): State
    requires 0 <= i < |s.bufs|
  {
    s.(bufs := s.bufs[i := s.bufs[i].(refcnt := s.bufs[i].refcnt - 1)], free := if s.bufs[i].refcnt == 1 then [i] + s.free else s.free)
  }

  function Dropped(s: State, t: int): State
    requires t in s.refs && 0 <= s.refs[t].buf < |s.bufs|
  {
    Fewer(s, s.refs[t].buf).(refs := s.refs - {t})
  }

  lemma FewerFree(s: State, i: int)
    requires FreeOk(s) && 0 <= i < |s.bufs| && s.bufs[i].refcnt > 0
    ensures FreeOk(Fewer(s, i))
  {
    assert i !in s.free;
    forall j ensures j in [i] + s.free <==> j == i || j in s.free { }
  }

  lemma DroppedGood(hash: Hash, s: State, t: int)
    requires Good(hash, s) && t in s.refs && s.refs[t].phase == LetGo
    ensures 0 <= s.refs[t].buf < |s.bufs| && Good(hash, Dropped(s, t)) && SameIdentity(s, Dropped(s, t))
    ensures Coherent(hash, s) ==> Coherent(hash, Dropped(s, t))
  {
    var i := s.refs[t].buf;
    InUse(s, t);
    HeldInHash(hash, s, t);
    var s' := Dropped(s, t);
    SameHash(hash, s.bufs, s'.bufs, s.buckets);
    FewerFree(s, i);
    forall j | 0 <= j < |s.bufs| ensures s'.bufs[j].refcnt == |Users(s'.refs, j)| + s.pins[j] { UsersDrop(s.refs, t, j); }
    hide HashOk, InHash, Users, Distinct;
    if Coherent(hash, s) {
      forall j | j in s'.changed ensures exists u :: u in s'.refs && s'.refs[u] == Ref(j, Has) {
        var u :| u in s.refs && s.refs[u] == Ref(j, Has);
        assert s'.refs[u] == Ref(j, Has);
      }
    }
  }

  /** bpin and bunpin */
  function Pinned(s: State, i: int): State
    requires 0 <= i < |s.bufs| == |s.pins|
  {
    s.(bufs := s.bufs[i := s.bufs[i].(refcnt := s.bufs[i].refcnt + 1)],
       free := if i in s.free then Without(s.free, i) else s.free, pins := s.pins[i := s.pins[i] + 1])
  }

  function Unpinned(s: State, i: int): State
    requires 0 <= i < |s.bufs| == |s.pins| && s.pins[i] > 0
  {
    Fewer(s, i).(pins := s.pins[i := s.pins[i] - 1])
  }

  lemma MoreFree(s: State, i: int)
    requires FreeOk(s) && 0 <= i < |s.bufs| && s.bufs[i].refcnt >= 0 && |s.pins| == |s.bufs|
    ensures FreeOk(Pinned(s, i))
  {
    WithoutIs(s.free, i);
    forall j ensures j in Without(s.free, i) <==> j in s.free && j != i { WithoutHas(s.free, i, j); }
  }

  lemma PinnedGood(hash: Hash, s: State, i: int)
    requires Good(hash, s) && 0 <= i < |s.bufs| && InHash(hash, s.bufs, s.buckets, i)
    ensures Good(hash, Pinned(s, i)) && (Coherent(hash, s) ==> Coherent(hash, Pinned(s, i)))
  {
    SameHash(hash, s.bufs, Pinned(s, i).bufs, s.buckets);
    MoreFree(s, i);
    hide HashOk, InHash, Users, Distinct, Without;
  }

  lemma UnpinnedGood(hash: Hash, s: State, i: int)
    requires Good(hash, s) && 0 <= i < |s.bufs| && s.pins[i] > 0
    ensures Good(hash, Unpinned(s, i)) && (Coherent(hash, s) ==> Coherent(hash, Unpinned(s, i)))
  {
    SameHash(hash, s.bufs, Unpinned(s, i).bufs, s.buckets);
    FewerFree(s, i);
    hide HashOk, InHash, Users, Distinct;
  }

  /** bsync takes the buffer at the end of the dirty list, and a reference to it. */
  function Collected(s: State, t: int): State
    requires s.dirty != [] && 0 <= s.dirty[|s.dirty| - 1] < |s.bufs|
  {
    var last := |s.dirty| - 1;
    var i := s.dirty[last];
    Taken(s.(bufs := s.bufs[i := s.bufs[i].(dirty := false)], dirty := s.dirty[..last], dirtyCount := s.dirtyCount - 1), t, i)
  }

  lemma CollectedGood(hash: Hash, s: State, t: int)
    requires Good(hash, s) && t !in s.refs && s.dirty != []
    ensures 0 <= s.dirty[|s.dirty| - 1] < |s.bufs| && Good(hash, Collected(s, t)) && SameIdentity(s, Collected(s, t))
    ensures Coherent(hash, s) ==> Coherent(hash, Collected(s, t))
  {
    var last := |s.dirty| - 1;
    var i := s.dirty[last];
    assert i in s.dirty;
    var c := s.(bufs := s.bufs[i := s.bufs[i].(dirty := false)], dirty := s.dirty[..last], dirtyCount := s.dirtyCount - 1);
    SameHash(hash, s.bufs, c.bufs, s.buckets);
    LastOut(s.dirty);
    forall j ensures j in c.dirty <==> 0 <= j < |c.bufs| && c.bufs[j].dirty { LastOutHas(s.dirty, j); }
    assert Good(hash, c) && InHash(hash, c.bufs, c.buckets, i) && (Coherent(hash, s) ==> Coherent(hash, c)) by {
      hide HashOk, InHash, Users, Distinct;
    }
    TakenGood(hash, c, t, i);
    hide HashOk, InHash, Users, Distinct, Without, Good, Coherent;
  }

  // ---------- whole runs ----------

  datatype Move = Find(t: int, i: int) | Recycle(t: int, k: Key) | Lock(t: int) | Load(t: int) | Edit(t: int, data: Data) | Write(t: int)
                | Mark(t: int) | Unlock(t: int) | Drop(t: int) | Pin(i: int) | Unpin(i: int) | Collect(t: int) | Flush(t: int)

  ghost predicate HasLock(s: State, t: int) {
    t in s.refs && s.refs[t].phase == Has && 0 <= s.refs[t].buf < |s.bufs|
  }

  ghost predicate Cached(hash: Hash, s: State, i: int) {
    |s.buckets| > 0 && 0 <= i < |s.bufs| && InHash(hash, s.bufs, s.buckets, i)
  }

  /** One section of an operation. A block is looked for under its own key, and a buffer is recycled only for a block that
      is not in the table. */
  ghost predicate Next(hash: Hash, s: State, m: Move, s': State) {
    match m
    case Find(t, i) => t !in s.refs && Cached(hash, s, i) && s' == Taken(s, t, i)
    case Recycle(t, k) =>
      && t !in s.refs && hash(k) != 0 && HashOk(hash, s.bufs, s.buckets) && (forall x :: Cached(hash, s, x) ==> s.bufs[x].key != k)
      && s.free != [] && 0 <= s.free[|s.free| - 1] < |s.bufs| && s' == Recycled(hash, s, t, k)
    case Lock(t) => t in s.refs && s.refs[t].phase == Wants && LockFree(s, s.refs[t].buf) && s' == Locked(s, t)
    case Load(t) => HasLock(s, t) && s' == Loaded(s, s.refs[t].buf)
    case Edit(t, data) => HasLock(s, t) && s' == Edited(s, s.refs[t].buf, data)
    case Write(t) => HasLock(s, t) && s' == Written(s, s.refs[t].buf)
    case Mark(t) => HasLock(s, t) && s' == Soiled(s, s.refs[t].buf)
    case Unlock(t) => HasLock(s, t) && s' == Unlocked(s, t)
    case Drop(t) => t in s.refs && s.refs[t].phase == LetGo && 0 <= s.refs[t].buf < |s.bufs| && s' == Dropped(s, t)
    case Pin(i) => Cached(hash, s, i) && |s.pins| == |s.bufs| && s' == Pinned(s, i)
    case Unpin(i) => 0 <= i < |s.bufs| == |s.pins| && s.pins[i] > 0 && s' == Unpinned(s, i)
    case Collect(t) => t !in s.refs && s.dirty != [] && 0 <= s.dirty[|s.dirty| - 1] < |s.bufs| && s' == Collected(s, t)
    case Flush(t) => HasLock(s, t) && s' == if s.bufs[s.refs[t].buf].valid then Stored(s, s.refs[t].buf) else s
  }

  /** The step is not of a holder that lets go of a buffer it has changed and not written. */
  ghost predicate Saves(s: State, m: Move) {
    m.Unlock? && m.t in s.refs ==> s.refs[m.t].buf !in s.changed
  }

  lemma NextGood(hash: Hash, s: State, m: Move, s': State)
    requires Good(hash, s) && Next(hash, s, m, s')
    ensures Good(hash, s') && |s.buckets| > 0 && |s'.buckets| > 0 && (Coherent(hash, s) && Saves(s, m) ==> Coherent(hash, s'))
    ensures SameIdentity(s, s')
  {
    hide Good, HashOk, InHash, Coherent;
    HasBuckets(hash, s);
    match m {
      case Find(t, i) => TakenGood(hash, s, t, i);
      case Recycle(t, k) => RecycleStep(hash, s, t, k);
      case Lock(t) => LockedGood(hash, s, t);
      case Load(t) => LoadedGood(hash, s, t);
      case Edit(t, data) => EditedGood(hash, s, t, data);
      case Write(t) => WrittenGood(hash, s, t);
      case Mark(t) => SoiledGood(hash, s, t);
      case Unlock(t) => UnlockedGood(hash, s, t);
      case Drop(t) => DroppedGood(hash, s, t);
      case Pin(i) => PinnedGood(hash, s, i);
      case Unpin(i) => UnpinnedGood(hash, s, i);
      case Collect(t) => CollectedGood(hash, s, t);
      case Flush(t) => StoredGood(hash, s, t);
    }
    HasBuckets(hash, s');
  }

  lemma RecycleStep(hash: Hash, s: State, t: int, k: Key)
    requires Good(hash, s) && t !in s.refs && s.free != [] && hash(k) != 0 && forall x :: Cached(hash, s, x) ==> s.bufs[x].key != k
    ensures 0 <= s.free[|s.free| - 1] < |s.bufs| && Good(hash, Recycled(hash, s, t, k)) && SameIdentity(s, Recycled(hash, s, t, k))
    ensures Coherent(hash, s) ==> Coherent(hash, Recycled(hash, s, t, k))
  {
    forall x | 0 <= x < |s.bufs| && InHash(hash, s.bufs, s.buckets, x) ensures s.bufs[x].key != k { assert Cached(hash, s, x); }
    RecycledGood(hash, s, t, k);
  }

  /** binit: nothing is cached and every buffer is free. */
  ghost predicate Fresh(s: State) {
    && (forall i :: 0 <= i < |s.bufs| ==> s.bufs[i].key == UNUSED && s.bufs[i].refcnt == 0 && !s.bufs[i].valid && !s.bufs[i].dirty)
    && Distinct(s.free) && (forall i :: i in s.free <==> 0 <= i < |s.bufs|)
    && s.dirty == [] && s.dirtyCount == 0 && s.refs == map[] && s.changed == {}
    && |s.pins| == |s.bufs| && (forall i :: 0 <= i < |s.pins| ==> s.pins[i] == 0)
    && |s.buckets| > 0 && forall b :: 0 <= b < |s.buckets| ==> s.buckets[b] == []
  }

  lemma FreshGood(hash: Hash, s: State)
    requires Fresh(s)
    ensures Good(hash, s) && Coherent(hash, s)
  {
    forall i ensures Users(s.refs, i) == {} { }
    forall b | 0 <= b < |s.buckets| ensures BucketOk(hash, s.bufs, s.buckets, b) { }
  }

  ghost predicate IsRun(hash: Hash, states: seq<State>, moves: seq<Move>) {
    && |states| == |moves| + 1 && Fresh(states[0])
    && forall i :: 0 <= i < |moves| ==> Next(hash, states[i], moves[i], states[i + 1])
  }

  /** In every interleaving the tables agree; and if holders write what they change before letting go, every valid buffer
      that is not being changed has what the disk has. */
  lemma {:induction false} RunGood(hash: Hash, states: seq<State>, moves: seq<Move>, k: nat)
    requires IsRun(hash, states, moves) && k < |states|
    ensures Good(hash, states[k]) && |states[k].buckets| > 0
    ensures (forall i :: 0 <= i < k ==> Saves(states[i], moves[i])) ==> Coherent(hash, states[k])
  {
    hide Good, Next, Fresh, Coherent, Saves;
    if k == 0 {
      FreshGood(hash, states[0]);
      HasBuckets(hash, states[0]);
    } else {
      RunGood(hash, states, moves, k - 1);
      NextGood(hash, states[k - 1], moves[k - 1], states[k]);
    }
  }

  lemma HasBuckets(hash: Hash, s: State)
    requires Good(hash, s)
    ensures |s.buckets| > 0
  {
  }
}
