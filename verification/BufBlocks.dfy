/** What the buffer cache of kernel/bio.c is for: in every interleaving of its sections, a block reads as it was last
    written, unless a buffer with a change that is not on the disk is recycled. */
module BufBlocks {
  import opened Basics
  import opened BufTable
  import opened BufCache

  /** Buffer `i` stands for block `k` and its data is good. */
  ghost predicate Shows(hash: Hash, s: State, i: int, k: Key) {
    Cached(hash, s, i) && s.bufs[i].key == k && s.bufs[i].valid
  }

  /** Whoever reads block `k` finds `v`: in the buffer that shows it, or else on the disk. */
  ghost predicate Reads(hash: Hash, s: State, k: Key, v: Data) {
    && (forall i :: Shows(hash, s, i, k) ==> s.bufs[i].data == v)
    && ((forall i :: !Shows(hash, s, i, k)) ==> OnDisk(s.disk, k) == v)
  }

  /** The thread has the lock of a buffer for block `k`. */
  ghost predicate At(s: State, t: int, k: Key) {
    HasLock(s, t) && s.bufs[s.refs[t].buf].key == k
  }

  /** What block `k` should read as after a step: a holder has put other data into a buffer that was filled, or bwrite has
      written one that was not. */
  ghost function After(s: State, m: Move, k: Key, v: Data): Data {
    if m.Edit? && At(s, m.t, k) && s.bufs[s.refs[m.t].buf].valid then m.data
    else if m.Write? && At(s, m.t, k) && !s.bufs[s.refs[m.t].buf].valid then s.bufs[s.refs[m.t].buf].data
    else v
  }

  /** The step recycles a buffer whose data is not what the disk has. */
  ghost predicate Loses(hash: Hash, s: State, m: Move, k: Key) {
    && m.Recycle? && s.free != []
    && Shows(hash, s, s.free[|s.free| - 1], k) && s.bufs[s.free[|s.free| - 1]].data != OnDisk(s.disk, k)
  }

  lemma OneShows(hash: Hash, s: State, i: int, j: int)
    requires Good(hash, s) && Cached(hash, s, i) && Cached(hash, s, j) && s.bufs[i].key == s.bufs[j].key
    ensures i == j
  {
    GetIs(hash, s.bufs, s.buckets, s.bufs[i].key, i);
    GetIs(hash, s.bufs, s.buckets, s.bufs[i].key, j);
  }

  lemma Holds(hash: Hash, s: State, t: int)
    requires Good(hash, s) && t in s.refs
    ensures Cached(hash, s, s.refs[t].buf)
  {
    HeldInHash(hash, s, t);
  }

  /** The table has the same buffers under the same keys. */
  lemma SameCached(hash: Hash, s: State, s': State)
    requires s'.buckets == s.buckets && |s'.bufs| == |s.bufs| && forall i :: 0 <= i < |s.bufs| ==> s'.bufs[i].key == s.bufs[i].key
    ensures forall i :: Cached(hash, s', i) <==> Cached(hash, s, i)
  {
  }

  lemma ReadsSame(hash: Hash, s: State, s': State, k: Key, v: Data)
    requires Reads(hash, s, k, v) && s'.buckets == s.buckets && s'.disk == s.disk && SameBlocks(s.bufs, s'.bufs)
    ensures Reads(hash, s', k, v)
  {
    SameCached(hash, s, s');
    forall i ensures Shows(hash, s', i, k) <==> Shows(hash, s, i, k) { }
  }

  /** One buffer changes, and the disk under it. */
  lemma ReadsOne(hash: Hash, s: State, s': State, i: int, k: Key, v: Data, v': Data)
    requires Good(hash, s) && Reads(hash, s, k, v) && Cached(hash, s, i)
    requires s'.buckets == s.buckets && |s'.bufs| == |s.bufs| && s'.bufs[i].key == s.bufs[i].key
    requires forall j :: 0 <= j < |s.bufs| && j != i ==>
               s'.bufs[j].key == s.bufs[j].key && s'.bufs[j].valid == s.bufs[j].valid && s'.bufs[j].data == s.bufs[j].data
    requires s.bufs[i].key != k ==> OnDisk(s'.disk, k) == OnDisk(s.disk, k) && v' == v
    requires s.bufs[i].key == k ==> v' == if s'.bufs[i].valid then s'.bufs[i].data else OnDisk(s'.disk, k)
    ensures Reads(hash, s', k, v')
  {
    SameCached(hash, s, s');
    forall j | Cached(hash, s, j) && s.bufs[j].key == s.bufs[i].key ensures j == i { OneShows(hash, s, i, j); }
    hide Good, Cached;
    if s.bufs[i].key == k {
      assert forall j :: Shows(hash, s', j, k) ==> j == i;
      assert s'.bufs[i].valid ==> Shows(hash, s', i, k);
    } else {
      assert forall j :: Shows(hash, s', j, k) <==> Shows(hash, s, j, k);
    }
  }

  lemma ReadsHeld(hash: Hash, s: State, m: Move, s': State, k: Key, v: Data)
    requires Good(hash, s) && Next(hash, s, m, s') && Reads(hash, s, k, v) && (m.Load? || m.Edit? || m.Write? || m.Flush?)
    ensures Reads(hash, s', k, After(s, m, k, v))
  {
    hide Good, Reads, Cached, Without;
    Holds(hash, s, m.t);
    if At(s, m.t, k) { HeldShows(hash, s, m.t, k, v); }
    ReadsOne(hash, s, s', s.refs[m.t].buf, k, v, After(s, m, k, v));
  }

  lemma HeldShows(hash: Hash, s: State, t: int, k: Key, v: Data)
    requires Good(hash, s) && At(s, t, k) && Reads(hash, s, k, v)
    ensures s.bufs[s.refs[t].buf].valid ==> s.bufs[s.refs[t].buf].data == v
    ensures !s.bufs[s.refs[t].buf].valid ==> OnDisk(s.disk, k) == v
  {
    hide Good;
    var i := s.refs[t].buf;
    Holds(hash, s, t);
    forall j | Shows(hash, s, j, k) ensures j == i { OneShows(hash, s, i, j); }
    assert s.bufs[i].valid ==> Shows(hash, s, i, k);
  }

  lemma ReadsRecycle(hash: Hash, s: State, t: int, b: Key, s': State, k: Key, v: Data)
    requires Good(hash, s) && Next(hash, s, Recycle(t, b), s') && Reads(hash, s, k, v)
    ensures Reads(hash, s', k, v) <==> !Loses(hash, s, Recycle(t, b), k)
  {
    var i := s.free[|s.free| - 1];
    forall x | 0 <= x < |s.bufs| && InHash(hash, s.bufs, s.buckets, x) ensures s.bufs[x].key != b { assert Cached(hash, s, x); }
    RekeyedOk(hash, s.bufs, s.buckets, i, s'.bufs[i]);
    forall x ensures Cached(hash, s', x) <==> x == i || Cached(hash, s, x) { }
    forall x | Cached(hash, s, x) && Cached(hash, s, i) && s.bufs[x].key == s.bufs[i].key ensures x == i { OneShows(hash, s, i, x); }
    hide Good, InHash, HashOk, Rekeyed, Cached;
    assert forall x :: Shows(hash, s', x, k) <==> x != i && Shows(hash, s, x, k);
  }

  /** Every section leaves each block reading as it should, but for one that recycles a buffer with a change that is not on
      the disk. */
  lemma ReadsStep(hash: Hash, s: State, m: Move, s': State, k: Key, v: Data)
    requires Good(hash, s) && Next(hash, s, m, s') && Reads(hash, s, k, v)
    ensures Reads(hash, s', k, After(s, m, k, v)) <==> !Loses(hash, s, m, k)
  {
    hide Good, Reads, InHash, LockFree, HashOk, Rekeyed, Without;
    if m.Recycle? {
      ReadsRecycle(hash, s, m.t, m.k, s', k, v);
    } else if m.Load? || m.Edit? || m.Write? || m.Flush? {
      ReadsHeld(hash, s, m, s', k, v);
    } else {
      ReadsSame(hash, s, s', k, v);
    }
  }

  /** The disk changes only where bwrite or bsync writes, and to what the buffer has. */
  lemma DiskStep(hash: Hash, s: State, m: Move, s': State, k: Key)
    requires Good(hash, s) && Next(hash, s, m, s')
    ensures OnDisk(s'.disk, k) ==
            if (m.Write? || (m.Flush? && s.bufs[s.refs[m.t].buf].valid)) && s.bufs[s.refs[m.t].buf].key == k then s.bufs[s.refs[m.t].buf].data
            else OnDisk(s.disk, k)
  {
    hide Good, Cached, LockFree, HashOk, Rekeyed, Without;
  }

  /** If holders write what they change before they let go, no step loses anything. */
  lemma NothingLost(hash: Hash, s: State, m: Move, k: Key)
    requires Good(hash, s) && |s.buckets| > 0 && Coherent(hash, s)
    ensures !Loses(hash, s, m, k)
  {
    if Loses(hash, s, m, k) {
      var i := s.free[|s.free| - 1];
      assert i in s.free;
      if i in s.changed {
        var t :| t in s.refs && s.refs[t] == Ref(i, Has);
        InUse(s, t);
      }
    }
  }

  // ---------- whole runs ----------

  /** What was last put into block `k` in the first `n` steps. */
  ghost function Last(states: seq<State>, moves: seq<Move>, n: nat, k: Key): Data
    requires |states| == |moves| + 1 && n <= |moves|
  {
    if n == 0 then OnDisk(states[0].disk, k) else After(states[n - 1], moves[n - 1], k, Last(states, moves, n - 1, k))
  }

  /** The cache is a block store: each block reads as it was last written, whatever is cached, written back or recycled. */
  lemma {:induction false} RunReads(hash: Hash, states: seq<State>, moves: seq<Move>, n: nat, k: Key)
    requires IsRun(hash, states, moves) && n <= |moves| && forall j :: 0 <= j < n ==> !Loses(hash, states[j], moves[j], k)
    ensures Reads(hash, states[n], k, Last(states, moves, n, k))
  {
    hide Good, Next, Loses, After;
    if n == 0 {
      assert forall i :: !Shows(hash, states[0], i, k);
    } else {
      RunReads(hash, states, moves, n - 1, k);
      RunGood(hash, states, moves, n - 1);
      ReadsStep(hash, states[n - 1], moves[n - 1], states[n], k, Last(states, moves, n - 1, k));
    }
  }

  lemma RunSaves(hash: Hash, states: seq<State>, moves: seq<Move>, n: nat, k: Key)
    requires IsRun(hash, states, moves) && n <= |moves| && forall j :: 0 <= j < n ==> Saves(states[j], moves[j])
    ensures Reads(hash, states[n], k, Last(states, moves, n, k))
  {
    hide Good, Next, Loses, Coherent, Fresh;
    forall j | 0 <= j < n ensures !Loses(hash, states[j], moves[j], k) {
      RunGood(hash, states, moves, j);
      NothingLost(hash, states[j], moves[j], k);
    }
    RunReads(hash, states, moves, n, k);
  }

  /** So bread gives its caller what was last written to the block, and bwrite leaves that on the disk. */
  lemma BreadReads(hash: Hash, states: seq<State>, moves: seq<Move>, n: nat, k: Key)
    requires IsRun(hash, states, moves) && n < |moves| && (moves[n].Load? || moves[n].Write?) && At(states[n], moves[n].t, k)
    requires forall j :: 0 <= j <= n ==> !Loses(hash, states[j], moves[j], k)
    ensures var i, s := states[n].refs[moves[n].t].buf, states[n + 1];
            && 0 <= i < |s.bufs| && s.bufs[i].data == Last(states, moves, n + 1, k)
            && (moves[n].Load? ==> s.bufs[i].valid) && (moves[n].Write? ==> OnDisk(s.disk, k) == Last(states, moves, n + 1, k))
  {
    var s, s', i := states[n], states[n + 1], states[n].refs[moves[n].t].buf;
    RunReads(hash, states, moves, n, k);
    RunGood(hash, states, moves, n);
    assert Next(hash, s, moves[n], s');
    hide Good, Last, IsRun, Loses, HashOk, Without, InHash;
    Holds(hash, s, moves[n].t);
    HeldShows(hash, s, moves[n].t, k, Last(states, moves, n, k));
    LastNext(states, moves, n, k);
  }

  lemma LastNext(states: seq<State>, moves: seq<Move>, n: nat, k: Key)
    requires |states| == |moves| + 1 && n < |moves|
    ensures Last(states, moves, n + 1, k) == After(states[n], moves[n], k, Last(states, moves, n, k))
  {
  }

  // ---------- a write that is lost ----------

  /** A thread that has a reference locks its buffer, changes it, and calls bwrite_async and brelse. */
  function LaterMoves(d: Data): seq<Move> {
    [Lock(0), Load(0), Edit(0, d), Mark(0), Unlock(0), Drop(0)]
  }

  ghost predicate Steps(hash: Hash, states: seq<State>, moves: seq<Move>) {
    |states| == |moves| + 1 && forall i :: 0 <= i < |moves| ==> Next(hash, states[i], moves[i], states[i + 1])
  }

  lemma {:induction false} StepsGood(hash: Hash, states: seq<State>, moves: seq<Move>, n: nat)
    requires Steps(hash, states, moves) && Good(hash, states[0]) && n <= |moves|
    ensures Good(hash, states[n])
  {
    hide Good, Next;
    if n > 0 {
      StepsGood(hash, states, moves, n - 1);
      NextGood(hash, states[n - 1], moves[n - 1], states[n]);
    }
  }

  /** The only buffer stands for `k`. */
  ghost predicate Only(hash: Hash, s: State, k: Key) {
    Good(hash, s) && |s.bufs| == 1 && Cached(hash, s, 0) && s.bufs[0].key == k
  }

  lemma TakesOnly(hash: Hash, s: State, k: Key) returns (s': State)
    requires Good(hash, s) && |s.bufs| == 1 && s.refs == map[] && s.free == [0] && hash(k) != 0 && forall x :: Cached(hash, s, x) ==> s.bufs[x].key != k
    ensures Next(hash, s, Recycle(0, k), s') && Only(hash, s', k) && s'.refs == map[0 := Ref(0, Wants)] && s'.bufs[0].refcnt == 1 && s'.free == []
    ensures s'.disk == s.disk && !s'.bufs[0].valid
  {
    s' := Recycled(hash, s, 0, k);
    NextGood(hash, s, Recycle(0, k), s');
    RecycledGood(hash, s, 0, k);
  }

  lemma EditsOnly(hash: Hash, s: State, a: Key, d: Data) returns (s2: State, s3: State, s4: State)
    requires Only(hash, s, a) && s.refs == map[0 := Ref(0, Wants)]
    ensures Next(hash, s, Lock(0), s2) && Next(hash, s2, Load(0), s3) && Next(hash, s3, Edit(0, d), s4)
    ensures At(s3, 0, a) && s3.refs[0].buf == 0 && s3.bufs[0].valid
    ensures |s4.bufs| == 1 && s4.bufs[0].key == a && s4.bufs[0].refcnt == s.bufs[0].refcnt && s4.refs == map[0 := Ref(0, Has)]
    ensures s4.free == s.free && s4.buckets == s.buckets && s4.disk == s.disk
  {
    hide Good, InHash;
    s2 := Locked(s, 0);
    s3 := Loaded(s2, 0);
    s4 := Edited(s3, 0, d);
  }

  lemma DropsOnly(hash: Hash, s: State) returns (s5: State, s6: State, s7: State)
    requires |s.bufs| == 1 && s.bufs[0].refcnt == 1 && s.refs == map[0 := Ref(0, Has)] && s.free == []
    ensures Next(hash, s, Mark(0), s5) && Next(hash, s5, Unlock(0), s6) && Next(hash, s6, Drop(0), s7)
    ensures |s7.bufs| == 1 && s7.bufs[0].key == s.bufs[0].key && s7.bufs[0].dirty && s7.refs == map[] && s7.free == [0]
    ensures s7.buckets == s.buckets && s7.disk == s.disk
  {
    s5 := Soiled(s, 0);
    s6 := Unlocked(s5, 0);
    s7 := Dropped(s6, 0);
  }

  lemma WritesLater(hash: Hash, s: State, a: Key, d: Data) returns (states: seq<State>)
    requires Only(hash, s, a) && s.refs == map[0 := Ref(0, Wants)] && s.bufs[0].refcnt == 1 && s.free == []
    ensures Steps(hash, states, LaterMoves(d)) && states[0] == s && At(states[2], 0, a) && states[2].bufs[states[2].refs[0].buf].valid
    ensures var s' := states[6];
            Only(hash, s', a) && s'.free == [0] && s'.refs == map[] && s'.disk == s.disk && s'.bufs[0].dirty
  {
    hide Good, Next, InHash;
    var s2, s3, s4 := EditsOnly(hash, s, a, d);
    var s5, s6, s7 := DropsOnly(hash, s4);
    states := [s, s2, s3, s4, s5, s6, s7];
    StepsGood(hash, states, LaterMoves(d), 6);
    SameCached(hash, s, s7);
  }

  function LosingMoves(a: Key, b: Key, d: Data): seq<Move> {
    [Recycle(0, a)] + LaterMoves(d) + [Recycle(0, b)]
  }

  /** bwrite_async does not keep a buffer from being recycled before bsync has written it: the thread put `d` into the
      block, and the block reads as it was. */
  lemma LostWrite(hash: Hash, s: State, a: Key, b: Key, d: Data) returns (states: seq<State>)
    requires Fresh(s) && |s.bufs| == 1 && s.free == [0] && a != b && hash(a) != 0 && hash(b) != 0 && d != OnDisk(s.disk, a)
    ensures IsRun(hash, states, LosingMoves(a, b, d)) && states[0] == s && |states[7].bufs| == 1 && states[7].bufs[0].dirty
    ensures Last(states, LosingMoves(a, b, d), 8, a) == d && Reads(hash, states[8], a, OnDisk(s.disk, a))
  {
    FreshGood(hash, s);
    hide Good, Next, Steps, LaterMoves, Reads, Last, InHash, IsRun;
    var s1 := TakesOnly(hash, s, a);
    var mid := WritesLater(hash, s1, a, d);
    var s8 := TakesOnly(hash, mid[6], b);
    states := [s] + mid + [s8];
    Joined(hash, s, mid, s8, a, b, d);
    Edits(states, a, b, d);
    OtherOnly(hash, s8, a, b);
  }

  lemma OtherOnly(hash: Hash, s: State, a: Key, b: Key)
    requires |s.bufs| == 1 && s.bufs[0].key == b && a != b
    ensures Reads(hash, s, a, OnDisk(s.disk, a))
  {
    assert forall i :: !Shows(hash, s, i, a);
  }

  lemma Joined(hash: Hash, s: State, mid: seq<State>, s8: State, a: Key, b: Key, d: Data)
    requires Fresh(s) && Steps(hash, mid, LaterMoves(d)) && Next(hash, s, Recycle(0, a), mid[0]) && Next(hash, mid[6], Recycle(0, b), s8)
    ensures IsRun(hash, [s] + mid + [s8], LosingMoves(a, b, d))
  {
    hide Next, Fresh;
    var states, moves := [s] + mid + [s8], LosingMoves(a, b, d);
    forall i | 0 <= i < |moves| ensures Next(hash, states[i], moves[i], states[i + 1]) {
      if 1 <= i <= 6 { assert Next(hash, mid[i - 1], LaterMoves(d)[i - 1], mid[i]); }
    }
  }

  lemma Edits(states: seq<State>, a: Key, b: Key, d: Data)
    requires |states| == 9 && At(states[3], 0, a) && states[3].bufs[states[3].refs[0].buf].valid
    ensures Last(states, LosingMoves(a, b, d), 8, a) == d
  {
    hide At;
    var moves := LosingMoves(a, b, d);
    LastNext(states, moves, 3, a);
    LastNext(states, moves, 4, a);
    LastNext(states, moves, 5, a);
    LastNext(states, moves, 6, a);
    LastNext(states, moves, 7, a);
  }
}
