/** The tables of the buffer cache (kernel/bio.c) over the hash list of kernel/hlist.c: buckets of buffers by block, the
    list of free buffers and the list of dirty ones, and how they stay consistent with each other. */
module BufTable {
  import opened Basics

  datatype Key = Key(dev: int, blockno: int)

  type Data = seq<int>

  datatype Buf = Buf(key: Key, valid: bool, refcnt: int, dirty: bool, data: Data)

  /** The identity a buffer has before its first use. */
  const UNUSED := Key(0, 0)

  type Hash = Key -> nat

  /** list_node_detach */
  function Without(s: seq<int>, i: int): seq<int> {
    if s == [] then [] else if s[0] == i then s[1..] else [s[0]] + Without(s[1..], i)
  }

  lemma {:induction false} WithoutHas(s: seq<int>, i: int, j: int)
    requires Distinct(s)
    ensures j in Without(s, i) <==> j in s && j != i
  {
    if s != [] {
      assert s == [s[0]] + s[1..];
      if s[0] == i {
        assert i !in s[1..];
      } else {
        WithoutHas(s[1..], i, j);
      }
    }
  }

  /** The others stay in their order. */
  lemma {:induction false} WithoutAt(a: seq<int>, i: int, b: seq<int>)
    requires i !in a
    ensures Without(a + [i] + b, i) == a + b
  {
    var s := a + [i] + b;
    if a == [] {
      assert s[1..] == b && a + b == b;
    } else {
      assert s[1..] == a[1..] + [i] + b && s[0] == a[0];
      WithoutAt(a[1..], i, b);
      assert a + b == [a[0]] + (a[1..] + b);
    }
  }

  lemma {:induction false} WithoutDistinct(s: seq<int>, i: int)
    requires Distinct(s)
    ensures Distinct(Without(s, i)) && |Without(s, i)| == |s| - (if i in s then 1 else 0)
  {
    if s != [] {
      assert s == [s[0]] + s[1..];
      if s[0] != i {
        var w := Without(s[1..], i);
        WithoutDistinct(s[1..], i);
        WithoutHas(s[1..], i, s[0]);
        assert s[0] !in w;
        assert forall j :: 0 <= j < |w| ==> w[j] in w;
      }
    }
  }

  lemma WithoutIs(s: seq<int>, i: int)
    requires Distinct(s)
    ensures Distinct(Without(s, i)) && |Without(s, i)| == |s| - (if i in s then 1 else 0)
    ensures forall j :: j in Without(s, i) <==> j in s && j != i
  {
    WithoutDistinct(s, i);
    forall j ensures j in Without(s, i) <==> j in s && j != i { WithoutHas(s, i, j); }
  }

  /** list_node_pop_back */
  lemma LastOut(s: seq<int>)
    requires Distinct(s) && s != []
    ensures Distinct(s[..|s| - 1]) && forall j :: j in s[..|s| - 1] <==> j in s && j != s[|s| - 1]
  {
    assert s == s[..|s| - 1] + [s[|s| - 1]];
  }

  lemma LastOutHas(s: seq<int>, j: int)
    requires Distinct(s) && s != []
    ensures j in s[..|s| - 1] <==> j in s && j != s[|s| - 1]
  {
    assert s == s[..|s| - 1] + [s[|s| - 1]];
  }

  // ---------- the hash list ----------

  function Slot(hash: Hash, nb: nat, k: Key): int
    requires nb > 0
  {
    hash(k) % nb
  }

  ghost predicate Belongs(hash: Hash, nb: nat, k: Key, b: int)
    requires nb > 0
  {
    hash(k) != 0 && Slot(hash, nb, k) == b
  }

  /** Every buffer in a bucket belongs in it, and no two have the same key. */
  ghost predicate BucketOk(hash: Hash, bufs: seq<Buf>, buckets: seq<seq<int>>, b: int)
    requires 0 <= b < |buckets|
  {
    && (forall p :: 0 <= p < |buckets[b]| ==> 0 <= buckets[b][p] < |bufs| && Belongs(hash, |buckets|, bufs[buckets[b][p]].key, b))
    && (forall p, q :: 0 <= p < q < |buckets[b]| ==> bufs[buckets[b][p]].key != bufs[buckets[b][q]].key)
  }

  ghost predicate HashOk(hash: Hash, bufs: seq<Buf>, buckets: seq<seq<int>>) {
    |buckets| > 0 && forall b :: 0 <= b < |buckets| ==> BucketOk(hash, bufs, buckets, b)
  }

  ghost predicate InHash(hash: Hash, bufs: seq<Buf>, buckets: seq<seq<int>>, i: int)
    requires 0 <= i < |bufs| && |buckets| > 0
  {
    i in buckets[Slot(hash, |buckets|, bufs[i].key)]
  }

  /** __hlist_find_entry_in_bucket: the first buffer with the key, or -1 */
  function FindIn(bufs: seq<Buf>, bucket: seq<int>, k: Key): (r: int)
    requires forall p :: 0 <= p < |bucket| ==> 0 <= bucket[p] < |bufs|
    ensures r == -1 || (r in bucket && 0 <= r < |bufs| && bufs[r].key == k)
    ensures r == -1 <==> forall p :: 0 <= p < |bucket| ==> bufs[bucket[p]].key != k
  {
    if bucket == [] then -1
    else if bufs[bucket[0]].key == k then bucket[0]
    else
      var r := FindIn(bufs, bucket[1..], k);
      assert forall p :: 1 <= p < |bucket| ==> bucket[p] == bucket[1..][p - 1];
      r
  }

  /** hlist_get */
  function Get(hash: Hash, bufs: seq<Buf>, buckets: seq<seq<int>>, k: Key): int
    requires |buckets| > 0 && forall b, p :: 0 <= b < |buckets| && 0 <= p < |buckets[b]| ==> 0 <= buckets[b][p] < |bufs|
  {
    if hash(k) == 0 then -1 else FindIn(bufs, buckets[Slot(hash, |buckets|, k)], k)
  }

  lemma HashRange(hash: Hash, bufs: seq<Buf>, buckets: seq<seq<int>>)
    requires HashOk(hash, bufs, buckets)
    ensures |buckets| > 0 && forall b, p :: 0 <= b < |buckets| && 0 <= p < |buckets[b]| ==> 0 <= buckets[b][p] < |bufs|
  {
    forall b, p | 0 <= b < |buckets| && 0 <= p < |buckets[b]| ensures 0 <= buckets[b][p] < |bufs| {
      assert BucketOk(hash, bufs, buckets, b);
    }
  }

  /** A look-up finds the one buffer in the table with the key. */
  lemma GetIs(hash: Hash, bufs: seq<Buf>, buckets: seq<seq<int>>, k: Key, i: int)
    requires HashOk(hash, bufs, buckets) && 0 <= i < |bufs|
    ensures |buckets| > 0 && forall b, p :: 0 <= b < |buckets| && 0 <= p < |buckets[b]| ==> 0 <= buckets[b][p] < |bufs|
    ensures bufs[i].key == k && InHash(hash, bufs, buckets, i) ==> Get(hash, bufs, buckets, k) == i
    ensures Get(hash, bufs, buckets, k) == i ==> bufs[i].key == k && InHash(hash, bufs, buckets, i)
  {
    HashRange(hash, bufs, buckets);
    var b := Slot(hash, |buckets|, k);
    assert BucketOk(hash, bufs, buckets, b);
    if bufs[i].key == k && InHash(hash, bufs, buckets, i) {
      var r := FindIn(bufs, buckets[b], k);
      var p :| 0 <= p < |buckets[b]| && buckets[b][p] == i;
      var q :| 0 <= q < |buckets[b]| && buckets[b][q] == r;
    }
  }

  /** __hlist_remove_node_entry */
  function Removed(hash: Hash, bufs: seq<Buf>, buckets: seq<seq<int>>, i: int): seq<seq<int>>
    requires 0 <= i < |bufs| && |buckets| > 0
  {
    var b := Slot(hash, |buckets|, bufs[i].key);
    buckets[b := Without(buckets[b], i)]
  }

  /** __hlist_insert_node_entry: at the end of its bucket */
  function Inserted(hash: Hash, bufs: seq<Buf>, buckets: seq<seq<int>>, i: int): seq<seq<int>>
    requires 0 <= i < |bufs| && |buckets| > 0
  {
    var b := Slot(hash, |buckets|, bufs[i].key);
    buckets[b := buckets[b] + [i]]
  }

  lemma BucketDistinct(hash: Hash, bufs: seq<Buf>, buckets: seq<seq<int>>, b: int)
    requires 0 <= b < |buckets| && BucketOk(hash, bufs, buckets, b)
    ensures Distinct(buckets[b])
  {
  }

  /** A bucket with some buffers left out is still in order. */
  lemma BucketLess(hash: Hash, bufs: seq<Buf>, buckets: seq<seq<int>>, b: int, i: int)
    requires 0 <= b < |buckets| && BucketOk(hash, bufs, buckets, b)
    ensures BucketOk(hash, bufs, buckets[b := Without(buckets[b], i)], b)
  {
    var s := buckets[b];
    var t := Without(s, i);
    BucketDistinct(hash, bufs, buckets, b);
    WithoutIs(s, i);
    forall p | 0 <= p < |t| ensures t[p] in s { WithoutHas(s, i, t[p]); }
    forall p, q | 0 <= p < q < |t| ensures bufs[t[p]].key != bufs[t[q]].key {
      assert t[p] != t[q] && t[p] in s && t[q] in s;
      var p' :| 0 <= p' < |s| && s[p'] == t[p];
      var q' :| 0 <= q' < |s| && s[q'] == t[q];
    }
    forall p | 0 <= p < |t| ensures 0 <= t[p] < |bufs| && Belongs(hash, |buckets|, bufs[t[p]].key, b) {
      var p' :| 0 <= p' < |s| && s[p'] == t[p];
    }
  }

  lemma RemovedOk(hash: Hash, bufs: seq<Buf>, buckets: seq<seq<int>>, i: int)
    requires HashOk(hash, bufs, buckets) && 0 <= i < |bufs|
    ensures HashOk(hash, bufs, Removed(hash, bufs, buckets, i))
    ensures forall j :: 0 <= j < |bufs| ==> (InHash(hash, bufs, Removed(hash, bufs, buckets, i), j) <==> InHash(hash, bufs, buckets, j) && j != i)
  {
    var b, buckets' := Slot(hash, |buckets|, bufs[i].key), Removed(hash, bufs, buckets, i);
    assert BucketOk(hash, bufs, buckets, b);
    BucketLess(hash, bufs, buckets, b, i);
    BucketDistinct(hash, bufs, buckets, b);
    WithoutIs(buckets[b], i);
    forall c | 0 <= c < |buckets'| ensures BucketOk(hash, bufs, buckets', c) {
      if c != b { assert BucketOk(hash, bufs, buckets, c); }
    }
  }

  lemma InsertedOk(hash: Hash, bufs: seq<Buf>, buckets: seq<seq<int>>, i: int)
    requires HashOk(hash, bufs, buckets) && 0 <= i < |bufs| && hash(bufs[i].key) != 0
    requires forall j :: 0 <= j < |bufs| && InHash(hash, bufs, buckets, j) ==> bufs[j].key != bufs[i].key
    ensures HashOk(hash, bufs, Inserted(hash, bufs, buckets, i))
    ensures forall j :: 0 <= j < |bufs| ==> (InHash(hash, bufs, Inserted(hash, bufs, buckets, i), j) <==> InHash(hash, bufs, buckets, j) || j == i)
  {
    var b, buckets' := Slot(hash, |buckets|, bufs[i].key), Inserted(hash, bufs, buckets, i);
    assert BucketOk(hash, bufs, buckets, b);
    forall p | 0 <= p < |buckets[b]| ensures bufs[buckets[b][p]].key != bufs[i].key {
      assert buckets[b][p] in buckets[b];
      assert InHash(hash, bufs, buckets, buckets[b][p]);
    }
    forall c | 0 <= c < |buckets'| ensures BucketOk(hash, bufs, buckets', c) {
      if c != b { assert BucketOk(hash, bufs, buckets, c); }
    }
  }

  // ---------- a buffer put to another use ----------

  /** The table once a buffer has been taken out of it: what is found under the buffer's key is popped, and put back if
      it is another buffer. */
  function Popped(hash: Hash, bufs: seq<Buf>, buckets: seq<seq<int>>, i: int): seq<seq<int>>
    requires HashOk(hash, bufs, buckets) && 0 <= i < |bufs|
  {
    HashRange(hash, bufs, buckets);
    var j := Get(hash, bufs, buckets, bufs[i].key);
    if j < 0 then buckets
    else if j == i then Removed(hash, bufs, buckets, i)
    else Inserted(hash, bufs, Removed(hash, bufs, buckets, j), j)
  }

  lemma PoppedOk(hash: Hash, bufs: seq<Buf>, buckets: seq<seq<int>>, i: int)
    requires HashOk(hash, bufs, buckets) && 0 <= i < |bufs|
    ensures HashOk(hash, bufs, Popped(hash, bufs, buckets, i))
    ensures forall x :: 0 <= x < |bufs| ==> (InHash(hash, bufs, Popped(hash, bufs, buckets, i), x) <==> InHash(hash, bufs, buckets, x) && x != i)
  {
    HashRange(hash, bufs, buckets);
    var k := bufs[i].key;
    var j := Get(hash, bufs, buckets, k);
    GetIs(hash, bufs, buckets, k, i);
    if j >= 0 {
      RemovedOk(hash, bufs, buckets, j);
      if j != i {
        GetIs(hash, bufs, buckets, k, j);
        var less := Removed(hash, bufs, buckets, j);
        forall x | 0 <= x < |bufs| && InHash(hash, bufs, less, x) ensures bufs[x].key != k { GetIs(hash, bufs, buckets, k, x); }
        InsertedOk(hash, bufs, less, j);
      }
    }
  }

  /** A key that no buffer in the table has: hlist_put of it succeeds. */
  ghost predicate Absent(hash: Hash, bufs: seq<Buf>, buckets: seq<seq<int>>, k: Key) {
    |buckets| > 0 && hash(k) != 0 && forall x :: 0 <= x < |bufs| && InHash(hash, bufs, buckets, x) ==> bufs[x].key != k
  }

  /** Once the buffer found under a key is out of the table, the key is absent. */
  lemma PopAbsent(hash: Hash, bufs: seq<Buf>, buckets: seq<seq<int>>, k: Key, j: int)
    requires HashOk(hash, bufs, buckets) && 0 <= j < |bufs| && bufs[j].key == k && InHash(hash, bufs, buckets, j)
    ensures HashOk(hash, bufs, Removed(hash, bufs, buckets, j)) && Absent(hash, bufs, Removed(hash, bufs, buckets, j), k)
  {
    RemovedOk(hash, bufs, buckets, j);
    var less := Removed(hash, bufs, buckets, j);
    forall x | 0 <= x < |bufs| && InHash(hash, bufs, less, x) ensures bufs[x].key != k {
      GetIs(hash, bufs, buckets, k, x);
      GetIs(hash, bufs, buckets, k, j);
    }
    var b := Slot(hash, |buckets|, k);
    assert BucketOk(hash, bufs, buckets, b) && j in buckets[b];
  }

  /** A key that was absent is absent from the table without the recycled buffer, which has it now. */
  lemma RekeyAbsent(hash: Hash, bufs: seq<Buf>, buckets: seq<seq<int>>, i: int, b: Buf)
    requires HashOk(hash, bufs, buckets) && 0 <= i < |bufs| && Absent(hash, bufs, buckets, b.key)
    ensures HashOk(hash, bufs[i := b], Popped(hash, bufs, buckets, i)) && Absent(hash, bufs[i := b], Popped(hash, bufs, buckets, i), b.key)
  {
    PoppedOk(hash, bufs, buckets, i);
    RekeyOk(hash, bufs, Popped(hash, bufs, buckets, i), i, b);
  }

  /** A buffer outside the table can change its key. */
  lemma RekeyOk(hash: Hash, bufs: seq<Buf>, buckets: seq<seq<int>>, i: int, b: Buf)
    requires HashOk(hash, bufs, buckets) && 0 <= i < |bufs| && !InHash(hash, bufs, buckets, i)
    ensures HashOk(hash, bufs[i := b], buckets) && !InHash(hash, bufs[i := b], buckets, i)
    ensures forall x :: 0 <= x < |bufs| && x != i ==> (InHash(hash, bufs[i := b], buckets, x) <==> InHash(hash, bufs, buckets, x))
  {
    forall c, p | 0 <= c < |buckets| && 0 <= p < |buckets[c]| ensures buckets[c][p] != i {
      assert BucketOk(hash, bufs, buckets, c);
      assert buckets[c][p] in buckets[c];
    }
    var bufs' := bufs[i := b];
    forall c | 0 <= c < |buckets| ensures BucketOk(hash, bufs', buckets, c) {
      assert BucketOk(hash, bufs, buckets, c);
    }
  }

  /** The table once a buffer stands for another block. */
  function Rekeyed(hash: Hash, bufs: seq<Buf>, buckets: seq<seq<int>>, i: int, b: Buf): seq<seq<int>>
    requires HashOk(hash, bufs, buckets) && 0 <= i < |bufs|
  {
    PoppedOk(hash, bufs, buckets, i);
    Inserted(hash, bufs[i := b], Popped(hash, bufs, buckets, i), i)
  }

  lemma RekeyedOk(hash: Hash, bufs: seq<Buf>, buckets: seq<seq<int>>, i: int, b: Buf)
    requires HashOk(hash, bufs, buckets) && 0 <= i < |bufs| && hash(b.key) != 0
    requires forall x :: 0 <= x < |bufs| && InHash(hash, bufs, buckets, x) ==> bufs[x].key != b.key
    ensures HashOk(hash, bufs[i := b], Rekeyed(hash, bufs, buckets, i, b))
    ensures forall x :: 0 <= x < |bufs| ==>
              (InHash(hash, bufs[i := b], Rekeyed(hash, bufs, buckets, i, b), x) <==> x == i || InHash(hash, bufs, buckets, x))
  {
    PoppedOk(hash, bufs, buckets, i);
    RekeyOk(hash, bufs, Popped(hash, bufs, buckets, i), i, b);
    InsertedOk(hash, bufs[i := b], Popped(hash, bufs, buckets, i), i);
  }
}
