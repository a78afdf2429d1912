/** Files as bytes over the block map, and what filling slots and copying into blocks does to them. */
module FileBytes {
  import opened Basics
  import opened BlockCache
  import opened InodeMap

  /** Byte `p` of the file of inode `n`; a byte no block holds reads as 0 here. */
  function ByteAt(d: Disk, n: int, p: int): Byte {
    var blk := BlockAt(d, n, LeafOf(p / BSIZE));
    if |blk| == BSIZE then blk[p % BSIZE] else 0
  }

  function Splice(blk: Block, off: int, bytes: seq<Byte>): (r: Block)
    requires 0 <= off && off + |bytes| <= |blk|
    ensures |r| == |blk|
  {
    blk[..off] + bytes + blk[off + |bytes|..]
  }

  /** All files hold what they held in `d0`, but for `count` bytes of `src` written at `pos` of inode `n`. */
  ghost predicate BytesAre(d0: Disk, d: Disk, n: int, pos: int, count: int, src: seq<Byte>)
    requires 0 <= count <= |src|
  {
    forall n', p :: 0 <= p < MAXFILE * BSIZE ==>
      ByteAt(d, n', p) == if n' == n && pos <= p < pos + count then src[p - pos] else ByteAt(d0, n', p)
  }

  /** The slots on the way to `s`. */
  predicate OnRoute(s: Slot, t: Slot) {
    t == s || t == Up(s) || t == Up(Up(s))
  }

  /** Only empty slots on the way to `s` have been filled. */
  ghost predicate Grew(d: Disk, d': Disk, n: int, s: Slot) {
    forall n', t :: IsSlot(t) ==> At(d', n', t) == At(d, n', t) || (n' == n && At(d, n, t) == 0 && OnRoute(s, t))
  }

  /** Only empty slots of inode `n` on the way to blocks from `lo` up to `hi` have been filled. */
  ghost predicate GrewFor(d: Disk, d': Disk, n: int, lo: int, hi: int) {
    forall n', t :: IsSlot(t) ==> At(d', n', t) == At(d, n', t) || (n' == n && At(d, n, t) == 0 && Routed(t, lo, hi))
  }

  ghost predicate Routed(t: Slot, lo: int, hi: int) {
    exists bi :: lo <= bi < hi && OnRoute(LeafOf(bi), t)
  }

  /** Nothing of the inodes but their addresses differs. */
  ghost predicate SameHeads(d: Disk, d': Disk) {
    && |d'.inodes| == |d.inodes|
    && forall n :: 0 <= n < |d.inodes| ==>
         d'.inodes[n].kind == d.inodes[n].kind && d'.inodes[n].nlink == d.inodes[n].nlink && d'.inodes[n].size == d.inodes[n].size
  }

  /** Bits have only been set, and only for blocks that hang off inode `n`. */
  ghost predicate TookFor(used: seq<bool>, d': Disk, used': seq<bool>, n: int) {
    forall b :: (Bit(used, b) ==> Bit(used', b)) && (Bit(used', b) && !Bit(used, b) ==> b != 0 && Owns(d', n, b))
  }

  lemma OwnsStill(d1: Disk, d2: Disk, n: int, s: Slot, b: int)
    requires Grew(d1, d2, n, s) && Owns(d1, n, b) && b != 0
    ensures Owns(d2, n, b)
  {
    var t :| IsSlot(t) && At(d1, n, t) == b;
    assert At(d2, n, t) == b;
  }

  lemma TookMore(used0: seq<bool>, d1: Disk, used1: seq<bool>, d2: Disk, used2: seq<bool>, n: int, s: Slot)
    requires TookFor(used0, d1, used1, n) && TookFor(used1, d2, used2, n) && Grew(d1, d2, n, s)
    ensures TookFor(used0, d2, used2, n)
  {
    forall b ensures (Bit(used0, b) ==> Bit(used2, b)) && (Bit(used2, b) && !Bit(used0, b) ==> b != 0 && Owns(d2, n, b)) {
      if Bit(used1, b) && !Bit(used0, b) { OwnsStill(d1, d2, n, s, b); }
    }
  }

  lemma TookOne(used: seq<bool>, d': Disk, n: int, s: Slot, v: int)
    requires 0 < v < |used| && IsSlot(s) && At(d', n, s) == v
    ensures TookFor(used, d', used[v := true], n)
  {
    assert Owns(d', n, v);
  }

  lemma GrewForMore(d0: Disk, d1: Disk, d2: Disk, n: int, lo: int, hi: int, bi: int)
    requires GrewFor(d0, d1, n, lo, hi) && Grew(d1, d2, n, LeafOf(bi)) && lo <= bi && hi <= bi + 1
    ensures GrewFor(d0, d2, n, lo, bi + 1)
  {
    forall n', t | IsSlot(t)
      ensures At(d2, n', t) == At(d0, n', t) || (n' == n && At(d0, n, t) == 0 && Routed(t, lo, bi + 1))
    {
      if At(d1, n', t) != At(d0, n', t) {
        var b :| lo <= b < hi && OnRoute(LeafOf(b), t);
        assert lo <= b < bi + 1;
      }
    }
  }

  /** Copying part of a write into one block. */
  lemma SpliceBytes(d0: Disk, d: Disk, d': Disk, n: int, pos: int, count: int, src: seq<Byte>, bi: int, k: int)
    requires 0 <= pos && 0 <= count && 0 <= k && count + k <= |src| && BytesAre(d0, d, n, pos, count, src)
    requires 0 <= bi < MAXFILE && bi * BSIZE <= pos + count && pos + count + k <= (bi + 1) * BSIZE
    requires |BlockAt(d, n, LeafOf(bi))| == BSIZE
    requires BlockSet(d, d', n, LeafOf(bi), Splice(BlockAt(d, n, LeafOf(bi)), pos + count - bi * BSIZE, src[count..count + k]))
    ensures BytesAre(d0, d', n, pos, count + k, src)
  {
    hide BlockAt;
    var off := pos + count - bi * BSIZE;
    LeafIndex(bi);
    forall n', p | 0 <= p < MAXFILE * BSIZE
      ensures ByteAt(d', n', p) == if n' == n && pos <= p < pos + (count + k) then src[p - pos] else ByteAt(d0, n', p)
    {
      LeafIndex(p / BSIZE);
      assert ByteAt(d, n', p) == if n' == n && pos <= p < pos + count then src[p - pos] else ByteAt(d0, n', p);
      if n' == n && p / BSIZE == bi { assert p % BSIZE == p - bi * BSIZE; }
    }
  }

  /** Blocks have been added to inode `n` on the way to `s`, and no file has changed. */
  ghost predicate Grown(d: Disk, used: seq<bool>, d': Disk, used': seq<bool>, n: int, s: Slot) {
    Grew(d, d', n, s) && SameBlocks(d, d') && SameHeads(d, d') && TookFor(used, d', used', n)
  }

  lemma Unmoved(d: Disk, used: seq<bool>, n: int, s: Slot)
    ensures Grown(d, used, d, used, n, s)
  {
  }

  lemma GrownTwice(d0: Disk, used0: seq<bool>, d1: Disk, used1: seq<bool>, d2: Disk, used2: seq<bool>, n: int, s: Slot)
    requires Grown(d0, used0, d1, used1, n, s) && Grown(d1, used1, d2, used2, n, s)
    ensures Grown(d0, used0, d2, used2, n, s)
  {
    TookMore(used0, d1, used1, d2, used2, n, s);
  }

  lemma GrownOne(d: Disk, used: seq<bool>, d': Disk, n: int, s: Slot, t: Slot, v: int)
    requires SlotSet(d, d', n, t, v) && At(d, n, t) == 0 && IsSlot(t) && OnRoute(s, t) && 0 < v < |used|
    requires SameBlocks(d, d') && SameHeads(d, d')
    ensures Grown(d, used, d', used[v := true], n, s) && At(d', n, t) == v
  {
    TookOne(used, d', n, t, v);
  }

  // ---------- reading ----------

  /** Byte `p` is in a block the file has. */
  ghost predicate Mapped(d: Disk, n: int, p: int) {
    At(d, n, LeafOf(p / BSIZE)) != 0
  }

  ghost predicate MappedRange(d: Disk, n: int, lo: int, hi: int) {
    forall p :: lo <= p < hi ==> Mapped(d, n, p)
  }

  function Bytes(d: Disk, n: int, lo: int, count: nat): (r: seq<Byte>)
    ensures |r| == count && forall k :: 0 <= k < count ==> r[k] == ByteAt(d, n, lo + k)
  {
    if count == 0 then [] else Bytes(d, n, lo, count - 1) + [ByteAt(d, n, lo + count - 1)]
  }

  /** A stretch of one block of a file is that stretch of its bytes. */
  lemma PartOfBlock(d: Disk, n: int, bi: int, off: int, k: int, base: int, done: nat)
    requires 0 <= bi && 0 <= off && 0 <= k && off + k <= BSIZE && |BlockAt(d, n, LeafOf(bi))| == BSIZE && base + done == bi * BSIZE + off
    ensures Bytes(d, n, base, done) + BlockAt(d, n, LeafOf(bi))[off..off + k] == Bytes(d, n, base, done + k)
  {
    hide BlockAt;
    var blk := BlockAt(d, n, LeafOf(bi));
    forall p | base + done <= p < base + done + k ensures ByteAt(d, n, p) == blk[p - bi * BSIZE] {
      assert p / BSIZE == bi && p % BSIZE == p - bi * BSIZE;
    }
    hide ByteAt;
    var l, r := Bytes(d, n, base, done) + blk[off..off + k], Bytes(d, n, base, done + k);
    forall y | 0 <= y < done + k ensures l[y] == r[y] {
      if y >= done { assert r[y] == ByteAt(d, n, base + y) == blk[base + y - bi * BSIZE]; }
    }
  }

  lemma BlockMapped(d: Disk, n: int, bi: int, lo: int, hi: int)
    requires bi * BSIZE <= lo <= hi <= (bi + 1) * BSIZE && At(d, n, LeafOf(bi)) != 0
    ensures MappedRange(d, n, lo, hi)
  {
    forall p | lo <= p < hi ensures Mapped(d, n, p) {
      assert p / BSIZE == bi;
    }
  }

  lemma MappedMore(d: Disk, n: int, lo: int, mid: int, hi: int)
    requires lo <= mid <= hi && MappedRange(d, n, lo, mid) && MappedRange(d, n, mid, hi)
    ensures MappedRange(d, n, lo, hi)
  {
  }

  lemma StillMapped(d: Disk, d': Disk, n: int, lo: int, hi: int)
    requires MappedRange(d, n, lo, hi) && 0 <= lo <= hi <= MAXFILE * BSIZE
    requires forall n, t :: IsSlot(t) && At(d, n, t) != 0 ==> At(d', n, t) != 0
    ensures MappedRange(d', n, lo, hi)
  {
    forall p | lo <= p < hi ensures Mapped(d', n, p) {
      assert Mapped(d, n, p);
      LeafIndex(p / BSIZE);
    }
  }

  // ---------- writing ----------

  /** Part way through a write that started from `d0`: `count` bytes of `src` are in place at `pos`, blocks have
      been added only on the way to the blocks before `hi`, and nothing else has changed. */
  ghost predicate Writing(d0: Disk, used0: seq<bool>, d: Disk, used: seq<bool>, n: int, pos: int, count: int, src: seq<Byte>, hi: int) {
    && 0 <= pos && 0 <= count <= |src| && (count > 0 ==> pos + count <= MAXFILE * BSIZE)
    && BytesAre(d0, d, n, pos, count, src) && MappedRange(d, n, pos, pos + count)
    && GrewFor(d0, d, n, pos / BSIZE, hi) && SameHeads(d0, d) && TookFor(used0, d, used, n)
  }

  lemma WriteStarts(d: Disk, used: seq<bool>, n: int, pos: int, src: seq<Byte>)
    requires 0 <= pos
    ensures Writing(d, used, d, used, n, pos, 0, src, pos / BSIZE)
  {
  }

  lemma BytesKeep(d0: Disk, d: Disk, d': Disk, n: int, pos: int, count: int, src: seq<Byte>)
    requires 0 <= count <= |src| && BytesAre(d0, d, n, pos, count, src) && SameBlocks(d, d')
    ensures BytesAre(d0, d', n, pos, count, src)
  {
    hide BlockAt;
    forall n', p | 0 <= p < MAXFILE * BSIZE ensures ByteAt(d', n', p) == ByteAt(d, n', p) {
      LeafIndex(p / BSIZE);
    }
  }

  lemma WriteGrows(d0: Disk, used0: seq<bool>, d: Disk, used: seq<bool>, d': Disk, used': seq<bool>, n: int, pos: int, count: int,
                   src: seq<Byte>, hi: int, bi: int)
    requires Writing(d0, used0, d, used, n, pos, count, src, hi) && Grown(d, used, d', used', n, LeafOf(bi))
    requires pos / BSIZE <= bi && hi <= bi + 1
    ensures Writing(d0, used0, d', used', n, pos, count, src, bi + 1)
  {
    hide BytesAre, ByteAt, BlockAt, SameBlocks, TookFor, GrewFor, MappedRange;
    BytesKeep(d0, d, d', n, pos, count, src);
    GrewForMore(d0, d, d', n, pos / BSIZE, hi, bi);
    TookMore(used0, d, used, d', used', n, LeafOf(bi));
    if count > 0 { StillMapped(d, d', n, pos, pos + count); } else { NoRange(d', n, pos); }
  }

  lemma MappedSame(d: Disk, d': Disk, n: int, p: int)
    requires SameMap(d, d') && 0 <= p
    ensures p < MAXFILE * BSIZE ==> (Mapped(d', n, p) <==> Mapped(d, n, p))
  {
    if p < MAXFILE * BSIZE { LeafIndex(p / BSIZE); }
  }

  lemma NoRange(d: Disk, n: int, lo: int)
    ensures MappedRange(d, n, lo, lo)
  {
  }

  lemma TookSame(used0: seq<bool>, d: Disk, d': Disk, used: seq<bool>, n: int)
    requires TookFor(used0, d, used, n) && SameMap(d, d')
    ensures TookFor(used0, d', used, n)
  {
    forall b | Bit(used, b) && !Bit(used0, b) ensures Owns(d', n, b) {
      var t :| IsSlot(t) && At(d, n, t) == b;
      assert At(d', n, t) == b;
    }
  }

  lemma MapKept(d0: Disk, d: Disk, d': Disk, n: int, lo: int, hi: int, bi: int)
    requires SameMap(d, d') && GrewFor(d0, d, n, lo, hi) && 0 <= bi < MAXFILE
    ensures GrewFor(d0, d', n, lo, hi) && At(d', n, LeafOf(bi)) == At(d, n, LeafOf(bi))
  {
    LeafIndex(bi);
  }

  lemma WriteCopies(d0: Disk, used0: seq<bool>, d: Disk, used: seq<bool>, d': Disk, n: int, pos: int, count: int,
                    src: seq<Byte>, hi: int, bi: int, k: int)
    requires Writing(d0, used0, d, used, n, pos, count, src, hi) && SameMap(d, d') && d'.inodes == d.inodes
    requires 0 <= bi < MAXFILE && 0 < k && count + k <= |src| && bi * BSIZE <= pos + count && pos + count + k <= (bi + 1) * BSIZE
    requires At(d, n, LeafOf(bi)) != 0 && |BlockAt(d, n, LeafOf(bi))| == BSIZE
    requires BlockSet(d, d', n, LeafOf(bi), Splice(BlockAt(d, n, LeafOf(bi)), pos + count - bi * BSIZE, src[count..count + k]))
    ensures Writing(d0, used0, d', used, n, pos, count + k, src, hi)
  {
    hide BytesAre, ByteAt, BlockAt, BlockSet, TookFor, GrewFor, MappedRange, Splice;
    SpliceBytes(d0, d, d', n, pos, count, src, bi, k);
    MapKept(d0, d, d', n, pos / BSIZE, hi, bi);
    TookSame(used0, d, d', used, n);
    if count > 0 { StillMapped(d, d', n, pos, pos + count); } else { NoRange(d', n, pos); }
    BlockMapped(d', n, bi, pos + count, pos + count + k);
    MappedMore(d', n, pos, pos + count, pos + count + k);
  }

  // ---------- files whose blocks a truncation finds ----------

  function BlocksFor(size: int): int {
    (size + BSIZE - 1) / BSIZE
  }

  /** First block of the file under slot `Outer(m)`. */
  function FirstUnder(m: int): int {
    NDIRECT + NINDIRECT + NINDIRECT * m
  }

  /** Every data block is within the first `ob` blocks of the file, every block of addresses is on the way to a
      place there, and the block of blocks is not empty. */
  ghost predicate Tidy(d: Disk, n: int, ob: int) {
    && (forall bi :: 0 <= bi < MAXFILE && At(d, n, LeafOf(bi)) != 0 ==> bi < ob)
    && (At(d, n, Addr(NDIRECT)) != 0 ==> NDIRECT < ob)
    && (forall m :: 0 <= m < NINDIRECT && At(d, n, Outer(m)) != 0 ==> FirstUnder(m) < ob)
    && (At(d, n, Addr(NDIRECT + 1)) != 0 ==> exists m :: 0 <= m < NINDIRECT && At(d, n, Outer(m)) != 0)
  }

  lemma RouteIndex(bi: int, t: Slot)
    requires 0 <= bi < MAXFILE && IsSlot(t) && OnRoute(LeafOf(bi), t)
    ensures IsLeaf(t) ==> t == LeafOf(bi)
    ensures t == Addr(NDIRECT) ==> NDIRECT <= bi
    ensures t.Outer? ==> FirstUnder(t.o) <= bi && LeafOf(bi) == Inner(t.o, LeafOf(bi).j)
    ensures t == Addr(NDIRECT + 1) ==> LeafOf(bi).Inner? && 0 <= LeafOf(bi).m < NINDIRECT
  {
    LeafIndex(bi);
  }

  /** A write stopped for want of a block at block `bi` has left a block of addresses, or the block of blocks, on the way to it
      that leads to nothing within the first `ob` blocks. */
  ghost predicate Stranded(d: Disk, n: int, bi: int, ob: int) {
    var leaf := LeafOf(bi);
    || (leaf.Single? && At(d, n, Addr(NDIRECT)) != 0 && NDIRECT >= ob)
    || (leaf.Inner? && At(d, n, Outer(leaf.m)) != 0 && FirstUnder(leaf.m) >= ob)
    || (leaf.Inner? && At(d, n, Addr(NDIRECT + 1)) != 0 && forall m :: 0 <= m < NINDIRECT ==> At(d, n, Outer(m)) == 0)
  }

  /** A slot filled on the way to a mapped block within the first `ob`. */
  lemma TidyMapped(d: Disk, n: int, bi: int, ob: int, t: Slot)
    requires 0 <= bi < MAXFILE && bi < ob && IsSlot(t) && OnRoute(LeafOf(bi), t) && At(d, n, LeafOf(bi)) != 0
    ensures IsLeaf(t) ==> IndexOf(t) < ob
    ensures t == Addr(NDIRECT) ==> NDIRECT < ob
    ensures t.Outer? ==> FirstUnder(t.o) < ob
    ensures t == Addr(NDIRECT + 1) ==> exists m :: 0 <= m < NINDIRECT && At(d, n, Outer(m)) != 0
  {
    RouteIndex(bi, t);
    LeafIndex(bi);
    if t == Addr(NDIRECT + 1) { assert At(d, n, Outer(LeafOf(bi).m)) != 0; }
  }

  /** A slot filled on the way to a block that could not be had, with nothing stranded. */
  lemma TidyStopped(d: Disk, n: int, bi: int, ob: int, t: Slot)
    requires 0 <= bi < MAXFILE && IsSlot(t) && OnRoute(LeafOf(bi), t) && At(d, n, LeafOf(bi)) == 0 && At(d, n, t) != 0 && !Stranded(d, n, bi, ob)
    ensures !IsLeaf(t)
    ensures t == Addr(NDIRECT) ==> NDIRECT < ob
    ensures t.Outer? ==> FirstUnder(t.o) < ob
    ensures t == Addr(NDIRECT + 1) ==> exists m :: 0 <= m < NINDIRECT && At(d, n, Outer(m)) != 0
  {
    RouteIndex(bi, t);
    LeafIndex(bi);
    hide At;
  }

  /** A slot filled on the way to the blocks from `lo` up to `mid`, which are mapped and within the first `ob`, or on the way to
      block `mid`, where nothing is stranded. */
  lemma TidyNew(d: Disk, n: int, lo: int, mid: int, hi: int, ob: int, t: Slot)
    requires 0 <= lo <= mid <= hi <= mid + 1 && hi <= MAXFILE && (lo == mid || mid <= ob) && IsSlot(t) && Routed(t, lo, hi)
    requires MappedRange(d, n, lo * BSIZE, mid * BSIZE) && At(d, n, t) != 0
    requires mid < hi ==> At(d, n, LeafOf(mid)) == 0 && !Stranded(d, n, mid, ob)
    ensures IsLeaf(t) ==> IndexOf(t) < ob
    ensures t == Addr(NDIRECT) ==> NDIRECT < ob
    ensures t.Outer? ==> FirstUnder(t.o) < ob
    ensures t == Addr(NDIRECT + 1) ==> exists m :: 0 <= m < NINDIRECT && At(d, n, Outer(m)) != 0
  {
    var bi :| lo <= bi < hi && OnRoute(LeafOf(bi), t);
    hide Stranded, OnRoute, LeafOf, At, FirstUnder;
    if bi < mid {
      assert bi * BSIZE / BSIZE == bi;
      assert Mapped(d, n, bi * BSIZE);
      TidyMapped(d, n, bi, ob, t);
    } else {
      TidyStopped(d, n, bi, ob, t);
    }
  }

  lemma TidyWrite(d0: Disk, d: Disk, n: int, lo: int, mid: int, hi: int, ob0: int, ob: int)
    requires Tidy(d0, n, ob0) && GrewFor(d0, d, n, lo, hi) && MappedRange(d, n, lo * BSIZE, mid * BSIZE)
    requires 0 <= lo <= mid <= hi <= mid + 1 && hi <= MAXFILE && (lo == mid || mid <= ob) && ob0 <= ob
    requires mid < hi ==> At(d, n, LeafOf(mid)) == 0 && !Stranded(d, n, mid, ob)
    ensures Tidy(d, n, ob)
  {
    hide Stranded;
    forall bi | 0 <= bi < MAXFILE && At(d, n, LeafOf(bi)) != 0 ensures bi < ob {
      LeafIndex(bi);
      if At(d, n, LeafOf(bi)) != At(d0, n, LeafOf(bi)) { TidyNew(d, n, lo, mid, hi, ob, LeafOf(bi)); }
    }
    forall m | 0 <= m < NINDIRECT && At(d, n, Outer(m)) != 0 ensures FirstUnder(m) < ob {
      if At(d, n, Outer(m)) != At(d0, n, Outer(m)) { TidyNew(d, n, lo, mid, hi, ob, Outer(m)); }
    }
    if At(d, n, Addr(NDIRECT)) != At(d0, n, Addr(NDIRECT)) && At(d, n, Addr(NDIRECT)) != 0 { TidyNew(d, n, lo, mid, hi, ob, Addr(NDIRECT)); }
    if At(d, n, Addr(NDIRECT + 1)) != 0 {
      if At(d, n, Addr(NDIRECT + 1)) != At(d0, n, Addr(NDIRECT + 1)) {
        TidyNew(d, n, lo, mid, hi, ob, Addr(NDIRECT + 1));
      } else {
        var m :| 0 <= m < NINDIRECT && At(d0, n, Outer(m)) != 0;
        assert IsSlot(Outer(m)) && At(d, n, Outer(m)) != 0;
      }
    }
  }

  /** The other direction: a block past the first `ob`, or a stranded one, makes the file untidy. */
  lemma UntidyWrite(d: Disk, n: int, lo: int, mid: int, hi: int, ob: int)
    requires 0 <= lo <= mid <= hi <= mid + 1 && hi <= MAXFILE && MappedRange(d, n, lo * BSIZE, mid * BSIZE) && Tidy(d, n, ob)
    ensures (lo == mid || mid <= ob) && (hi == mid || !Stranded(d, n, mid, ob))
  {
    if lo < mid {
      assert (mid - 1) * BSIZE / BSIZE == mid - 1;
      assert Mapped(d, n, (mid - 1) * BSIZE);
    }
    if mid < hi { LeafIndex(mid); }
  }

  lemma WholeBlocks(d: Disk, n: int, pos: int, end: int)
    requires 0 <= pos < end && MappedRange(d, n, pos, end)
    ensures MappedRange(d, n, pos / BSIZE * BSIZE, BlocksFor(end) * BSIZE)
  {
    forall p | pos / BSIZE * BSIZE <= p < BlocksFor(end) * BSIZE ensures Mapped(d, n, p) {
      var q := if p < pos then pos else if p >= end then end - 1 else p;
      assert Mapped(d, n, q);
      assert p / BSIZE == q / BSIZE;
    }
  }

  /** Heads are the same but for the size of inode `n`. */
  ghost predicate Resized(d: Disk, d': Disk, n: int, size: int) {
    && |d'.inodes| == |d.inodes|
    && forall m :: 0 <= m < |d.inodes| ==>
         && d'.inodes[m].kind == d.inodes[m].kind && d'.inodes[m].nlink == d.inodes[m].nlink
         && d'.inodes[m].size == if m == n then size else d.inodes[m].size
  }

  /** A write that put `count` bytes of `src` at `pos` of inode `n`, whose size is now `size`: no other byte of any
      file has changed, and blocks have been added only on the way to those before `hi`. */
  ghost predicate Wrote(d0: Disk, used0: seq<bool>, d: Disk, used: seq<bool>, n: int, pos: int, count: int, src: seq<Byte>, hi: int, size: int) {
    && 0 <= pos && 0 <= count <= |src| && (count > 0 ==> pos + count <= MAXFILE * BSIZE)
    && BytesAre(d0, d, n, pos, count, src) && MappedRange(d, n, pos, pos + count)
    && GrewFor(d0, d, n, pos / BSIZE, hi) && TookFor(used0, d, used, n) && Resized(d0, d, n, size)
  }

  lemma WriteEnds(d0: Disk, used0: seq<bool>, d: Disk, used: seq<bool>, n: int, pos: int, count: int, src: seq<Byte>, hi: int)
    requires Writing(d0, used0, d, used, n, pos, count, src, hi) && 0 <= n < |d0.inodes|
    ensures Wrote(d0, used0, d, used, n, pos, count, src, hi, d0.inodes[n].size)
    ensures |d.inodes| == |d0.inodes| && d.inodes[n].size == d0.inodes[n].size && (count > 0 ==> pos + count <= MAXFILE * BSIZE)
  {
  }

  lemma WriteResizes(d0: Disk, used0: seq<bool>, d: Disk, used: seq<bool>, d': Disk, n: int, pos: int, count: int, src: seq<Byte>, hi: int, size: int)
    requires Writing(d0, used0, d, used, n, pos, count, src, hi) && count > 0
    requires SameMap(d, d') && SameBlocks(d, d') && Resized(d, d', n, size)
    ensures Wrote(d0, used0, d', used, n, pos, count, src, hi, size)
  {
    hide BytesAre, ByteAt, BlockAt, SameBlocks, TookFor, MappedRange;
    BytesKeep(d0, d, d', n, pos, count, src);
    TookSame(used0, d, d', used, n);
    StillMapped(d, d', n, pos, pos + count);
  }

  /** How far a write that ended after `count` bytes got: the first block it has not written, and, if it wanted one more block
      and could not have it, the block after that. */
  function Reached(pos: int, count: int): int {
    if count == 0 then pos / BSIZE else BlocksFor(pos + count)
  }

  /** When a write leaves a tidy file tidy, for every way it can end. */
  lemma WroteTidy(d0: Disk, used0: seq<bool>, d: Disk, used: seq<bool>, n: int, pos: int, count: int, src: seq<Byte>, short: bool, size0: int, size: int)
    requires Wrote(d0, used0, d, used, n, pos, count, src, Reached(pos, count) + (if short then 1 else 0), size)
    requires Tidy(d0, n, BlocksFor(size0)) && size0 <= size
    requires short ==> pos + count < MAXFILE * BSIZE && !Mapped(d, n, pos + count)
    ensures Tidy(d, n, BlocksFor(size)) <==>
      (count == 0 || BlocksFor(pos + count) <= BlocksFor(size)) && (!short || !Stranded(d, n, (pos + count) / BSIZE, BlocksFor(size)))
  {
    hide BytesAre, ByteAt, BlockAt, TookFor, MappedRange, Tidy, GrewFor, Stranded, At;
    var lo, mid, ob0, ob := pos / BSIZE, Reached(pos, count), BlocksFor(size0), BlocksFor(size);
    if count > 0 { WholeBlocks(d, n, pos, pos + count); } else { NoRange(d, n, lo * BSIZE); }
    if short { StopsAtBlock(d, n, pos, count); }
    if count == 0 && !short {
      GrewNone(d0, d, n, lo);
      TidySame(d0, d, n, ob0, ob);
    } else {
      var hi := if short then mid + 1 else mid;
      if (lo == mid || mid <= ob) && (!short || !Stranded(d, n, mid, ob)) { TidyWrite(d0, d, n, lo, mid, hi, ob0, ob); }
      if Tidy(d, n, ob) { UntidyWrite(d, n, lo, mid, hi, ob); }
    }
  }

  /** It stops at the start of a block, since it has the block of the byte before. */
  lemma StopsAtBlock(d: Disk, n: int, pos: int, count: int)
    requires 0 <= pos && 0 <= count && MappedRange(d, n, pos, pos + count) && pos + count < MAXFILE * BSIZE && !Mapped(d, n, pos + count)
    ensures Reached(pos, count) == (pos + count) / BSIZE < MAXFILE && At(d, n, LeafOf(Reached(pos, count))) == 0
  {
    if count > 0 {
      assert Mapped(d, n, pos + count - 1);
      assert (pos + count - 1) / BSIZE != (pos + count) / BSIZE;
    }
  }

  lemma GrewNone(d0: Disk, d: Disk, n: int, lo: int)
    requires GrewFor(d0, d, n, lo, lo)
    ensures SameMap(d0, d)
  {
  }

  lemma TidySame(d0: Disk, d: Disk, n: int, ob0: int, ob: int)
    requires SameMap(d0, d) && Tidy(d0, n, ob0) && ob0 <= ob
    ensures Tidy(d, n, ob)
  {
    forall bi | 0 <= bi < MAXFILE ensures At(d, n, LeafOf(bi)) == At(d0, n, LeafOf(bi)) { LeafIndex(bi); }
    assert forall m :: 0 <= m < NINDIRECT ==> IsSlot(Outer(m)) && At(d, n, Outer(m)) == At(d0, n, Outer(m));
    assert IsSlot(Addr(NDIRECT)) && IsSlot(Addr(NDIRECT + 1));
  }

  lemma WroteFacts(d0: Disk, used0: seq<bool>, d: Disk, used: seq<bool>, n: int, pos: int, count: int, src: seq<Byte>, hi: int, size: int)
    requires Wrote(d0, used0, d, used, n, pos, count, src, hi, size) && 0 <= n < |d0.inodes|
    ensures 0 <= count <= |src| && (count > 0 ==> pos + count <= MAXFILE * BSIZE)
    ensures BytesAre(d0, d, n, pos, count, src) && MappedRange(d, n, pos, pos + count) && TookFor(used0, d, used, n)
    ensures Resized(d0, d, n, size) && |d.inodes| == |d0.inodes| && d.inodes[n].size == size && GrewFor(d0, d, n, pos / BSIZE, hi)
  {
  }

  lemma OthersKeep(d0: Disk, used0: seq<bool>, d: Disk, used: seq<bool>, n: int, pos: int, count: int, src: seq<Byte>, hi: int, size: int)
    requires Wrote(d0, used0, d, used, n, pos, count, src, hi, size)
    ensures forall m, t :: IsSlot(t) && (m != n || At(d0, m, t) != 0) ==> At(d, m, t) == At(d0, m, t)
  {
  }
}
