/** The inode operations of utils/xv6fuse.c over a volume: finding and filling a file's blocks, reading,
    writing, truncating and resetting. */
module Inodes {
  import opened Basics
  import opened BlockCache
  import opened FileBytes
  import opened InodeMap
  import opened Outcomes
  import opened RbTree
  import opened Shrinking

  class FileSystem {
    const vol: Volume
    var inodes: seq<Inode>

    constructor (vol: Volume, inodes: seq<Inode>)
      ensures this.vol == vol && this.inodes == inodes
    {
      this.vol, this.inodes := vol, inodes;
    }

    function D(): Disk
      reads this`inodes, vol`data
    {
      Disk(inodes, vol.data)
    }

    ghost predicate Valid()
      reads this, vol, vol.tree, vol.tree.nodes
    {
      vol.Ready() && Sane(D(), vol.used, vol.dataStart, vol.dataStart + vol.nblocks)
    }

    /** Every block marked used hangs off an inode. */
    ghost predicate NoLeak()
      reads this`inodes, vol`data, vol`used
    {
      Tight(D(), vol.used, vol.dataStart, vol.dataStart + vol.nblocks)
    }

    /** With an index and a hint, a block is below the hint only if nothing above the block is free. */
    ghost predicate Near(b: int, hint: int)
      reads vol
    {
      vol.initialized && hint != 0 && b < hint ==> forall x :: x in vol.Free() ==> x < b
    }

    /** Fills slot `s`, on the way to `leaf`, with a new block unless it has one. */
    method Fill(n: int, s: Slot, hint: int, ghost leaf: Slot) returns (r: Outcome<int>)
      requires Valid() && 0 <= n < |inodes| && IsSlot(s) && (s.Addr? || At(D(), n, Up(s)) != 0) && OnRoute(leaf, s)
      modifies this`inodes, vol, vol.tree, vol.tree.nodes
      ensures vol.tree == old(vol.tree) && fresh(vol.tree.nodes - old(vol.tree.nodes))
      ensures Valid() && (old(NoLeak()) ==> NoLeak())
      ensures Grown(old(D()), old(vol.used), D(), vol.used, n, leaf)
      ensures r.Ok? ==> r.value == At(D(), n, s) != 0
      ensures r.Err? ==> r.error == ENOSPC && vol.Free() == {} && D() == old(D()) && old(At(D(), n, s)) == 0
      ensures vol.initialized == old(vol.initialized) && (r.Ok? && old(At(D(), n, s)) == 0 ==> Near(r.value, hint))
      ensures SlotSet(old(D()), D(), n, s, At(D(), n, s))
    {
      hide Volume.Complete, ClearIn, Sane, Tight, SlotSet, Word, SetWord, Zeros, Grown, SameBlocks;
      ghost var d, used, lo, hi := D(), vol.used, vol.dataStart, vol.dataStart + vol.nblocks;
      Unmoved(d, used, n, leaf);
      Unset(d, n, s);
      r := Ok(At(D(), n, s));
      if r.value != 0 { return; }
      r := vol.AllocBlockNear(hint);
      if r.Err? { return; }
      ghost var v := r.value;
      ClearLess(used, lo, vol.nblocks, v);
      FillStep(d, used, lo, hi, n, s, v);
      Store(n, s, r.value);
      GrownOne(d, used, D(), n, leaf, s, v);
    }

    static lemma Unset(d: Disk, n: int, s: Slot)
      ensures SlotSet(d, d, n, s, At(d, n, s))
    {
    }

    static lemma Kept(d: Disk, d': Disk, n: int, s: Slot, v: int, t: Slot)
      requires SlotSet(d, d', n, s, v) && IsSlot(t) && t != s
      ensures At(d', n, t) == At(d, n, t)
    {
    }

    /** Writes an address where slot `s` is: in the inode or in a block of addresses. */
    method Store(n: int, s: Slot, v: int)
      requires vol.Ready() && Shaped(D()) && 0 <= n < |inodes| && IsSlot(s) && 0 <= v < WORD && (s.Addr? || 0 < At(D(), n, Up(s)) < |vol.data|)
      modifies this`inodes, vol`data
      ensures vol.Ready() && D() == Put(old(D()), n, s, v) && SameHeads(old(D()), D())
    {
      hide Volume.Complete, ClearIn, Word, SetWord;
      if s.Addr? {
        inodes := inodes[n := inodes[n].(addrs := inodes[n].addrs[s.k := v])];
      } else {
        var h := At(D(), n, Up(s));
        vol.data := vol.data[h := SetWord(vol.data[h], Pos(s), v)];
      }
    }

    /** get_allocation_hint */
    static function Hint(addrs: seq<int>, bi: int): int
      requires |addrs| == NDIRECT + 2 && 0 <= bi < NDIRECT
    {
      if bi > 0 then addrs[bi - 1] else FirstAddr(addrs, 1)
    }

    static function FirstAddr(addrs: seq<int>, i: int): int
      requires |addrs| == NDIRECT + 2 && 1 <= i <= NDIRECT
      decreases NDIRECT - i
    {
      if i == NDIRECT then 0 else if addrs[i] != 0 then addrs[i] else FirstAddr(addrs, i + 1)
    }

    /** For the first block, the hint is the first direct block there is. */
    static lemma FirstAddrIs(addrs: seq<int>, from: int, i: int)
      requires |addrs| == NDIRECT + 2 && 1 <= from <= i < NDIRECT && addrs[i] != 0 && forall j :: from <= j < i ==> addrs[j] == 0
      ensures FirstAddr(addrs, from) == addrs[i]
      decreases i - from
    {
      if from < i { FirstAddrIs(addrs, from + 1, i); }
    }

    /** The place before that of block `bi` in the same block of addresses, or that block's own place. */
    static lemma LeafBefore(bi: int)
      requires NDIRECT <= bi < MAXFILE
      ensures (bi - NDIRECT) % NINDIRECT != 0 ==>
        LeafOf(bi - 1) == match LeafOf(bi) case Single(i) => Single(i - 1) case Inner(m, j) => Inner(m, j - 1) case _ => LeafOf(bi)
      ensures (bi - NDIRECT) % NINDIRECT == 0 <==> match LeafOf(bi) case Single(i) => i == 0 case Inner(m, j) => j == 0 case _ => false
    {
      if bi >= NDIRECT + NINDIRECT {
        var x := bi - NDIRECT - NINDIRECT;
        assert (x + NINDIRECT) % NINDIRECT == x % NINDIRECT;
        if x % NINDIRECT != 0 { assert (x - 1) / NINDIRECT == x / NINDIRECT && (x - 1) % NINDIRECT == x % NINDIRECT - 1; }
      }
    }

    /** inode_ensure_block */
    method EnsureBlock(n: int, bi: int) returns (r: Outcome<int>)
      requires Valid() && 0 <= n < |inodes| && 0 <= bi
      modifies this`inodes, vol, vol.tree, vol.tree.nodes
      ensures vol.tree == old(vol.tree) && fresh(vol.tree.nodes - old(vol.tree.nodes))
      ensures Valid() && (old(NoLeak()) ==> NoLeak()) && vol.initialized == old(vol.initialized)
      ensures Grown(old(D()), old(vol.used), D(), vol.used, n, LeafOf(bi))
      ensures bi >= MAXFILE ==> r == Err(EFBIG) && D() == old(D()) && vol.used == old(vol.used)
      ensures r.Ok? ==> r.value == At(D(), n, LeafOf(bi)) != 0
      ensures bi < MAXFILE && r.Err? ==> r.error == ENOSPC && vol.Free() == {} && At(D(), n, LeafOf(bi)) == 0
      // A new block is near the one before it in the file; near the block its address is in, if it is the first there; and the
      // first of all near the next direct block there is.
      ensures r.Ok? && old(At(D(), n, LeafOf(bi))) == 0 && 0 < bi && (bi < NDIRECT || (bi - NDIRECT) % NINDIRECT != 0) ==>
        Near(r.value, old(At(D(), n, LeafOf(bi - 1))))
      ensures r.Ok? && old(At(D(), n, LeafOf(bi))) == 0 && NDIRECT <= bi && (bi - NDIRECT) % NINDIRECT == 0 ==> Near(r.value, At(D(), n, Up(LeafOf(bi))))
      ensures r.Ok? && old(At(D(), n, LeafOf(bi))) == 0 && bi == 0 ==>
        forall i :: 1 <= i < NDIRECT && old(At(D(), n, Addr(i))) != 0 && (forall j :: 1 <= j < i ==> old(At(D(), n, Addr(j))) == 0) ==>
          Near(r.value, old(At(D(), n, Addr(i))))
    {
      hide Sane, Word, Grown, Volume.Ready, Tight, Volume.Free, Near, SlotSet, FirstAddr;
      assert Shaped(D()) by { AddrsOf(); }
      if NDIRECT <= bi < MAXFILE { LeafBefore(bi); }
      if bi < NDIRECT {
        ghost var d, addrs := D(), inodes[n].addrs;
        r := Fill(n, Addr(bi), Hint(inodes[n].addrs, bi), LeafOf(bi));
        forall i | 1 <= i < NDIRECT && At(d, n, Addr(i)) != 0 && (forall j :: 1 <= j < i ==> At(d, n, Addr(j)) == 0)
          ensures FirstAddr(addrs, 1) == At(d, n, Addr(i))
        {
          forall j | 1 <= j < i ensures addrs[j] == 0 { assert At(d, n, Addr(j)) == addrs[j]; }
          FirstAddrIs(addrs, 1, i);
        }
      } else if bi < NDIRECT + NINDIRECT {
        r := EnsureSingle(n, bi);
      } else if bi < MAXFILE {
        r := EnsureDouble(n, bi);
      } else {
        Unmoved(D(), vol.used, n, LeafOf(bi));
        r := Err(EFBIG);
      }
    }

    /** The part of inode_ensure_block for blocks whose address is in the block of addresses */
    method EnsureSingle(n: int, bi: int) returns (r: Outcome<int>)
      requires Valid() && 0 <= n < |inodes| && NDIRECT <= bi < NDIRECT + NINDIRECT
      modifies this`inodes, vol, vol.tree, vol.tree.nodes
      ensures vol.tree == old(vol.tree) && fresh(vol.tree.nodes - old(vol.tree.nodes))
      ensures Valid() && (old(NoLeak()) ==> NoLeak()) && vol.initialized == old(vol.initialized)
      ensures Grown(old(D()), old(vol.used), D(), vol.used, n, LeafOf(bi))
      ensures if r.Ok? then r.value == At(D(), n, LeafOf(bi)) != 0 else r.error == ENOSPC && vol.Free() == {} && At(D(), n, LeafOf(bi)) == 0
      ensures r.Ok? && old(At(D(), n, LeafOf(bi))) == 0 ==>
        Near(r.value, if bi > NDIRECT then old(At(D(), n, Single(bi - NDIRECT - 1))) else At(D(), n, Addr(NDIRECT)))
    {
      hide Sane, Word, Grown, Volume.Ready, Tight, Volume.Free, Near, SlotSet;
      ghost var d, used, leaf, top := D(), vol.used, LeafOf(bi), Addr(NDIRECT);
      assert Shaped(d) by { AddrsOf(); }
      var i := bi - NDIRECT;
      r := Fill(n, Addr(NDIRECT), inodes[n].addrs[NDIRECT - 1], leaf);
      if r.Err? { EmptyBelow(D(), n, leaf); return; }
      ghost var d1, used1 := D(), vol.used;
      Kept(d, d1, n, top, At(d1, n, top), leaf);
      if i > 0 { Kept(d, d1, n, top, At(d1, n, top), Single(i - 1)); }
      var hint := if i > 0 then At(D(), n, Single(i - 1)) else r.value;
      r := Fill(n, Single(i), hint, leaf);
      GrownTwice(d, used, d1, used1, D(), vol.used, n, leaf);
      Kept(d1, D(), n, leaf, At(D(), n, leaf), if i > 0 then Single(i - 1) else top);
      assert Shaped(D()) by { AddrsOf(); }
    }

    /** The part of inode_ensure_block for blocks under the block of blocks */
    method EnsureDouble(n: int, bi: int) returns (r: Outcome<int>)
      requires Valid() && 0 <= n < |inodes| && NDIRECT + NINDIRECT <= bi < MAXFILE
      modifies this`inodes, vol, vol.tree, vol.tree.nodes
      ensures vol.tree == old(vol.tree) && fresh(vol.tree.nodes - old(vol.tree.nodes))
      ensures Valid() && (old(NoLeak()) ==> NoLeak()) && vol.initialized == old(vol.initialized)
      ensures Grown(old(D()), old(vol.used), D(), vol.used, n, LeafOf(bi))
      ensures if r.Ok? then r.value == At(D(), n, LeafOf(bi)) != 0 else r.error == ENOSPC && vol.Free() == {} && At(D(), n, LeafOf(bi)) == 0
      ensures r.Ok? && old(At(D(), n, LeafOf(bi))) == 0 ==>
        var m, j := LeafOf(bi).m, LeafOf(bi).j;
        Near(r.value, if j > 0 then old(At(D(), n, Inner(m, j - 1))) else At(D(), n, Outer(m)))
    {
      hide Sane, Word, Grown, Volume.Ready, Tight, Volume.Free, Near, SlotSet;
      ghost var d, used, leaf, top := D(), vol.used, LeafOf(bi), Addr(NDIRECT + 1);
      assert Shaped(d) by { AddrsOf(); }
      LeafIndex(bi);
      var i := bi - NDIRECT - NINDIRECT;
      r := Fill(n, Addr(NDIRECT + 1), inodes[n].addrs[NDIRECT], leaf);
      if r.Err? { EmptyBelow(D(), n, leaf); return; }
      ghost var d1, used1 := D(), vol.used;
      Kept(d, d1, n, top, At(d1, n, top), leaf);
      var idx1, idx2 := i / NINDIRECT, i % NINDIRECT;
      ghost var mid := Outer(idx1);
      var hint := if idx1 > 0 then At(D(), n, Outer(idx1 - 1)) else r.value;
      r := Fill(n, Outer(idx1), hint, leaf);
      GrownTwice(d, used, d1, used1, D(), vol.used, n, leaf);
      if r.Err? { EmptyBelow(D(), n, leaf); return; }
      ghost var d2, used2 := D(), vol.used;
      Kept(d1, d2, n, mid, At(d2, n, mid), leaf);
      if idx2 > 0 {
        Kept(d, d1, n, top, At(d1, n, top), Inner(idx1, idx2 - 1));
        Kept(d1, d2, n, mid, At(d2, n, mid), Inner(idx1, idx2 - 1));
      }
      hint := if idx2 > 0 then At(D(), n, Inner(idx1, idx2 - 1)) else r.value;
      r := Fill(n, Inner(idx1, idx2), hint, leaf);
      GrownTwice(d, used, d2, used2, D(), vol.used, n, leaf);
      Kept(d2, D(), n, leaf, At(D(), n, leaf), if idx2 > 0 then Inner(idx1, idx2 - 1) else mid);
      assert Shaped(D()) by { AddrsOf(); }
    }

    lemma AddrsOf()
      requires Valid()
      ensures Shaped(D())
    {
    }

    /** No slot is filled below an empty one. */
    static lemma EmptyBelow(d: Disk, n: int, s: Slot)
      requires !s.Addr? && (At(d, n, Up(s)) == 0 || (s.Inner? && At(d, n, Up(Up(s))) == 0))
      ensures At(d, n, s) == 0
    {
    }

    /** inode_block_address */
    function BlockAddress(n: int, bi: int): Outcome<int>
      reads this`inodes, vol`data
    {
      if bi >= MAXFILE then Err(EFBIG)
      else
        var a := At(D(), n, LeafOf(bi));
        if a == 0 then Err(ENOENT) else Ok(a)
    }

    lemma AddressInImage(n: int, bi: int)
      requires Valid() && 0 <= bi < MAXFILE && At(D(), n, LeafOf(bi)) != 0
      ensures vol.dataStart <= At(D(), n, LeafOf(bi)) < vol.dataStart + vol.nblocks && 0 < vol.dataStart
      ensures vol.dataStart + vol.nblocks <= |vol.data| && |vol.data[At(D(), n, LeafOf(bi))]| == BSIZE
      ensures BlockAt(D(), n, LeafOf(bi)) == vol.data[At(D(), n, LeafOf(bi))]
    {
      hide Word;
      LeafIndex(bi);
    }

    lemma SizeOf(n: int)
      requires Valid() && 0 <= n < |inodes|
      ensures 0 <= inodes[n].size <= MAXFILE * BSIZE
    {
    }

    /** inode_read: the bytes, up to the end of the file, unless one of them is in a hole */
    method Read(n: int, offset: int, length: int) returns (r: Outcome<seq<Byte>>)
      requires Valid() && 0 <= n < |inodes| && 0 <= length
      ensures offset < 0 ==> r == Err(EINVAL)
      ensures 0 <= offset && inodes[n].size <= offset ==> r == Ok([])
      ensures 0 <= offset < inodes[n].size ==>
        var end := if offset + length <= inodes[n].size then offset + length else inodes[n].size;
        if forall p :: offset <= p < end ==> Mapped(D(), n, p)
        then r.Ok? && |r.value| == end - offset && forall k :: 0 <= k < |r.value| ==> r.value[k] == ByteAt(D(), n, offset + k)
        else r == Err(ENOENT)
    {
      hide Volume.Ready, Sane, Word, BlockAt, MappedRange, Bytes;
      if offset < 0 { return Err(EINVAL); }
      SizeOf(n);
      if offset >= inodes[n].size { return Ok([]); }
      var k := if offset + length > inodes[n].size then inodes[n].size - offset else length;
      var dst, copied := [], 0;
      MappedNone(D(), n, offset);
      while copied < k
        invariant 0 <= copied <= k && dst == Bytes(D(), n, offset, copied) && MappedRange(D(), n, offset, offset + copied)
      {
        var absolute := offset + copied;
        var bi, off := absolute / BSIZE % WORD, absolute % BSIZE;
        assert bi == absolute / BSIZE;
        var part := if BSIZE - off > k - copied then k - copied else BSIZE - off;
        var a := BlockAddress(n, bi);
        if a.Err? {
          assert !Mapped(D(), n, absolute);
          return Err(a.error);
        }
        AddressInImage(n, bi);
        PartOfBlock(D(), n, bi, off, part, offset, copied);
        BlockMapped(D(), n, bi, absolute, absolute + part);
        MappedMore(D(), n, offset, absolute, absolute + part);
        dst := dst + vol.data[a.value][off..off + part];
        copied := copied + part;
      }
      RangeMapped(D(), n, offset, offset + k);
      r := Ok(dst);
    }

    static lemma RangeMapped(d: Disk, n: int, lo: int, hi: int)
      ensures MappedRange(d, n, lo, hi) <==> forall p :: lo <= p < hi ==> Mapped(d, n, p)
    {
    }

    static lemma MappedNone(d: Disk, n: int, lo: int)
      ensures MappedRange(d, n, lo, lo) && Bytes(d, n, lo, 0) == []
    {
    }

    /** The block index is cut to 32 bits, so an offset acts as if taken modulo this. */
    static const WRAP := WORD * BSIZE

    static lemma WrappedIndex(offset: int, done: int)
      requires 0 <= offset && 0 <= done && offset % WRAP + done < WRAP
      ensures (offset + done) / BSIZE % WORD == (offset % WRAP + done) / BSIZE
      ensures (offset + done) % BSIZE == (offset % WRAP + done) % BSIZE
    {
      var q, rest := offset / WRAP, offset % WRAP + done;
      assert offset + done == BSIZE * (q * WORD) + rest;
      assert (offset + done) / BSIZE == q * WORD + rest / BSIZE;
      assert 0 <= rest / BSIZE < WORD;
    }

    /** Copies into one block of a file. */
    method CopyIn(n: int, bi: int, off: int, bytes: seq<Byte>)
      requires Valid() && 0 <= n < |inodes| && 0 <= bi < MAXFILE && At(D(), n, LeafOf(bi)) != 0
      requires 0 <= off && off + |bytes| <= BSIZE && |BlockAt(D(), n, LeafOf(bi))| == BSIZE
      modifies vol`data
      ensures Valid() && (old(NoLeak()) ==> NoLeak()) && SameMap(old(D()), D())
      ensures BlockSet(old(D()), D(), n, LeafOf(bi), Splice(old(BlockAt(D(), n, LeafOf(bi))), off, bytes))
    {
      hide Volume.Complete, ClearIn, Word, Sane, Tight, SameMap, BlockSet, Splice;
      AddressInImage(n, bi);
      LeafIndex(bi);
      var a := At(D(), n, LeafOf(bi));
      var blk := Splice(vol.data[a], off, bytes);
      PokeStep(D(), vol.used, vol.dataStart, vol.dataStart + vol.nblocks, n, LeafOf(bi), a, blk);
      vol.data := vol.data[a := blk];
    }

    /** One turn of the loop of inode_write: the part of the source that goes into one block */
    method CopyPart(n: int, src: seq<Byte>, offset: int, done: int, ghost d0: Disk, ghost used0: seq<bool>, ghost hi: int)
      returns (part: int, error: Outcome<()>, ghost hi': int)
      requires Valid() && 0 <= n < |inodes| && 0 <= offset && 0 <= done < |src| && hi == Reached(offset % WRAP, done)
      requires Writing(d0, used0, D(), vol.used, n, offset % WRAP, done, src, hi) && (done > 0 ==> offset % WRAP + done <= MAXFILE * BSIZE)
      modifies this`inodes, vol, vol.tree, vol.tree.nodes
      ensures vol.tree == old(vol.tree) && fresh(vol.tree.nodes - old(vol.tree.nodes))
      ensures Valid() && (old(NoLeak()) ==> NoLeak()) && |inodes| == |old(inodes)|
      ensures 0 <= part && done + part <= |src| && Writing(d0, used0, D(), vol.used, n, offset % WRAP, done + part, src, hi')
      ensures hi' == Reached(offset % WRAP, done + part) + if error == Err(ENOSPC) then 1 else 0
      ensures error.Ok? ==> part > 0 && offset % WRAP + done + part <= MAXFILE * BSIZE
      ensures error.Err? ==> part == 0 && error.error == if offset % WRAP + done >= MAXFILE * BSIZE then EFBIG else ENOSPC
      ensures error == Err(ENOSPC) ==> vol.Free() == {} && !Mapped(D(), n, offset % WRAP + done)
    {
      hide Volume.Ready, Sane, Word, BlockAt, Tight, Volume.Free, Writing, Grown, BlockSet, SameMap, Splice, Reached;
      ghost var pos := offset % WRAP;
      var absolute := offset + done;
      var bi, off := absolute / BSIZE % WORD, absolute % BSIZE;
      WrappedIndex(offset, done);
      ReachedBy(pos, done, bi, off);
      part := if BSIZE - off > |src| - done then |src| - done else BSIZE - off;
      ghost var d, used := D(), vol.used;
      hi' := hi;
      var got := EnsureBlock(n, bi);
      ghost var d', used' := D(), vol.used;
      if bi < MAXFILE {
        WriteGrows(d0, used0, d, used, d', used', n, pos, done, src, hi, bi);
        hi' := bi + 1;
      }
      HeadsLength(d0, used0, d, used, n, pos, done, src, hi);
      HeadsLength(d0, used0, d', used', n, pos, done, src, hi');
      if got.Err? {
        if bi < MAXFILE { StopsHere(d0, used0, d', used', n, pos, done, src, hi'); }
        return 0, Err(got.error), hi';
      }
      AddressInImage(n, bi);
      CopyIn(n, bi, off, src[done..done + part]);
      WriteCopies(d0, used0, d', used', D(), n, pos, done, src, hi', bi, part);
      ReachedNext(pos, done, bi, off, part);
      error := Ok(());
    }

    /** The loop of inode_write: copies as far as blocks can be had */
    method CopyAll(n: int, src: seq<Byte>, offset: int) returns (done: int, error: Outcome<()>, ghost hi: int)
      requires Valid() && 0 <= n < |inodes| && 0 <= offset && 0 < |src|
      modifies this`inodes, vol, vol.tree, vol.tree.nodes
      ensures vol.tree == old(vol.tree) && fresh(vol.tree.nodes - old(vol.tree.nodes))
      ensures Valid() && (old(NoLeak()) ==> NoLeak())
      ensures Writing(old(D()), old(vol.used), D(), vol.used, n, offset % WRAP, done, src, hi)
      ensures hi == Reached(offset % WRAP, done) + if error == Err(ENOSPC) then 1 else 0
      ensures 0 <= done <= |src| && (done == |src| <==> error.Ok?)
      ensures error.Err? ==> error.error == if offset % WRAP + done >= MAXFILE * BSIZE then EFBIG else ENOSPC
      ensures error == Err(ENOSPC) ==> vol.Free() == {} && !Mapped(D(), n, offset % WRAP + done)
    {
      hide Volume.Ready, Sane, Tight, Volume.Free, Writing, Reached, Mapped;
      ghost var d0, used0, pos := D(), vol.used, offset % WRAP;
      WriteStarts(d0, used0, n, pos, src);
      hi := pos / BSIZE;
      ReachedFirst(pos);
      done := 0;
      while done < |src|
        invariant vol.tree == old(vol.tree) && fresh(vol.tree.nodes - old(vol.tree.nodes))
        invariant Valid() && (old(NoLeak()) ==> NoLeak()) && |inodes| == |old(inodes)| && 0 <= done <= |src|
        invariant Writing(d0, used0, D(), vol.used, n, pos, done, src, hi) && hi == Reached(pos, done)
        invariant done > 0 ==> pos + done <= MAXFILE * BSIZE
      {
        var part;
        part, error, hi := CopyPart(n, src, offset, done, d0, used0, hi);
        if error.Err? { return; }
        done := done + part;
      }
      error := Ok(());
    }

    static lemma ReachedFirst(pos: int)
      ensures Reached(pos, 0) == pos / BSIZE
    {
    }

    static lemma ReachedBy(pos: int, done: int, bi: int, off: int)
      requires 0 <= pos && 0 <= done && 0 <= off < BSIZE && pos + done == bi * BSIZE + off
      ensures Reached(pos, done) <= bi + 1
    {
    }

    static lemma ReachedNext(pos: int, done: int, bi: int, off: int, part: int)
      requires 0 <= pos && 0 <= done && 0 <= off && 0 < part && off + part <= BSIZE && pos + done == bi * BSIZE + off
      ensures Reached(pos, done + part) == bi + 1
    {
    }

    static lemma StopsHere(d0: Disk, used0: seq<bool>, d: Disk, used: seq<bool>, n: int, pos: int, count: int, src: seq<Byte>, hi: int)
      requires Writing(d0, used0, d, used, n, pos, count, src, hi) && pos + count < MAXFILE * BSIZE && !Mapped(d, n, pos + count)
      ensures Reached(pos, count) == (pos + count) / BSIZE
    {
      StopsAtBlock(d, n, pos, count);
    }

    static lemma HeadsLength(d0: Disk, used0: seq<bool>, d: Disk, used: seq<bool>, n: int, pos: int, count: int, src: seq<Byte>, hi: int)
      requires Writing(d0, used0, d, used, n, pos, count, src, hi)
      ensures |d.inodes| == |d0.inodes|
    {
    }

    method SetSize(n: int, size: int)
      requires Valid() && 0 <= n < |inodes| && 0 <= size <= MAXFILE * BSIZE
      modifies this`inodes
      ensures Valid() && (old(NoLeak()) ==> NoLeak()) && SameMap(old(D()), D()) && SameBlocks(old(D()), D())
      ensures Resized(old(D()), D(), n, size)
    {
      hide Volume.Complete, ClearIn, Word, Sane, Tight, SameMap, SameBlocks;
      SizeStep(D(), vol.used, vol.dataStart, vol.dataStart + vol.nblocks, n, size);
      inodes := inodes[n := inodes[n].(size := size)];
    }

    /** inode_write past its first checks */
    method WriteAt(n: int, src: seq<Byte>, offset: int) returns (r: Outcome<int>, ghost done: int, ghost hi: int)
      requires Valid() && 0 <= n < |inodes| && 0 <= offset && src != []
      modifies this`inodes, vol, vol.tree, vol.tree.nodes
      ensures vol.tree == old(vol.tree) && fresh(vol.tree.nodes - old(vol.tree.nodes))
      ensures Valid() && (old(NoLeak()) ==> NoLeak()) && 0 <= done <= |src|
      ensures Wrote(old(D()), old(vol.used), D(), vol.used, n, offset % WRAP, done, src, hi,
                    if r.Ok? && offset + done > old(inodes[n].size) then offset + done else old(inodes[n].size))
      ensures hi == Reached(offset % WRAP, done) + if done < |src| && offset % WRAP + done < MAXFILE * BSIZE then 1 else 0
      ensures done < |src| ==> offset % WRAP + done >= MAXFILE * BSIZE || (vol.Free() == {} && !Mapped(D(), n, offset % WRAP + done))
      ensures r == if done == 0 then Err(if offset % WRAP >= MAXFILE * BSIZE then EFBIG else ENOSPC) else if offset >= WRAP then Err(EFBIG) else Ok(done)
    {
      hide Volume.Ready, Sane, Word, BlockAt, Tight, Volume.Free, Writing, Wrote, SameBlocks, SameMap;
      SizeOf(n);
      ghost var d0, used0, pos := D(), vol.used, offset % WRAP;
      var copied, error, h := CopyAll(n, src, offset);
      ghost var d, used := D(), vol.used;
      done, hi := copied, h;
      WriteEnds(d0, used0, d, used, n, pos, done, src, hi);
      if copied == 0 { return Err(error.error), 0, hi; }
      var newEnd := offset + copied;
      if newEnd > inodes[n].size {
        if newEnd >= WORD { return Err(EFBIG), done, hi; }
        SetSize(n, newEnd);
        MappedSame(d, D(), n, pos + done);
        WriteResizes(d0, used0, d, used, D(), n, pos, done, src, hi, newEnd);
      }
      r := Ok(copied);
    }

    /** inode_write. `done` bytes of `src` end up in the file, at `offset` if that is below 2^42 and otherwise at
        `offset` modulo 2^42; the rest of this file and all of every other file keep their bytes. */
    method Write(n: int, src: seq<Byte>, offset: int) returns (r: Outcome<int>, ghost done: int)
      requires Valid() && 0 <= n < |inodes|
      modifies this`inodes, vol, vol.tree, vol.tree.nodes
      ensures vol.tree == old(vol.tree) && fresh(vol.tree.nodes - old(vol.tree.nodes))
      ensures Valid() && (old(NoLeak()) ==> NoLeak()) && 0 <= done <= |src|
      ensures src == [] ==> r == Ok(0)
      ensures src != [] && offset < 0 ==> r == Err(EINVAL)
      ensures src == [] || offset < 0 ==> done == 0 && D() == old(D()) && vol.used == old(vol.used)
      ensures src != [] && 0 <= offset ==>
        r == if done == 0 then Err(if offset % WRAP >= MAXFILE * BSIZE then EFBIG else ENOSPC) else if offset >= WRAP then Err(EFBIG) else Ok(done)
      ensures BytesAre(old(D()), D(), n, offset % WRAP, done, src) && MappedRange(D(), n, offset % WRAP, offset % WRAP + done)
      ensures forall m, t :: IsSlot(t) && (m != n || old(At(D(), m, t)) != 0) ==> At(D(), m, t) == old(At(D(), m, t))
      ensures TookFor(old(vol.used), D(), vol.used, n)
      ensures r.Ok? ==> offset + done <= MAXFILE * BSIZE || src == []
      ensures Resized(old(D()), D(), n, if r.Ok? && done > 0 && offset + done > old(inodes[n].size) then offset + done else old(inodes[n].size))
      // It stops short only at the largest file or when no block is free.
      ensures 0 <= offset && done < |src| ==> offset % WRAP + done >= MAXFILE * BSIZE || (vol.Free() == {} && !Mapped(D(), n, offset % WRAP + done))
      // Only slots on the way to the blocks written, and to the one it stopped at for want of blocks, have been filled.
      ensures 0 <= offset ==> GrewFor(old(D()), D(), n, offset % WRAP / BSIZE,
        Reached(offset % WRAP, done) + if done < |src| && offset % WRAP + done < MAXFILE * BSIZE then 1 else 0)
      // It leaves a tidy file, which a later truncation can give back entirely, tidy exactly if the blocks written are within
      // the new size and it did not stop for want of blocks with a block of addresses stranded.
      ensures 0 <= offset && old(Tidy(D(), n, BlocksFor(inodes[n].size))) ==>
        (Tidy(D(), n, BlocksFor(inodes[n].size)) <==>
          && (done == 0 || offset < WRAP || BlocksFor(offset % WRAP + done) <= BlocksFor(inodes[n].size))
          && (done == |src| || offset % WRAP + done >= MAXFILE * BSIZE
              || !Stranded(D(), n, (offset % WRAP + done) / BSIZE, BlocksFor(inodes[n].size))))
    {
      hide Volume.Ready, Sane, Word, BlockAt, Tight, Volume.Free, BytesAre, MappedRange, Tidy, GrewFor, Wrote, TookFor, Resized, Writing, Stranded,
        BlocksFor, Mapped, At;
      done := 0;
      ghost var d, used, pos := D(), vol.used, offset % WRAP;
      WriteStarts(d, used, n, pos, src);
      WriteEnds(d, used, d, used, n, pos, 0, src, pos / BSIZE);
      WroteFacts(d, used, d, used, n, pos, 0, src, pos / BSIZE, d.inodes[n].size);
      ReachedFirst(pos);
      hide Reached;
      if |src| == 0 { return Ok(0), 0; }
      if offset < 0 { return Err(EINVAL), 0; }
      ghost var hi;
      r, done, hi := WriteAt(n, src, offset);
      ghost var size := if r.Ok? && offset + done > d.inodes[n].size then offset + done else d.inodes[n].size;
      WroteFacts(d, used, D(), vol.used, n, pos, done, src, hi, size);
      OthersKeep(d, used, D(), vol.used, n, pos, done, src, hi, size);
      if Tidy(d, n, BlocksFor(d.inodes[n].size)) {
        WroteTidyAt(d, used, D(), vol.used, n, offset, done, src, d.inodes[n].size, size);
      }
    }

    static lemma WroteTidyAt(d0: Disk, used0: seq<bool>, d: Disk, used: seq<bool>, n: int, offset: int, done: int, src: seq<Byte>, size0: int, size: int)
      requires 0 <= offset && 0 <= done <= |src|
      requires Wrote(d0, used0, d, used, n, offset % WRAP, done, src,
                     Reached(offset % WRAP, done) + (if done < |src| && offset % WRAP + done < MAXFILE * BSIZE then 1 else 0), size)
      requires Tidy(d0, n, BlocksFor(size0)) && size0 <= size && (offset < WRAP && done > 0 ==> offset + done <= size)
      requires done < |src| ==> offset % WRAP + done >= MAXFILE * BSIZE || !Mapped(d, n, offset % WRAP + done)
      ensures Tidy(d, n, BlocksFor(size)) <==>
        && (done == 0 || offset < WRAP || BlocksFor(offset % WRAP + done) <= BlocksFor(size))
        && (done == |src| || offset % WRAP + done >= MAXFILE * BSIZE || !Stranded(d, n, (offset % WRAP + done) / BSIZE, BlocksFor(size)))
    {
      hide Wrote, Tidy, Stranded, Mapped, Reached;
      var pos := offset % WRAP;
      WroteTidy(d0, used0, d, used, n, pos, done, src, done < |src| && pos + done < MAXFILE * BSIZE, size0, size);
      if done > 0 && offset < WRAP { assert BlocksFor(pos + done) <= BlocksFor(size); }
    }

    /** What a write reports as done can be read back. A read goes on to its own length or to the end of the file, with the
        bytes written as far as there are any, and then with what the file had there before. */
    method WriteThenRead(n: int, src: seq<Byte>, offset: int, length: int) returns (w: Outcome<int>, r: Outcome<seq<Byte>>)
      requires Valid() && 0 <= n < |inodes| && 0 <= offset && 0 <= length
      modifies this`inodes, vol, vol.tree, vol.tree.nodes
      ensures w.Ok? ==> 0 <= w.value <= |src|
      ensures w.Ok? ==>
        var written := offset + w.value;
        var size := if written > old(inodes[n].size) && w.value > 0 then written else old(inodes[n].size);
        var end := if offset >= size then offset else if offset + length <= size then offset + length else size;
        if forall p :: written <= p < end ==> Mapped(D(), n, p)
        then r.Ok? && |r.value| == end - offset
             && forall k :: 0 <= k < |r.value| ==> r.value[k] == if k < w.value then src[k] else old(ByteAt(D(), n, offset + k))
        else r == Err(ENOENT)
    {
      hide Volume.Ready, Sane, Word, BlockAt, Tight, Volume.Free, BytesAre, MappedRange, Tidy, GrewFor, TookFor, ByteAt, Mapped;
      ghost var d := D();
      ghost var done;
      w, done := Write(n, src, offset);
      if w.Err? { return w, Err(w.error); }
      if done == 0 { assert D() == d && w.value == 0; } else { assert w.value == done && offset % WRAP == offset; }
      r := Read(n, offset, length);
      SizeOf(n);
      if done > 0 { RangeMapped(D(), n, offset, offset + done); }
      if r.Ok? { BytesNow(d, D(), n, offset, done, src, r.value); }
    }

    static lemma BytesNow(d0: Disk, d: Disk, n: int, pos: int, count: int, src: seq<Byte>, bytes: seq<Byte>)
      requires 0 <= pos && 0 <= count <= |src| && (pos + |bytes| <= MAXFILE * BSIZE || bytes == [])
      requires (d == d0 && count == 0) || BytesAre(d0, d, n, pos, count, src)
      requires forall k :: 0 <= k < |bytes| ==> bytes[k] == ByteAt(d, n, pos + k)
      ensures forall k :: 0 <= k < |bytes| ==> bytes[k] == if k < count then src[k] else ByteAt(d0, n, pos + k)
    {
      hide ByteAt;
      forall k | 0 <= k < |bytes| ensures bytes[k] == if k < count then src[k] else ByteAt(d0, n, pos + k) {
        if count > 0 { assert ByteAt(d, n, pos + k) == if k < count then src[k] else ByteAt(d0, n, pos + k); }
      }
    }

    /** Writing one byte at offset 2^42 reports that the file would be too big, but replaces the first byte. */
    method FarWrite(n: int, b: Byte) returns (r: Outcome<int>)
      requires Valid() && 0 <= n < |inodes| && Mapped(D(), n, 0)
      modifies this`inodes, vol, vol.tree, vol.tree.nodes
      ensures r == Err(EFBIG) && ByteAt(D(), n, 0) == b
    {
      hide Volume.Ready, Sane, Word, BlockAt, Tight, Volume.Free, MappedRange, Tidy, GrewFor, TookFor, ByteAt;
      ghost var done;
      assert LeafOf(0) == Addr(0) && IsSlot(Addr(0));
      r, done := Write(n, [b], WRAP);
    }

    // ---------- giving blocks back ----------

    /** Empties a slot, unless it is empty, and frees its block. */
    method Empty(n: int, s: Slot)
      requires Valid() && 0 <= n < |inodes| && IsSlot(s) && Bare(D(), n, s)
      modifies this`inodes, vol, vol.tree, vol.tree.nodes
      ensures vol.tree == old(vol.tree) && fresh(vol.tree.nodes - old(vol.tree.nodes))
      ensures Valid() && (old(NoLeak()) ==> NoLeak())
      ensures SlotSet(old(D()), D(), n, s, 0) && BlockSet(old(D()), D(), n, s, Zeros())
      ensures Less(old(D()), old(vol.used), D(), vol.used, n)
    {
      hide Volume.Complete, ClearIn, Sane, Tight, SlotSet, Word, SetWord, Zeros, Less, BlockSet, Bare;
      ghost var d, used, lo, hi := D(), vol.used, vol.dataStart, vol.dataStart + vol.nblocks;
      var a := At(D(), n, s);
      if a == 0 {
        AlreadyEmpty(d, used, n, s);
        return;
      }
      DropStep(d, used, lo, hi, n, s, a);
      Store(n, s, 0);
      var _ := vol.FreeBlock(a);
      LessOne(d, used, D(), n, s, a);
    }

    static lemma AlreadyEmpty(d: Disk, used: seq<bool>, n: int, s: Slot)
      requires At(d, n, s) == 0
      ensures SlotSet(d, d, n, s, 0) && BlockSet(d, d, n, s, Zeros()) && Less(d, used, d, used, n)
    {
    }

    static lemma LeafBare(d: Disk, n: int, s: Slot)
      requires IsLeaf(s)
      ensures Bare(d, n, s)
    {
    }

    /** inode_clear_block */
    method ClearBlock(n: int, bi: int) returns (r: Outcome<()>)
      requires Valid() && 0 <= n < |inodes| && 0 <= bi
      modifies this`inodes, vol, vol.tree, vol.tree.nodes
      ensures vol.tree == old(vol.tree) && fresh(vol.tree.nodes - old(vol.tree.nodes))
      ensures Valid() && (old(NoLeak()) ==> NoLeak())
      ensures Less(old(D()), old(vol.used), D(), vol.used, n)
      ensures bi >= MAXFILE ==> r == Err(EFBIG) && D() == old(D()) && vol.used == old(vol.used)
      ensures bi < MAXFILE ==> r == Ok(()) && Emptied(old(D()), D(), n, bi, bi + 1) && ZeroedFrom(old(D()), D(), n, bi, bi + 1)
    {
      hide Volume.Ready, Sane, Tight, Word, Zeros, Less, BlockSet, Bare, Emptied, ZeroedFrom, SlotSet, BufferIsZero, SameBlocks;
      ghost var d, used, leaf := D(), vol.used, LeafOf(bi);
      LessNone(d, used, n);
      r := Ok(());
      if bi >= MAXFILE { return Err(EFBIG); }
      LeafIndex(bi);
      LeafBare(d, n, leaf);
      if bi < NDIRECT {
        Empty(n, Addr(bi));
        ClearedDirect(d, D(), n, bi);
        ZeroedLast(d, D(), n, bi);
        return;
      }
      var i := bi - NDIRECT;
      if i < NINDIRECT {
        ClearSingle(n, bi, i);
        return;
      }
      i := i - NINDIRECT;
      if At(D(), n, Addr(NDIRECT + 1)) == 0 || At(D(), n, Outer(i / NINDIRECT)) == 0 {
        ClearedNothing(d, n, bi);
        EmptyBelow(d, n, leaf);
        AlreadyEmpty(d, used, n, leaf);
        ZeroedLast(d, d, n, bi);
        return;
      }
      ClearDouble(n, bi, i / NINDIRECT, i % NINDIRECT);
    }

    static lemma ZeroedLast(d: Disk, d': Disk, n: int, bi: int)
      requires BlockSet(d, d', n, LeafOf(bi), Zeros()) && 0 <= bi < MAXFILE
      ensures ZeroedFrom(d, d', n, bi, bi + 1)
    {
      ZeroedOne(d, d', d', n, bi);
    }

    static lemma PointerBlocks(d: Disk, d': Disk, n: int, s: Slot)
      requires BlockSet(d, d', n, s, Zeros()) && !IsLeaf(s)
      ensures SameBlocks(d, d')
    {
    }

    /** Whether the block of addresses slot `s` leads to is all zeros. */
    method IsBare(n: int, s: Slot) returns (r: bool)
      requires Valid() && 0 <= n < |inodes| && IsSlot(s) && !IsLeaf(s) && At(D(), n, s) != 0
      ensures r <==> Bare(D(), n, s)
    {
      hide Volume.Ready, Word, BufferIsZero, Bare;
      BareBuffer(D(), n, s);
      r := BufferIsZero(vol.data[At(D(), n, s)]);
    }

    method ClearSingle(n: int, bi: int, i: int)
      requires Valid() && 0 <= n < |inodes| && i == bi - NDIRECT && 0 <= i < NINDIRECT
      modifies this`inodes, vol, vol.tree, vol.tree.nodes
      ensures vol.tree == old(vol.tree) && fresh(vol.tree.nodes - old(vol.tree.nodes))
      ensures Valid() && (old(NoLeak()) ==> NoLeak())
      ensures Less(old(D()), old(vol.used), D(), vol.used, n)
      ensures Emptied(old(D()), D(), n, bi, bi + 1) && ZeroedFrom(old(D()), D(), n, bi, bi + 1)
    {
      hide Volume.Ready, Sane, Tight, Word, Zeros, Less, BlockSet, Bare, Emptied, ZeroedFrom, SlotSet, SameBlocks;
      ghost var d, used, leaf, top := D(), vol.used, LeafOf(bi), Addr(NDIRECT);
      LeafBare(d, n, leaf);
      if At(D(), n, Addr(NDIRECT)) == 0 {
        EmptyBelow(d, n, leaf);
        NothingUnder(d, n, top);
        AlreadyEmpty(d, used, n, leaf);
        AlreadyEmpty(d, used, n, top);
        ClearedSingle(d, d, d, n, bi);
        ZeroedLast(d, d, n, bi);
        return;
      }
      Empty(n, Single(i));
      ghost var d1, used1 := D(), vol.used;
      OtherSlot(d, d1, n, leaf, top);
      HeadsOf(d, used, d1, used1, n);
      var bare := IsBare(n, Addr(NDIRECT));
      if bare { Empty(n, Addr(NDIRECT)); PointerBlocks(d1, D(), n, top); }
      else { LessNone(d1, used1, n); SameSelf(d1); }
      LessTwice(d, used, d1, used1, D(), vol.used, n);
      ClearedSingle(d, d1, D(), n, bi);
      ZeroedOne(d, d1, D(), n, bi);
    }

    static lemma SameSelf(d: Disk)
      ensures SameBlocks(d, d)
    {
    }

    static lemma NothingUnder(d: Disk, n: int, s: Slot)
      requires At(d, n, s) == 0
      ensures Bare(d, n, s)
    {
    }

    static lemma OtherSlot(d: Disk, d': Disk, n: int, s: Slot, t: Slot)
      requires SlotSet(d, d', n, s, 0) && s != t && IsSlot(t)
      ensures At(d', n, t) == At(d, n, t)
    {
    }

    static lemma HeadsOf(d: Disk, used: seq<bool>, d': Disk, used': seq<bool>, n: int)
      requires Less(d, used, d', used', n)
      ensures |d'.inodes| == |d.inodes|
    {
    }

    method ClearDouble(n: int, bi: int, m: int, j: int)
      requires Valid() && 0 <= n < |inodes| && LeafOf(bi) == Inner(m, j) && IsSlot(LeafOf(bi)) && NDIRECT + NINDIRECT <= bi < MAXFILE
      requires At(D(), n, Outer(m)) != 0
      modifies this`inodes, vol, vol.tree, vol.tree.nodes
      ensures vol.tree == old(vol.tree) && fresh(vol.tree.nodes - old(vol.tree.nodes))
      ensures Valid() && (old(NoLeak()) ==> NoLeak())
      ensures Less(old(D()), old(vol.used), D(), vol.used, n)
      ensures Emptied(old(D()), D(), n, bi, bi + 1) && ZeroedFrom(old(D()), D(), n, bi, bi + 1)
    {
      hide Volume.Ready, Sane, Tight, Word, Zeros, Less, BlockSet, Bare, Emptied, ZeroedFrom, SlotSet, SameBlocks;
      ghost var d, used, leaf, top := D(), vol.used, LeafOf(bi), Addr(NDIRECT + 1);
      LeafBare(d, n, leaf);
      assert At(d, n, top) != 0;
      Empty(n, Inner(m, j));
      ghost var d1, used1 := D(), vol.used;
      OtherSlot(d, d1, n, leaf, Outer(m));
      OtherSlot(d, d1, n, leaf, top);
      HeadsOf(d, used, d1, used1, n);
      var bare := IsBare(n, Outer(m));
      if !bare {
        ClearedDouble(d, d1, d1, d1, n, bi, m);
        ZeroedLast(d, d1, n, bi);
        return;
      }
      Empty(n, Outer(m));
      ghost var d2, used2 := D(), vol.used;
      PointerBlocks(d1, d2, n, Outer(m));
      OtherSlot(d1, d2, n, Outer(m), top);
      HeadsOf(d1, used1, d2, used2, n);
      LessTwice(d, used, d1, used1, d2, used2, n);
      ZeroedOne(d, d1, d2, n, bi);
      bare := IsBare(n, Addr(NDIRECT + 1));
      if !bare {
        ClearedDouble(d, d1, d2, d2, n, bi, m);
        return;
      }
      Empty(n, Addr(NDIRECT + 1));
      PointerBlocks(d2, D(), n, top);
      LessTwice(d, used, d2, used2, D(), vol.used, n);
      ClearedDouble(d, d1, d2, D(), n, bi, m);
      SameTwice(d1, d2, D());
      ZeroedOne(d, d1, D(), n, bi);
    }

    static lemma SameTwice(d0: Disk, d1: Disk, d2: Disk)
      requires SameBlocks(d0, d1) && SameBlocks(d1, d2)
      ensures SameBlocks(d0, d2)
    {
    }

    /** The loop of inode_truncate: clears blocks from the end back to `nb` */
    method ClearDown(n: int, ob: int, nb: int)
      requires Valid() && 0 <= n < |inodes| && 0 <= nb <= ob <= MAXFILE
      modifies this`inodes, vol, vol.tree, vol.tree.nodes
      ensures vol.tree == old(vol.tree) && fresh(vol.tree.nodes - old(vol.tree.nodes))
      ensures Valid() && (old(NoLeak()) ==> NoLeak())
      ensures Less(old(D()), old(vol.used), D(), vol.used, n)
      ensures Emptied(old(D()), D(), n, nb, ob) && ZeroedFrom(old(D()), D(), n, nb, ob)
    {
      hide Volume.Ready, Sane, Tight, Word, Zeros, Less, Emptied, ZeroedFrom;
      ghost var d0, used0 := D(), vol.used;
      LessNone(d0, used0, n);
      EmptiedNone(d0, n, ob);
      var b := ob;
      while b > nb
        invariant vol.tree == old(vol.tree) && fresh(vol.tree.nodes - old(vol.tree.nodes))
        invariant Valid() && (old(NoLeak()) ==> NoLeak()) && |inodes| == |old(inodes)| && nb <= b <= ob
        invariant Less(d0, used0, D(), vol.used, n) && Emptied(d0, D(), n, b, ob) && ZeroedFrom(d0, D(), n, b, ob)
      {
        b := b - 1;
        ghost var d, used := D(), vol.used;
        var _ := ClearBlock(n, b);
        Shrunken(d0, used0, d, used, n);
        Shrunken(d, used, D(), vol.used, n);
        EmptiedMore(d0, d, D(), n, b, ob);
        ZeroedMore(d0, d, D(), n, b, ob);
        LessTwice(d0, used0, d, used, D(), vol.used, n);
        HeadsOf(d0, used0, D(), vol.used, n);
      }
    }

    static lemma Shrunken(d: Disk, used: seq<bool>, d': Disk, used': seq<bool>, n: int)
      requires Less(d, used, d', used', n)
      ensures Shrunk(d, d', n) && GaveBack(d, used, d', used', n) && SameHeads(d, d')
    {
    }

    /** The part of inode_truncate that clears the end of the last block kept */
    method ClearTail(n: int, length: int)
      requires Valid() && 0 <= n < |inodes| && 0 <= length < MAXFILE * BSIZE
      modifies vol`data
      ensures Valid() && (old(NoLeak()) ==> NoLeak()) && SameMap(old(D()), D()) && TailCleared(old(D()), D(), n, length)
    {
      hide Volume.Ready, Sane, Tight, Word, Splice, BlockAt, BlockSet;
      ghost var d := D();
      var last, off := length / BSIZE, length % BSIZE;
      if off == 0 { return; }
      var a := BlockAddress(n, last);
      if a.Err? {
        HoleTail(d, n, length);
        return;
      }
      AddressInImage(n, last);
      CopyIn(n, last, off, Blanks(BSIZE - off));
    }

    /** inode_truncate. The bytes past `length` are zero after it, the blocks it drops are exactly the ones whose bits
        it clears, and no other inode loses anything. */
    method Truncate(n: int, length: int) returns (r: Outcome<()>)
      requires Valid() && 0 <= n < |inodes|
      modifies this`inodes, vol, vol.tree, vol.tree.nodes
      ensures vol.tree == old(vol.tree) && fresh(vol.tree.nodes - old(vol.tree.nodes))
      ensures Valid() && (old(NoLeak()) ==> NoLeak())
      ensures r == if length < 0 then Err(EINVAL) else if length >= WORD then Err(EFBIG) else if length > old(inodes[n].size) then Err(EOPNOTSUPP) else Ok(())
      ensures r.Err? || length == old(inodes[n].size) ==> D() == old(D()) && vol.used == old(vol.used)
      ensures Shrunk(old(D()), D(), n) && GaveBack(old(D()), old(vol.used), D(), vol.used, n)
      ensures r.Ok? ==> Resized(old(D()), D(), n, length)
      ensures r.Ok? ==> Emptied(old(D()), D(), n, BlocksFor(length), BlocksFor(old(inodes[n].size)))
      ensures r.Ok? && length < old(inodes[n].size) ==> CutBytes(old(D()), D(), n, length, BlocksFor(old(inodes[n].size)))
      ensures |inodes| == |old(inodes)| && (old(Tidy(D(), n, BlocksFor(inodes[n].size))) ==> Tidy(D(), n, BlocksFor(inodes[n].size)))
    {
      hide Volume.Ready, Sane, Tight, Word, Zeros, Less, Emptied, ZeroedFrom, CutBytes, TailCleared, SameBlocks, SameMap, GaveBack, Shrunk, Tidy;
      ghost var d, used := D(), vol.used;
      LessNone(d, used, n);
      Shrunken(d, used, d, used, n);
      if length < 0 { return Err(EINVAL); }
      if length >= WORD { return Err(EFBIG); }
      SizeOf(n);
      var current := inodes[n].size;
      if length > current { return Err(EOPNOTSUPP); }
      r := Ok(());
      EmptiedNone(d, n, BlocksFor(length));
      if length == current { return; }
      ghost var ob := BlocksFor(current);
      ClearDown(n, (current + BSIZE - 1) / BSIZE, (length + BSIZE - 1) / BSIZE);
      ghost var d1, used1 := D(), vol.used;
      Shrunken(d, used, d1, used1, n);
      ClearTail(n, length);
      ghost var d2 := D();
      SetSize(n, length);
      SameMapTwice(d1, d2, D());
      EmptiedSame(d, d1, D(), n, BlocksFor(length), ob);
      GaveBackSame(d, used, d1, used1, D(), n);
      CutIsBytes(d, d1, d2, D(), n, length, ob);
      if Tidy(d, n, ob) { CutTidy(d, D(), n, BlocksFor(length), ob); }
    }

    static lemma SameMapTwice(d0: Disk, d1: Disk, d2: Disk)
      requires SameMap(d0, d1) && SameMap(d1, d2)
      ensures SameMap(d0, d2)
    {
    }

    lemma AllMarked()
      requires Valid()
      ensures Sane(D(), vol.used, vol.dataStart, vol.dataStart + vol.nblocks)
      ensures Marked(D(), vol.used, vol.dataStart, vol.dataStart + vol.nblocks)
      ensures 0 < vol.dataStart <= vol.dataStart + vol.nblocks <= |vol.used|
    {
    }

    /** reset_inode: the inode has no blocks after it, and the blocks it had are free again exactly if it was tidy */
    method Reset(n: int)
      requires Valid() && 0 <= n < |inodes|
      modifies this`inodes, vol, vol.tree, vol.tree.nodes
      ensures vol.tree == old(vol.tree) && fresh(vol.tree.nodes - old(vol.tree.nodes))
      ensures Valid() && |inodes| == |old(inodes)| && inodes[n].kind == inodes[n].nlink == inodes[n].size == 0
      ensures forall m :: 0 <= m < |inodes| && m != n ==>
        inodes[m].kind == old(inodes)[m].kind && inodes[m].nlink == old(inodes)[m].nlink && inodes[m].size == old(inodes)[m].size
      ensures forall m, t :: IsSlot(t) ==> At(D(), m, t) == if m == n then 0 else old(At(D(), m, t))
      ensures (forall t :: IsSlot(t) && old(At(D(), n, t)) != 0 ==> !Bit(vol.used, old(At(D(), n, t))))
                <==> old(Tidy(D(), n, BlocksFor(inodes[n].size)))
      ensures old(NoLeak()) ==> (NoLeak() <==> old(Tidy(D(), n, BlocksFor(inodes[n].size))))
    {
      hide Volume.Ready, Sane, Tight, Word, Emptied, CutBytes, GaveBack, Tidy, Marked;
      ghost var d, used, lo, hi := D(), vol.used, vol.dataStart, vol.dataStart + vol.nblocks;
      SizeOf(n);
      var _ := Truncate(n, 0);
      ghost var d1, used1 := D(), vol.used;
      AllMarked();
      AllBack(d, used, d1, used1, n, lo, hi, BlocksFor(d.inodes[n].size));
      WipeStep(d1, used1, lo, hi, n);
      if Tight(d1, used1, lo, hi) { WipeTight(d1, used1, lo, hi, n); }
      Wipe(n);
    }

    method Wipe(n: int)
      requires vol.Ready() && 0 <= n < |inodes|
      modifies this`inodes
      ensures vol.Ready() && D() == Wiped(old(D()), n) && inodes[n] == Blank()
    {
      hide Volume.Ready;
      inodes := inodes[n := Blank()];
    }

    /** With one block free, writing the first byte past the direct blocks of an empty file fails, but the block went
        to the file; resetting the inode then loses it for good. */
    method LoseLastBlock(n: int, b: Byte) returns (r: Outcome<int>)
      requires Valid() && NoLeak() && 0 <= n < |inodes| && inodes[n].size == 0 && Tidy(D(), n, 0) && |vol.Free()| == 1
      modifies this`inodes, vol, vol.tree, vol.tree.nodes
      ensures r == Err(ENOSPC) && Valid() && !NoLeak()
    {
      hide Volume.Ready, Sane, Tight, Word, BlockAt, BytesAre, Tidy, ClearIn, LeafOf;
      ghost var d, used, lo, hi := D(), vol.used, vol.dataStart, vol.dataStart + vol.nblocks;
      ghost var done;
      AllMarked();
      TidyNone(d, n);
      LeafAtEleven();
      r, done := Write(n, [b], NDIRECT * BSIZE);
      AllMarked();
      if done == 1 {
        MappedFirst(D(), n);
        TwoTaken(d, used, D(), vol.used, lo, vol.nblocks, n);
        assert false;
      }
      LastTaken(d, used, D(), vol.used, lo, vol.nblocks, n);
      Reset(n);
    }

    /** A byte written at 2^42 to an empty file: it is put in block 0, the size is not set, and resetting the inode loses the
        block, however many blocks are free. */
    method LoseFarBlock(n: int, b: Byte) returns (r: Outcome<int>)
      requires Valid() && NoLeak() && 0 <= n < |inodes| && inodes[n].size == 0 && Tidy(D(), n, 0) && vol.Free() != {}
      modifies this`inodes, vol, vol.tree, vol.tree.nodes
      ensures r == Err(EFBIG) && Valid() && !NoLeak()
    {
      hide Volume.Ready, Sane, Tight, Word, BytesAre, Tidy, ClearIn, GrewFor, Stranded, MappedRange, TookFor;
      ghost var d, used, lo := D(), vol.used, vol.dataStart;
      ghost var done;
      AllMarked();
      r, done := Write(n, [b], WRAP);
      AllMarked();
      if done == 0 {
        FirstHad(d, used, D(), vol.used, lo, vol.nblocks, n);
        assert false;
      }
      Reset(n);
    }

    /** A write of one byte to an empty file gets its block if any block is free. */
    static lemma FirstHad(d: Disk, used: seq<bool>, d': Disk, used': seq<bool>, lo: int, count: int, n: int)
      requires ClearIn(used, lo, count) != {} && ClearIn(used', lo, count) == {} && 0 <= lo && lo + count <= |used'|
      requires TookFor(used, d', used', n) && GrewFor(d, d', n, 0, Reached(0, 0) + 1) && Tidy(d, n, 0)
      ensures Mapped(d', n, 0)
    {
      var b := Pick(ClearIn(used, lo, count));
      assert b !in ClearIn(used', lo, count);
      assert Bit(used', b) && !Bit(used, b);
      var t :| IsSlot(t) && At(d', n, t) == b;
      if At(d, n, t) != 0 { UntidyEmpty(d, n, t); }
      assert Routed(t, 0, 1);
    }

    static lemma LeafAtEleven()
      ensures LeafOf(NDIRECT) == Single(0) && NDIRECT * BSIZE % WRAP == NDIRECT * BSIZE && NDIRECT * BSIZE / BSIZE == NDIRECT
    {
    }

    static lemma MappedFirst(d: Disk, n: int)
      requires MappedRange(d, n, NDIRECT * BSIZE, NDIRECT * BSIZE + 1)
      ensures At(d, n, Single(0)) != 0 && At(d, n, Addr(NDIRECT)) != 0
    {
      assert Mapped(d, n, NDIRECT * BSIZE);
    }

    static lemma TidyNone(d: Disk, n: int)
      requires Tidy(d, n, 0)
      ensures forall t :: IsSlot(t) ==> At(d, n, t) == 0
    {
      forall t | IsSlot(t) ensures At(d, n, t) == 0 {
        if At(d, n, t) != 0 { UntidyEmpty(d, n, t); }
      }
    }

    static lemma TwoTaken(d: Disk, used: seq<bool>, d': Disk, used': seq<bool>, lo: int, count: int, n: int)
      requires Sane(d', used', lo, lo + count) && Tight(d, used, lo, lo + count) && lo + count <= |used|
      requires forall m, t :: IsSlot(t) && At(d, m, t) != 0 ==> At(d', m, t) == At(d, m, t)
      requires (forall t :: IsSlot(t) ==> At(d, n, t) == 0) && At(d', n, Single(0)) != 0 && At(d', n, Addr(NDIRECT)) != 0
      ensures |ClearIn(used, lo, count)| != 1
    {
      hide Word, Tight;
      var s, t := Single(0), Addr(NDIRECT);
      WasUnused(d, used, d', used', lo, lo + count, n, s);
      WasUnused(d, used, d', used', lo, lo + count, n, t);
      TwoIn(ClearIn(used, lo, count), At(d', n, s), At(d', n, t));
    }

    static lemma TwoIn(s: set<int>, x: int, y: int)
      requires x in s && y in s && x != y
      ensures |s| != 1
    {
      var rest := s - {x};
      assert y in rest;
      assert |rest| == |s| - 1;
    }

    static lemma LastTaken(d: Disk, used: seq<bool>, d': Disk, used': seq<bool>, lo: int, count: int, n: int)
      requires |ClearIn(used, lo, count)| == 1 && ClearIn(used', lo, count) == {} && TookFor(used, d', used', n) && lo + count <= |used'| && 0 <= lo
      ensures !Tidy(d', n, 0)
    {
      var b := Pick(ClearIn(used, lo, count));
      assert b !in ClearIn(used', lo, count);
      assert Bit(used', b) && !Bit(used, b);
      var t :| IsSlot(t) && At(d', n, t) == b;
      UntidyEmpty(d', n, t);
    }
  
    // ---------- a smallest file system ----------

    /** An image of three blocks, the second of them the bitmap and the third free, with one inode. */
    static method Smallest() returns (fs: FileSystem)
      ensures fresh(fs) && fresh(fs.vol) && fresh(fs.vol.tree) && fresh(fs.vol.tree.nodes)
      ensures fs.Valid() && fs.NoLeak() && fs.vol.initialized && fs.inodes == [Blank()] && fs.vol.Free() == {2} && Tidy(fs.D(), 0, 0)
    {
      hide Volume.Indexed, Zeros, Sane, Tight;
      var data, used := [Zeros(), Zeros(), Zeros()], seq(BPB, i => i != 2);
      OneFree(used);
      var vol := new Volume(data, used, 1, 2);
      vol.Init();
      fs := new FileSystem(vol, [Blank()]);
      BlankSane(fs.D(), vol.used);
    }

    static lemma OneFree(used: seq<bool>)
      requires |used| == BPB && forall i :: 0 <= i < BPB ==> used[i] == (i != 2)
      ensures ClearIn(used, 2, 1) == {2}
    {
    }

    static lemma BlankSane(d: Disk, used: seq<bool>)
      requires d.inodes == [Blank()] && |d.data| == 3 && (forall b :: 0 <= b < 3 ==> |d.data[b]| == BSIZE) && |used| == BPB && !used[2]
      ensures Sane(d, used, 2, 3) && Tight(d, used, 2, 3) && Tidy(d, 0, 0)
    {
      forall n, t | IsSlot(t) ensures At(d, n, t) == 0 { BlankAt(d, n, t); }
      hide Word;
      assert forall bi :: 0 <= bi < MAXFILE ==> IsSlot(LeafOf(bi)) by { forall bi | 0 <= bi < MAXFILE ensures IsSlot(LeafOf(bi)) { LeafIndex(bi); } }
    }

    static lemma BlankAt(d: Disk, n: int, t: Slot)
      requires d.inodes == [Blank()] && IsSlot(t)
      ensures At(d, n, t) == 0
    {
    }

    /** So the last block is lost in a run from the smallest file system. */
    static method LoseIt(b: Byte) returns (fs: FileSystem, r: Outcome<int>)
      ensures r == Err(ENOSPC) && fs.Valid() && !fs.NoLeak()
    {
      fs := Smallest();
      hide Volume.Ready, Sane, Tight, Tidy, ClearIn;
      r := fs.LoseLastBlock(0, b);
    }

    /** So is the block of a far write. */
    static method LoseFar(b: Byte) returns (fs: FileSystem, r: Outcome<int>)
      ensures r == Err(EFBIG) && fs.Valid() && !fs.NoLeak()
    {
      fs := Smallest();
      hide Volume.Ready, Sane, Tight, Tidy, ClearIn;
      r := fs.LoseFarBlock(0, b);
    }
  }
}
