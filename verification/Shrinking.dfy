/** What clearing blocks from the end of a file does to its map, its bytes and the bitmap. */
module Shrinking {
  import opened Basics
  import opened BlockCache
  import opened FileBytes
  import opened InodeMap

  /** Bits have only been cleared, those of blocks that hung off inode `n`; and every block whose slot was emptied
      has had its bit cleared. */
  ghost predicate GaveBack(d: Disk, used: seq<bool>, d': Disk, used': seq<bool>, n: int) {
    && (forall b :: (Bit(used', b) ==> Bit(used, b)) && (Bit(used, b) && !Bit(used', b) ==> b != 0 && Owns(d, n, b)))
    && (forall t :: IsSlot(t) && At(d, n, t) != 0 && At(d', n, t) == 0 ==> !Bit(used', At(d, n, t)))
  }

  /** Slots of inode `n` have only been emptied, and no other inode's have changed. */
  ghost predicate Shrunk(d: Disk, d': Disk, n: int) {
    forall n', t :: IsSlot(t) ==> At(d', n', t) == At(d, n', t) || (n' == n && At(d', n, t) == 0)
  }

  /** Blocks from `b` up to `ob` of the file now read as zeros, and no other block of any file has changed. */
  ghost predicate ZeroedFrom(d: Disk, d': Disk, n: int, b: int, ob: int) {
    forall n', t :: IsSlot(t) && IsLeaf(t) ==>
      BlockAt(d', n', t) == if n' == n && b <= IndexOf(t) < ob then Zeros() else BlockAt(d, n', t)
  }

  /** The file has lost blocks `b` up to `ob`. A block of addresses that was on the way to one of them is gone when
      it has become empty, and the block of blocks is gone when one of its blocks went and it has become empty. */
  ghost predicate Emptied(d: Disk, d': Disk, n: int, b: int, ob: int) {
    && (forall t :: IsSlot(t) && IsLeaf(t) ==> At(d', n, t) == if b <= IndexOf(t) < ob then 0 else At(d, n, t))
    && SingleEmptied(d, d', n, b, ob)
    && (forall m :: 0 <= m < NINDIRECT ==> OuterEmptied(d, d', n, b, ob, m))
    && DoubleEmptied(d, d', n)
  }

  predicate Meets(b: int, ob: int, lo: int, hi: int) {
    b < ob && lo < hi && b < hi && lo < ob
  }

  ghost predicate Dropped(d: Disk, d': Disk, n: int, m: int) {
    At(d, n, Outer(m)) != 0 && At(d', n, Outer(m)) == 0
  }

  ghost predicate SingleEmptied(d: Disk, d': Disk, n: int, b: int, ob: int) {
    if Meets(b, ob, NDIRECT, NDIRECT + NINDIRECT) then At(d', n, Addr(NDIRECT)) != 0 ==> !Bare(d', n, Addr(NDIRECT))
    else At(d', n, Addr(NDIRECT)) == At(d, n, Addr(NDIRECT))
  }

  ghost predicate DoubleEmptied(d: Disk, d': Disk, n: int) {
    if exists m :: 0 <= m < NINDIRECT && Dropped(d, d', n, m) then At(d', n, Addr(NDIRECT + 1)) != 0 ==> !Bare(d', n, Addr(NDIRECT + 1))
    else At(d', n, Addr(NDIRECT + 1)) == At(d, n, Addr(NDIRECT + 1))
  }

  ghost predicate OuterEmptied(d: Disk, d': Disk, n: int, b: int, ob: int, m: int) {
    if Meets(b, ob, FirstUnder(m), FirstUnder(m + 1)) then At(d', n, Outer(m)) != 0 ==> !Bare(d', n, Outer(m))
    else At(d', n, Outer(m)) == At(d, n, Outer(m))
  }

  /** buffer_is_zero asked of a block of addresses says whether any slot in it is filled. */
  lemma BareBuffer(d: Disk, n: int, s: Slot)
    requires Shaped(d) && IsSlot(s) && !IsLeaf(s) && 0 < At(d, n, s) < |d.data|
    ensures BufferIsZero(d.data[At(d, n, s)]) <==> Bare(d, n, s)
  {
    hide Word;
    var blk := d.data[At(d, n, s)];
    ZeroBuffer(blk);
    if Bare(d, n, s) {
      forall i | 0 <= i < NINDIRECT ensures Word(blk, i) == 0 {
        var t := if s.Outer? then Inner(s.o, i) else if s.k == NDIRECT then Single(i) else Outer(i);
        assert IsSlot(t) && Up(t) == s;
        assert At(d, n, t) == 0;
      }
    }
  }

  // ---------- one slot emptied ----------

  /** Inode `n` has given up blocks and nothing else has changed but what they held. */
  ghost predicate Less(d: Disk, used: seq<bool>, d': Disk, used': seq<bool>, n: int) {
    Shrunk(d, d', n) && GaveBack(d, used, d', used', n) && SameHeads(d, d')
  }

  lemma LessNone(d: Disk, used: seq<bool>, n: int)
    ensures Less(d, used, d, used, n)
  {
  }

  lemma LessOne(d: Disk, used: seq<bool>, d': Disk, n: int, s: Slot, a: int)
    requires SlotSet(d, d', n, s, 0) && IsSlot(s) && At(d, n, s) == a && 0 < a < |used| && SameHeads(d, d')
    ensures Less(d, used, d', used[a := false], n)
  {
    assert Owns(d, n, a);
  }

  lemma LessTwice(d0: Disk, used0: seq<bool>, d1: Disk, used1: seq<bool>, d2: Disk, used2: seq<bool>, n: int)
    requires Less(d0, used0, d1, used1, n) && Less(d1, used1, d2, used2, n)
    ensures Less(d0, used0, d2, used2, n)
  {
    forall b | Bit(used0, b) && !Bit(used2, b) ensures b != 0 && Owns(d0, n, b) {
      if Bit(used1, b) {
        var t :| IsSlot(t) && At(d1, n, t) == b;
        assert At(d0, n, t) == b;
      }
    }
  }

  // ---------- the three places a block can be cleared from ----------

  lemma ClearedDirect(d: Disk, d': Disk, n: int, bi: int)
    requires SlotSet(d, d', n, LeafOf(bi), 0) && 0 <= bi < NDIRECT
    ensures Emptied(d, d', n, bi, bi + 1)
  {
    forall m | 0 <= m < NINDIRECT ensures OuterEmptied(d, d', n, bi, bi + 1, m) && !Dropped(d, d', n, m) {
      assert IsSlot(Outer(m));
    }
    assert IsSlot(Addr(NDIRECT)) && IsSlot(Addr(NDIRECT + 1));
  }

  lemma ClearedSingle(d: Disk, d1: Disk, d2: Disk, n: int, bi: int)
    requires SlotSet(d, d1, n, LeafOf(bi), 0) && NDIRECT <= bi < NDIRECT + NINDIRECT
    requires if Bare(d1, n, Addr(NDIRECT)) then SlotSet(d1, d2, n, Addr(NDIRECT), 0) else d2 == d1
    ensures Emptied(d, d2, n, bi, bi + 1)
  {
    hide Bare;
    forall m | 0 <= m < NINDIRECT ensures OuterEmptied(d, d2, n, bi, bi + 1, m) && !Dropped(d, d2, n, m) {
      assert IsSlot(Outer(m));
    }
    assert IsSlot(Addr(NDIRECT)) && IsSlot(Addr(NDIRECT + 1));
  }

  lemma ClearedNothing(d: Disk, n: int, bi: int)
    requires NDIRECT + NINDIRECT <= bi < MAXFILE && At(d, n, Up(LeafOf(bi))) == 0
    ensures Emptied(d, d, n, bi, bi + 1)
  {
    LeafIndex(bi);
    var leaf := LeafOf(bi);
    forall t | IsSlot(t) && IsLeaf(t) && bi == IndexOf(t) ensures At(d, n, t) == 0 {
      IndexLeaf(t);
    }
  }

  /** Clearing through the block of blocks: the slot itself, then its block of addresses if that is now empty, then
      the block of blocks if that is now empty too. */
  ghost predicate DoubleSteps(d: Disk, d1: Disk, d2: Disk, d3: Disk, n: int, bi: int, m: int) {
    && NDIRECT + NINDIRECT <= bi < MAXFILE && Up(LeafOf(bi)) == Outer(m) && At(d, n, Outer(m)) != 0
    && SlotSet(d, d1, n, LeafOf(bi), 0)
    && (if Bare(d1, n, Outer(m)) then SlotSet(d1, d2, n, Outer(m), 0) else d2 == d1)
    && (if Bare(d1, n, Outer(m)) && Bare(d2, n, Addr(NDIRECT + 1)) then SlotSet(d2, d3, n, Addr(NDIRECT + 1), 0) else d3 == d2)
  }

  lemma DoubleLeaves(d: Disk, d1: Disk, d2: Disk, d3: Disk, n: int, bi: int, m: int)
    requires DoubleSteps(d, d1, d2, d3, n, bi, m)
    ensures forall t :: IsSlot(t) && IsLeaf(t) ==> At(d3, n, t) == if bi <= IndexOf(t) < bi + 1 then 0 else At(d, n, t)
    ensures SingleEmptied(d, d3, n, bi, bi + 1)
  {
    hide Bare;
    LeafIndex(bi);
    forall t | IsSlot(t) && IsLeaf(t) ensures At(d3, n, t) == if bi == IndexOf(t) then 0 else At(d, n, t) {
      IndexLeaf(t);
    }
    assert IsSlot(Addr(NDIRECT));
  }

  lemma DoubleOuter(d: Disk, d1: Disk, d2: Disk, d3: Disk, n: int, bi: int, m: int, x: int)
    requires DoubleSteps(d, d1, d2, d3, n, bi, m) && 0 <= x < NINDIRECT
    ensures OuterEmptied(d, d3, n, bi, bi + 1, x) && (Dropped(d, d3, n, x) <==> x == m && Bare(d1, n, Outer(m)))
  {
    hide Bare;
    LeafIndex(bi);
    assert FirstUnder(m) <= bi < FirstUnder(m + 1);
    assert IsSlot(Outer(x)) && IsSlot(Outer(m));
  }

  lemma DoubleTop(d: Disk, d1: Disk, d2: Disk, d3: Disk, n: int, bi: int, m: int)
    requires DoubleSteps(d, d1, d2, d3, n, bi, m)
    ensures DoubleEmptied(d, d3, n)
  {
    hide Bare;
    LeafIndex(bi);
    var top := Addr(NDIRECT + 1);
    assert IsSlot(top);
    if Bare(d1, n, Outer(m)) {
      DoubleOuter(d, d1, d2, d3, n, bi, m, m);
      assert Dropped(d, d3, n, m);
      assert At(d3, n, top) != 0 ==> !Bare(d3, n, top);
    } else {
      forall x | 0 <= x < NINDIRECT ensures !Dropped(d, d3, n, x) { DoubleOuter(d, d1, d2, d3, n, bi, m, x); }
      assert At(d3, n, top) == At(d, n, top);
    }
  }

  lemma ClearedDouble(d: Disk, d1: Disk, d2: Disk, d3: Disk, n: int, bi: int, m: int)
    requires DoubleSteps(d, d1, d2, d3, n, bi, m)
    ensures Emptied(d, d3, n, bi, bi + 1)
  {
    DoubleLeaves(d, d1, d2, d3, n, bi, m);
    var next := bi + 1;
    forall x | 0 <= x < NINDIRECT ensures OuterEmptied(d, d3, n, bi, next, x) { DoubleOuter(d, d1, d2, d3, n, bi, m, x); }
    DoubleTop(d, d1, d2, d3, n, bi, m);
    hide DoubleEmptied, OuterEmptied, SingleEmptied, DoubleSteps;
  }

  // ---------- one more block cleared ----------

  lemma EmptiedNone(d: Disk, n: int, ob: int)
    ensures Emptied(d, d, n, ob, ob) && Shrunk(d, d, n) && ZeroedFrom(d, d, n, ob, ob)
  {
  }

  lemma SingleMore(d0: Disk, d1: Disk, d2: Disk, n: int, b: int, ob: int)
    requires Emptied(d0, d1, n, b + 1, ob) && Emptied(d1, d2, n, b, b + 1) && 0 <= b < ob
    ensures SingleEmptied(d0, d2, n, b, ob)
  {
    hide DoubleEmptied, OuterEmptied, FirstUnder;
    if !(NDIRECT <= b < NDIRECT + NINDIRECT) && !Bare(d1, n, Addr(NDIRECT)) {
      var t :| IsSlot(t) && !t.Addr? && Up(t) == Addr(NDIRECT) && At(d1, n, t) != 0;
      assert At(d2, n, t) == At(d1, n, t);
    }
  }

  lemma OuterMore(d0: Disk, d1: Disk, d2: Disk, n: int, b: int, ob: int, m: int)
    requires Emptied(d0, d1, n, b + 1, ob) && Emptied(d1, d2, n, b, b + 1) && 0 <= b < ob && 0 <= m < NINDIRECT
    ensures OuterEmptied(d0, d2, n, b, ob, m)
  {
    hide DoubleEmptied, SingleEmptied;
    assert OuterEmptied(d0, d1, n, b + 1, ob, m) && OuterEmptied(d1, d2, n, b, b + 1, m);
    if !(FirstUnder(m) <= b < FirstUnder(m + 1)) && !Bare(d1, n, Outer(m)) {
      var t :| IsSlot(t) && !t.Addr? && Up(t) == Outer(m) && At(d1, n, t) != 0;
      assert At(d2, n, t) == At(d1, n, t);
    }
  }

  lemma DoubleMore(d0: Disk, d1: Disk, d2: Disk, n: int)
    requires DoubleEmptied(d0, d1, n) && DoubleEmptied(d1, d2, n) && Shrunk(d0, d1, n) && Shrunk(d1, d2, n)
    ensures DoubleEmptied(d0, d2, n)
  {
    if m :| 0 <= m < NINDIRECT && Dropped(d1, d2, n, m) {
      assert IsSlot(Outer(m)) && Dropped(d0, d2, n, m);
    } else {
      forall m | 0 <= m < NINDIRECT ensures At(d2, n, Outer(m)) == At(d1, n, Outer(m)) && (Dropped(d0, d2, n, m) <==> Dropped(d0, d1, n, m)) {
        assert IsSlot(Outer(m)) && !Dropped(d1, d2, n, m);
      }
      if !Bare(d1, n, Addr(NDIRECT + 1)) {
        var t :| IsSlot(t) && !t.Addr? && Up(t) == Addr(NDIRECT + 1) && At(d1, n, t) != 0;
        assert At(d2, n, Outer(t.o)) == At(d1, n, Outer(t.o));
      }
    }
  }

  lemma EmptiedMore(d0: Disk, d1: Disk, d2: Disk, n: int, b: int, ob: int)
    requires Emptied(d0, d1, n, b + 1, ob) && Emptied(d1, d2, n, b, b + 1) && Shrunk(d0, d1, n) && Shrunk(d1, d2, n) && 0 <= b < ob
    ensures Emptied(d0, d2, n, b, ob)
  {
    SingleMore(d0, d1, d2, n, b, ob);
    forall m | 0 <= m < NINDIRECT ensures OuterEmptied(d0, d2, n, b, ob, m) { OuterMore(d0, d1, d2, n, b, ob, m); }
    DoubleMore(d0, d1, d2, n);
    hide DoubleEmptied, OuterEmptied, SingleEmptied;
  }

  lemma ZeroedMore(d0: Disk, d1: Disk, d2: Disk, n: int, b: int, ob: int)
    requires ZeroedFrom(d0, d1, n, b + 1, ob) && ZeroedFrom(d1, d2, n, b, b + 1) && 0 <= b < ob
    ensures ZeroedFrom(d0, d2, n, b, ob)
  {
    hide BlockAt;
  }

  // ---------- when everything goes ----------

  /** After all of the first `ob` blocks have been cleared the inode has nothing left exactly when it was tidy. */
  lemma AllGone(d: Disk, d': Disk, n: int, ob: int)
    requires Emptied(d, d', n, 0, ob) && Shrunk(d, d', n)
    ensures (forall t :: IsSlot(t) ==> At(d', n, t) == 0) <==> Tidy(d, n, ob)
  {
    if Tidy(d, n, ob) {
      TidyLeaves(d, d', n, ob);
      TidyPointers(d, d', n, ob);
    }
    if forall t :: IsSlot(t) ==> At(d', n, t) == 0 {
      GoneTidy(d, d', n, ob);
    }
  }

  lemma TidyLeaves(d: Disk, d': Disk, n: int, ob: int)
    requires Emptied(d, d', n, 0, ob) && Tidy(d, n, ob)
    ensures forall t :: IsSlot(t) && IsLeaf(t) ==> At(d', n, t) == 0
  {
    forall t | IsSlot(t) && IsLeaf(t) ensures At(d', n, t) == 0 { IndexLeaf(t); }
  }

  lemma TidyPointers(d: Disk, d': Disk, n: int, ob: int)
    requires Emptied(d, d', n, 0, ob) && Shrunk(d, d', n) && Tidy(d, n, ob)
    requires forall t :: IsSlot(t) && IsLeaf(t) ==> At(d', n, t) == 0
    ensures forall t :: IsSlot(t) ==> At(d', n, t) == 0
  {
    assert Bare(d', n, Addr(NDIRECT));
    forall m | 0 <= m < NINDIRECT ensures At(d', n, Outer(m)) == 0 {
      assert IsSlot(Outer(m)) && Bare(d', n, Outer(m)) && OuterEmptied(d, d', n, 0, ob, m);
    }
    assert Bare(d', n, Addr(NDIRECT + 1));
    if At(d, n, Addr(NDIRECT + 1)) != 0 {
      var m :| 0 <= m < NINDIRECT && At(d, n, Outer(m)) != 0;
      assert Dropped(d, d', n, m);
    }
    forall t | IsSlot(t) ensures At(d', n, t) == 0 {
      if t.Outer? { assert At(d', n, Outer(t.o)) == 0; }
    }
  }

  lemma GoneTidy(d: Disk, d': Disk, n: int, ob: int)
    requires Emptied(d, d', n, 0, ob) && forall t :: IsSlot(t) ==> At(d', n, t) == 0
    ensures Tidy(d, n, ob)
  {
    forall bi | 0 <= bi < MAXFILE && At(d, n, LeafOf(bi)) != 0 ensures bi < ob {
      LeafIndex(bi);
      assert At(d', n, LeafOf(bi)) == 0;
    }
    forall m | 0 <= m < NINDIRECT && At(d, n, Outer(m)) != 0 ensures FirstUnder(m) < ob {
      assert IsSlot(Outer(m)) && OuterEmptied(d, d', n, 0, ob, m);
    }
    assert IsSlot(Addr(NDIRECT)) && IsSlot(Addr(NDIRECT + 1));
  }

  lemma ZeroedOne(d: Disk, d1: Disk, d2: Disk, n: int, bi: int)
    requires BlockSet(d, d1, n, LeafOf(bi), Zeros()) && SameBlocks(d1, d2) && 0 <= bi < MAXFILE
    ensures ZeroedFrom(d, d2, n, bi, bi + 1)
  {
    hide BlockAt;
    LeafIndex(bi);
    forall n', t | IsSlot(t) && IsLeaf(t)
      ensures BlockAt(d2, n', t) == if n' == n && bi <= IndexOf(t) < bi + 1 then Zeros() else BlockAt(d, n', t)
    {
      IndexLeaf(t);
    }
  }

  // ---------- the end of a truncation ----------

  lemma EmptiedSame(d: Disk, d1: Disk, d2: Disk, n: int, b: int, ob: int)
    requires Emptied(d, d1, n, b, ob) && SameMap(d1, d2)
    ensures Emptied(d, d2, n, b, ob)
  {
    assert IsSlot(Addr(NDIRECT)) && IsSlot(Addr(NDIRECT + 1));
    BareSame(d1, d2, n, Addr(NDIRECT));
    BareSame(d1, d2, n, Addr(NDIRECT + 1));
    forall m | 0 <= m < NINDIRECT ensures OuterEmptied(d, d2, n, b, ob, m) && (Dropped(d, d2, n, m) <==> Dropped(d, d1, n, m)) {
      assert IsSlot(Outer(m)) && OuterEmptied(d, d1, n, b, ob, m);
      BareSame(d1, d2, n, Outer(m));
    }
    hide Bare, OuterEmptied;
  }

  lemma BareSame(d1: Disk, d2: Disk, n: int, s: Slot)
    requires SameMap(d1, d2)
    ensures Bare(d1, n, s) <==> Bare(d2, n, s)
  {
  }

  lemma GaveBackSame(d: Disk, used: seq<bool>, d1: Disk, used1: seq<bool>, d2: Disk, n: int)
    requires Shrunk(d, d1, n) && GaveBack(d, used, d1, used1, n) && SameMap(d1, d2)
    ensures Shrunk(d, d2, n) && GaveBack(d, used, d2, used1, n)
  {
  }

  /** Bytes from `length` up to the end of the last block the file had are zero, and no other byte has changed. */
  ghost predicate CutBytes(d: Disk, d': Disk, n: int, length: int, ob: int) {
    forall n', p :: 0 <= p < MAXFILE * BSIZE ==>
      ByteAt(d', n', p) == if n' == n && length <= p < ob * BSIZE then 0 else ByteAt(d, n', p)
  }

  function Blanks(k: nat): (r: seq<Byte>)
    ensures |r| == k
  {
    seq(k, _ => 0)
  }

  /** The last block kept, if it is kept in part, has had its end cleared. */
  ghost predicate TailCleared(d: Disk, d': Disk, n: int, length: int) {
    var last, off := length / BSIZE, length % BSIZE;
    if off == 0 then SameBlocks(d, d')
    else |BlockAt(d, n, LeafOf(last))| == BSIZE
         && BlockSet(d, d', n, LeafOf(last), Splice(BlockAt(d, n, LeafOf(last)), off, Blanks(BSIZE - off)))
  }

  lemma HoleTail(d: Disk, n: int, length: int)
    requires 0 <= length < MAXFILE * BSIZE && At(d, n, LeafOf(length / BSIZE)) == 0
    ensures TailCleared(d, d, n, length)
  {
    var last, off := length / BSIZE, length % BSIZE;
    assert Splice(Zeros(), off, Blanks(BSIZE - off)) == Zeros();
  }

  lemma CutIsBytes(d: Disk, d1: Disk, d2: Disk, d3: Disk, n: int, length: int, ob: int)
    requires ZeroedFrom(d, d1, n, BlocksFor(length), ob) && TailCleared(d1, d2, n, length) && SameBlocks(d2, d3)
    requires 0 <= length < ob * BSIZE && ob <= MAXFILE
    ensures CutBytes(d, d3, n, length, ob)
  {
    forall n', p | 0 <= p < MAXFILE * BSIZE
      ensures ByteAt(d3, n', p) == if n' == n && length <= p < ob * BSIZE then 0 else ByteAt(d, n', p)
    {
      CutByte(d, d1, d2, d3, n, length, ob, n', p);
    }
  }

  lemma CutByte(d: Disk, d1: Disk, d2: Disk, d3: Disk, n: int, length: int, ob: int, n': int, p: int)
    requires ZeroedFrom(d, d1, n, BlocksFor(length), ob) && TailCleared(d1, d2, n, length) && SameBlocks(d2, d3)
    requires 0 <= length < ob * BSIZE && ob <= MAXFILE && 0 <= p < MAXFILE * BSIZE
    ensures ByteAt(d3, n', p) == if n' == n && length <= p < ob * BSIZE then 0 else ByteAt(d, n', p)
  {
    hide BlockAt;
    LeafIndex(p / BSIZE);
    LeafIndex(length / BSIZE);
  }

  // ---------- an inode wiped ----------

  function Blank(): Inode {
    Inode(0, 0, 0, seq(NDIRECT + 2, _ => 0))
  }

  function Wiped(d: Disk, n: int): Disk
    requires 0 <= n < |d.inodes|
  {
    d.(inodes := d.inodes[n := Blank()])
  }

  lemma WipedAt(d: Disk, n: int, n': int, t: Slot)
    requires 0 <= n < |d.inodes| && IsSlot(t)
    ensures At(Wiped(d, n), n', t) == if n' == n then 0 else At(d, n', t)
    decreases Rank(t)
  {
    if !t.Addr? { WipedAt(d, n, n', Up(t)); }
  }

  lemma WipeStep(d: Disk, used: seq<bool>, lo: int, hi: int, n: int)
    requires Sane(d, used, lo, hi) && 0 <= n < |d.inodes|
    ensures Sane(Wiped(d, n), used, lo, hi)
    ensures forall n', t :: IsSlot(t) ==> At(Wiped(d, n), n', t) == if n' == n then 0 else At(d, n', t)
  {
    hide Word;
    var d' := Wiped(d, n);
    forall n', t | IsSlot(t) ensures At(d', n', t) == if n' == n then 0 else At(d, n', t) { WipedAt(d, n, n', t); }
  }

  /** Wiping an inode loses track of a used block exactly when the inode still had one. */
  lemma WipeTight(d: Disk, used: seq<bool>, lo: int, hi: int, n: int)
    requires Sane(d, used, lo, hi) && 0 <= n < |d.inodes| && Tight(d, used, lo, hi)
    ensures Tight(Wiped(d, n), used, lo, hi) <==> forall t :: IsSlot(t) ==> At(d, n, t) == 0
  {
    hide Word;
    var d' := Wiped(d, n);
    WipeStep(d, used, lo, hi, n);
    if forall t :: IsSlot(t) ==> At(d, n, t) == 0 {
      TightSame(d, d', used, lo, hi);
    } else {
      var t :| IsSlot(t) && At(d, n, t) != 0;
      var b := At(d, n, t);
      assert lo <= b < hi && Bit(used, b);
      forall n' ensures !Owns(d', n', b) { }
    }
  }

  /** The blocks of an inode are all given back exactly when it was tidy. */
  lemma AllBack(d: Disk, used: seq<bool>, d': Disk, used': seq<bool>, n: int, lo: int, hi: int, ob: int)
    requires Emptied(d, d', n, 0, ob) && Shrunk(d, d', n) && GaveBack(d, used, d', used', n) && Marked(d', used', lo, hi)
    ensures (forall t :: IsSlot(t) ==> At(d', n, t) == 0) <==> Tidy(d, n, ob)
    ensures (forall t :: IsSlot(t) && At(d, n, t) != 0 ==> !Bit(used', At(d, n, t))) <==> Tidy(d, n, ob)
  {
    AllGone(d, d', n, ob);
    hide Tidy, Emptied;
    if !Tidy(d, n, ob) {
      var t :| IsSlot(t) && At(d', n, t) != 0;
      assert At(d, n, t) == At(d', n, t);
    }
  }

  /** In a file of no size, any block at all is untidy. */
  lemma UntidyEmpty(d: Disk, n: int, t: Slot)
    requires IsSlot(t) && At(d, n, t) != 0
    ensures !Tidy(d, n, 0)
  {
    if IsLeaf(t) { IndexLeaf(t); }
  }

  /** A slot filled since `d0`, where nothing used was unowned, was filled with a block that was not used then. */
  lemma WasUnused(d0: Disk, used0: seq<bool>, d: Disk, used: seq<bool>, lo: int, hi: int, n: int, t: Slot)
    requires Tight(d0, used0, lo, hi) && Apart(d) && Marked(d, used, lo, hi)
    requires forall m, t :: IsSlot(t) && At(d0, m, t) != 0 ==> At(d, m, t) == At(d0, m, t)
    requires IsSlot(t) && At(d0, n, t) == 0 && At(d, n, t) != 0
    ensures lo <= At(d, n, t) < hi && !Bit(used0, At(d, n, t))
  {
    assert Bit(used0, At(d, n, t)) ==> exists m :: Owns(d0, m, At(d, n, t));
  }

  // ---------- a tidy file stays tidy ----------

  /** Cut down to `nb` blocks, a tidy file of `ob` blocks is tidy. */
  lemma CutTidy(d: Disk, d': Disk, n: int, nb: int, ob: int)
    requires Emptied(d, d', n, nb, ob) && Shrunk(d, d', n) && Tidy(d, n, ob) && 0 <= nb <= ob
    ensures Tidy(d', n, nb)
  {
    CutLeaves(d, d', n, nb, ob);
    if At(d', n, Addr(NDIRECT)) != 0 { CutSingle(d, d', n, nb, ob); }
    forall m | 0 <= m < NINDIRECT && At(d', n, Outer(m)) != 0 ensures FirstUnder(m) < nb { CutOuter(d, d', n, nb, ob, m); }
    if At(d', n, Addr(NDIRECT + 1)) != 0 { CutDouble(d, d', n, nb, ob); }
  }

  lemma CutLeaves(d: Disk, d': Disk, n: int, nb: int, ob: int)
    requires Emptied(d, d', n, nb, ob) && Tidy(d, n, ob)
    ensures forall bi :: 0 <= bi < MAXFILE && At(d', n, LeafOf(bi)) != 0 ==> bi < nb
  {
    forall bi | 0 <= bi < MAXFILE && At(d', n, LeafOf(bi)) != 0 ensures bi < nb { LeafIndex(bi); }
  }

  lemma CutSingle(d: Disk, d': Disk, n: int, nb: int, ob: int)
    requires Emptied(d, d', n, nb, ob) && Shrunk(d, d', n) && Tidy(d, n, ob) && 0 <= nb <= ob && At(d', n, Addr(NDIRECT)) != 0
    ensures NDIRECT < nb
  {
    if Meets(nb, ob, NDIRECT, NDIRECT + NINDIRECT) {
      var t :| IsSlot(t) && !t.Addr? && Up(t) == Addr(NDIRECT) && At(d', n, t) != 0;
      CutLeaf(d, d', n, nb, ob, t);
    }
  }

  lemma CutLeaf(d: Disk, d': Disk, n: int, nb: int, ob: int, t: Slot)
    requires Emptied(d, d', n, nb, ob) && Tidy(d, n, ob) && IsSlot(t) && IsLeaf(t) && At(d', n, t) != 0
    ensures IndexOf(t) < nb
  {
    CutLeaves(d, d', n, nb, ob);
    IndexLeaf(t);
  }

  lemma CutOuter(d: Disk, d': Disk, n: int, nb: int, ob: int, m: int)
    requires Emptied(d, d', n, nb, ob) && Shrunk(d, d', n) && Tidy(d, n, ob) && 0 <= nb <= ob && 0 <= m < NINDIRECT && At(d', n, Outer(m)) != 0
    ensures FirstUnder(m) < nb
  {
    assert OuterEmptied(d, d', n, nb, ob, m);
    assert At(d, n, Outer(m)) != 0 by { assert IsSlot(Outer(m)); }
    if Meets(nb, ob, FirstUnder(m), FirstUnder(m) + NINDIRECT) {
      var t :| IsSlot(t) && !t.Addr? && Up(t) == Outer(m) && At(d', n, t) != 0;
      CutLeaf(d, d', n, nb, ob, t);
    }
  }

  lemma CutDouble(d: Disk, d': Disk, n: int, nb: int, ob: int)
    requires Emptied(d, d', n, nb, ob) && Shrunk(d, d', n) && Tidy(d, n, ob) && At(d', n, Addr(NDIRECT + 1)) != 0
    ensures exists m :: 0 <= m < NINDIRECT && At(d', n, Outer(m)) != 0
  {
    if exists m :: 0 <= m < NINDIRECT && Dropped(d, d', n, m) {
      var t :| IsSlot(t) && !t.Addr? && Up(t) == Addr(NDIRECT + 1) && At(d', n, t) != 0;
      assert At(d', n, Outer(t.o)) != 0;
    } else {
      var m :| 0 <= m < NINDIRECT && At(d, n, Outer(m)) != 0;
      assert !Dropped(d, d', n, m);
    }
  }
}
