/** The block map of an inode (utils/xv6fuse.c): eleven direct addresses, a block of addresses, and a
    block of blocks of addresses. Addresses are little-endian words in the blocks of the image. */
module InodeMap {
  import opened Basics
  import opened BlockCache

  const NDIRECT := 11
  const NINDIRECT := 256
  const MAXFILE := NDIRECT + NINDIRECT + NINDIRECT * NINDIRECT
  const WORD := 0x1_0000_0000

  // ---------- a block read as words ----------

  function Word(b: Block, i: int): (r: int)
    requires |b| == BSIZE && 0 <= i < NINDIRECT
    ensures 0 <= r < WORD
  {
    var b0: int, b1: int, b2: int, b3: int := b[4 * i], b[4 * i + 1], b[4 * i + 2], b[4 * i + 3];
    b0 + 256 * b1 + 65536 * b2 + 16777216 * b3
  }

  function SetWord(b: Block, i: int, v: int): (r: Block)
    requires |b| == BSIZE && 0 <= i < NINDIRECT && 0 <= v < WORD
    ensures |r| == BSIZE
  {
    b[4 * i := v % 256][4 * i + 1 := v / 256 % 256][4 * i + 2 := v / 65536 % 256][4 * i + 3 := v / 16777216]
  }

  lemma Digits(v: int)
    requires 0 <= v < WORD
    ensures 0 <= v / 16777216 < 256
    ensures v == v % 256 + 256 * (v / 256 % 256) + 65536 * (v / 65536 % 256) + 16777216 * (v / 16777216)
  {
    var a := v / 256;
    var b := a / 256;
    assert v == v % 256 + 256 * a && a == a % 256 + 256 * b && b == b % 256 + 256 * (b / 256);
    assert b == v / 65536 && b / 256 == v / 16777216;
  }

  lemma WordSet(b: Block, i: int, v: int, j: int)
    requires |b| == BSIZE && 0 <= i < NINDIRECT && 0 <= j < NINDIRECT && 0 <= v < WORD
    ensures Word(SetWord(b, i, v), j) == if i == j then v else Word(b, j)
    ensures v < 256 ==> SetWord(b, i, v)[4 * i] == v
  {
    Digits(v);
  }

  lemma ZeroWord(i: int)
    requires 0 <= i < NINDIRECT
    ensures Word(Zeros(), i) == 0
  {
  }

  predicate BufferIsZero(b: Block)
  {
    forall k :: 0 <= k < |b| ==> b[k] == 0
  }

  /** buffer_is_zero asked of a block of addresses: it holds exactly when every address is 0. */
  lemma ZeroBuffer(b: Block)
    requires |b| == BSIZE
    ensures BufferIsZero(b) <==> forall i :: 0 <= i < NINDIRECT ==> Word(b, i) == 0
  {
    if forall i :: 0 <= i < NINDIRECT ==> Word(b, i) == 0 {
      forall k | 0 <= k < |b| ensures b[k] == 0 {
        assert Word(b, k / 4) == 0;
        assert k == 4 * (k / 4) || k == 4 * (k / 4) + 1 || k == 4 * (k / 4) + 2 || k == 4 * (k / 4) + 3;
      }
    }
  }

  // ---------- inodes and their slots ----------

  datatype Inode = Inode(kind: int, nlink: int, size: int, addrs: seq<int>)

  datatype Disk = Disk(inodes: seq<Inode>, data: seq<Block>)

  /** A place that holds an address: in the inode, in its block of addresses, in its block of blocks, or
      in one of those. */
  datatype Slot = Addr(k: int) | Single(i: int) | Outer(o: int) | Inner(m: int, j: int)

  predicate IsSlot(s: Slot) {
    match s
    case Addr(k) => 0 <= k < NDIRECT + 2
    case Single(i) => 0 <= i < NINDIRECT
    case Outer(o) => 0 <= o < NINDIRECT
    case Inner(m, j) => 0 <= m < NINDIRECT && 0 <= j < NINDIRECT
  }

  /** The slot whose address leads to the block this slot is in. */
  function Up(s: Slot): Slot {
    match s
    case Addr(_) => s
    case Single(_) => Addr(NDIRECT)
    case Outer(_) => Addr(NDIRECT + 1)
    case Inner(m, _) => Outer(m)
  }

  /** The place of a slot in that block. */
  function Pos(s: Slot): int {
    match s
    case Addr(k) => k
    case Single(i) => i
    case Outer(o) => o
    case Inner(_, j) => j
  }

  function Rank(s: Slot): nat {
    match s
    case Addr(_) => 0
    case Inner(_, _) => 2
    case _ => 1
  }

  /** Slots whose address is that of a data block; the others lead to blocks of addresses. */
  predicate IsLeaf(s: Slot) {
    (s.Addr? && s.k < NDIRECT) || s.Single? || s.Inner?
  }

  /** Thirteen addresses an inode, 1024 bytes a block, and no more blocks than an address can name. */
  ghost predicate Shaped(d: Disk) {
    && (forall n :: 0 <= n < |d.inodes| ==> |d.inodes[n].addrs| == NDIRECT + 2)
    && (forall b :: 0 <= b < |d.data| ==> |d.data[b]| == BSIZE)
    && |d.data| <= WORD
  }

  function Entry(data: seq<Block>, b: int, i: int): int {
    if 0 < b < |data| && |data[b]| == BSIZE && 0 <= i < NINDIRECT then Word(data[b], i) else 0
  }

  /** The address in slot `s` of inode `n`; 0 is no address. */
  function At(d: Disk, n: int, s: Slot): int
    decreases Rank(s)
  {
    if !s.Addr? then Entry(d.data, At(d, n, Up(s)), Pos(s))
    else if 0 <= n < |d.inodes| && 0 <= s.k < |d.inodes[n].addrs| then d.inodes[n].addrs[s.k]
    else 0
  }

  /** No two slots hold the same address. */
  ghost predicate Apart(d: Disk) {
    forall n, s, n', s' :: IsSlot(s) && IsSlot(s') && At(d, n, s) == At(d, n', s') != 0 ==> n == n' && s == s'
  }

  predicate Bit(used: seq<bool>, b: int) {
    0 <= b < |used| && used[b]
  }

  /** Every address is that of a data block whose bit is set. */
  ghost predicate Marked(d: Disk, used: seq<bool>, lo: int, hi: int) {
    forall n, s :: IsSlot(s) && At(d, n, s) != 0 ==> lo <= At(d, n, s) < hi && Bit(used, At(d, n, s))
  }

  /** Block `b` hangs off inode `n`. */
  ghost predicate Owns(d: Disk, n: int, b: int) {
    exists s :: IsSlot(s) && At(d, n, s) == b
  }

  /** Every data block whose bit is set hangs off some inode. */
  ghost predicate Tight(d: Disk, used: seq<bool>, lo: int, hi: int) {
    forall b :: lo <= b < hi && Bit(used, b) ==> exists n :: Owns(d, n, b)
  }

  // ---------- one slot changes ----------

  function Put(d: Disk, n: int, s: Slot, v: int): Disk
    requires Shaped(d) && 0 <= n < |d.inodes| && IsSlot(s) && 0 <= v < WORD
    requires s.Addr? || 0 < At(d, n, Up(s)) < |d.data|
  {
    if s.Addr? then
      d.(inodes := d.inodes[n := d.inodes[n].(addrs := d.inodes[n].addrs[s.k := v])])
    else
      var h := At(d, n, Up(s));
      d.(data := d.data[h := SetWord(d.data[h], Pos(s), v)])
  }

  /** Every slot below `s` is empty. */
  ghost predicate Bare(d: Disk, n: int, s: Slot) {
    forall t :: IsSlot(t) && !t.Addr? && Up(t) == s ==> At(d, n, t) == 0
  }

  /** The maps differ in slot `s` of inode `n` alone, which now has `v`. */
  ghost predicate SlotSet(d: Disk, d': Disk, n: int, s: Slot, v: int) {
    forall n', t :: IsSlot(t) ==> At(d', n', t) == if n' == n && t == s then v else At(d, n', t)
  }

  ghost predicate SameMap(d: Disk, d': Disk) {
    forall n, t :: IsSlot(t) ==> At(d', n, t) == At(d, n, t)
  }

  lemma SamePlace(s: Slot, t: Slot)
    requires !s.Addr? && !t.Addr? && Up(s) == Up(t) && Pos(s) == Pos(t)
    ensures s == t
  {
  }

  ghost predicate Unowned(d: Disk, b: int) {
    forall n, t :: IsSlot(t) ==> At(d, n, t) != b
  }

  lemma OneSlot(d: Disk, n: int, s: Slot, n': int, t: Slot)
    requires Apart(d) && IsSlot(s) && IsSlot(t) && At(d, n, s) == At(d, n', t) != 0
    ensures n == n' && s == t
  {
  }

  lemma BareBelow(d: Disk, n: int, s: Slot, t: Slot)
    requires Bare(d, n, s) && IsSlot(t) && !t.Addr? && Up(t) == s
    ensures At(d, n, t) == 0
  {
  }

  /** The slot `s` of inode `n` may be set to `v`: it leads to no addresses, and `v` is 0 or a clear block
      that no slot has. */
  ghost predicate Settable(d: Disk, n: int, s: Slot, v: int) {
    && Shaped(d) && Apart(d) && 0 <= n < |d.inodes| && IsSlot(s) && 0 <= v < |d.data|
    && (s.Addr? || 0 < At(d, n, Up(s)) < |d.data|)
    && Bare(d, n, s)
    && (v != 0 ==> d.data[v] == Zeros() && Unowned(d, v))
  }

  lemma PutOne(d: Disk, n: int, s: Slot, v: int, n': int, t: Slot)
    requires Settable(d, n, s, v) && IsSlot(t)
    ensures At(Put(d, n, s, v), n', t) == if n' == n && t == s then v else At(d, n', t)
    decreases Rank(t)
  {
    hide Word, SetWord, Zeros, Apart, Bare;
    if !t.Addr? {
      var h := At(d, n', Up(t));
      PutOne(d, n, s, v, n', Up(t));
      if n' == n && Up(t) == s {
        BareBelow(d, n, s, t);
        if v != 0 { ZeroWord(Pos(t)); }
      } else if !s.Addr? && h == At(d, n, Up(s)) {
        OneSlot(d, n', Up(t), n, Up(s));
        WordSet(d.data[h], Pos(s), v, Pos(t));
        if Pos(s) == Pos(t) { SamePlace(s, t); }
      }
    }
  }

  /** Then nothing else in any map changes. */
  lemma PutSets(d: Disk, n: int, s: Slot, v: int)
    requires Settable(d, n, s, v)
    ensures Shaped(Put(d, n, s, v)) && SlotSet(d, Put(d, n, s, v), n, s, v)
  {
    hide Word, SetWord, Zeros, Apart, Bare;
    forall n', t | IsSlot(t) ensures At(Put(d, n, s, v), n', t) == if n' == n && t == s then v else At(d, n', t) {
      PutOne(d, n, s, v, n', t);
    }
  }

  /** Writing a block that no slot leads through changes no map. */
  lemma PokeOne(d: Disk, b: int, blk: Block, n: int, t: Slot)
    requires Shaped(d) && 0 <= b < |d.data| && |blk| == BSIZE && IsSlot(t)
    requires forall n, t :: IsSlot(t) && !IsLeaf(t) ==> At(d, n, t) != b || b == 0
    ensures At(d.(data := d.data[b := blk]), n, t) == At(d, n, t)
    decreases Rank(t)
  {
    if !t.Addr? {
      PokeOne(d, b, blk, n, Up(t));
      assert !IsLeaf(Up(t)) && IsSlot(Up(t));
    }
  }

  lemma PokeSame(d: Disk, b: int, blk: Block)
    requires Shaped(d) && 0 <= b < |d.data| && |blk| == BSIZE
    requires forall n, t :: IsSlot(t) && !IsLeaf(t) ==> At(d, n, t) != b || b == 0
    ensures Shaped(d.(data := d.data[b := blk])) && SameMap(d, d.(data := d.data[b := blk]))
  {
    forall n, t | IsSlot(t) ensures At(d.(data := d.data[b := blk]), n, t) == At(d, n, t) {
      PokeOne(d, b, blk, n, t);
    }
  }

  // ---------- the blocks of a file ----------

  /** The slot with the address of block `bi` of a file. */
  function LeafOf(bi: int): Slot {
    if bi < NDIRECT then Addr(bi)
    else if bi < NDIRECT + NINDIRECT then Single(bi - NDIRECT)
    else Inner((bi - NDIRECT - NINDIRECT) / NINDIRECT, (bi - NDIRECT - NINDIRECT) % NINDIRECT)
  }

  function IndexOf(s: Slot): int {
    match s
    case Addr(k) => k
    case Single(i) => NDIRECT + i
    case Outer(_) => -1
    case Inner(m, j) => NDIRECT + NINDIRECT + NINDIRECT * m + j
  }

  /** The blocks of a file and the slots for data blocks correspond one to one. */
  lemma LeafIndex(bi: int)
    requires 0 <= bi < MAXFILE
    ensures IsSlot(LeafOf(bi)) && IsLeaf(LeafOf(bi)) && IndexOf(LeafOf(bi)) == bi
  {
  }

  lemma IndexLeaf(s: Slot)
    requires IsSlot(s) && IsLeaf(s)
    ensures 0 <= IndexOf(s) < MAXFILE && LeafOf(IndexOf(s)) == s
  {
    if s.Inner? {
      assert (NINDIRECT * s.m + s.j) / NINDIRECT == s.m;
      assert (NINDIRECT * s.m + s.j) % NINDIRECT == s.j;
    }
  }

  /** What slot `s` leads to; an empty slot stands for a block of zeros. */
  function BlockAt(d: Disk, n: int, s: Slot): Block {
    var a := At(d, n, s);
    if 0 < a < |d.data| then d.data[a] else Zeros()
  }

  /** The files hold the same blocks but for the one slot `s` of inode `n`, which now leads to `blk`. */
  ghost predicate BlockSet(d: Disk, d': Disk, n: int, s: Slot, blk: Block) {
    forall n', t :: IsSlot(t) && IsLeaf(t) ==> BlockAt(d', n', t) == if n' == n && t == s then blk else BlockAt(d, n', t)
  }

  ghost predicate SameBlocks(d: Disk, d': Disk) {
    forall n, t :: IsSlot(t) && IsLeaf(t) ==> BlockAt(d', n, t) == BlockAt(d, n, t)
  }

  // ---------- the invariant and the steps that keep it ----------

  ghost predicate Sized(d: Disk) {
    forall n :: 0 <= n < |d.inodes| ==> 0 <= d.inodes[n].size <= MAXFILE * BSIZE
  }

  /** Slots hold distinct data blocks, each marked used. */
  ghost predicate Sane(d: Disk, used: seq<bool>, lo: int, hi: int) {
    && Shaped(d) && Sized(d) && Apart(d) && Marked(d, used, lo, hi)
    && 0 < lo <= hi <= |used| && hi <= |d.data|
  }

  function Cleared(d: Disk, b: int): Disk
    requires 0 <= b < |d.data|
  {
    d.(data := d.data[b := Zeros()])
  }

  lemma UnusedUnowned(d: Disk, used: seq<bool>, lo: int, hi: int, b: int)
    requires Sane(d, used, lo, hi) && lo <= b < hi && !Bit(used, b)
    ensures Unowned(d, b)
  {
  }

  /** Clearing a block no slot has changes no map and no file. */
  lemma ClearUnowned(d: Disk, b: int)
    requires Shaped(d) && 0 <= b < |d.data| && Unowned(d, b)
    ensures Shaped(Cleared(d, b)) && SameMap(d, Cleared(d, b)) && SameBlocks(d, Cleared(d, b))
  {
    hide Zeros;
    PokeSame(d, b, Zeros());
  }

  lemma ApartSet(d: Disk, d': Disk, n: int, s: Slot, v: int)
    requires Apart(d) && SlotSet(d, d', n, s, v) && (v == 0 || Unowned(d, v))
    ensures Apart(d')
  {
  }

  lemma MarkedSet(d: Disk, d': Disk, used: seq<bool>, lo: int, hi: int, n: int, s: Slot, v: int)
    requires Marked(d, used, lo, hi) && SlotSet(d, d', n, s, v) && 0 < lo <= v < hi <= |used|
    ensures Marked(d', used[v := true], lo, hi)
  {
  }

  lemma TightSet(d: Disk, d': Disk, used: seq<bool>, lo: int, hi: int, n: int, s: Slot, v: int)
    requires Tight(d, used, lo, hi) && SlotSet(d, d', n, s, v) && IsSlot(s) && At(d, n, s) == 0 && 0 < lo <= v < hi <= |used|
    ensures Tight(d', used[v := true], lo, hi)
  {
    var used' := used[v := true];
    forall b | lo <= b < hi && Bit(used', b) ensures exists n :: Owns(d', n, b) {
      if b == v {
        assert At(d', n, s) == v;
        assert Owns(d', n, b);
      } else {
        assert Bit(used, b);
        var n' :| Owns(d, n', b);
        var t :| IsSlot(t) && At(d, n', t) == b;
        assert At(d', n', t) == b;
        assert Owns(d', n', b);
      }
    }
  }

  lemma TightDrop(d: Disk, d': Disk, used: seq<bool>, lo: int, hi: int, n: int, s: Slot)
    requires Tight(d, used, lo, hi) && SlotSet(d, d', n, s, 0) && 0 < lo <= At(d, n, s) < hi <= |used|
    ensures Tight(d', used[At(d, n, s) := false], lo, hi)
  {
    var used' := used[At(d, n, s) := false];
    forall b | lo <= b < hi && Bit(used', b) ensures exists n :: Owns(d', n, b) {
      assert Bit(used, b);
      var n' :| Owns(d, n', b);
      var t :| IsSlot(t) && At(d, n', t) == b;
      assert At(d', n', t) == b;
      assert Owns(d', n', b);
    }
  }

  lemma TightSame(d: Disk, d': Disk, used: seq<bool>, lo: int, hi: int)
    requires Tight(d, used, lo, hi) && SameMap(d, d')
    ensures Tight(d', used, lo, hi)
  {
    forall b | lo <= b < hi && Bit(used, b) ensures exists n :: Owns(d', n, b) {
      var n :| Owns(d, n, b);
      var t :| IsSlot(t) && At(d, n, t) == b;
      assert At(d', n, t) == b;
      assert Owns(d', n, b);
    }
  }

  lemma MarkedDrop(d: Disk, d': Disk, used: seq<bool>, lo: int, hi: int, n: int, s: Slot)
    requires Marked(d, used, lo, hi) && Apart(d) && SlotSet(d, d', n, s, 0) && IsSlot(s) && 0 < lo <= At(d, n, s) < hi <= |used|
    ensures Marked(d', used[At(d, n, s) := false], lo, hi)
  {
  }

  lemma DropUnowned(d: Disk, d': Disk, n: int, s: Slot)
    requires Apart(d) && SlotSet(d, d', n, s, 0) && IsSlot(s) && At(d, n, s) != 0
    ensures Unowned(d', At(d, n, s))
  {
  }

  /** Setting a slot leaves every other file block alone. */
  lemma PutBlocks(d: Disk, n: int, s: Slot, v: int)
    requires Settable(d, n, s, v) && (v == 0 || At(d, n, s) == 0)
    ensures BlockSet(d, Put(d, n, s, v), n, s, Zeros())
  {
    hide Word, SetWord, Zeros, Apart, Bare;
    var d' := Put(d, n, s, v);
    PutSets(d, n, s, v);
    forall n', t | IsSlot(t) && IsLeaf(t)
      ensures BlockAt(d', n', t) == if n' == n && t == s then Zeros() else BlockAt(d, n', t)
    {
      if !s.Addr? && At(d, n', t) == At(d, n, Up(s)) { OneSlot(d, n', t, n, Up(s)); }
    }
  }

  /** A free block, cleared and put in an empty slot. */
  function Filled(d: Disk, n: int, s: Slot, v: int): Disk
    requires Shaped(d) && 0 <= n < |d.inodes| && IsSlot(s) && 0 <= v < |d.data| && (s.Addr? || 0 < At(Cleared(d, v), n, Up(s)) < |d.data|)
  {
    Put(Cleared(d, v), n, s, v)
  }

  lemma FillSettable(d: Disk, used: seq<bool>, lo: int, hi: int, n: int, s: Slot, v: int)
    requires Sane(d, used, lo, hi) && 0 <= n < |d.inodes| && IsSlot(s) && (s.Addr? || At(d, n, Up(s)) != 0)
    requires At(d, n, s) == 0 && lo <= v < hi && !Bit(used, v)
    ensures Settable(Cleared(d, v), n, s, v) && SameMap(d, Cleared(d, v)) && SameBlocks(d, Cleared(d, v))
  {
    UnusedUnowned(d, used, lo, hi, v);
    ClearUnowned(d, v);
    var d' := Cleared(d, v);
    if !s.Addr? { assert At(d', n, Up(s)) == At(d, n, Up(s)); }
    forall t | IsSlot(t) && !t.Addr? && Up(t) == s ensures At(d', n, t) == 0 {
      assert At(d, n, t) == 0;
    }
  }

  lemma FillStep(d: Disk, used: seq<bool>, lo: int, hi: int, n: int, s: Slot, v: int)
    requires Sane(d, used, lo, hi) && 0 <= n < |d.inodes| && IsSlot(s) && (s.Addr? || At(d, n, Up(s)) != 0)
    requires At(d, n, s) == 0 && lo <= v < hi && !Bit(used, v)
    ensures Settable(Cleared(d, v), n, s, v) && At(Cleared(d, v), n, Up(s)) == At(d, n, Up(s))
    ensures Sane(Filled(d, n, s, v), used[v := true], lo, hi)
    ensures SlotSet(d, Filled(d, n, s, v), n, s, v) && SameBlocks(d, Filled(d, n, s, v))
    ensures Tight(d, used, lo, hi) ==> Tight(Filled(d, n, s, v), used[v := true], lo, hi)
  {
    hide Word, SetWord, Zeros;
    var e, d' := Cleared(d, v), Filled(d, n, s, v);
    FillSettable(d, used, lo, hi, n, s, v);
    PutSets(e, n, s, v);
    PutBlocks(e, n, s, v);
    UnusedUnowned(d, used, lo, hi, v);
    ApartSet(d, d', n, s, v);
    MarkedSet(d, d', used, lo, hi, n, s, v);
    if Tight(d, used, lo, hi) { TightSet(d, d', used, lo, hi, n, s, v); }
  }

  lemma DropStep(d: Disk, used: seq<bool>, lo: int, hi: int, n: int, s: Slot, a: int)
    requires Sane(d, used, lo, hi) && 0 <= n < |d.inodes| && IsSlot(s) && At(d, n, s) == a != 0 && Bare(d, n, s)
    ensures Settable(d, n, s, 0) && lo <= a < hi && Bit(used, a)
    ensures Sane(Cleared(Put(d, n, s, 0), a), used[a := false], lo, hi)
    ensures SlotSet(d, Cleared(Put(d, n, s, 0), a), n, s, 0) && BlockSet(d, Cleared(Put(d, n, s, 0), a), n, s, Zeros())
    ensures Tight(d, used, lo, hi) ==> Tight(Cleared(Put(d, n, s, 0), a), used[a := false], lo, hi)
  {
    hide Word, SetWord, Zeros, Bare;
    assert s.Addr? || At(d, n, Up(s)) != 0;
    var e := Put(d, n, s, 0);
    var d' := Cleared(e, a);
    PutSets(d, n, s, 0);
    PutBlocks(d, n, s, 0);
    DropUnowned(d, e, n, s);
    ClearUnowned(e, a);
    ApartSet(d, d', n, s, 0);
    MarkedDrop(d, d', used, lo, hi, n, s);
    if Tight(d, used, lo, hi) { TightDrop(d, d', used, lo, hi, n, s); }
  }

  lemma LeafOnly(d: Disk, n: int, s: Slot, a: int)
    requires Apart(d) && IsSlot(s) && IsLeaf(s) && At(d, n, s) == a != 0
    ensures forall m, t :: IsSlot(t) && !IsLeaf(t) ==> At(d, m, t) != a
  {
  }

  lemma PokeBlocks(d: Disk, n: int, s: Slot, a: int, blk: Block)
    requires Apart(d) && IsSlot(s) && At(d, n, s) == a && 0 < a < |d.data| && SameMap(d, d.(data := d.data[a := blk]))
    ensures BlockSet(d, d.(data := d.data[a := blk]), n, s, blk)
  {
    hide Zeros, Word;
    var d' := d.(data := d.data[a := blk]);
    forall m, t | IsSlot(t) && IsLeaf(t) ensures BlockAt(d', m, t) == if m == n && t == s then blk else BlockAt(d, m, t) {
      if At(d, m, t) == a { OneSlot(d, m, t, n, s); }
    }
  }

  lemma PokeApart(d: Disk, d': Disk)
    requires Apart(d) && SameMap(d, d')
    ensures Apart(d')
  {
  }

  lemma PokeMarked(d: Disk, d': Disk, used: seq<bool>, lo: int, hi: int)
    requires Marked(d, used, lo, hi) && SameMap(d, d')
    ensures Marked(d', used, lo, hi)
  {
  }

  lemma PokeStep(d: Disk, used: seq<bool>, lo: int, hi: int, n: int, s: Slot, a: int, blk: Block)
    requires Sane(d, used, lo, hi) && IsSlot(s) && IsLeaf(s) && At(d, n, s) == a != 0 && |blk| == BSIZE
    ensures 0 < a < |d.data| && Sane(d.(data := d.data[a := blk]), used, lo, hi)
    ensures SameMap(d, d.(data := d.data[a := blk])) && BlockSet(d, d.(data := d.data[a := blk]), n, s, blk)
    ensures Tight(d, used, lo, hi) ==> Tight(d.(data := d.data[a := blk]), used, lo, hi)
  {
    hide Word, SetWord, Zeros, Apart;
    LeafOnly(d, n, s, a);
    var d' := d.(data := d.data[a := blk]);
    PokeSame(d, a, blk);
    PokeBlocks(d, n, s, a, blk);
    PokeApart(d, d');
    hide BlockSet, SameMap, Marked;
    assert Marked(d', used, lo, hi) by { PokeMarked(d, d', used, lo, hi); }
    if Tight(d, used, lo, hi) { TightSame(d, d', used, lo, hi); }
  }

  lemma SizeStep(d: Disk, used: seq<bool>, lo: int, hi: int, n: int, size: int)
    requires Sane(d, used, lo, hi) && 0 <= n < |d.inodes| && 0 <= size <= MAXFILE * BSIZE
    ensures Sane(d.(inodes := d.inodes[n := d.inodes[n].(size := size)]), used, lo, hi)
    ensures SameMap(d, d.(inodes := d.inodes[n := d.inodes[n].(size := size)]))
    ensures SameBlocks(d, d.(inodes := d.inodes[n := d.inodes[n].(size := size)]))
    ensures Tight(d, used, lo, hi) ==> Tight(d.(inodes := d.inodes[n := d.inodes[n].(size := size)]), used, lo, hi)
  {
    hide Word, SetWord, Zeros;
    var d' := d.(inodes := d.inodes[n := d.inodes[n].(size := size)]);
    forall n', t | IsSlot(t) ensures At(d', n', t) == At(d, n', t) { ResizedAt(d, d', n', t); }
    if Tight(d, used, lo, hi) { TightSame(d, d', used, lo, hi); }
  }

  lemma ResizedAt(d: Disk, d': Disk, n: int, t: Slot)
    requires d'.data == d.data && |d'.inodes| == |d.inodes|
    requires forall n :: 0 <= n < |d.inodes| ==> d'.inodes[n].addrs == d.inodes[n].addrs
    ensures At(d', n, t) == At(d, n, t)
    decreases Rank(t)
  {
    if !t.Addr? { ResizedAt(d, d', n, Up(t)); }
  }
}
