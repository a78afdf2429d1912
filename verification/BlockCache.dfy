/** The free-extent index of utils/xv6fuse.c, held in a red-black tree keyed by an extent's first block,
    and the block allocator that keeps it in step with the on-disk bitmap. */
module BlockCache {
  import opened Basics
  import opened RbLinks
  import opened RbTree
  import opened Extents
  import opened Outcomes

  type Block = seq<Byte>

  function Zeros(): (r: Block)
    ensures |r| == BSIZE
  {
    seq(BSIZE, _ => 0)
  }

  /** Bits in a block. */
  const BPB := 8192

  /** bitmap_block_count */
  function BitmapBlocks(nblocks: int): int {
    (nblocks + BPB - 1) / BPB
  }

  /** BBLOCK */
  function BblockAt(bmapstart: int, b: int): int {
    bmapstart + b / BPB
  }

  /** data_start_block goes by the number of data blocks, though the bits are numbered from block 0: every data block has its
      bit in a bitmap block exactly if the data blocks end within the bits there are. */
  lemma BitsFit(bmapstart: int, nblocks: int)
    requires 0 <= bmapstart && 0 < nblocks
    ensures var start := bmapstart + BitmapBlocks(nblocks);
            (forall b :: start <= b < start + nblocks ==> BblockAt(bmapstart, b) < start) <==> start + nblocks <= BPB * BitmapBlocks(nblocks)
  {
    var n := BitmapBlocks(nblocks);
    var start := bmapstart + n;
    if start + nblocks <= BPB * n {
      forall b | start <= b < start + nblocks ensures BblockAt(bmapstart, b) < start { Quotient(b, n); }
    } else {
      var last := start + nblocks - 1;
      Quotient(last, n);
      assert !(BblockAt(bmapstart, last) < start);
    }
  }

  lemma Quotient(b: int, n: int)
    requires 0 <= b
    ensures b / BPB < n <==> b < BPB * n
  {
  }

  /** An image made by mkfs, with `nmeta` blocks before the data and size / BPB + 1 bitmap blocks among them: the two programs
      agree on where the data begins exactly if the last bitmap block has bits for more blocks than `nmeta`, and then every
      data block has its bit. */
  lemma MkfsFits(size: int, nmeta: int)
    requires 0 < nmeta < BPB && nmeta < size
    ensures BitmapBlocks(size - nmeta) == size / BPB + 1 <==> nmeta < size % BPB
    ensures nmeta < size % BPB ==> size <= BPB * BitmapBlocks(size - nmeta)
  {
  }

  /** As it is for the image mkfs makes: 200000 blocks, the first 280 of them not data. */
  lemma DefaultImage()
    ensures 280 == 2 + 240 + (200 / 16 + 1) + (200000 / BPB + 1)
    ensures BitmapBlocks(200000 - 280) == 200000 / BPB + 1 && 200000 <= BPB * BitmapBlocks(200000 - 280)
  {
    MkfsFits(200000, 280);
  }

  /** Bit `i` of a byte. */
  predicate ByteBit(x: int, i: nat)
    decreases i
  {
    if i == 0 then x % 2 == 1 else ByteBit(x / 2, i - 1)
  }

  function ByteClear(x: int, i: nat): (r: int)
    requires 0 <= x && ByteBit(x, i)
    ensures 0 <= r < x && !ByteBit(r, i)
    decreases i
  {
    if i == 0 then x - 1 else 2 * ByteClear(x / 2, i - 1) + x % 2
  }

  /** Clearing a bit changes no other. */
  lemma {:induction false} ByteClearOnly(x: int, i: nat, j: nat)
    requires 0 <= x && ByteBit(x, i) && i != j
    ensures ByteBit(ByteClear(x, i), j) == ByteBit(x, j)
    decreases i
  {
    if i > 0 && j > 0 { ByteClearOnly(x / 2, i - 1, j - 1); }
  }

  /** Bit `i` of a block taken as a block of bits. */
  predicate BitIn(b: Block, i: int)
    requires |b| == BSIZE && 0 <= i < BPB
  {
    ByteBit(b[i / 8], i % 8)
  }

  /** A block with one of its bits, which was set, cleared. */
  function ClearBit(b: Block, i: int): (r: Block)
    requires |b| == BSIZE && 0 <= i < BPB && BitIn(b, i)
    ensures |r| == BSIZE && !BitIn(r, i)
  {
    b[i / 8 := ByteClear(b[i / 8], i % 8)]
  }

  lemma ClearBitOnly(b: Block, i: int, j: int)
    requires |b| == BSIZE && 0 <= i < BPB && BitIn(b, i) && 0 <= j < BPB && j != i
    ensures BitIn(ClearBit(b, i), j) == BitIn(b, j)
  {
    if j / 8 == i / 8 { ByteClearOnly(b[i / 8], i % 8, j % 8); }
  }

  /** extent_keys_cmp */
  function KeysCmp(k1: int, k2: int): int {
    if k1 < k2 then -1 else if k1 > k2 then 1 else 0
  }

  lemma KeysCmpLawful()
    ensures Lawful(KeysCmp)
  {
  }

  /** The nodes are the extents of `m`, start and length. */
  ghost predicate Holds(nodes: set<Node>, m: Ext)
    reads nodes`key, nodes`data
  {
    && (forall n :: n in nodes ==> n.key in m && m[n.key] == n.data)
    && (forall k :: k in m ==> exists n :: n in nodes && n.key == k)
    && (forall n, n' :: n in nodes && n' in nodes && n.key == n'.key ==> n == n')
  }

  lemma Pick<T>(s: set<T>) returns (x: T)
    requires s != {}
    ensures x in s
  {
    x :| x in s;
  }

  lemma EmptyIndex(nodes: set<Node>, base: int)
    requires nodes == {}
    ensures Wf(map[], base) && Covers(map[], {}) && Holds(nodes, map[])
  {
  }

  /** The blocks from `start` on whose bit is clear. */
  ghost function ClearIn(used: seq<bool>, start: int, count: int): set<int> {
    set b | b in Run(start, start + count) && 0 <= b < |used| && !used[b]
  }

  /** Clearing the bit of a used block frees it, if it is a data block. */
  lemma ClearMore(used: seq<bool>, start: int, count: int, b: int)
    requires 0 <= b < |used| && used[b] && 0 <= start
    ensures b !in ClearIn(used, start, count)
    ensures ClearIn(used[b := false], start, count) == ClearIn(used, start, count) + if start <= b < start + count then {b} else {}
    ensures ClearIn(used, start, count) <= Run(start, start + count)
    ensures b in Run(start, start + count) <==> start <= b < start + count
  {
  }

  lemma PastData(used: seq<bool>, start: int, count: int, b: int)
    requires start + count <= b
    ensures b !in ClearIn(used, start, count) && b !in Run(start, start + count)
  {
  }

  lemma ClearLess(used: seq<bool>, start: int, count: int, b: int)
    requires b in ClearIn(used, start, count)
    ensures 0 <= b < |used| && !used[b] && start <= b < start + count
    ensures ClearIn(used[b := true], start, count) == ClearIn(used, start, count) - {b}
  {
  }

  lemma InRun(b: int, lo: int, hi: int)
    ensures b in Run(lo, hi) <==> lo <= b < hi
  {
  }

  lemma AllData(used: seq<bool>, start: int, count: int)
    ensures forall x :: x in ClearIn(used, start, count) ==> start <= x < start + count
  {
  }

  lemma OutOfData(used: seq<bool>, start: int, count: int)
    requires forall x :: x in ClearIn(used, start, count) ==> start + count <= x
    ensures ClearIn(used, start, count) == {}
  {
    if ClearIn(used, start, count) != {} {
      var x := Pick(ClearIn(used, start, count));
      assert false;
    }
  }

  lemma CountStart(used: seq<bool>, start: int)
    ensures |ClearIn(used, start, 0)| == 0
  {
    assert ClearIn(used, start, 0) == {};
  }

  lemma CountOne(used: seq<bool>, start: int, count: int)
    requires 0 <= start && 0 <= count
    ensures |ClearIn(used, start, count + 1)| == |ClearIn(used, start, count)|
              + if start + count < |used| && !used[start + count] then 1 else 0
  {
    var b := start + count;
    assert ClearIn(used, start, count + 1) == ClearIn(used, start, count) + if b < |used| && !used[b] then {b} else {};
  }

  /** Part way through the scan, at block `at`: the index has the clear blocks before the run being
      gathered, which starts at `start`, or before `at` if there is none. */
  ghost predicate Scanned(free: set<int>, blocks: set<int>, at: int, inRun: bool, start: int, length: int) {
    && (forall x :: x in blocks <==> x in free && x < if inRun then start else at)
    && (inRun ==> length > 0 && start + length == at && Run(start, at) <= free)
  }

  lemma ScanOne(free: set<int>, blocks: set<int>, at: int, inRun: bool, start: int, length: int)
    requires Scanned(free, blocks, at, inRun, start, length)
    ensures at in free && inRun ==> Scanned(free, blocks, at + 1, true, start, length + 1)
    ensures at in free && !inRun ==> Scanned(free, blocks, at + 1, true, at, 1)
    ensures at !in free && !inRun ==> Scanned(free, blocks, at + 1, false, start, length)
  {
  }

  lemma ScanStart(used: seq<bool>, start: int, count: int)
    ensures Scanned(ClearIn(used, start, count), {}, start, false, 0, 0)
  {
  }

  lemma InData(used: seq<bool>, start: int, count: int, b: int)
    requires 0 <= start <= b < start + count
    ensures b in ClearIn(used, start, count) <==> b < |used| && !used[b]
  {
  }

  lemma ScanEnd(used: seq<bool>, start: int, count: int, blocks: set<int>, s: int, l: int)
    requires Scanned(ClearIn(used, start, count), blocks, start + count, false, s, l)
    ensures blocks == ClearIn(used, start, count) && blocks <= Run(start, start + count)
  {
  }

  lemma ScanFlush(free: set<int>, blocks: set<int>, at: int, start: int, length: int)
    requires Scanned(free, blocks, at, true, start, length)
    ensures length > 0 && blocks !! Run(start, start + length)
    ensures Scanned(free, blocks + Run(start, start + length), at, false, start, length)
  {
  }

  /** The mapped image with its bitmap, and the index over the free blocks. */
  class Volume {
    const nblocks: int
    const dataStart: int

    var tree: RbRoot
    var cursor: int
    var freeCount: int
    var extentCount: int
    var initialized: bool

    /** The on-disk bitmap, one bit a block of the image. */
    var used: seq<bool>
    /** The blocks of the image. */
    var data: seq<Block>

    ghost var ext: Ext
    ghost var blocks: set<int>

    /** The tree holds the extents `ext`, which cover `blocks`, and the counters are exact. */
    ghost predicate Indexed()
      reads this`tree, this`ext, this`blocks, this`freeCount, this`extentCount, tree, tree.nodes
    {
      && tree.Valid() && tree.cmp == KeysCmp
      && Holds(tree.nodes, ext)
      && Wf(ext, dataStart) && Covers(ext, blocks)
      && freeCount == |blocks| && extentCount == |ext|
    }

    constructor (data: seq<Block>, used: seq<bool>, nblocks: int, dataStart: int)
      ensures Indexed() && !initialized && this.used == used && this.data == data && blocks == {}
      ensures this.nblocks == nblocks && this.dataStart == dataStart
      ensures fresh(tree) && fresh(tree.nodes)
    {
      KeysCmpLawful();
      hide Lawful, Holds, Wf, Covers, RbRoot.Valid;
      tree := new RbRoot(KeysCmp);
      this.data, this.used, this.nblocks, this.dataStart := data, used, nblocks, dataStart;
      initialized, cursor, freeCount, extentCount := false, 0, 0, 0;
      ext, blocks := map[], {};
      new;
      EmptyIndex(tree.nodes, dataStart);
    }

    /** bcache_find_extent_le */
    method FindExtentLe(b: int) returns (r: Node?)
      requires Indexed()
      ensures if r == null then forall k :: k in ext ==> k > b
              else r in tree.nodes && IsFloor(ext, b, r.key)
    {
      hide RbRoot.Valid, Wf, Covers;
      r := tree.FindKeyDown(b);
    }

    /** bcache_find_extent_ge */
    method FindExtentGe(b: int) returns (r: Node?)
      requires Indexed()
      ensures if r == null then forall k :: k in ext ==> k < b
              else r in tree.nodes && IsCeiling(ext, b, r.key)
    {
      hide RbRoot.Valid, Wf, Covers;
      r := tree.FindKeyUp(b);
    }

    method SetLength(n: Node, length: int, ghost m: Ext)
      requires n in tree.nodes && tree.Valid() && Holds(tree.nodes, m)
      modifies n`data
      ensures tree.Valid() && Holds(tree.nodes, m[n.key := length]) && n.data == length
    {
      hide RbRoot.Valid;
      n.data := length;
    }

    method RemoveNode(n: Node, ghost m: Ext)
      requires n in tree.nodes && tree.Valid() && Holds(tree.nodes, m)
      modifies tree`node, tree`shape, tree`nodes, tree`order, tree.nodes`left, tree.nodes`right, tree.nodes`parent, tree.nodes`black
      ensures tree.Valid() && tree.nodes == old(tree.nodes) - {n} && Holds(tree.nodes, m - {n.key})
    {
      hide RbRoot.Valid;
      var _ := tree.DeleteNodeColor(n);
    }

    method AddNode(n: Node, ghost m: Ext)
      requires n !in tree.nodes && tree.Valid() && tree.cmp == KeysCmp && Holds(tree.nodes, m) && n.key !in m
      modifies tree`node, tree`shape, tree`nodes, tree`order, tree.nodes`left, tree.nodes`right, tree.nodes`parent, tree.nodes`black
      modifies n`left, n`right, n`parent, n`black
      ensures tree.Valid() && tree.nodes == old(tree.nodes) + {n} && Holds(tree.nodes, m[n.key := n.data])
    {
      hide RbRoot.Valid;
      var _ := tree.InsertColor(n);
    }

    /** rb_next_node on an extent */
    method NextExtent(prev: Node, ghost m: Ext) returns (r: Node?)
      requires prev in tree.nodes && tree.Valid() && tree.cmp == KeysCmp && Holds(tree.nodes, m)
      ensures if r == null then forall k :: k in m ==> k <= prev.key
              else r in tree.nodes && r.key in m && m[r.key] == r.data && prev.key < r.key
                   && forall k :: k in m ==> k <= prev.key || r.key <= k
    {
      hide RbRoot.Valid;
      r := tree.Next(prev);
    }

    lemma ExtentOf(n: Node, m: Ext)
      requires Holds(tree.nodes, m) && n in tree.nodes
      ensures n.key in m && m[n.key] == n.data
    {
    }

    /** After the run has been added to `prev`: the extent that starts where it now ends joins it too. */
    method AbsorbNext(prev: Node, ghost m: Ext, ghost z: int)
      requires prev in tree.nodes && tree.Valid() && tree.cmp == KeysCmp && Holds(tree.nodes, m) && prev.key < z == prev.key + prev.data
      requires NoneStarts(m, prev.key + 1, z)
      modifies this`extentCount, prev`data, tree`node, tree`shape, tree`nodes, tree`order, tree.nodes`left, tree.nodes`right, tree.nodes`parent, tree.nodes`black
      ensures tree.Valid() && tree.nodes <= old(tree.nodes) && Holds(tree.nodes, (m - {z})[prev.key := End(m, z) - prev.key])
      ensures extentCount == if z in m then old(extentCount) - 1 else old(extentCount)
    {
      hide RbRoot.Valid, Holds;
      ExtentOf(prev, m);
      var next := NextExtent(prev, m);
      if next != null && prev.key + prev.data == next.key {
        ExtentOf(next, m);
        var more := next.data;
        RemoveNode(next, m);
        SetLength(prev, prev.data + more, m - {z});
        extentCount := extentCount - 1;
      } else {
        assert (m - {z})[prev.key := prev.data] == m;
      }
    }

    /** bcache_insert_extent, where the run follows the extent `prev` */
    method GrowExtent(prev: Node, length: int, ghost a: int)
      requires Indexed() && prev in tree.nodes && length > 0 && prev.key + prev.data == a && blocks !! Run(a, a + length)
      modifies this`freeCount, this`extentCount, this`ext, this`blocks, tree, tree.nodes
      ensures Indexed() && tree.nodes <= old(tree.nodes) && blocks == old(blocks) + Run(a, a + length)
    {
      hide RbRoot.Valid, Wf, Covers, Run, Holds, NoneStarts, NoneEnds, End;
      ghost var z, m := a + length, ext;
      ExtentOf(prev, m);
      JoinedAfter(ext, dataStart, blocks, a, z, prev.key);
      SetLength(prev, prev.data + length, m);
      freeCount := freeCount + length;
      UpdateTwice(m, z, prev.key, z - prev.key);
      StartsStill(m, prev.key, z, z - prev.key);
      AbsorbNext(prev, m[prev.key := z - prev.key], z);
      Reindex((m - {z})[prev.key := End(m, z) - prev.key], blocks + Run(a, z));
    }

    ghost method Reindex(m: Ext, b: set<int>)
      requires tree.Valid() && tree.cmp == KeysCmp && Holds(tree.nodes, m) && Wf(m, dataStart) && Covers(m, b)
      requires freeCount == |b| && extentCount == |m|
      modifies this`ext, this`blocks
      ensures Indexed() && ext == m && blocks == b
    {
      hide RbRoot.Valid, Wf, Covers, Holds;
      ext, blocks := m, b;
    }

    /** bcache_insert_extent, where the run follows no extent but precedes `next` */
    method MoveExtent(next: Node, start: int, length: int)
      requires Indexed() && length > 0 && dataStart <= start && blocks !! Run(start, start + length)
      requires next in tree.nodes && next.key == start + length && NoneEnds(ext, start)
      modifies this`freeCount, this`ext, this`blocks, tree, tree.nodes
      ensures Indexed() && tree.nodes == old(tree.nodes) && blocks == old(blocks) + Run(start, start + length)
    {
      hide RbRoot.Valid, Wf, Covers, Run, Holds, NoneEnds;
      ghost var z, m := start + length, ext;
      ExtentOf(next, m);
      JoinedMove(ext, dataStart, blocks, start, z);
      RemoveNode(next, m);
      next.key, next.data, next.parent, next.black := start, next.data + length, next, false;
      AddNode(next, m - {z});
      freeCount := freeCount + length;
      Reindex((m - {z})[start := z + m[z] - start], blocks + Run(start, z));
    }

    /** bcache_insert_extent, where the run touches no extent */
    method NewExtent(e: Node, start: int, length: int)
      requires Indexed() && length > 0 && dataStart <= start && blocks !! Run(start, start + length)
      requires start + length !in ext && NoneEnds(ext, start) && e !in tree.nodes && e.key == start && e.data == length
      modifies this`freeCount, this`extentCount, this`ext, this`blocks, tree, tree.nodes, e
      ensures Indexed() && tree.nodes == old(tree.nodes) + {e} && blocks == old(blocks) + Run(start, start + length)
    {
      hide RbRoot.Valid, Wf, Covers, Run, Holds, NoneEnds;
      ghost var z, m, b := start + length, ext, blocks;
      JoinedNew(m, dataStart, b, start, z);
      AddNode(e, m);
      extentCount := extentCount + 1;
      freeCount := freeCount + length;
      Reindex(m[start := z - start], b + Run(start, z));
    }

    /** bcache_insert_extent: adds a free run, merged with the extents it touches */
    method InsertExtent(start: int, length: int)
      requires Indexed() && length > 0 && dataStart <= start && blocks !! Run(start, start + length)
      modifies this`freeCount, this`extentCount, this`ext, this`blocks, tree, tree.nodes
      ensures Indexed() && fresh(tree.nodes - old(tree.nodes)) && blocks == old(blocks) + Run(start, start + length)
    {
      hide RbRoot.Valid, Wf, Covers, Run, Holds, NoneEnds;
      var prev := FindExtentLe(start);
      if prev != null && prev.key + prev.data == start {
        GrowExtent(prev, length, start);
        return;
      }
      if prev != null { ExtentOf(prev, ext); }
      NoneEndsAt(ext, dataStart, start, if prev == null then start else prev.key);
      var next := FindExtentGe(start);
      CeilingStarts(ext, dataStart, blocks, start, start + length, if next == null then start else next.key);
      if next != null && start + length == next.key {
        MoveExtent(next, start, length);
      } else {
        var e := new Node(start, length);
        NewExtent(e, start, length);
      }
    }

    // ---------- taking blocks from the index ----------

    /** bcache_alloc_from_extent: takes the last block of an extent */
    method AllocFromExtent(e: Node) returns (b: int)
      requires Indexed() && e in tree.nodes
      modifies this`freeCount, this`extentCount, this`ext, this`blocks, tree, tree.nodes
      ensures Indexed() && tree.nodes <= old(tree.nodes)
      ensures b == old(e.key + e.data - 1) && b in old(blocks) && blocks == old(blocks) - {b}
    {
      hide RbRoot.Valid, Wf, Covers, Holds;
      ghost var m, c, k := ext, blocks, e.key;
      ExtentOf(e, m);
      ShortenedCovers(m, dataStart, c, k);
      b := e.key + e.data - 1;
      if e.data == 1 {
        RemoveNode(e, m);
        extentCount := extentCount - 1;
      } else {
        SetLength(e, e.data - 1, m);
      }
      freeCount := freeCount - 1;
      Reindex(Shortened(m, k), c - {b});
    }

    /** bcache_find_extent_containing */
    method FindExtentContaining(b: int) returns (r: Node?)
      requires Indexed()
      ensures r != null ==> r in tree.nodes && r.key <= b < r.key + r.data
      ensures r == null <==> b !in blocks
    {
      hide RbRoot.Valid, Wf, Covers, Holds;
      r := FindExtentLe(b);
      if r != null { ExtentOf(r, ext); }
      Containing(ext, dataStart, blocks, b, if r == null then b else r.key);
      if r == null || b >= r.key + r.data { r := null; }
    }

    lemma NotEmpty()
      requires Indexed()
      ensures tree.node == null <==> blocks == {}
      ensures freeCount == 0 <==> blocks == {}
    {
      hide RbRoot.Valid;
      tree.RootIn();
      if tree.node != null {
        var n :| n in tree.nodes;
        assert Has(ext, n.key);
        assert n.key in blocks;
      } else if blocks != {} {
        var b := Pick(blocks);
        var _ := Holder(ext, b);
        assert false;
      }
    }

    method FirstNode() returns (e: Node)
      requires Indexed() && tree.node != null
      ensures e in tree.nodes && forall k :: k in ext ==> e.key <= k
    {
      hide RbRoot.Valid, Wf, Covers;
      tree.RootIn();
      e := tree.First();
    }

    method LastNode() returns (e: Node)
      requires Indexed() && tree.node != null
      ensures e in tree.nodes && forall k :: k in ext ==> k <= e.key
    {
      hide RbRoot.Valid, Wf, Covers;
      tree.RootIn();
      e := tree.Last();
    }

    /** bcache_find_free_block: from the first extent at or after the cursor, or else the first of all */
    method FindFreeBlock() returns (ok: bool, b: int)
      requires initialized && Indexed()
      modifies this`freeCount, this`extentCount, this`ext, this`blocks, this`cursor, tree, tree.nodes
      ensures Indexed() && tree.nodes <= old(tree.nodes)
      ensures ok <==> old(blocks) != {}
      ensures ok ==> b in old(blocks) && blocks == old(blocks) - {b}
      ensures ok ==> cursor == if b + 1 >= dataStart + nblocks then dataStart else b + 1
      // It goes back before the cursor only when no extent starts at or after it, and then to the first extent.
      ensures ok && b < old(cursor) ==> forall k :: k in old(ext) ==> k < old(cursor) && b < k + old(ext)[k]
      ensures !ok ==> blocks == old(blocks) && cursor == old(cursor)
    {
      hide RbRoot.Valid, Wf, Covers, Holds;
      NotEmpty();
      ok, b := false, 0;
      if !initialized || freeCount == 0 || tree.node == null { return; }
      var e := FindExtentGe(cursor);
      if e == null { e := FirstNode(); }
      ok := true;
      ExtentOf(e, ext);
      FirstExtent(ext, dataStart, e.key);
      Starts(ext, dataStart, e.key);
      b := AllocFromExtent(e);
      cursor := b + 1;
      if cursor >= dataStart + nblocks { cursor := dataStart; }
    }

    /** bcache_find_free_block_near */
    method FindFreeBlockNear(hint: int) returns (ok: bool, b: int)
      requires initialized && Indexed()
      modifies this`freeCount, this`extentCount, this`ext, this`blocks, tree, tree.nodes
      ensures Indexed() && tree.nodes <= old(tree.nodes)
      ensures ok <==> old(blocks) != {}
      ensures ok ==> b in old(blocks) && blocks == old(blocks) - {b}
      // It goes below the hint only when no free block is at or above it, and then to the last free block of all; otherwise
      // to the end of the first run of free blocks from the hint on.
      ensures ok && b < hint ==> forall x :: x in old(blocks) ==> x <= b || x >= dataStart + nblocks
      ensures ok && dataStart <= hint <= b && hint < dataStart + nblocks ==> FirstRunEnd(old(blocks), hint, b)
      ensures !ok ==> blocks == old(blocks)
    {
      hide RbRoot.Valid, Wf, Covers, Holds, FirstRunEnd;
      NotEmpty();
      ok, b := false, 0;
      if !initialized || freeCount == 0 || tree.node == null { return; }
      var h := hint;
      if h < dataStart { h := dataStart; } else if h >= dataStart + nblocks { h := dataStart + nblocks - 1; }
      ok := true;
      var e := FindExtentContaining(h);
      if e != null {
        ExtentOf(e, ext);
        RunEnd(ext, dataStart, blocks, e.key, h);
        b := AllocFromExtent(e);
        return;
      }
      e := FindExtentGe(h);
      if e != null {
        ExtentOf(e, ext);
        Starts(ext, dataStart, e.key);
        RunEnd(ext, dataStart, blocks, e.key, h);
        b := AllocFromExtent(e);
        return;
      }
      AllBefore(ext, dataStart, blocks, h);
      e := LastNode();
      ExtentOf(e, ext);
      LastExtent(ext, dataStart, blocks, e.key);
      b := AllocFromExtent(e);
    }

    // ---------- the bitmap and the index together ----------

    /** Every data block is in the image and has its bit in a bitmap block; block 0 is not one of them. */
    ghost predicate Image()
      reads this`used, this`data
    {
      && 0 <= nblocks && BitmapBlocks(nblocks) < dataStart && |used| == BPB * BitmapBlocks(nblocks)
      && dataStart + nblocks <= |used| && dataStart + nblocks <= |data|
      && forall b :: 0 <= b < |data| ==> |data[b]| == BSIZE
    }

    /** The data blocks whose bit is clear. */
    ghost function Free(): set<int>
      reads this`used
    {
      ClearIn(used, dataStart, nblocks)
    }

    /** The index misses no free block, though it may list used ones. */
    ghost predicate Complete()
      reads this`used, this`cursor, this`tree, this`ext, this`blocks, this`freeCount, this`extentCount, tree, tree.nodes
    {
      Indexed() && Free() <= blocks <= Run(dataStart, dataStart + nblocks)
      && dataStart <= cursor && (cursor < dataStart + nblocks || cursor == dataStart)
    }

    ghost predicate Sound()
      reads this`used, this`data, this`cursor, this`tree, this`ext, this`blocks, this`freeCount, this`extentCount, tree, tree.nodes
    {
      Image() && Complete()
    }

    /** The index lists exactly the free blocks. */
    ghost predicate Exact()
      reads this`used, this`data, this`cursor, this`tree, this`ext, this`blocks, this`freeCount, this`extentCount, tree, tree.nodes
    {
      Sound() && blocks == Free()
    }

    /** BBLOCK: the block in which the bit of block `b` is looked for; from |used| on it is a data block or past the image. */
    function Bblock(b: int): int {
      dataStart - BitmapBlocks(nblocks) + b / BPB
    }

    /** bitmap_get: fails only where the block with the bit is past the image */
    function BitmapGet(b: int): Option<bool>
      requires Image() && 0 <= b
      reads this
    {
      if b < |used| then Some(used[b])
      else if Bblock(b) < |data| then Some(BitIn(data[Bblock(b)], b % BPB))
      else None
    }

    /** bcache_mark_free */
    method MarkFree(b: int)
      requires Indexed() && b !in blocks
      modifies this`freeCount, this`extentCount, this`ext, this`blocks, tree, tree.nodes
      ensures Indexed() && fresh(tree.nodes - old(tree.nodes))
      ensures blocks == if initialized && dataStart <= b then old(blocks) + {b} else old(blocks)
    {
      hide Indexed;
      if !initialized || b < dataStart { return; }
      assert Run(b, b + 1) == {b};
      InsertExtent(b, 1);
    }

    /** The scan of bcache_init: gathers runs of clear bits */
    method ScanBitmap()
      requires Indexed() && blocks == {} && Image()
      modifies this`freeCount, this`extentCount, this`ext, this`blocks, tree, tree.nodes
      ensures Indexed() && blocks == Free() && fresh(tree.nodes - old(tree.nodes))
    {
      hide Indexed, Run, Scanned;
      ghost var free := Free();
      var runStart, runLength, inRun := 0, 0, false;
      ScanStart(used, dataStart, nblocks);
      var b := 0;
      while b < nblocks
        invariant 0 <= b <= nblocks && Indexed() && fresh(tree.nodes - old(tree.nodes))
        invariant Scanned(free, blocks, dataStart + b, inRun, runStart, runLength) && (inRun ==> dataStart <= runStart)
      {
        var blockno := dataStart + b;
        InData(used, dataStart, nblocks, blockno);
        var got := BitmapGet(blockno);
        var isUsed := got.None? || got.value;
        if !isUsed {
          ScanOne(free, blocks, blockno, inRun, runStart, runLength);
          if inRun {
            runLength := runLength + 1;
          } else {
            runStart, runLength, inRun := blockno, 1, true;
          }
        } else {
          if inRun {
            ScanFlush(free, blocks, blockno, runStart, runLength);
            InsertExtent(runStart, runLength);
            inRun := false;
          }
          ScanOne(free, blocks, blockno, inRun, runStart, runLength);
        }
        b := b + 1;
      }
      if inRun {
        ScanFlush(free, blocks, dataStart + b, runStart, runLength);
        InsertExtent(runStart, runLength);
      }
      ScanEnd(used, dataStart, nblocks, blocks, runStart, runLength);
    }

    /** An index of no extents. */
    method StartEmpty()
      modifies this`tree, this`cursor, this`freeCount, this`extentCount, this`ext, this`blocks
      ensures Indexed() && blocks == {} && cursor == dataStart && fresh(tree) && tree.nodes == {}
    {
      KeysCmpLawful();
      hide Lawful, Holds, Wf, Covers, RbRoot.Valid;
      tree := new RbRoot(KeysCmp);
      cursor, freeCount, extentCount := dataStart, 0, 0;
      EmptyIndex(tree.nodes, dataStart);
      Reindex(map[], {});
    }

    /** bcache_init: builds the index from the bitmap */
    method Init()
      requires Image()
      modifies this`tree, this`cursor, this`freeCount, this`extentCount, this`initialized, this`ext, this`blocks
      ensures old(initialized) ==> unchanged(this)
      ensures !old(initialized) ==> Exact() && initialized && fresh(tree) && fresh(tree.nodes)
    {
      hide Indexed, Run;
      if initialized { return; }
      StartEmpty();
      ScanBitmap();
      initialized := true;
    }

    /** The image is sound and the index, if there is one, is exact. */
    ghost predicate Ready()
      reads this, tree, tree.nodes
    {
      Image() && (initialized ==> Exact())
    }

    /** A block that holds bits: from BBLOCK of block 0 up to the data blocks. */
    predicate HoldsBits(b: int) {
      Bblock(0) <= b < dataStart
    }

    /** The bits after block `b`, whose own bit was set, has been freed: its bit is clear, and if it holds bits itself, they all
        are, since its contents are cleared. */
    function FreedBits(u: seq<bool>, b: int): (r: seq<bool>)
      requires 0 <= b < |u|
      ensures |r| == |u|
    {
      var less := u[b := false];
      if HoldsBits(b) then seq(|u|, i requires 0 <= i < |u| => less[i] && Bblock(i) != b) else less
    }

    /** Freeing block `b` puts the index out of step: it is past the data blocks, or it holds the bit of a used data block. */
    ghost predicate Spoils(b: int)
      requires Image() && 0 <= b
      reads this
    {
      && BitmapGet(b) == Some(true)
      && (b >= dataStart + nblocks || (HoldsBits(b) && exists x :: dataStart <= x < dataStart + nblocks && used[x] && Bblock(x) == b))
    }

    /** free_block, for any block number. The bit is that of a bitmap block, or past these of a data block, which loses it. */
    method FreeBlock(b: int) returns (r: Outcome<()>)
      requires Ready() && 0 <= b
      modifies this`used, this`data, this`freeCount, this`extentCount, this`ext, this`blocks, tree, tree.nodes
      ensures fresh(tree.nodes - old(tree.nodes)) && Image()
      ensures r == if b < |old(used)| || Bblock(b) < |old(data)| then Ok(()) else Err(EIO)
      ensures r.Err? ==> used == old(used) && data == old(data) && blocks == old(blocks)
      ensures b < |old(used)| && old(used)[b] ==>
        used == FreedBits(old(used), b) && data == if b < |old(data)| then old(data)[b := Zeros()] else old(data)
      ensures b >= |old(used)| ==> used == old(used) && |data| == |old(data)|
      ensures old(BitmapGet(b)) == Some(true) && b >= |old(used)| ==>
        data == var less := old(data)[Bblock(b) := ClearBit(old(data)[Bblock(b)], b % BPB)]; if b < |less| then less[b := Zeros()] else less
      ensures old(BitmapGet(b)) != Some(true) ==> used == old(used) && data == old(data) && blocks == old(blocks)
      ensures dataStart <= b < dataStart + nblocks ==> used == old(used)[b := false]
      ensures blocks == if initialized && dataStart <= b && old(BitmapGet(b)) == Some(true) then old(blocks) + {b} else old(blocks)
      ensures Ready() <==> !initialized || !old(Spoils(b))
    {
      hide Indexed, Run, BitIn, ClearBit, ClearIn, Zeros, FreedBits;
      var got := BitmapGet(b);
      if got.None? { return Err(EIO); }
      if !got.value {
        assert b < |used| ==> used == used[b := false];
        return Ok(());
      }
      BitmapClear(b);
      if initialized {
        if b < |used| { ClearMore(old(used), dataStart, nblocks, b); } else { PastData(used, dataStart, nblocks, b); }
        MarkFree(b);
      }
      ghost var free := Free();
      if b < |data| { WipeBlock(b); }
      FreedIs(old(used), used, b);
      if initialized && HoldsBits(b) { FreedMore(old(used), used, free, b); }
      r := Ok(());
    }

    /** memset of a block of the image. The bits of a block that holds bits are in `used`. */
    method WipeBlock(b: int)
      requires Image() && 0 <= b < |data|
      modifies this`used, this`data
      ensures Image() && data == old(data)[b := Zeros()] && |used| == |old(used)|
      ensures forall i :: 0 <= i < |used| ==> used[i] == (old(used)[i] && (HoldsBits(b) ==> Bblock(i) != b))
    {
      data := data[b := Zeros()];
      if HoldsBits(b) {
        var u := used;
        used := seq(|u|, i requires 0 <= i < |u| => u[i] && Bblock(i) != b);
      }
    }

    lemma FreedIs(u: seq<bool>, u': seq<bool>, b: int)
      requires Image() && 0 <= b && |u'| == |u| == |used|
      requires forall i :: 0 <= i < |u| ==> u'[i] == (u[i] && (b < |u| ==> i != b) && (b < |data| && HoldsBits(b) ==> Bblock(i) != b))
      ensures b < |u| ==> u' == FreedBits(u, b)
      ensures b >= |u| ==> u' == u
      ensures b < |u| && !HoldsBits(b) ==> u' == u[b := false]
    {
      assert HoldsBits(b) ==> b < |data|;
    }

    /** The free blocks after a block that holds bits has been wiped: those with their bits in it are new. */
    lemma FreedMore(u: seq<bool>, u': seq<bool>, free: set<int>, b: int)
      requires Image() && 0 <= b < |u| == |u'| == |used| && HoldsBits(b) && u' == FreedBits(u, b) && free == ClearIn(u[b := false], dataStart, nblocks)
      ensures ClearIn(u', dataStart, nblocks) == free <==> !exists x :: dataStart <= x < dataStart + nblocks && u[x] && Bblock(x) == b
    {
      forall x | dataStart <= x < dataStart + nblocks && u[x] && Bblock(x) == b ensures x in ClearIn(u', dataStart, nblocks) && x !in free { }
    }

    /** On an image of four blocks, with one data block, block 2: freeing block 8192, whose bit is looked for in the data block,
        changes the data and puts the block in the index. */
    static method StrayFree() returns (vol: Volume, before: Block)
      ensures vol.Image() && vol.initialized && !vol.Ready() && |vol.data| == 4 && |before| == BSIZE && before[0] == 1 && vol.data[2] == before[0 := 0]
    {
      hide Volume.Indexed, Run, Zeros, ClearIn;
      before := Zeros()[0 := 1];
      vol := new Volume([Zeros(), Zeros(), before, Zeros()], seq(BPB, _ => true), 1, 2);
      vol.Init();
      assert vol.Bblock(BPB) == 2 && BPB % BPB == 0;
      assert vol.BitmapGet(BPB) == Some(true) by { assert ByteBit(1, 0); }
      var _ := vol.FreeBlock(BPB);
    }

    /** On an image of three blocks, with one data block, which is used: freeing block 1, which holds the bits, makes the data block
        look free, and the index does not have it. */
    static method WipeBits() returns (vol: Volume)
      ensures vol.Image() && vol.initialized && !vol.Ready() && vol.Free() == {2} && vol.blocks == {}
    {
      hide Volume.Indexed, Run, Zeros;
      var u := seq(BPB, _ => true);
      vol := new Volume([Zeros(), Zeros(), Zeros()], u, 1, 2);
      vol.Init();
      assert vol.Bblock(0) == 1 && vol.Bblock(2) == 1 && vol.HoldsBits(1);
      assert vol.used[2] && vol.Spoils(1);
      var _ := vol.FreeBlock(1);
    }

    /** bitmap_update, clearing a bit that is set */
    method BitmapClear(b: int)
      requires Image() && 0 <= b && BitmapGet(b) == Some(true)
      modifies this`used, this`data
      ensures Image() && used == (if b < |old(used)| then old(used)[b := false] else old(used))
      ensures data == if b < |old(used)| then old(data) else old(data)[Bblock(b) := ClearBit(old(data)[Bblock(b)], b % BPB)]
    {
      if b < |used| {
        used := used[b := false];
      } else {
        data := data[Bblock(b) := ClearBit(data[Bblock(b)], b % BPB)];
      }
    }

    /** Marks a free block used and clears it: the tail both allocators share. */
    method Claim(b: int)
      requires Image() && b in Free() && (initialized ==> Indexed() && b !in blocks)
      modifies this`used, this`data
      ensures Image() && used == old(used)[b := true] && data == old(data)[b := Zeros()] && Free() == old(Free()) - {b}
    {
      ClearLess(used, dataStart, nblocks, b);
      used := used[b := true];
      data := data[b := Zeros()];
    }

    /** alloc_block without the index: the first data block whose bit is clear */
    method AllocByScan() returns (r: Outcome<int>)
      requires Image() && !initialized
      modifies this`used, this`data
      ensures Image() && (r.Ok? <==> old(Free()) != {})
      ensures r.Ok? ==> r.value in old(Free()) && forall x :: x in old(Free()) ==> r.value <= x
      ensures r.Ok? ==> used == old(used)[r.value := true] && data == old(data)[r.value := Zeros()]
      ensures r.Err? ==> r.error == ENOSPC && used == old(used) && data == old(data)
    {
      hide Run, ClearIn;
      ghost var free := ClearIn(used, dataStart, nblocks);
      AllData(used, dataStart, nblocks);
      var offset := 0;
      while offset < nblocks
        invariant 0 <= offset <= nblocks && used == old(used) && data == old(data)
        invariant forall x :: x in free ==> dataStart + offset <= x
      {
        var b := dataStart + offset;
        InData(used, dataStart, nblocks, b);
        var got := BitmapGet(b);
        if got.Some? && !got.value {
          Claim(b);
          return Ok(b);
        }
        offset := offset + 1;
      }
      OutOfData(used, dataStart, nblocks);
      r := Err(ENOSPC);
    }

    /** alloc_block: a candidate the bitmap says is used is dropped and the search starts over */
    method AllocBlock() returns (r: Outcome<int>)
      requires Image() && (initialized ==> Sound())
      modifies this`used, this`data, this`freeCount, this`extentCount, this`ext, this`blocks, this`cursor, tree, tree.nodes
      ensures Image() && tree.nodes <= old(tree.nodes)
      ensures initialized ==> Sound() && (old(Exact()) ==> Exact())
      ensures r.Ok? <==> old(Free()) != {}
      ensures r.Ok? ==> r.value in old(Free()) && used == old(used)[r.value := true] && data == old(data)[r.value := Zeros()]
      ensures r.Err? ==> r.error == ENOSPC && used == old(used) && data == old(data)
      decreases if initialized then freeCount else -1
    {
      hide Indexed, Run, ClearIn;
      if !initialized {
        r := AllocByScan();
        return;
      }
      Counted();
      var ok, b := FindFreeBlock();
      if !ok { return Err(ENOSPC); }
      Counted();
      InRun(b, dataStart, dataStart + nblocks);
      InData(used, dataStart, nblocks, b);
      var got := BitmapGet(b);
      if got.value {
        r := AllocBlock();
        return;
      }
      Claim(b);
      r := Ok(b);
    }

    /** alloc_block_near */
    method AllocBlockNear(hint: int) returns (r: Outcome<int>)
      requires Image() && (initialized ==> Sound())
      modifies this`used, this`data, this`freeCount, this`extentCount, this`ext, this`blocks, this`cursor, tree, tree.nodes
      ensures Image() && tree.nodes <= old(tree.nodes)
      ensures initialized ==> Sound() && (old(Exact()) ==> Exact())
      ensures r.Ok? <==> old(Free()) != {}
      ensures r.Ok? ==> r.value in old(Free()) && used == old(used)[r.value := true] && data == old(data)[r.value := Zeros()]
      ensures r.Err? ==> r.error == ENOSPC && used == old(used) && data == old(data)
      // It goes below the hint only when nothing at or above it is free, and then to the last free block of all.
      ensures initialized && hint != 0 && r.Ok? && r.value < hint ==> forall x :: x in old(Free()) ==> x <= r.value
      ensures old(initialized && Exact()) && r.Ok? && dataStart <= hint <= r.value ==> FirstRunEnd(old(Free()), hint, r.value)
      decreases if initialized then freeCount else -1
    {
      hide Indexed, Run, ClearIn;
      if hint == 0 || !initialized {
        r := AllocBlock();
        return;
      }
      Counted();
      var ok, b := FindFreeBlockNear(hint);
      if !ok { return Err(ENOSPC); }
      Counted();
      InRun(b, dataStart, dataStart + nblocks);
      InData(used, dataStart, nblocks, b);
      var got := BitmapGet(b);
      if got.value {
        r := AllocBlockNear(hint);
        return;
      }
      Claim(b);
      r := Ok(b);
    }

    lemma Counted()
      requires Indexed()
      ensures freeCount == |blocks|
    {
    }

    /** The free count statfs reports: the counter when there is an index, else a count over the bitmap */
    method FreeBlocks() returns (n: int)
      requires Ready()
      ensures n == |Free()|
    {
      hide Indexed, Run, ClearIn;
      if initialized {
        Counted();
        n := freeCount;
        return;
      }
      n := 0;
      var i := 0;
      CountStart(used, dataStart);
      while i < nblocks
        invariant 0 <= i <= nblocks && n == |ClearIn(used, dataStart, i)|
      {
        var got := BitmapGet(dataStart + i);
        CountOne(used, dataStart, i);
        if got.Some? && !got.value { n := n + 1; }
        i := i + 1;
      }
    }
  }
}
