/** The circular free list of user/umalloc.c as values: headers by address, in units of one header, and the list in address
    order from the static header `base`, which lies below all memory got from sbrk. */
module FreeRing {
  import opened Extents

  datatype Header = Header(ptr: int, size: int)

  type Memory = map<int, Header>

  ghost predicate Ascending(order: seq<int>) {
    forall i, j :: 0 <= i < j < |order| ==> order[i] < order[j]
  }

  /** The element after place `i`, around the end. */
  ghost function After(order: seq<int>, i: int): int
    requires 0 <= i < |order|
  {
    if i + 1 < |order| then order[i + 1] else order[0]
  }

  /** The headers of the list are linked in a circle, in address order with one step back, from the last to `base`. */
  ghost predicate Ring(mem: Memory, order: seq<int>, base: int) {
    && order != [] && order[0] == base && Ascending(order)
    && forall i :: 0 <= i < |order| ==> Linked(mem, order, i)
  }

  ghost predicate Linked(mem: Memory, order: seq<int>, i: int)
    requires 0 <= i < |order|
  {
    order[i] in mem && mem[order[i]].ptr == After(order, i)
  }

  /** The list holds the free blocks, with their sizes. */
  ghost predicate Sizes(mem: Memory, order: seq<int>, base: int, free: Ext) {
    && base in mem && mem[base].size == 0
    && (forall a :: a in free <==> a in order && a != base)
    && (forall a :: a in free ==> a in mem && mem[a].size == free[a])
  }

  /** The place of the last header below an address. */
  ghost predicate Before(order: seq<int>, i: int, bp: int) {
    0 <= i < |order| && order[i] < bp && forall j :: i < j < |order| ==> bp < order[j]
  }

  ghost function Cut(order: seq<int>, i: int, cut: bool): (r: seq<int>)
    requires 0 <= i < |order| && (cut ==> i + 1 < |order|)
  {
    if cut then order[..i + 1] + order[i + 2..] else order
  }

  lemma CutAt(order: seq<int>, i: int, cut: bool, k: int)
    requires 0 <= i < |order| && (cut ==> i + 1 < |order|)
    ensures |Cut(order, i, cut)| == |order| - (if cut then 1 else 0)
    ensures 0 <= k < |Cut(order, i, cut)| ==> Cut(order, i, cut)[k] == if k <= i || !cut then order[k] else order[k + 1]
  {
  }

  ghost function Add(order: seq<int>, i: int, bp: int): (r: seq<int>)
    requires 0 <= i < |order|
  {
    order[..i + 1] + [bp] + order[i + 1..]
  }

  lemma AddAt(order: seq<int>, i: int, bp: int, k: int)
    requires 0 <= i < |order|
    ensures |Add(order, i, bp)| == |order| + 1
    ensures 0 <= k <= |order| ==> Add(order, i, bp)[k] == if k <= i then order[k] else if k == i + 1 then bp else order[k - 1]
  {
  }

  lemma CutAscends(order: seq<int>, i: int, cut: bool)
    requires Ascending(order) && 0 <= i < |order| && (cut ==> i + 1 < |order|)
    ensures Ascending(Cut(order, i, cut))
  {
    hide Cut;
    var o := Cut(order, i, cut);
    forall x, y | 0 <= x < y < |o| ensures o[x] < o[y] {
      CutAt(order, i, cut, x);
      CutAt(order, i, cut, y);
    }
  }

  lemma RingCutAt(mem: Memory, order: seq<int>, base: int, i: int, cut: bool, size: int, k: int)
    requires Ring(mem, order, base) && 0 <= i < |order| && (cut ==> i + 1 < |order|) && 0 <= k < |Cut(order, i, cut)|
    ensures var o := Cut(order, i, cut);
            var m := mem[order[i] := Header(After(o, i), size)];
            Linked(m, o, k)
  {
    hide Cut;
    CutAt(order, i, cut, 0);
    CutAt(order, i, cut, i);
    CutAt(order, i, cut, k);
    CutAt(order, i, cut, k + 1);
    var k' := if k <= i || !cut then k else k + 1;
    assert Linked(mem, order, k');
  }

  /** The list without the header after place `i`, if that has been absorbed. */
  lemma RingCut(mem: Memory, order: seq<int>, base: int, i: int, cut: bool, size: int)
    requires Ring(mem, order, base) && 0 <= i < |order| && (cut ==> i + 1 < |order|)
    ensures Ring(mem[order[i] := Header(After(Cut(order, i, cut), i), size)], Cut(order, i, cut), base)
    ensures After(Cut(order, i, cut), i) == if cut then After(order, i + 1) else After(order, i)
  {
    hide Cut;
    var o := Cut(order, i, cut);
    CutAscends(order, i, cut);
    CutAt(order, i, cut, 0);
    CutAt(order, i, cut, i);
    CutAt(order, i, cut, i + 1);
    var m := mem[order[i] := Header(After(o, i), size)];
    forall k | 0 <= k < |o| ensures Linked(m, o, k) { RingCutAt(mem, order, base, i, cut, size, k); }
    hide Ascending;
  }

  lemma AddAscends(order: seq<int>, i: int, bp: int)
    requires Ascending(order) && Before(order, i, bp)
    ensures Ascending(Add(order, i, bp))
  {
    hide Add;
    var o := Add(order, i, bp);
    forall x, y | 0 <= x < y < |o| ensures o[x] < o[y] {
      AddAt(order, i, bp, x);
      AddAt(order, i, bp, y);
    }
  }

  /** The list with a new header after place `i`. */
  lemma RingAdd(mem: Memory, order: seq<int>, base: int, i: int, bp: int, size: int)
    requires Ring(mem, order, base) && Before(order, i, bp)
    ensures Linked(mem, order, i) && Ring(mem[bp := Header(After(order, i), size)][order[i] := Header(bp, mem[order[i]].size)], Add(order, i, bp), base)
  {
    assert Linked(mem, order, i);
    var o := Add(order, i, bp);
    AddAscends(order, i, bp);
    AddAt(order, i, bp, 0);
    hide Add;
    var m := mem[bp := Header(After(order, i), size)][order[i] := Header(bp, mem[order[i]].size)];
    forall k | 0 <= k < |o| ensures Linked(m, o, k) {
      RingAddAt(mem, order, base, i, bp, size, k);
    }
  }

  lemma RingAddAt(mem: Memory, order: seq<int>, base: int, i: int, bp: int, size: int, k: int)
    requires Ring(mem, order, base) && Before(order, i, bp) && 0 <= k <= |order|
    ensures Linked(mem, order, i)
    ensures var m := mem[bp := Header(After(order, i), size)][order[i] := Header(bp, mem[order[i]].size)];
            var o := Add(order, i, bp);
            Linked(m, o, k)
  {
    hide Add;
    AddAt(order, i, bp, 0);
    AddAt(order, i, bp, k);
    AddAt(order, i, bp, k + 1);
    var k' := if k <= i then k else k - 1;
    assert Linked(mem, order, k');
  }

  /** Every address above `base` has a last header below it, unless it is one. */
  lemma {:induction false} PlaceOf(order: seq<int>, bp: int) returns (i: int)
    requires order != [] && Ascending(order) && order[0] < bp && bp !in order
    ensures Before(order, i, bp)
    decreases |order|
  {
    var n := |order| - 1;
    if order[n] < bp {
      i := n;
    } else {
      i := PlaceOf(order[..n], bp);
      assert Before(order, i, bp);
    }
  }

  /** How far along the circle place `i` is from place `k`. */
  ghost function Ahead(n: int, k: int, i: int): int {
    if k <= i then i - k else i - k + n
  }

  // ---------- blocks ----------

  /** The blocks do not overlap; they may touch. */
  ghost predicate Laid(live: Ext, base: int) {
    && (forall a :: a in live ==> base < a && live[a] > 0)
    && (forall a, b :: a in live && b in live && a < b ==> a + live[a] <= b)
  }

  /** Free and live blocks share no unit, and together they are the memory got so far. */
  ghost predicate Tiles(free: Ext, live: Ext, units: set<int>) {
    && (forall u :: u in units <==> Has(free, u) || Has(live, u))
    && (forall u :: !(Has(free, u) && Has(live, u)))
  }

  lemma HasBy(m: Ext, s: int, u: int)
    requires s in m
    ensures s <= u < s + m[s] ==> Has(m, u)
  {
  }

  lemma LiveDrop(live: Ext, base: int, a: int, u: int)
    requires Laid(live, base) && a in live
    ensures Has(live - {a}, u) <==> Has(live, u) && !(a <= u < a + live[a])
  {
    if Has(live, u) && !(a <= u < a + live[a]) {
      var s := Holder(live, u);
      assert s in live - {a};
    }
    if Has(live - {a}, u) {
      var s := Holder(live - {a}, u);
      assert s in live;
    }
  }

  lemma LiveAdd(live: Ext, a: int, size: int, u: int)
    requires a !in live && size > 0
    ensures Has(live[a := size], u) <==> Has(live, u) || a <= u < a + size
  {
    var m := live[a := size];
    if Has(live, u) {
      var s := Holder(live, u);
      assert s in m && m[s] == live[s];
    }
    if a <= u < a + size { assert a in m; }
    if Has(m, u) {
      var s := Holder(m, u);
      if s != a { assert s in live; }
    }
  }

  /** Freeing a live block moves its units over. */
  lemma TilesFree(free: Ext, live: Ext, units: set<int>, base: int, a: int, free': Ext)
    requires Tiles(free, live, units) && Laid(live, base) && a in live
    requires forall u :: Has(free', u) <==> Has(free, u) || a <= u < a + live[a]
    ensures Tiles(free', live - {a}, units) && Laid(live - {a}, base)
  {
    forall u ensures Has(live - {a}, u) <==> Has(live, u) && !(a <= u < a + live[a]) { LiveDrop(live, base, a, u); }
    forall u | a <= u < a + live[a] ensures Has(live, u) { assert a in live; }
  }

  /** Taking units out of the free ones makes a live block that meets no other. */
  lemma TilesTake(free: Ext, live: Ext, units: set<int>, base: int, a: int, size: int, free': Ext)
    requires Tiles(free, live, units) && Laid(live, base) && base < a && size > 0
    requires forall u :: a <= u < a + size ==> Has(free, u)
    requires forall u :: Has(free', u) <==> Has(free, u) && !(a <= u < a + size)
    ensures a !in live && Tiles(free', live[a := size], units) && Laid(live[a := size], base)
  {
    assert a !in live by { if a in live { assert Has(live, a) && Has(free, a); } }
    forall u ensures Has(live[a := size], u) <==> Has(live, u) || a <= u < a + size { LiveAdd(live, a, size, u); }
    forall b | b in live ensures if a < b then a + size <= b else b + live[b] <= a {
      HasBy(live, b, b);
      HasBy(live, b, a);
    }
  }

  /** A live block, where the free ones do not touch it, is apart from them. */
  lemma LiveApart(free: Ext, live: Ext, units: set<int>, base: int, a: int)
    requires Tiles(free, live, units) && Laid(live, base) && Wf(free, base + 1) && a in live
    ensures Apart(free, a, a + live[a]) && a !in free
  {
    HasBy(live, a, a);
    forall s | s in free ensures s + free[s] <= a || a + live[a] <= s {
      HasBy(free, s, a);
      HasBy(free, s, s);
      HasBy(live, a, s);
    }
    if a in free { HasBy(free, a, a); }
    hide Has;
  }

  // ---------- a block put into the list ----------

  /** What free makes of the headers: the block takes in the one after it if they touch, and is taken in by the one before
      it if they touch. */
  ghost function Cuts(mem: Memory, order: seq<int>, i: int, z: int): bool
    requires 0 <= i < |order|
  {
    After(order, i) == z && i + 1 < |order|
  }

  ghost function Merges(mem: Memory, p: int, bp: int): bool
    requires p in mem
  {
    p + mem[p].size == bp
  }

  ghost function Reordered(mem: Memory, order: seq<int>, i: int, bp: int, z: int): seq<int>
    requires 0 <= i < |order| && order[i] in mem
  {
    var o := Cut(order, i, Cuts(mem, order, i, z));
    if Merges(mem, order[i], bp) || i >= |o| then o else Add(o, i, bp)
  }

  lemma RingFrame(mem: Memory, mem': Memory, order: seq<int>, base: int)
    requires Ring(mem, order, base) && forall a :: a in order ==> a in mem' && (a in mem ==> mem'[a].ptr == mem[a].ptr)
    ensures Ring(mem', order, base)
  {
    forall k | 0 <= k < |order| ensures Linked(mem', order, k) { assert Linked(mem, order, k) && order[k] in order; }
  }

  lemma CutHas(order: seq<int>, i: int, cut: bool, a: int)
    requires Ascending(order) && 0 <= i < |order| && (cut ==> i + 1 < |order|)
    ensures a in Cut(order, i, cut) <==> a in order && !(cut && a == order[i + 1])
  {
    if cut {
      assert order == order[..i + 1] + [order[i + 1]] + order[i + 2..];
      assert order[i + 1] !in order[..i + 1] && order[i + 1] !in order[i + 2..];
    }
  }

  lemma CutBefore(order: seq<int>, i: int, cut: bool, bp: int)
    requires Before(order, i, bp) && Ascending(order) && (cut ==> i + 1 < |order|)
    ensures Before(Cut(order, i, cut), i, bp) && Cut(order, i, cut)[i] == order[i]
  {
    CutAt(order, i, cut, i);
    forall j | i < j < |Cut(order, i, cut)| ensures bp < Cut(order, i, cut)[j] { CutAt(order, i, cut, j); }
  }

  lemma AddHas(order: seq<int>, i: int, bp: int, a: int)
    requires 0 <= i < |order|
    ensures a in Add(order, i, bp) <==> a in order || a == bp
  {
    assert order == order[..i + 1] + order[i + 1..];
  }

  /** The list is a ring again. `next` is what the block's own link is set to. */
  lemma PutRing(mem: Memory, order: seq<int>, base: int, i: int, bp: int, z: int, next: int, size: int)
    requires Ring(mem, order, base) && Before(order, i, bp) && bp !in order && order[i] in mem
    requires next == if Cuts(mem, order, i, z) then After(order, i + 1) else After(order, i)
    ensures var p := order[i];
            var m := mem[bp := Header(next, size)][p := if Merges(mem, p, bp) then Header(next, mem[p].size + size) else Header(bp, mem[p].size)];
            Ring(m, Reordered(mem, order, i, bp, z), base)
  {
    assert 0 <= i < |order|;
    hide Ring, Cut, Add, Before;
    var p, cut := order[i], Cuts(mem, order, i, z);
    var o := Cut(order, i, cut);
    RingFacts(mem, order, base);
    CutAt(order, i, cut, i);
    CutBefore(order, i, cut, bp);
    forall a | a in o ensures a != bp { CutHas(order, i, cut, a); }
    if Merges(mem, p, bp) {
      var m := mem[p := Header(next, mem[p].size + size)];
      RingCut(mem, order, base, i, cut, mem[p].size + size);
      RingOwn(m, o, base);
      RingFrame(m, mem[bp := Header(next, size)][p := Header(next, mem[p].size + size)], o, base);
    } else {
      var m := mem[p := Header(next, mem[p].size)];
      RingCut(mem, order, base, i, cut, mem[p].size);
      RingAdd(m, o, base, i, bp, size);
      assert m[bp := Header(next, size)][p := Header(bp, mem[p].size)] == mem[bp := Header(next, size)][p := Header(bp, mem[p].size)];
    }
  }

  lemma RingFacts(mem: Memory, order: seq<int>, base: int)
    requires Ring(mem, order, base)
    ensures order != [] && order[0] == base && Ascending(order)
  {
  }

  lemma RingOwn(mem: Memory, order: seq<int>, base: int)
    requires Ring(mem, order, base)
    ensures forall a :: a in order ==> a in mem
  {
    forall a | a in order ensures a in mem {
      var k :| 0 <= k < |order| && order[k] == a;
      assert Linked(mem, order, k);
    }
  }

  /** The block touches the header after it, or the one before it, exactly if a free block starts where it ends, or ends
      where it starts. */
  lemma Touching(mem: Memory, order: seq<int>, base: int, free: Ext, i: int, bp: int, z: int)
    requires Ring(mem, order, base) && Sizes(mem, order, base, free) && Wf(free, base + 1)
    requires Before(order, i, bp) && base < bp && Apart(free, bp, z) && order[i] in mem
    ensures Cuts(mem, order, i, z) <==> z in free
    ensures Cuts(mem, order, i, z) <==> After(order, i) == z
    ensures Merges(mem, order[i], bp) <==> order[i] in free && order[i] + free[order[i]] == bp
    ensures forall s :: s in free && s + free[s] == bp ==> s == order[i]
  {
    hide Linked;
    assert forall j :: 0 <= j < |order| ==> order[j] in order;
    if z in free {
      var j :| 0 <= j < |order| && order[j] == z;
      assert j > i ==> order[i + 1] in order;
    }
    forall s | s in free && s + free[s] == bp ensures s == order[i] {
      var j :| 0 <= j < |order| && order[j] == s;
      if j < i { assert order[i] in free; }
    }
  }

  lemma SizesAt(mem: Memory, order: seq<int>, base: int, free: Ext, a: int)
    requires Sizes(mem, order, base, free)
    ensures base in mem && mem[base].size == 0 && (a in free <==> a in order && a != base)
    ensures a in free ==> a in mem && mem[a].size == free[a]
  {
  }

  lemma PutSizesAt(mem: Memory, order: seq<int>, base: int, free: Ext, i: int, bp: int, z: int, next: int, a: int)
    requires Ring(mem, order, base) && Sizes(mem, order, base, free) && Wf(free, base + 1)
    requires Before(order, i, bp) && bp !in order && base < bp && Apart(free, bp, z) && order[i] in mem
    ensures var p, size := order[i], End(free, z) - bp;
            var m := mem[bp := Header(next, size)][p := if Merges(mem, p, bp) then Header(next, mem[p].size + size) else Header(bp, mem[p].size)];
            var free' := Joined(free, bp, z, p);
            && (a in free' <==> a in Reordered(mem, order, i, bp, z) && a != base)
            && (a in free' ==> a in m && m[a].size == free'[a])
            && base in m && m[base].size == 0
  {
    var p, cut := order[i], Cuts(mem, order, i, z);
    var o := Cut(order, i, cut);
    Touching(mem, order, base, free, i, bp, z);
    CutAt(order, i, cut, i);
    RingFacts(mem, order, base);
    assert p in order;
    SizesAt(mem, order, base, free, a);
    SizesAt(mem, order, base, free, p);
    CutHas(order, i, cut, a);
    AddHas(o, i, bp, a);
    hide Cut, Add, Ring, Sizes, Before, Wf, Apart;
  }

  lemma PutSizes(mem: Memory, order: seq<int>, base: int, free: Ext, i: int, bp: int, z: int, next: int)
    requires Ring(mem, order, base) && Sizes(mem, order, base, free) && Wf(free, base + 1)
    requires Before(order, i, bp) && bp !in order && base < bp && Apart(free, bp, z) && order[i] in mem
    ensures var p, size := order[i], End(free, z) - bp;
            var m := mem[bp := Header(next, size)][p := if Merges(mem, p, bp) then Header(next, mem[p].size + size) else Header(bp, mem[p].size)];
            Sizes(m, Reordered(mem, order, i, bp, z), base, Joined(free, bp, z, p))
  {
    var p, size := order[i], End(free, z) - bp;
    var m := mem[bp := Header(next, size)][p := if Merges(mem, p, bp) then Header(next, mem[p].size + size) else Header(bp, mem[p].size)];
    var o', free' := Reordered(mem, order, i, bp, z), Joined(free, bp, z, p);
    PutSizesAt(mem, order, base, free, i, bp, z, next, base);
    forall a ensures (a in free' <==> a in o' && a != base) && (a in free' ==> a in m && m[a].size == free'[a]) {
      PutSizesAt(mem, order, base, free, i, bp, z, next, a);
    }
    hide Reordered, Joined, Ring, Before, Wf, Apart, End, Merges;
  }

  // ---------- a block taken out of the list ----------

  lemma Shrink(m: Ext, base: int, s: int, n: int)
    requires Wf(m, base) && s in m && 0 < n < m[s]
    ensures Wf(m[s := m[s] - n], base)
    ensures forall u :: Has(m[s := m[s] - n], u) <==> Has(m, u) && !(s + m[s] - n <= u < s + m[s])
  {
    var m' := m[s := m[s] - n];
    forall u ensures Has(m', u) <==> Has(m, u) && !(s + m[s] - n <= u < s + m[s]) {
      if Has(m', u) {
        var t := Holder(m', u);
        assert t in m && t <= u < t + m[t];
      }
      if Has(m, u) && !(s + m[s] - n <= u < s + m[s]) {
        var t := Holder(m, u);
        assert t in m' && t <= u < t + m'[t];
      }
    }
  }

  lemma Whole(m: Ext, base: int, s: int)
    requires Wf(m, base) && s in m
    ensures Wf(m - {s}, base)
    ensures forall u :: Has(m - {s}, u) <==> Has(m, u) && !(s <= u < s + m[s])
  {
    forall u ensures Has(m - {s}, u) <==> Has(m, u) && !(s <= u < s + m[s]) {
      if Has(m - {s}, u) {
        var t := Holder(m - {s}, u);
        assert t in m && t <= u < t + m[t];
      }
      if Has(m, u) && !(s <= u < s + m[s]) {
        var t := Holder(m, u);
        assert t in m - {s};
      }
    }
  }

  lemma UnlinkedAt(mem: Memory, order: seq<int>, base: int, free: Ext, k: int, next: int, a: int)
    requires Ring(mem, order, base) && Sizes(mem, order, base, free) && 0 <= k && k + 1 < |order| && order[k] in mem
    ensures var m, free' := mem[order[k] := Header(next, mem[order[k]].size)], free - {order[k + 1]};
            && (a in free' <==> a in Cut(order, k, true) && a != base)
            && (a in free' ==> a in m && m[a].size == free'[a])
            && base in m && m[base].size == 0
  {
    CutHas(order, k, true, a);
    SizesAt(mem, order, base, free, a);
    hide Ring, Sizes, Cut;
  }

  /** A header unlinked. */
  lemma Unlinked(mem: Memory, order: seq<int>, base: int, free: Ext, k: int, next: int)
    requires Ring(mem, order, base) && Sizes(mem, order, base, free) && 0 <= k && k + 1 < |order| && next == After(order, k + 1)
    ensures order[k] in mem && order[k + 1] in mem && mem[order[k + 1]].ptr == next && order[k] in Cut(order, k, true) && order[k + 1] in free
    ensures Ring(mem[order[k] := Header(next, mem[order[k]].size)], Cut(order, k, true), base)
    ensures Sizes(mem[order[k] := Header(next, mem[order[k]].size)], Cut(order, k, true), base, free - {order[k + 1]})
  {
    assert Linked(mem, order, k) && Linked(mem, order, k + 1);
    assert order[k + 1] in order && order[k] in order && order[0] < order[k + 1];
    SizesAt(mem, order, base, free, order[k + 1]);
    RingCut(mem, order, base, k, true, mem[order[k]].size);
    CutHas(order, k, true, order[k]);
    var m, o, free' := mem[order[k] := Header(next, mem[order[k]].size)], Cut(order, k, true), free - {order[k + 1]};
    UnlinkedAt(mem, order, base, free, k, next, base);
    forall a ensures (a in free' <==> a in o && a != base) && (a in free' ==> a in m && m[a].size == free'[a]) {
      UnlinkedAt(mem, order, base, free, k, next, a);
    }
    hide Ring, Cut;
  }

  lemma InsideNotListed(order: seq<int>, base: int, free: Ext, mem: Memory, p: int, a: int)
    requires Sizes(mem, order, base, free) && Wf(free, base + 1) && p in free && p < a < p + free[p]
    ensures a !in order
  {
    assert a in order ==> a in free;
  }
}
