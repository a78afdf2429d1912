/** malloc and free of user/umalloc.c. Addresses count headers, so a block of `size` at `a` is the units from `a` up to
    `a + size`, its header first; a caller's memory starts one unit on. */
module Malloc {
  import opened Extents
  import opened FreeRing

  const NULL := 0
  const HEADER := 16
  const MORECORE := 4096

  class Heap {
    const base: int
    var mem: Memory
    var freep: int

    /** The free list from `base` on, the free and the live blocks, and all units got from sbrk. */
    ghost var order: seq<int>
    ghost var free: Ext
    ghost var live: Ext
    ghost var units: set<int>

    /** After the first call of malloc */
    ghost predicate Ready()
      reads this
    {
      && base > NULL && Ring(mem, order, base) && Sizes(mem, order, base, free) && Wf(free, base + 1)
      && Laid(live, base) && (forall a :: a in live ==> a in mem && mem[a].size == live[a])
      && Tiles(free, live, units) && freep in order
    }

    ghost predicate Valid()
      reads this
    {
      if freep == NULL then base > NULL && free == map[] && live == map[] && units == {} else Ready()
    }

    constructor (base: int)
      requires base > NULL
      ensures Valid() && freep == NULL && units == {} && this.base == base
    {
      this.base, mem, freep := base, map[], NULL;
      order, free, live, units := [], map[], map[], {};
    }

    /** The loop of free: finds the header after which `bp` belongs, by a walk of less than a lap */
    method FindPlace(bp: int) returns (p: int, ghost i: int)
      requires Ready() && base < bp && bp !in order
      ensures Before(order, i, bp) && p == order[i]
    {
      hide Sizes, Wf, Laid, Tiles, Linked;
      ghost var goal := PlaceOf(order, bp);
      i :| 0 <= i < |order| && order[i] == freep;
      p := freep;
      var found := false;
      Step(mem, order, base, i);
      while !(bp > p && bp < mem[p].ptr)
        invariant 0 <= i < |order| && p == order[i] && p in mem && mem[p].ptr == After(order, i)
        decreases Ahead(|order|, i, goal)
      {
        if p >= mem[p].ptr && (bp > p || bp < mem[p].ptr) {
          LastPlace(order, i, bp, goal);
          return;
        }
        Further(order, i, bp, goal);
        p := mem[p].ptr;
        i := if i + 1 < |order| then i + 1 else 0;
        Step(mem, order, base, i);
      }
      InnerPlace(order, i, bp, goal);
    }

    /** free, for the block whose header is at `bp` */
    method Free(bp: int)
      requires Ready() && bp in live
      modifies this
      ensures Ready() && live == old(live) - {bp} && units == old(units)
      ensures forall u :: Has(free, u) <==> old(Has(free, u)) || bp <= u < bp + old(live)[bp]
    {
      hide Ring, Sizes, Wf, Laid, Tiles, Before, Has, Joined, Reordered, Linked;
      ghost var m0, o0, f0, z := mem, order, free, bp + live[bp];
      LiveFacts(live, base, bp);
      LiveApart(f0, live, units, base, bp);
      NotListed(m0, o0, base, f0, bp);
      var p, i := FindPlace(bp);
      PlaceFacts(m0, o0, base, i, bp);
      Touching(m0, o0, base, f0, i, bp, z);
      NextFacts(m0, o0, base, f0, i, z);
      if bp + mem[bp].size == mem[p].ptr {
        mem := mem[bp := Header(mem[mem[p].ptr].ptr, mem[bp].size + mem[mem[p].ptr].size)];
      } else {
        mem := mem[bp := Header(mem[p].ptr, mem[bp].size)];
      }
      ghost var next := mem[bp].ptr;
      if p + mem[p].size == bp {
        mem := mem[p := Header(mem[bp].ptr, mem[p].size + mem[bp].size)];
      } else {
        mem := mem[p := Header(bp, mem[p].size)];
      }
      freep := p;
      PutRing(m0, o0, base, i, bp, z, next, End(f0, z) - bp);
      PutSizes(m0, o0, base, f0, i, bp, z, next);
      StillListed(m0, o0, i, bp, z);
      JoinedWf(f0, base + 1, bp, z, p);
      forall u ensures Has(Joined(f0, bp, z, p), u) <==> Has(f0, u) || bp <= u < z { JoinedHas(f0, base + 1, bp, z, p, u); }
      TilesFree(f0, live, units, base, bp, Joined(f0, bp, z, p));
      NotLive(m0, o0, base, f0, live, units, p);
      order, free, live := Reordered(m0, o0, i, bp, z), Joined(f0, bp, z, p), live - {bp};
    }

    /** morecore, where sbrk has given the memory at `brk` */
    method Morecore(nu: int, brk: int)
      requires Ready() && nu > 0 && base < brk && units !! Run(brk, brk + Grant(nu))
      modifies this
      ensures Ready() && live == old(live) && units == old(units) + Run(brk, brk + Grant(nu))
      ensures forall u :: Has(free, u) <==> old(Has(free, u)) || brk <= u < brk + Grant(nu)
    {
      hide Ring, Sizes, Wf, Has, Linked, Run, Laid, Tiles;
      ghost var n := Grant(nu);
      NewUnits(free, live, base, units, brk, n);
      NewHeader(mem, order, base, free, brk, n);
      mem := mem[brk := Header(if brk in mem then mem[brk].ptr else NULL, Grant(nu))];
      units, live := units + Run(brk, brk + n), live[brk := n];
      Free(brk);
      assert live == old(live);
    }

    /** The search of malloc, one lap at most from the header after `freep`, which it looks at last */
    method Search(nunits: int) returns (found: bool, prevp: int, p: int, ghost k: int)
      requires Ready() && nunits > 0
      // Next fit: what lies between the rover and the block found is too small.
      ensures found ==> exists f :: 0 <= f < |order| && order[f] == freep && Small(mem, order, k + 1, f, nunits)
      ensures found ==> 0 <= k && k + 1 < |order| && prevp == order[k] && p == order[k + 1] && p in free && free[p] >= nunits
      ensures !found ==> forall a :: a in free ==> free[a] < nunits
    {
      hide Ring, Sizes, Wf, Laid, Tiles, Linked, Small, Ascending;
      RingFacts(mem, order, base);
      ghost var f :| 0 <= f < |order| && order[f] == freep;
      ghost var n := |order|;
      k := f;
      prevp := freep;
      Step(mem, order, base, k);
      p := mem[prevp].ptr;
      ghost var j := Turn(n, k);
      Step(mem, order, base, j);
      SmallStart(mem, order, f, nunits);
      while true
        invariant 0 <= k < n && 0 <= j < n && j == Turn(n, k) && prevp == order[k] && p == order[j] && p in mem
        invariant Small(mem, order, j, f, nunits)
        decreases Ahead(n, j, f)
      {
        if mem[p].size >= nunits {
          ListedSize(mem, order, base, free, j);
          return true, prevp, p, k;
        }
        if p == freep {
          SameElement(order, j, f);
          AllSmall(mem, order, base, free, f, nunits);
          return false, prevp, p, k;
        }
        SmallStep(mem, order, j, f, nunits);
        prevp := p;
        Step(mem, order, base, j);
        p := mem[p].ptr;
        k := j;
        j := Turn(n, k);
        Step(mem, order, base, j);
      }
    }

    /** The end of malloc: the block is unlinked if it fits, and otherwise gives up its tail */
    method Take(prevp: int, p: int, nunits: int, ghost k: int) returns (a: int)
      requires Ready() && 0 <= k && k + 1 < |order| && prevp == order[k] && p == order[k + 1] && p in free && free[p] >= nunits > 0
      modifies this
      ensures Ready() && a !in old(live) && live == old(live)[a := nunits] && units == old(units) && freep == prevp
      ensures a == p + old(free)[p] - nunits
      ensures forall u :: a <= u < a + nunits ==> old(Has(free, u))
      ensures forall u :: Has(free, u) <==> old(Has(free, u)) && !(a <= u < a + nunits)
    {
      hide Ring, Sizes, Wf, Laid, Tiles, Linked, Has, Cut;
      ghost var m0, f0, next := mem, free, After(order, k + 1);
      ghost var f1: Ext;
      Unlinked(m0, order, base, f0, k, next);
      SizesAt(m0, order, base, f0, p);
      FreeFacts(f0, base, p, nunits);
      if mem[p].size == nunits {
        mem := mem[prevp := Header(mem[p].ptr, mem[prevp].size)];
        a, f1 := p, f0 - {p};
        Whole(f0, base + 1, p);
        order := Cut(order, k, true);
        assert forall u :: Has(f1, u) <==> Has(f0, u) && !(a <= u < a + nunits);
      } else {
        mem := mem[p := Header(mem[p].ptr, mem[p].size - nunits)];
        a := p + mem[p].size;
        mem := mem[a := Header(if a in mem then mem[a].ptr else NULL, nunits)];
        f1 := f0[p := f0[p] - nunits];
        Shrink(f0, base + 1, p, nunits);
        TailSplit(m0, order, base, f0, p, nunits);
        assert forall u :: Has(f1, u) <==> Has(f0, u) && !(a <= u < a + nunits);
      }
      TilesTake(f0, live, units, base, a, nunits, f1);
      NotLive(m0, old(order), base, f0, live, units, prevp);
      NotLive(m0, old(order), base, f0, live, units, p);
      free, live := f1, live[a := nunits];
      freep := prevp;
    }

    /** malloc, given what sbrk would answer: -1, or the address of new memory. The result is the address of a header, the
        caller's memory being the `nunits - 1` units after it, or NULL. */
    method Malloc(nbytes: nat, brk: int) returns (r: int)
      requires Valid() && (brk == -1 || (base < brk && units !! Run(brk, brk + Grant(Units(nbytes)))))
      modifies this
      ensures Ready() && HEADER * (Units(nbytes) - 1) >= nbytes && (nbytes == 0 || HEADER * (Units(nbytes) - 2) < nbytes)
      ensures r == NULL <==> brk == -1 && forall a :: a in old(free) ==> old(free)[a] < Units(nbytes)
      ensures r == NULL ==> live == old(live) && units == old(units)
      ensures r != NULL ==> r !in old(live) && live == old(live)[r := Units(nbytes)]
      // Memory is asked for only when no free block is large enough.
      ensures units == if brk != -1 && forall a :: a in old(free) ==> old(free)[a] < Units(nbytes)
                       then old(units) + Run(brk, brk + Grant(Units(nbytes))) else old(units)
    {
      hide Ring, Sizes, Wf, Laid, Tiles, Linked, Has, Run;
      var nunits := (nbytes + HEADER - 1) / HEADER + 1;
      if freep == NULL {
        mem := mem[base := Header(base, 0)];
        freep, order := base, [base];
        FirstRing(mem, base);
      }
      ghost var grown := false;
      while true
        invariant Ready() && live == old(live) && (grown ==> exists a :: a in free && free[a] >= nunits)
        invariant !grown ==> free == old(free) && units == old(units)
        invariant grown ==> brk != -1 && (forall a :: a in old(free) ==> old(free)[a] < nunits) && units == old(units) + Run(brk, brk + Grant(nunits))
        decreases !grown
      {
        var found, prevp, p, k := Search(nunits);
        if found {
          r := Take(prevp, p, nunits, k);
          LiveFacts(live, base, r);
          return;
        }
        if brk == -1 { return NULL; }
        Morecore(nunits, brk);
        BigEnough(free, base, brk, nunits);
        grown := true;
      }
    }
  }

  /** The units a request takes: one for the header, and no more than it takes to hold the bytes. */
  function Units(nbytes: nat): (n: int)
    ensures n >= 1 && HEADER * (n - 1) >= nbytes && (n > 1 ==> HEADER * (n - 2) < nbytes)
  {
    (nbytes + HEADER - 1) / HEADER + 1
  }

  lemma FreeFacts(free: Ext, base: int, p: int, nunits: int)
    requires Wf(free, base + 1) && p in free && free[p] >= nunits > 0
    ensures base < p && forall u :: p <= u < p + free[p] ==> Has(free, u)
  {
    forall u | p <= u < p + free[p] ensures Has(free, u) { HasBy(free, p, u); }
  }

  lemma TailSplit(mem: Memory, order: seq<int>, base: int, free: Ext, p: int, nunits: int)
    requires Ring(mem, order, base) && Sizes(mem, order, base, free) && Wf(free, base + 1) && p in free && 0 < nunits < free[p]
    ensures p in mem && base != p
    ensures var m := mem[p := Header(mem[p].ptr, mem[p].size - nunits)];
            var a := p + free[p] - nunits;
            var m' := m[a := Header(if a in m then m[a].ptr else NULL, nunits)];
            Ring(m', order, base) && Sizes(m', order, base, free[p := free[p] - nunits])
  {
    var m := mem[p := Header(mem[p].ptr, mem[p].size - nunits)];
    var a := p + free[p] - nunits;
    var m' := m[a := Header(if a in m then m[a].ptr else NULL, nunits)];
    InsideNotListed(order, base, free, mem, p, a);
    RingOwn(mem, order, base);
    RingFrame(mem, m', order, base);
    RingFacts(mem, order, base);
    assert base in order;
    hide Ring, Wf;
  }

  lemma FirstRing(mem: Memory, base: int)
    requires base in mem && mem[base] == Header(base, 0)
    ensures Ring(mem, [base], base) && Sizes(mem, [base], base, map[]) && Wf(map[], base + 1) && Laid(map[], base) && Tiles(map[], map[], {})
  {
    assert Linked(mem, [base], 0);
  }

  lemma NotPastEnd(free: Ext, base: int, a: int)
    requires Wf(free, base + 1) && a in free
    ensures !Has(free, a + free[a])
  {
  }

  /** The block morecore added is, alone or joined to others, large enough. */
  lemma BigEnough(free: Ext, base: int, brk: int, nunits: int)
    requires Wf(free, base + 1) && nunits > 0 && forall u :: brk <= u < brk + Grant(nunits) ==> Has(free, u)
    ensures exists a :: a in free && free[a] >= nunits
  {
    var a := Holder(free, brk);
    NotPastEnd(free, base, a);
    assert !Has(free, a + free[a]);
  }

  /** The place after `k`, around the end. */
  ghost function Turn(n: int, k: int): int {
    if k + 1 < n then k + 1 else 0
  }

  /** On a lap that ends at place `f`, the headers before place `j` are too small. */
  ghost predicate Small(mem: Memory, order: seq<int>, j: int, f: int, nunits: int) {
    forall x :: 0 <= x < |order| && Ahead(|order|, j, x) > Ahead(|order|, j, f) ==> order[x] in mem && mem[order[x]].size < nunits
  }

  lemma SmallStart(mem: Memory, order: seq<int>, f: int, nunits: int)
    requires 0 <= f < |order|
    ensures Small(mem, order, Turn(|order|, f), f, nunits)
  {
  }

  lemma SmallStep(mem: Memory, order: seq<int>, j: int, f: int, nunits: int)
    requires Small(mem, order, j, f, nunits) && 0 <= j < |order| && 0 <= f < |order| && j != f && order[j] in mem && mem[order[j]].size < nunits
    ensures Small(mem, order, Turn(|order|, j), f, nunits) && Ahead(|order|, Turn(|order|, j), f) < Ahead(|order|, j, f)
  {
    var n, j' := |order|, Turn(|order|, j);
    forall x | 0 <= x < n && Ahead(n, j', x) > Ahead(n, j', f) ensures order[x] in mem && mem[order[x]].size < nunits {
      assert x == j || Ahead(n, j, x) > Ahead(n, j, f);
    }
  }

  lemma AllSmall(mem: Memory, order: seq<int>, base: int, free: Ext, f: int, nunits: int)
    requires Sizes(mem, order, base, free) && 0 <= f < |order| && Small(mem, order, f, f, nunits) && order[f] in mem && mem[order[f]].size < nunits
    ensures forall a :: a in free ==> free[a] < nunits
  {
    forall a | a in free ensures free[a] < nunits {
      SizesAt(mem, order, base, free, a);
      var x :| 0 <= x < |order| && order[x] == a;
      assert x != f ==> Ahead(|order|, f, x) > Ahead(|order|, f, f);
    }
  }

  /** How much morecore asks for: what is wanted, but never less than 4096 units. */
  function Grant(nu: int): (n: int)
    ensures n >= nu && n >= 4096 && n in {nu, 4096}
  {
    if nu < MORECORE then MORECORE else nu
  }

  lemma NewHeader(mem: Memory, order: seq<int>, base: int, free: Ext, brk: int, n: int)
    requires Ring(mem, order, base) && Sizes(mem, order, base, free) && base < brk && brk !in free
    ensures var m := mem[brk := Header(if brk in mem then mem[brk].ptr else NULL, n)];
            Ring(m, order, base) && Sizes(m, order, base, free)
  {
    var m := mem[brk := Header(if brk in mem then mem[brk].ptr else NULL, n)];
    RingOwn(mem, order, base);
    RingFrame(mem, m, order, base);
    hide Ring;
  }

  lemma Outside(free: Ext, live: Ext, units: set<int>, brk: int, n: int, u: int)
    requires Tiles(free, live, units) && units !! Run(brk, brk + n) && brk <= u < brk + n
    ensures !Has(free, u) && !Has(live, u)
  {
    assert u in Run(brk, brk + n);
  }

  lemma LaidAdd(free: Ext, live: Ext, base: int, units: set<int>, brk: int, n: int)
    requires Laid(live, base) && Tiles(free, live, units) && base < brk && n > 0 && units !! Run(brk, brk + n)
    ensures brk !in live && Laid(live[brk := n], base)
  {
    hide Has, Run, Tiles;
    Outside(free, live, units, brk, n, brk);
    if brk in live { HasBy(live, brk, brk); }
    forall b | b in live ensures if brk < b then brk + n <= b else b + live[b] <= brk {
      HasBy(live, b, b);
      HasBy(live, b, brk);
      if brk <= b < brk + n { Outside(free, live, units, brk, n, b); }
    }
  }

  lemma TilesAdd(free: Ext, live: Ext, live': Ext, units: set<int>, units': set<int>, brk: int, n: int)
    requires Tiles(free, live, units)
    requires forall u :: Has(live', u) <==> Has(live, u) || brk <= u < brk + n
    requires forall u :: u in units' <==> u in units || brk <= u < brk + n
    requires forall u :: Has(free, u) ==> !(brk <= u < brk + n)
    ensures Tiles(free, live', units')
  {
    hide Has;
  }

  lemma NewUnits(free: Ext, live: Ext, base: int, units: set<int>, brk: int, n: int)
    requires Laid(live, base) && Wf(free, base + 1) && Tiles(free, live, units) && base < brk && n > 0 && units !! Run(brk, brk + n)
    ensures brk !in live && brk !in free && Laid(live[brk := n], base) && Tiles(free, live[brk := n], units + Run(brk, brk + n))
  {
    hide Has, Tiles, Run;
    LaidAdd(free, live, base, units, brk, n);
    Outside(free, live, units, brk, n, brk);
    if brk in free { HasBy(free, brk, brk); }
    hide Wf, Laid;
    var live', units' := live[brk := n], units + Run(brk, brk + n);
    forall u ensures Has(live', u) <==> Has(live, u) || brk <= u < brk + n { LiveAdd(live, brk, n, u); }
    forall u | Has(free, u) ensures !(brk <= u < brk + n) { if brk <= u < brk + n { Outside(free, live, units, brk, n, u); } }
    TilesAdd(free, live, live', units, units', brk, n);
  }

  lemma ListedSize(mem: Memory, order: seq<int>, base: int, free: Ext, j: int)
    requires Sizes(mem, order, base, free) && 0 <= j < |order| && order[j] in mem && mem[order[j]].size > 0 && order[0] == base && Ascending(order)
    ensures j > 0 && order[j] in free && free[order[j]] == mem[order[j]].size
  {
    assert order[j] in order;
  }

  lemma SameElement(order: seq<int>, i: int, j: int)
    requires Ascending(order) && 0 <= i < |order| && 0 <= j < |order| && order[i] == order[j]
    ensures i == j
  {
  }

  lemma LiveFacts(live: Ext, base: int, bp: int)
    requires Laid(live, base) && bp in live
    ensures base < bp && live[bp] > 0
  {
  }

  lemma NotListed(mem: Memory, order: seq<int>, base: int, free: Ext, bp: int)
    requires Sizes(mem, order, base, free) && bp !in free && base < bp
    ensures bp !in order
  {
  }

  lemma PlaceFacts(mem: Memory, order: seq<int>, base: int, i: int, bp: int)
    requires Ring(mem, order, base) && Before(order, i, bp)
    ensures 0 <= i < |order| && order[i] in mem && mem[order[i]].ptr == After(order, i) && order[i] in order && order[i] < bp
  {
    assert Linked(mem, order, i);
  }

  lemma NextFacts(mem: Memory, order: seq<int>, base: int, free: Ext, i: int, z: int)
    requires Ring(mem, order, base) && Sizes(mem, order, base, free) && 0 <= i < |order| && (Cuts(mem, order, i, z) <==> z in free)
    ensures Cuts(mem, order, i, z) ==> z in mem && mem[z].size == free[z] && mem[z].ptr == After(order, i + 1)
  {
    if Cuts(mem, order, i, z) { assert Linked(mem, order, i + 1); }
  }

  lemma StillListed(mem: Memory, order: seq<int>, i: int, bp: int, z: int)
    requires 0 <= i < |order| && order[i] in mem
    ensures order[i] in Reordered(mem, order, i, bp, z)
  {
    var o := Cut(order, i, Cuts(mem, order, i, z));
    CutAt(order, i, Cuts(mem, order, i, z), i);
    assert o[i] == order[i];
    AddHas(o, i, bp, order[i]);
  }

  /** A header in the list is not a live block's. */
  lemma NotLive(mem: Memory, order: seq<int>, base: int, free: Ext, live: Ext, units: set<int>, p: int)
    requires Sizes(mem, order, base, free) && Wf(free, base + 1) && Tiles(free, live, units) && Laid(live, base) && p in order
    ensures p !in live
  {
    if p in live {
      HasBy(live, p, p);
      if p in free { HasBy(free, p, p); }
    }
  }

  lemma Step(mem: Memory, order: seq<int>, base: int, i: int)
    requires Ring(mem, order, base) && 0 <= i < |order|
    ensures order[i] in mem && mem[order[i]].ptr == After(order, i)
  {
    assert Linked(mem, order, i);
  }

  /** At the step back, an address above the last header belongs there. */
  lemma LastPlace(order: seq<int>, i: int, bp: int, goal: int)
    requires Ascending(order) && Before(order, goal, bp) && order[0] < bp && 0 <= i < |order|
    requires order[i] >= After(order, i) && (bp > order[i] || bp < After(order, i))
    ensures i == goal
  {
  }

  lemma InnerPlace(order: seq<int>, i: int, bp: int, goal: int)
    requires Ascending(order) && Before(order, goal, bp) && order[0] < bp && 0 <= i < |order| && order[i] < bp < After(order, i)
    ensures i == goal
  {
  }

  /** Where the walk does not stop, the place is still ahead. */
  lemma Further(order: seq<int>, i: int, bp: int, goal: int)
    requires Ascending(order) && Before(order, goal, bp) && 0 <= i < |order|
    requires !(order[i] < bp < After(order, i)) && !(order[i] >= After(order, i) && (bp > order[i] || bp < After(order, i)))
    ensures i != goal
  {
  }
}
