/** Free extents as values: maps from a first block to a length. */
module Extents {

  type Ext = map<int, int>

  /** Non-empty, from `base` on, in ascending order and never touching. */
  ghost predicate Wf(m: Ext, base: int) {
    && (forall s :: s in m ==> base <= s && m[s] > 0)
    && (forall s, t :: s in m && t in m && s < t ==> s + m[s] < t)
  }

  ghost predicate Has(m: Ext, b: int) {
    exists s :: s in m && s <= b < s + m[s]
  }

  /** The extents cover exactly these blocks. */
  ghost predicate Covers(m: Ext, blocks: set<int>) {
    forall b :: b in blocks <==> Has(m, b)
  }

  ghost function Run(a: int, z: int): (r: set<int>)
    ensures forall b :: b in r <==> a <= b < z
    ensures |r| == if a < z then z - a else 0
    decreases z - a
  {
    if a < z then Run(a, z - 1) + {z - 1} else {}
  }

  lemma Holder(m: Ext, b: int) returns (s: int)
    requires Has(m, b)
    ensures s in m && s <= b < s + m[s]
  {
    s :| s in m && s <= b < s + m[s];
  }

  ghost predicate IsFloor(m: Ext, b: int, k: int) {
    k in m && k <= b && forall t :: t in m && t <= b ==> t <= k
  }

  ghost predicate IsCeiling(m: Ext, b: int, k: int) {
    k in m && b <= k && forall t :: t in m && b <= t ==> k <= t
  }

  /** Only the extent that starts last at or before a block can hold it. */
  lemma FloorHolds(m: Ext, base: int, b: int, k: int)
    requires Wf(m, base) && IsFloor(m, b, k)
    ensures Has(m, b) <==> b < k + m[k]
  {
  }

  /** The blocks next to an extent are in none. */
  lemma Edges(m: Ext, base: int, s: int)
    requires Wf(m, base) && s in m
    ensures Has(m, s) && !Has(m, s - 1) && !Has(m, s + m[s])
  {
  }

  lemma Inside(m: Ext, s: int, b: int)
    requires s in m && s <= b < s + m[s]
    ensures Has(m, b)
  {
  }

  lemma CanonicalHalf(m: Ext, n: Ext, base: int, blocks: set<int>, s: int)
    requires Wf(m, base) && Wf(n, base) && Covers(m, blocks) && Covers(n, blocks) && s in m
    ensures s in n && m[s] <= n[s]
  {
    hide Has, Wf;
    Edges(m, base, s);
    assert s in blocks;
    var t := Holder(n, s);
    if t < s { Inside(n, t, s - 1); }
    Edges(n, base, t);
    if t + n[t] < s + m[s] { Inside(m, s, t + n[t]); }
  }

  /** Extents that cover the same blocks are the same extents: each is a longest run. */
  lemma Canonical(m: Ext, n: Ext, base: int, blocks: set<int>)
    requires Wf(m, base) && Wf(n, base) && Covers(m, blocks) && Covers(n, blocks)
    ensures m == n
  {
    forall s | s in m ensures s in n && m[s] == n[s] {
      CanonicalHalf(m, n, base, blocks, s);
      CanonicalHalf(n, m, base, blocks, s);
    }
    forall s | s in n ensures s in m { CanonicalHalf(n, m, base, blocks, s); }
  }

  // ---------- one extent less, one extent more ----------

  lemma DropHas(m: Ext, base: int, s: int, b: int)
    requires Wf(m, base) && s in m
    ensures Has(m - {s}, b) <==> Has(m, b) && !(s <= b < s + m[s])
  {
    var m' := m - {s};
    if Has(m, b) {
      var t := Holder(m, b);
      assert t != s ==> t in m' && t <= b < t + m'[t];
    }
    if Has(m', b) {
      var t := Holder(m', b);
      assert t in m && t <= b < t + m[t];
    }
  }

  lemma PutHas(m: Ext, s: int, z: int, b: int)
    requires s < z && s !in m
    ensures Has(m[s := z - s], b) <==> Has(m, b) || s <= b < z
  {
    var m' := m[s := z - s];
    if Has(m', b) {
      var t := Holder(m', b);
      assert t != s ==> t in m && t <= b < t + m[t];
    }
    if Has(m, b) {
      var t := Holder(m, b);
      assert t in m' && t <= b < t + m'[t];
    }
    if s <= b < z { assert s in m' && s <= b < s + m'[s]; }
  }

  lemma PutWf(m: Ext, base: int, s: int, z: int)
    requires Wf(m, base) && base <= s < z
    requires forall t :: t in m && t != s ==> t + m[t] < s || z < t
    ensures Wf(m[s := z - s], base)
  {
    var m' := m[s := z - s];
    forall t, u | t in m' && u in m' && t < u ensures t + m'[t] < u {
      assert t == s || t in m;
      assert u == s || u in m;
    }
  }

  lemma ReplaceHas(m: Ext, base: int, s: int, z: int, b: int)
    requires Wf(m, base) && s in m && s < z
    ensures Has(m[s := z - s], b) <==> (Has(m, b) && !(s <= b < s + m[s])) || s <= b < z
  {
    DropHas(m, base, s, b);
    PutHas(m - {s}, s, z, b);
    assert (m - {s})[s := z - s] == m[s := z - s];
  }

  // ---------- adding a run that is not covered ----------

  ghost predicate Apart(m: Ext, a: int, z: int) {
    a < z && forall s :: s in m ==> s + m[s] <= a || z <= s
  }

  lemma ApartFrom(m: Ext, base: int, blocks: set<int>, a: int, z: int)
    requires Wf(m, base) && Covers(m, blocks) && a < z && blocks !! Run(a, z)
    ensures Apart(m, a, z)
  {
    forall s | s in m ensures s + m[s] <= a || z <= s {
      var b := if s < a then a else s;
      assert b in Run(a, z) ==> !Has(m, b);
    }
  }

  ghost function End(m: Ext, z: int): int { if z in m then z + m[z] else z }

  /** What adding the run a..z makes of the extents: it joins the extent that ends at `a` and the one
      that starts at `z`, if there are such. */
  ghost function Joined(m: Ext, a: int, z: int, prev: int): Ext {
    (m - {z})[if prev in m && prev + m[prev] == a then prev else a :=
              End(m, z) - if prev in m && prev + m[prev] == a then prev else a]
  }

  lemma JoinedHas(m: Ext, base: int, a: int, z: int, prev: int, b: int)
    requires Wf(m, base) && Apart(m, a, z) && base <= a
    ensures Has(Joined(m, a, z, prev), b) <==> Has(m, b) || a <= b < z
  {
    var m', end := m - {z}, End(m, z);
    if z in m { DropHas(m, base, z, b); } else { assert m' == m; }
    assert Wf(m', base);
    if prev in m && prev + m[prev] == a {
      ReplaceHas(m', base, prev, end, b);
      if prev <= b < a { assert prev in m && prev <= b < prev + m[prev]; }
    } else {
      PutHas(m', a, end, b);
    }
    if z <= b < end { assert z in m && z <= b < z + m[z]; }
  }

  lemma JoinedWf(m: Ext, base: int, a: int, z: int, prev: int)
    requires Wf(m, base) && Apart(m, a, z) && base <= a
    requires forall s :: s in m && s + m[s] == a ==> s == prev
    ensures Wf(Joined(m, a, z, prev), base)
  {
    PutWf(m - {z}, base, if prev in m && prev + m[prev] == a then prev else a, End(m, z));
  }

  lemma JoinedCovers(m: Ext, base: int, blocks: set<int>, a: int, z: int, prev: int)
    requires Wf(m, base) && Covers(m, blocks) && Apart(m, a, z) && base <= a
    requires forall s :: s in m && s + m[s] == a ==> s == prev
    ensures Wf(Joined(m, a, z, prev), base) && Covers(Joined(m, a, z, prev), blocks + Run(a, z))
  {
    JoinedWf(m, base, a, z, prev);
    hide Has, Wf, Apart, Joined;
    forall b ensures b in blocks + Run(a, z) <==> Has(Joined(m, a, z, prev), b) { JoinedHas(m, base, a, z, prev, b); }
  }

  /** No extent ends at `a`. */
  ghost predicate NoneEnds(m: Ext, a: int) { forall s :: s in m ==> s + m[s] != a }

  /** No extent starts in a..z. */
  ghost predicate NoneStarts(m: Ext, a: int, z: int) { forall t :: t in m ==> t < a || z <= t }

  lemma KeyCount(m: Ext, z: int, k: int, v: int)
    ensures |(m - {z})[k := v]| == |m| - (if z in m then 1 else 0) + (if k in m && k != z then 0 else 1)
  {
    assert (m - {z})[k := v].Keys == (m.Keys - {z}) + {k};
  }

  lemma UpdateTwice(m: Ext, z: int, k: int, v: int)
    requires k != z
    ensures End(m[k := v], z) == End(m, z)
    ensures (m[k := v] - {z})[k := End(m, z) - k] == (m - {z})[k := End(m, z) - k]
  {
  }

  lemma StartsStill(m: Ext, k: int, z: int, v: int)
    requires NoneStarts(m, k + 1, z)
    ensures NoneStarts(m[k := v], k + 1, z)
  {
  }

  lemma OnlyOneEnds(m: Ext, base: int, a: int, z: int, prev: int)
    requires Wf(m, base) && prev in m && prev + m[prev] == a && Apart(m, a, z)
    ensures forall s :: s in m && s + m[s] == a ==> s == prev
    ensures base <= a && prev < a && prev != z && NoneStarts(m, prev + 1, z)
  {
  }

  /** The run follows the extent `prev`. */
  lemma JoinedAfter(m: Ext, base: int, blocks: set<int>, a: int, z: int, prev: int)
    requires Wf(m, base) && Covers(m, blocks) && prev in m && prev + m[prev] == a < z && blocks !! Run(a, z)
    ensures var m' := (m - {z})[prev := End(m, z) - prev];
      && Wf(m', base) && Covers(m', blocks + Run(a, z)) && |m'| == if z in m then |m| - 1 else |m|
    ensures prev < a && |blocks + Run(a, z)| == |blocks| + (z - a) && NoneStarts(m, prev + 1, z)
  {
    hide Wf, Covers, Run, Apart, End, NoneStarts;
    ApartFrom(m, base, blocks, a, z);
    OnlyOneEnds(m, base, a, z, prev);
    JoinedCovers(m, base, blocks, a, z, prev);
    KeyCount(m, z, prev, End(m, z) - prev);
  }

  lemma StartsApart(m: Ext, base: int, a: int, z: int)
    requires Wf(m, base) && Apart(m, a, z)
    ensures a !in m && a != z && NoneStarts(m, a, z)
  {
  }

  /** The run follows no extent but precedes one. */
  lemma JoinedMove(m: Ext, base: int, blocks: set<int>, a: int, z: int)
    requires Wf(m, base) && Covers(m, blocks) && base <= a < z && blocks !! Run(a, z) && NoneEnds(m, a) && z in m
    ensures var m' := (m - {z})[a := z + m[z] - a];
      && Wf(m', base) && Covers(m', blocks + Run(a, z)) && |m'| == |m| && a !in m
    ensures |blocks + Run(a, z)| == |blocks| + (z - a)
  {
    hide Wf, Covers, Run, Apart, NoneStarts, Joined, NoneEnds;
    ApartFrom(m, base, blocks, a, z);
    StartsApart(m, base, a, z);
    EndsNone(m, a);
    JoinedCovers(m, base, blocks, a, z, a);
    JoinedMoved(m, a, z);
    KeyCount(m, z, a, z + m[z] - a);
  }

  lemma EndsNone(m: Ext, a: int)
    requires NoneEnds(m, a)
    ensures forall s :: s in m && s + m[s] == a ==> s == a
  {
  }

  lemma JoinedMoved(m: Ext, a: int, z: int)
    requires a !in m && z in m
    ensures Joined(m, a, z, a) == (m - {z})[a := z + m[z] - a]
  {
  }

  lemma JoinedPlain(m: Ext, a: int, z: int)
    requires a !in m && z !in m
    ensures Joined(m, a, z, a) == m[a := z - a] && |m[a := z - a]| == |m| + 1
  {
    assert m - {z} == m;
    KeyCount(m, z, a, z - a);
  }

  /** The run touches no extent. */
  lemma JoinedNew(m: Ext, base: int, blocks: set<int>, a: int, z: int)
    requires Wf(m, base) && Covers(m, blocks) && base <= a < z && blocks !! Run(a, z) && NoneEnds(m, a) && z !in m
    ensures var m' := m[a := z - a];
      && Wf(m', base) && Covers(m', blocks + Run(a, z)) && |m'| == |m| + 1 && a !in m
    ensures |blocks + Run(a, z)| == |blocks| + (z - a)
  {
    hide Wf, Covers, Run, Apart, NoneStarts;
    ApartFrom(m, base, blocks, a, z);
    StartsApart(m, base, a, z);
    JoinedCovers(m, base, blocks, a, z, a);
    JoinedPlain(m, a, z);
  }

  /** Only an extent that starts at `z` can start first at or after the run. */
  lemma CeilingStarts(m: Ext, base: int, blocks: set<int>, a: int, z: int, k: int)
    requires Wf(m, base) && Covers(m, blocks) && a < z && blocks !! Run(a, z)
    requires if k in m then IsCeiling(m, a, k) else forall t :: t in m ==> t < a
    ensures z in m <==> k in m && k == z
  {
    hide Covers, Run;
    ApartFrom(m, base, blocks, a, z);
    StartsApart(m, base, a, z);
  }

  /** Taking the last block of an extent. */
  ghost function Shortened(m: Ext, s: int): Ext
    requires s in m
  {
    if m[s] == 1 then m - {s} else m[s := m[s] - 1]
  }

  lemma ShortenedHas(m: Ext, base: int, s: int, b: int)
    requires Wf(m, base) && s in m
    ensures Has(Shortened(m, s), b) <==> Has(m, b) && b != s + m[s] - 1
  {
    if m[s] == 1 {
      DropHas(m, base, s, b);
    } else {
      ReplaceHas(m, base, s, s + m[s] - 1, b);
      if s <= b < s + m[s] - 1 { assert s in m && s <= b < s + m[s]; }
    }
  }

  lemma ShortenedCovers(m: Ext, base: int, blocks: set<int>, s: int)
    requires Wf(m, base) && Covers(m, blocks) && s in m
    ensures Wf(Shortened(m, s), base) && Covers(Shortened(m, s), blocks - {s + m[s] - 1}) && s + m[s] - 1 in blocks
    ensures |Shortened(m, s)| == if m[s] == 1 then |m| - 1 else |m|
  {
    assert (m - {s}).Keys == m.Keys - {s};
    assert m[s := m[s] - 1].Keys == m.Keys;
    assert Has(m, s + m[s] - 1);
    if m[s] > 1 { PutWf(m, base, s, s + m[s] - 1); }
    forall b ensures b in blocks - {s + m[s] - 1} <==> Has(Shortened(m, s), b) { ShortenedHas(m, base, s, b); }
  }

  // ---------- what the neighbours of a run tell ----------

  /** If the extent starting last at or before `a` does not end at `a`, none does. */
  lemma NoneEndsAt(m: Ext, base: int, a: int, k: int)
    requires Wf(m, base) && (k in m ==> IsFloor(m, a, k) && k + m[k] != a)
    requires k !in m ==> forall t :: t in m ==> t > a
    ensures NoneEnds(m, a)
  {
  }

  /** A block is covered exactly by the extent that starts last at or before it. */
  lemma Containing(m: Ext, base: int, blocks: set<int>, b: int, k: int)
    requires Wf(m, base) && Covers(m, blocks)
    requires if k in m then IsFloor(m, b, k) else forall t :: t in m ==> t > b
    ensures b in blocks <==> k in m && b < k + m[k]
  {
    if k in m { FloorHolds(m, base, b, k); }
  }

  lemma Starts(m: Ext, base: int, k: int)
    requires Wf(m, base) && k in m
    ensures m[k] > 0
  {
  }

  /** If a block is not covered and no extent starts after it, all covered blocks are before it. */
  lemma AllBefore(m: Ext, base: int, blocks: set<int>, h: int)
    requires Wf(m, base) && Covers(m, blocks) && h !in blocks && forall t :: t in m ==> t < h
    ensures forall x :: x in blocks ==> x < h
  {
    forall x | x in blocks ensures x < h {
      var k := Holder(m, x);
      assert h < k + m[k] ==> Has(m, h);
    }
  }

  lemma FirstExtent(m: Ext, base: int, k: int)
    requires Wf(m, base) && k in m
    ensures (forall t :: t in m ==> k <= t) ==> forall t :: t in m ==> k + m[k] <= t + m[t]
  {
  }

  lemma LastExtent(m: Ext, base: int, blocks: set<int>, k: int)
    requires Wf(m, base) && Covers(m, blocks) && k in m && forall t :: t in m ==> t <= k
    ensures forall x :: x in blocks ==> x <= k + m[k] - 1
  {
    forall x | x in blocks ensures x <= k + m[k] - 1 {
      var t := Holder(m, x);
    }
  }

  /** Block `b` is the last of the first run of free blocks at or after `h`. */
  ghost predicate FirstRunEnd(blocks: set<int>, h: int, b: int) {
    h <= b && b in blocks && b + 1 !in blocks && forall x, y :: x in blocks && h <= x <= y <= b ==> y in blocks
  }

  lemma RunEnd(m: Ext, base: int, blocks: set<int>, k: int, h: int)
    requires Wf(m, base) && Covers(m, blocks) && k in m && (k <= h < k + m[k] || (h !in blocks && IsCeiling(m, h, k)))
    ensures FirstRunEnd(blocks, h, k + m[k] - 1)
  {
    var b := k + m[k] - 1;
    assert Has(m, b);
    if b + 1 in blocks { var t := Holder(m, b + 1); }
    forall x, y | x in blocks && h <= x <= y <= b ensures y in blocks {
      var t := Holder(m, x);
      assert t < h < t + m[t] ==> Has(m, h);
      assert Has(m, y);
    }
  }
}
