/** Pure shapes of red-black trees: a tree, a path down to one of its subtrees
    (the zipper that a climbing loop walks), and the red-black conditions on both.
    The heap predicates of `RbTree` tie pointers to these values. */
module RbShape {
  import opened Basics

  datatype Shape<T> = Leaf | Fork(left: Shape<T>, elem: T, black: bool, right: Shape<T>)

  /** The part of a tree around a hole. `up` is the rest of the way to the root. */
  datatype Path<T> =
    | Top
    | InLeft(up: Path<T>, elem: T, black: bool, right: Shape<T>)
    | InRight(left: Shape<T>, elem: T, black: bool, up: Path<T>)

  ghost function Plug<T>(p: Path<T>, s: Shape<T>): Shape<T> {
    match p
    case Top => s
    case InLeft(up, e, b, r) => Plug(up, Fork(s, e, b, r))
    case InRight(l, e, b, up) => Plug(up, Fork(l, e, b, s))
  }

  /** The subtree one level up. */
  ghost function Outer<T>(p: Path<T>, s: Shape<T>): Shape<T>
    requires !p.Top?
  {
    if p.InLeft? then Fork(s, p.elem, p.black, p.right) else Fork(p.left, p.elem, p.black, s)
  }

  ghost function InOrder<T>(s: Shape<T>): seq<T> {
    match s
    case Leaf => []
    case Fork(l, e, _, r) => InOrder(l) + [e] + InOrder(r)
  }

  ghost function Elems<T>(s: Shape<T>): set<T> {
    match s
    case Leaf => {}
    case Fork(l, e, _, r) => Elems(l) + {e} + Elems(r)
  }

  ghost function PathElems<T>(p: Path<T>): set<T> {
    match p
    case Top => {}
    case InLeft(up, e, _, r) => PathElems(up) + {e} + Elems(r)
    case InRight(l, e, _, up) => Elems(l) + {e} + PathElems(up)
  }

  /** The path `q` continued by `p` above its top. */
  ghost function Append<T>(q: Path<T>, p: Path<T>): Path<T> {
    match q
    case Top => p
    case InLeft(up, e, b, r) => InLeft(Append(up, p), e, b, r)
    case InRight(l, e, b, up) => InRight(l, e, b, Append(up, p))
  }

  lemma {:induction false} PlugAppend<T>(q: Path<T>, p: Path<T>, s: Shape<T>)
    ensures Plug(Append(q, p), s) == Plug(p, Plug(q, s))
    decreases q
  {
    if q.InLeft? { PlugAppend(q.up, p, Fork(s, q.elem, q.black, q.right)); }
    if q.InRight? { PlugAppend(q.up, p, Fork(q.left, q.elem, q.black, s)); }
  }

  /** A path whose outermost node is dyed black. */
  ghost function DyedTop<T>(q: Path<T>): Path<T>
    requires !q.Top?
  {
    if q.up.Top? then q.(black := true) else q.(up := DyedTop(q.up))
  }

  lemma {:induction false} PlugDyedTop<T>(q: Path<T>, s: Shape<T>)
    requires !q.Top?
    ensures Plug(DyedTop(q), s) == Dyed(Plug(q, s), true)
    decreases q
  {
    if !q.up.Top? { PlugDyedTop(q.up, Outer(q, s)); }
  }

  /** Filling a proper hole does not change the root. */
  lemma {:induction false} PlugRoot<T>(p: Path<T>, a: Shape<T>, b: Shape<T>)
    requires !p.Top?
    ensures Plug(p, a).Fork? && Plug(p, b).Fork?
    ensures Plug(p, a).elem == Plug(p, b).elem && Plug(p, a).black == Plug(p, b).black
    decreases p
  {
    if !p.up.Top? { PlugRoot(p.up, Outer(p, a), Outer(p, b)); }
  }

  /** One level of a path, on its own. */
  ghost function Step<T>(p: Path<T>): Path<T>
    requires !p.Top?
  {
    p.(up := Top)
  }

  /** The subtree beside a hole. */
  ghost function Brother<T>(p: Path<T>): Shape<T>
    requires !p.Top?
  {
    if p.InLeft? then p.right else p.left
  }

  /** What comes before and after the hole in order. */
  ghost function Before<T>(p: Path<T>): seq<T> {
    match p
    case Top => []
    case InLeft(up, _, _, _) => Before(up)
    case InRight(l, e, _, up) => Before(up) + InOrder(l) + [e]
  }

  ghost function After<T>(p: Path<T>): seq<T> {
    match p
    case Top => []
    case InLeft(up, e, _, r) => [e] + InOrder(r) + After(up)
    case InRight(_, _, _, up) => After(up)
  }

  ghost function Depth<T>(p: Path<T>): nat {
    if p.Top? then 0 else 1 + Depth(p.up)
  }

  ghost function RotatedLeft<T>(s: Shape<T>): Shape<T> {
    if s.Fork? && s.right.Fork?
    then Fork(Fork(s.left, s.elem, s.black, s.right.left), s.right.elem, s.right.black, s.right.right)
    else s
  }

  ghost function RotatedRight<T>(s: Shape<T>): Shape<T> {
    if s.Fork? && s.left.Fork?
    then Fork(s.left.left, s.left.elem, s.left.black, Fork(s.left.right, s.elem, s.black, s.right))
    else s
  }

  ghost function Dyed<T>(s: Shape<T>, black: bool): Shape<T> {
    if s.Leaf? then s else Fork(s.left, s.elem, black, s.right)
  }

  ghost function WithBlackKids<T>(s: Shape<T>): Shape<T>
    requires s.Fork?
  {
    s.(left := Dyed(s.left, true), right := Dyed(s.right, true))
  }

  lemma RotationKeepsOrder<T>(s: Shape<T>)
    ensures InOrder(RotatedLeft(s)) == InOrder(s)
    ensures InOrder(RotatedRight(s)) == InOrder(s)
  {
  }

  /** `b` is `a` with `x` put in at one place. */
  ghost predicate OneMore<T>(a: seq<T>, b: seq<T>, x: T) {
    exists i :: 0 <= i <= |a| && b == InsertAt(a, i, x)
  }

  ghost function InsertAt<T>(a: seq<T>, i: nat, x: T): seq<T>
    requires i <= |a|
  {
    a[..i] + [x] + a[i..]
  }

  lemma {:induction false} InOrderElems<T>(s: Shape<T>, x: T)
    ensures x in Elems(s) <==> x in InOrder(s)
  {
    if s.Fork? { InOrderElems(s.left, x); InOrderElems(s.right, x); }
  }

  lemma {:induction false} PathOrderElems<T>(p: Path<T>, x: T)
    ensures x in PathElems(p) <==> x in Before(p) || x in After(p)
  {
    match p
    case Top =>
    case InLeft(up, e, _, r) => PathOrderElems(up, x); InOrderElems(r, x);
    case InRight(l, e, _, up) => PathOrderElems(up, x); InOrderElems(l, x);
  }

  lemma ElemsGrow<T>(s: Shape<T>, s': Shape<T>, a: seq<T>, n: T, b: seq<T>)
    requires InOrder(s) == a + b && InOrder(s') == a + [n] + b
    ensures Elems(s') == Elems(s) + {n}
  {
    forall x | x in Elems(s') + Elems(s) + {n} ensures x in Elems(s') && x in Elems(s) + {n} {
      InOrderElems(s, x);
      InOrderElems(s', x);
    }
  }

  /** Filling the hole puts its elements between those before and after it. */
  lemma {:induction false} PlugInOrder<T>(p: Path<T>, s: Shape<T>)
    ensures InOrder(Plug(p, s)) == Before(p) + InOrder(s) + After(p)
    decreases p
  {
    match p
    case Top =>
    case InLeft(up, e, b, r) => PlugInOrder(up, Fork(s, e, b, r));
    case InRight(l, e, b, up) => PlugInOrder(up, Fork(l, e, b, s));
  }

  lemma OuterOrder<T>(p: Path<T>, s: Shape<T>)
    requires !p.Top?
    ensures Before(p.up) + InOrder(Outer(p, s)) + After(p.up) == Before(p) + InOrder(s) + After(p)
  {
  }

  lemma Around<T>(p: Path<T>, s: Shape<T>)
    requires s.Fork?
    ensures Before(p) + InOrder(s) + After(p) == (Before(p) + InOrder(s.left)) + [s.elem] + (InOrder(s.right) + After(p))
  {
    var l, r := InOrder(s.left), InOrder(s.right);
    assert InOrder(s) == l + [s.elem] + r;
    hide InOrder, Before, After;
    Regroup(Before(p), l, s.elem, r, After(p));
  }

  lemma Regroup<T>(a: seq<T>, l: seq<T>, e: T, r: seq<T>, b: seq<T>)
    ensures a + (l + [e] + r) + b == (a + l) + [e] + (r + b)
  {
  }

  lemma {:induction false} PlugElems<T>(p: Path<T>, s: Shape<T>)
    ensures Elems(Plug(p, s)) == PathElems(p) + Elems(s)
    decreases p
  {
    match p
    case Top =>
    case InLeft(up, e, b, r) => PlugElems(up, Fork(s, e, b, r));
    case InRight(l, e, b, up) => PlugElems(up, Fork(l, e, b, s));
  }

  lemma DistinctSplit<T>(a: seq<T>, b: seq<T>)
    requires Distinct(a + b)
    ensures Distinct(a) && Distinct(b) && forall x :: x in a ==> x !in b
  {
    assert forall i :: 0 <= i < |a| ==> a[i] == (a + b)[i];
    assert forall i :: 0 <= i < |b| ==> b[i] == (a + b)[|a| + i];
  }

  lemma DistinctSplit3<T>(a: seq<T>, b: seq<T>, c: seq<T>)
    requires Distinct(a + b + c)
    ensures Distinct(a) && Distinct(b) && Distinct(c)
    ensures forall x :: x in a ==> x !in b && x !in c
    ensures forall x :: x in b ==> x !in c
  {
    DistinctSplit(a + b, c);
    DistinctSplit(a, b);
    assert forall x :: x in a || x in b ==> x in a + b;
  }

  /** Without duplicates, a path and the subtree in its hole are disjoint... */
  lemma Apart<T>(p: Path<T>, s: Shape<T>)
    requires Distinct(Before(p) + InOrder(s) + After(p))
    ensures Distinct(InOrder(s)) && PathElems(p) !! Elems(s)
  {
    DistinctSplit3(Before(p), InOrder(s), After(p));
    forall x | x in Elems(s) ensures x !in PathElems(p) {
      InOrderElems(s, x);
      PathOrderElems(p, x);
    }
  }

  /** ...and so are the three parts of a subtree. */
  lemma ForkApart<T>(l: Shape<T>, e: T, r: Shape<T>)
    requires Distinct(InOrder(l) + [e] + InOrder(r))
    ensures Elems(l) !! Elems(r) && e !in Elems(l) && e !in Elems(r)
    ensures Distinct(InOrder(l)) && Distinct(InOrder(r))
  {
    DistinctSplit3(InOrder(l), [e], InOrder(r));
    forall x | x in Elems(l) ensures x !in Elems(r) {
      InOrderElems(l, x);
      InOrderElems(r, x);
    }
    InOrderElems(l, e);
    InOrderElems(r, e);
  }

  lemma RotateApart<T>(a: Shape<T>, x: T, b: Shape<T>, y: T, c: Shape<T>)
    requires Distinct(InOrder(a) + [x] + (InOrder(b) + [y] + InOrder(c)))
    ensures x != y && Elems(a) !! Elems(b) !! Elems(c)
    ensures x !in Elems(a) + Elems(b) + Elems(c) && y !in Elems(a) + Elems(b) + Elems(c)
    ensures Distinct(InOrder(b))
  {
    var r := Fork(b, y, true, c);
    ForkApart(a, x, r);
    ForkApart(b, y, c);
  }

  /** The frame just above a hole is apart from its other subtree and from the rest of the path. */
  lemma PathApart<T>(p: Path<T>)
    requires !p.Top? && Distinct(Before(p) + After(p))
    ensures Distinct(Before(p.up) + After(p.up))
    ensures p.elem !in PathElems(p.up)
    ensures p.InLeft? ==> p.elem !in Elems(p.right) && PathElems(p.up) !! Elems(p.right)
    ensures p.InRight? ==> p.elem !in Elems(p.left) && PathElems(p.up) !! Elems(p.left)
  {
    var s := if p.InLeft? then Fork(Leaf, p.elem, p.black, p.right)
                          else Fork(p.left, p.elem, p.black, Leaf);
    assert Before(p) + After(p) == Before(p.up) + InOrder(s) + After(p.up);
    Apart(p.up, s);
    ForkApart(s.left, s.elem, s.right);
    DistinctWithout(Before(p.up), InOrder(s), After(p.up));
  }

  lemma DistinctWithout<T>(a: seq<T>, b: seq<T>, c: seq<T>)
    requires Distinct(a + b + c)
    ensures Distinct(a + c)
  {
    forall i, j | 0 <= i < j < |a + c| ensures (a + c)[i] != (a + c)[j] {
      var i' := if i < |a| then i else i + |b|;
      var j' := if j < |a| then j else j + |b|;
      assert (a + b + c)[i'] == (a + c)[i] && (a + b + c)[j'] == (a + c)[j];
    }
  }

  lemma DistinctInsert<T>(a: seq<T>, n: T, b: seq<T>)
    requires Distinct(a + b) && n !in a + b
    ensures Distinct(a + [n] + b)
  {
    var t, o := a + [n] + b, a + b;
    forall i, j | 0 <= i < j < |t| ensures t[i] != t[j] {
      if i != |a| { assert t[i] == o[if i < |a| then i else i - 1]; }
      if j != |a| { assert t[j] == o[if j < |a| then j else j - 1]; }
    }
  }

  lemma DistinctReplace<T>(a: seq<T>, e: T, b: seq<T>, n: T)
    requires Distinct(a + [e] + b) && n !in a + [e] + b
    ensures Distinct(a + [n] + b)
  {
    var s := a + [e] + b;
    var t := a + [n] + b;
    assert t == s[|a| := n];
    forall i, j | 0 <= i < j < |t| ensures t[i] != t[j] {
      assert s[i] != s[j] && s[i] != n && s[j] != n;
    }
  }

  lemma UniqueSplit<T>(a: seq<T>, x: T, b: seq<T>, a': seq<T>, b': seq<T>)
    requires a + [x] + b == a' + [x] + b' && Distinct(a + [x] + b)
    ensures a == a' && b == b'
  {
    var s := a + [x] + b;
    assert s[|a|] == x && s[|a'|] == x;
    assert |a| == |a'|;
    assert a == s[..|a|] && a' == s[..|a'|] && b == s[|a| + 1..] && b' == s[|a'| + 1..];
  }

  lemma OneMoreDistinct<T>(a: seq<T>, b: seq<T>, x: T)
    requires OneMore(a, b, x) && Distinct(b)
    ensures Distinct(a) && x !in a
  {
    var i :| 0 <= i <= |a| && b == InsertAt(a, i, x);
    DistinctWithout(a[..i], [x], a[i..]);
    assert a == a[..i] + a[i..];
    DistinctSplit3(a[..i], [x], a[i..]);
  }

  /** A tree with one element less in its order has that element less. */
  lemma Lost<T>(s: Shape<T>, s': Shape<T>, x: T)
    requires OneMore(InOrder(s), InOrder(s'), x) && Distinct(InOrder(s'))
    ensures Elems(s) == Elems(s') - {x} && x in Elems(s') && x !in InOrder(s)
  {
    var a := InOrder(s);
    OneMoreDistinct(a, InOrder(s'), x);
    var i :| 0 <= i <= |a| && InOrder(s') == InsertAt(a, i, x);
    assert a == a[..i] + a[i..];
    ElemsGrow(s, s', a[..i], x, a[i..]);
    InOrderElems(s, x);
  }

  /** `t`, which came right after `d`, is taken out and then put where `d` was. */
  lemma DropBefore<T>(a': seq<T>, d: T, t: T, b': seq<T>, a: seq<T>, b: seq<T>)
    requires Distinct(a' + [d] + [t] + b') && a' + [d] + b' == a + [d] + b
    ensures OneMore(a + [t] + b, a' + [d] + [t] + b', d)
  {
    DistinctWithout(a' + [d], [t], b');
    UniqueSplit(a, d, b, a', b');
    assert a' + [d] + [t] + b' == InsertAt(a + [t] + b, |a|, d);
  }

  lemma OnlyNode<T>(p: Path<T>, s: Shape<T>)
    requires s.Fork?
    ensures Before(p) + InOrder(s) + After(p) == [s.elem] <==> p.Top? && s.left.Leaf? && s.right.Leaf?
  {
    Around(p, s);
    var order := Before(p) + InOrder(s) + After(p);
    assert s.left.Fork? ==> |InOrder(s.left)| > 0;
    assert s.right.Fork? ==> |InOrder(s.right)| > 0;
    assert !p.Top? ==> |Before(p)| + |After(p)| > 0;
    if |order| == 1 { assert order[0] == s.elem; }
  }

  // ---------- the red-black conditions ----------

  predicate IsBlack<T>(s: Shape<T>) { s.Leaf? || s.black }

  /** No red node has a red child and every way down meets `h` black nodes. */
  ghost predicate Ok<T>(s: Shape<T>, h: nat) {
    match s
    case Leaf => h == 0
    case Fork(l, _, b, r) =>
      if b then h > 0 && Ok(l, h - 1) && Ok(r, h - 1)
      else IsBlack(l) && IsBlack(r) && Ok(l, h) && Ok(r, h)
  }

  ghost predicate RedBlack<T>(s: Shape<T>) {
    IsBlack(s) && exists h: nat :: Ok(s, h)
  }

  ghost predicate BlackAbove<T>(p: Path<T>) { p.Top? || p.black }

  /** A hole that a subtree of black height `h` fits; only the subtree's root colour is free. */
  ghost predicate PathOk<T>(p: Path<T>, h: nat) {
    match p
    case Top => true
    case InLeft(up, _, b, r) =>
      Ok(r, h) && (if b then PathOk(up, h + 1)
                   else IsBlack(r) && !up.Top? && up.black && PathOk(up, h))
    case InRight(l, _, b, up) =>
      Ok(l, h) && (if b then PathOk(up, h + 1)
                   else IsBlack(l) && !up.Top? && up.black && PathOk(up, h))
  }

  /** A subtree that fits its hole in height and in colour leaves a red-black tree. */
  lemma {:induction false} PlugOk<T>(p: Path<T>, s: Shape<T>, h: nat)
    requires PathOk(p, h) && Ok(s, h)
    requires IsBlack(s) || (!p.Top? && p.black)
    ensures RedBlack(Plug(p, s))
    decreases p
  {
    match p
    case Top =>
    case InLeft(up, e, b, r) => PlugOk(up, Fork(s, e, b, r), if b then h + 1 else h);
    case InRight(l, e, b, up) => PlugOk(up, Fork(l, e, b, s), if b then h + 1 else h);
  }

  /** The converse: every place in a red-black tree is a hole its subtree fits. */
  lemma {:induction false} UnplugOk<T>(p: Path<T>, s: Shape<T>) returns (h: nat)
    requires RedBlack(Plug(p, s))
    ensures PathOk(p, h) && Ok(s, h)
    ensures IsBlack(s) || (!p.Top? && p.black)
    decreases p
  {
    match p
    case Top => h :| Ok(s, h);
    case InLeft(up, e, b, r) => h := UnplugOk(up, Fork(s, e, b, r)); h := if b then h - 1 else h;
    case InRight(l, e, b, up) => h := UnplugOk(up, Fork(l, e, b, s)); h := if b then h - 1 else h;
  }

  /** A node may take another's place. */
  lemma RelabelOk<T>(p: Path<T>, s: Shape<T>, e: T)
    requires RedBlack(Plug(p, s)) && s.Fork?
    ensures RedBlack(Plug(p, s.(elem := e)))
  {
    var h := UnplugOk(p, s);
    PlugOk(p, s.(elem := e), h);
  }

  // ---------- why the conditions matter ----------

  ghost function Longest<T>(s: Shape<T>): nat {
    match s
    case Leaf => 0
    case Fork(l, _, _, r) => 1 + if Longest(l) > Longest(r) then Longest(l) else Longest(r)
  }

  ghost function Pow2(n: nat): nat { if n == 0 then 1 else 2 * Pow2(n - 1) }

  lemma {:induction false} HeightBounds<T>(s: Shape<T>, h: nat)
    requires Ok(s, h)
    ensures Longest(s) <= 2 * h + (if IsBlack(s) then 0 else 1)
    ensures Pow2(h) <= |InOrder(s)| + 1
  {
    if s.Fork? {
      var below := if s.black then h - 1 else h;
      HeightBounds(s.left, below);
      HeightBounds(s.right, below);
    }
  }

  lemma {:induction false} Pow2Monotone(m: nat, n: nat)
    requires m <= n
    ensures Pow2(m) <= Pow2(n)
  {
    if m < n { Pow2Monotone(m, n - 1); }
  }

  /** A red-black tree of n nodes is at most 2*log2(n+1) deep. */
  lemma LogarithmicDepth<T>(s: Shape<T>)
    requires RedBlack(s)
    ensures Pow2((Longest(s) + 1) / 2) <= |InOrder(s)| + 1
  {
    var h: nat :| Ok(s, h);
    HeightBounds(s, h);
    Pow2Monotone((Longest(s) + 1) / 2, h);
  }
}
