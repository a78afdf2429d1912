/** The rebalancing of kernel/rbtree.c on shapes: one turn of the insertion loop and one turn of the
    deletion loop, and the red-black conditions each turn keeps. */
module RbBalance {
  import opened RbShape

  // ---------- insertion ----------

  /** One turn of the loop of rb_insert_color at a red `s` with a red parent: what the subtree of the
      grandparent becomes. Its root is where the next turn looks. */
  ghost function InsertTurn<T>(p: Path<T>, s: Shape<T>): Shape<T>
    requires !p.Top? && !p.up.Top? && s.Fork?
  {
    var g := p.up;
    if g.InLeft? then
      var uncle := g.right;
      if !IsBlack(uncle) then
        Fork(Dyed(Outer(p, s), true), g.elem, false, Dyed(uncle, true))
      else if p.InRight? then
        Fork(Fork(p.left, p.elem, true, s.left), s.elem, s.black, Fork(s.right, g.elem, true, uncle))
      else
        Fork(Dyed(s, true), p.elem, p.black, Fork(p.right, g.elem, true, uncle))
    else
      var uncle := g.left;
      if !IsBlack(uncle) then
        Fork(Dyed(uncle, true), g.elem, false, Dyed(Outer(p, s), true))
      else if p.InLeft? then
        Fork(Fork(uncle, g.elem, true, s.left), s.elem, s.black, Fork(s.right, p.elem, true, p.right))
      else
        Fork(Fork(uncle, g.elem, true, p.left), p.elem, p.black, Dyed(s, true))
  }

  /** What the insertion loop keeps: a red subtree that is red-black inside and fits its hole in
      height, so that only the edge above it may join two red nodes. */
  ghost predicate RedAt<T>(p: Path<T>, s: Shape<T>, h: nat) {
    s.Fork? && !s.black && Ok(s, h) && PathOk(p, h)
  }

  lemma InsertTurnOrder<T>(p: Path<T>, s: Shape<T>)
    requires !p.Top? && !p.up.Top? && s.Fork?
    ensures InOrder(InsertTurn(p, s)) == InOrder(Outer(p.up, Outer(p, s)))
  {
    var g := p.up;
    var uncle := if g.InLeft? then g.right else g.left;
    assert InOrder(Dyed(uncle, true)) == InOrder(uncle);
    assert InOrder(s) == InOrder(s.left) + [s.elem] + InOrder(s.right) && InOrder(Dyed(s, true)) == InOrder(s);
    if IsBlack(uncle) {
      if g.InLeft? && p.InLeft? {
        Reassociate(InOrder(s), p.elem, InOrder(p.right), g.elem, InOrder(uncle));
      } else if g.InRight? && p.InRight? {
        Reassociate(InOrder(uncle), g.elem, InOrder(p.left), p.elem, InOrder(s));
      }
    }
  }

  lemma Reassociate<T>(a: seq<T>, x: T, b: seq<T>, y: T, c: seq<T>)
    ensures (a + [x] + b) + [y] + c == a + [x] + (b + [y] + c)
  {
  }

  lemma InsertTurnKeeps<T>(p: Path<T>, s: Shape<T>, h: nat)
    requires RedAt(p, s, h) && !p.Top? && !p.black
    ensures !p.up.Top? && p.up.black
    ensures RedAt(p.up.up, InsertTurn(p, s), h + 1) && Depth(p) == Depth(p.up.up) + 2
    ensures InOrder(Plug(p.up.up, InsertTurn(p, s))) == InOrder(Plug(p, s))
  {
    InsertTurnOrder(p, s);
    PlugInOrder(p.up.up, InsertTurn(p, s));
    PlugInOrder(p.up.up, Outer(p.up, Outer(p, s)));
    assert PathOk(p.up, h);
    assert PathOk(p.up.up, h + 1);
  }

  /** Leaving the loop, with the top node dyed black, gives a red-black tree. */
  lemma InsertDone<T>(p: Path<T>, s: Shape<T>, h: nat)
    requires RedAt(p, s, h) && BlackAbove(p)
    ensures RedBlack(Plug(p, if p.Top? then Dyed(s, true) else s))
  {
    if p.Top? { PlugOk(p, Dyed(s, true), h + 1); } else { PlugOk(p, s, h); }
  }

  /** A new red leaf in an empty place of a red-black tree is where the loop starts. */
  lemma InsertStarts<T>(p: Path<T>, e: T)
    requires RedBlack(Plug(p, Leaf))
    ensures RedAt(p, Fork(Leaf, e, false, Leaf), 0)
  {
    var h := UnplugOk(p, Leaf);
  }

  // ---------- deletion ----------

  /** A red brother is rotated above the parent: the path to the same hole, whose brother is now black. */
  ghost function LiftBrother<T>(p: Path<T>): Path<T>
    requires !p.Top? && Brother(p).Fork?
  {
    var b := Brother(p);
    if p.InLeft? then InLeft(InLeft(p.up, b.elem, true, b.right), p.elem, false, b.left)
    else InRight(b.right, p.elem, false, InRight(b.left, b.elem, true, p.up))
  }

  ghost function RealBrother<T>(p: Path<T>): Path<T>
    requires !p.Top? && Brother(p).Fork?
  {
    if IsBlack(Brother(p)) then p else LiftBrother(p)
  }

  /** A black brother turned, if need be, so that its red child is the outer one. */
  ghost function SortBrother<T>(p: Path<T>): Shape<T>
    requires !p.Top? && Brother(p).Fork?
  {
    var b := Brother(p);
    if p.InLeft? then
      if IsBlack(b.right) && b.left.Fork?
      then Fork(b.left.left, b.left.elem, true, Fork(b.left.right, b.elem, false, b.right)) else b
    else
      if IsBlack(b.left) && b.right.Fork?
      then Fork(Fork(b.left, b.elem, false, b.right.left), b.right.elem, true, b.right.right) else b
  }

  /** The brother lends its red child: the path to the same hole, one black node longer. */
  ghost function Borrow<T>(p: Path<T>): Path<T>
    requires !p.Top? && Brother(p).Fork?
  {
    var b := SortBrother(p);
    if p.InLeft? then InLeft(InLeft(p.up, b.elem, p.black, Dyed(b.right, true)), p.elem, true, b.left)
    else InRight(b.right, p.elem, true, InRight(Dyed(b.left, true), b.elem, p.black, p.up))
  }

  /** The brother has no red child to lend and turns red; the lack moves up to the parent. */
  ghost function RedBrother<T>(p: Path<T>): Path<T>
    requires !p.Top?
  {
    if p.InLeft? then p.(right := Dyed(p.right, false)) else p.(left := Dyed(p.left, false))
  }

  ghost predicate BlackKids<T>(s: Shape<T>) { s.Fork? && IsBlack(s.left) && IsBlack(s.right) }

  /** What the deletion loop keeps: the subtree is one black node short for its hole, and would fit
      if its root, when red, turned black. */
  ghost predicate Lacks<T>(p: Path<T>, v: Shape<T>, h: nat) {
    PathOk(p, h + 1) && if IsBlack(v) then Ok(v, h) else Ok(Dyed(v, true), h + 1)
  }

  /** A hole that lacks a black node has a brother, and so has it once the brother is black. */
  lemma BrotherExists<T>(p: Path<T>, h: nat)
    requires PathOk(p, h + 1) && !p.Top?
    ensures Brother(p).Fork?
    ensures var q := RealBrother(p);
      && PathOk(q, h + 1) && !q.Top? && Brother(q).Fork? && IsBlack(Brother(q))
      && (q != p ==> !q.black && Depth(q.up) == Depth(p))
  {
  }

  lemma LendNothing<T>(p: Path<T>, v: Shape<T>, h: nat)
    requires Lacks(p, v, h) && IsBlack(v) && !p.Top? && IsBlack(Brother(p)) && BlackKids(Brother(p))
    ensures Lacks(p.up, Outer(RedBrother(p), v), if p.black then h + 1 else h)
  {
  }

  lemma BorrowFits<T>(p: Path<T>, v: Shape<T>, h: nat)
    requires Lacks(p, v, h) && IsBlack(v) && !p.Top?
    requires Brother(p).Fork? && IsBlack(Brother(p)) && !BlackKids(Brother(p))
    ensures RedBlack(Plug(Borrow(p), v))
  {
    var b, sorted := Brother(p), SortBrother(p);
    assert Ok(b, h + 1) && Ok(b.left, h) && Ok(b.right, h);
    if p.InLeft? {
      assert Ok(sorted.left, h) && Ok(Dyed(sorted.right, true), h + 1);
    } else {
      assert Ok(sorted.right, h) && Ok(Dyed(sorted.left, true), h + 1);
    }
    assert PathOk(Borrow(p).up, h + 1);
    PlugOk(Borrow(p), v, h);
  }

  /** Leaving the loop at the root or at a red node, which turns black, leaves a red-black tree. */
  lemma DeleteDone<T>(p: Path<T>, v: Shape<T>, h: nat)
    requires Lacks(p, v, h) && (p.Top? || !IsBlack(v))
    ensures RedBlack(Plug(p, Dyed(v, true)))
  {
    if IsBlack(v) { assert Dyed(v, true) == v; } else { PlugOk(p, Dyed(v, true), h + 1); }
  }

  /** The two ways into the deletion loop. */
  lemma FixupStarts<T>(p: Path<T>, t: Shape<T>, gone: bool)
    requires t.Fork? && PathOk(p, 1)
    requires if gone then t.black else !t.black && Ok(Dyed(t, true), 1)
    ensures Lacks(p, if gone then Leaf else t, 0)
  {
  }

  /** A turn that moves the lack up. `t` is what hangs at the end of `q` now, `rest` what is to hang there. */
  lemma LendStep<T>(p: Path<T>, q: Path<T>, t: Shape<T>, rest: Shape<T>, h: nat) returns (h': nat)
    requires Lacks(p, Plug(q, rest), h) && IsBlack(Plug(q, rest)) && !p.Top?
    requires Brother(p).Fork? && !RealBrother(p).Top? && BlackKids(Brother(RealBrother(p)))
    ensures var r := RealBrother(p); var q' := Append(q, Step(RedBrother(r)));
      && Plug(q', t) == Outer(RedBrother(r), Plug(q, t)) && Plug(q', rest) == Outer(RedBrother(r), Plug(q, rest))
      && Lacks(r.up, Plug(q', rest), h') && !q'.Top?
      && (r.black ==> Depth(r.up) < Depth(p))
  {
    BrotherExists(p, h);
    var r := RealBrother(p);
    PlugAppend(q, Step(RedBrother(r)), t);
    PlugAppend(q, Step(RedBrother(r)), rest);
    LendNothing(r, Plug(q, rest), h);
    h' := if r.black then h + 1 else h;
  }

  /** A turn in which the brother lends: the whole tree would be red-black with `rest` in place. */
  lemma BorrowStep<T>(p: Path<T>, q: Path<T>, t: Shape<T>, rest: Shape<T>, h: nat) returns (h': nat)
    requires Lacks(p, Plug(q, rest), h) && IsBlack(Plug(q, rest)) && !p.Top?
    requires Brother(p).Fork? && !RealBrother(p).Top? && Brother(RealBrother(p)).Fork? && !BlackKids(Brother(RealBrother(p)))
    ensures var r := RealBrother(p); var q' := Append(q, Borrow(r));
      && Plug(q', t) == Plug(Borrow(r), Plug(q, t))
      && Plug(q', t).Fork? && Plug(q', t).black && IsBlack(Plug(q', rest))
      && Lacks(Top, Plug(q', rest), h') && !q'.Top?
  {
    BrotherExists(p, h);
    var r := RealBrother(p);
    PlugAppend(q, Borrow(r), t);
    PlugAppend(q, Borrow(r), rest);
    BorrowFits(r, Plug(q, rest), h);
    PlugRoot(Borrow(r), Plug(q, t), Plug(q, rest));
    h' :| Ok(Plug(Borrow(r), Plug(q, rest)), h');
  }

  /** A node with one child at most is, in a red-black tree, a red leaf, a black leaf, or a black node
      whose only child is a red leaf. */
  lemma FewKids<T>(p: Path<T>, s: Shape<T>, kid: Shape<T>)
    requires RedBlack(Plug(p, s)) && s.Fork?
    requires (s.left.Leaf? && kid == s.right) || (s.right.Leaf? && kid == s.left)
    ensures kid.Fork? ==> s.black && !kid.black && PathOk(p, 1) && Ok(Dyed(kid, true), 1) && RedBlack(Plug(p, Dyed(kid, true)))
    ensures kid.Leaf? ==> s == Fork(Leaf, s.elem, s.black, Leaf)
    ensures kid.Leaf? && s.black ==> PathOk(p, 1)
    ensures kid.Leaf? && !s.black ==> RedBlack(Plug(p, Leaf))
  {
    var h := UnplugOk(p, s);
    if kid.Fork? {
      assert Ok(Dyed(kid, true), 1);
      PlugOk(p, Dyed(kid, true), 1);
    } else if !s.black {
      PlugOk(p, Leaf, 0);
    }
  }
}
