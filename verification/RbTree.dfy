/** The intrusive red-black tree of kernel/rbtree.c over kernel/bintree.c. */
module RbTree {
  import opened Basics
  import opened RbShape
  import opened RbBalance
  import opened RbLinks

  ghost function FirstOf(ns: seq<Node>): Node? { if ns == [] then null else ns[0] }
  ghost function LastOf(ns: seq<Node>): Node? { if ns == [] then null else ns[|ns| - 1] }

  lemma FirstAndLast(a: seq<Node>, e: Node, b: seq<Node>)
    ensures FirstOf([e] + b) == e && LastOf(a + [e]) == e && |a + [e]| == |a| + 1
  {
  }

  // ---------- keys ----------

  /** What the tree expects of its comparison: a total preorder, as a sign. */
  ghost predicate Lawful(cmp: (int, int) -> int) {
    && (forall a, b :: cmp(a, b) < 0 <==> cmp(b, a) > 0)
    && (forall a, b, c :: cmp(a, b) <= 0 && cmp(b, c) <= 0 ==> cmp(a, c) <= 0)
  }

  lemma Chain(cmp: (int, int) -> int, a: int, b: int, c: int)
    requires Lawful(cmp) && (cmp(a, b) < 0 || cmp(b, a) > 0) && (cmp(b, c) < 0 || cmp(c, b) > 0)
    ensures cmp(a, c) < 0 && cmp(c, a) > 0
  {
    assert cmp(a, b) < 0 && cmp(b, c) < 0;
    assert cmp(c, a) <= 0 ==> cmp(b, a) <= 0;
  }

  lemma Beside(cmp: (int, int) -> int, a: int, b: int, key: int)
    requires Lawful(cmp) && cmp(b, key) == 0
    ensures cmp(a, b) < 0 ==> cmp(a, key) < 0
    ensures cmp(b, a) < 0 ==> cmp(a, key) > 0
  {
    assert cmp(key, b) == 0;
    assert cmp(key, a) <= 0 ==> cmp(b, a) <= 0;
    assert cmp(a, key) <= 0 ==> cmp(a, b) <= 0;
  }

  ghost function KeysOf(nodes: set<Node>): map<Node, int>
    reads nodes`key
  {
    map n | n in nodes :: n.key
  }

  /** Strictly increasing keys, in the sense of `cmp`. */
  ghost predicate Sorted(cmp: (int, int) -> int, keys: map<Node, int>, ns: seq<Node>) {
    && (forall n :: n in ns ==> n in keys)
    && forall i, j :: 0 <= i < j < |ns| ==> cmp(keys[ns[i]], keys[ns[j]]) < 0
  }

  ghost predicate AllBelow(cmp: (int, int) -> int, keys: map<Node, int>, ns: seq<Node>, key: int) {
    forall n :: n in ns ==> n in keys && cmp(keys[n], key) < 0
  }

  ghost predicate AllAbove(cmp: (int, int) -> int, keys: map<Node, int>, ns: seq<Node>, key: int) {
    forall n :: n in ns ==> n in keys && cmp(keys[n], key) > 0
  }

  lemma AboveFrom(cmp: (int, int) -> int, keys: map<Node, int>, a: seq<Node>, e: Node, b: seq<Node>, key: int)
    requires Lawful(cmp) && Sorted(cmp, keys, a + [e] + b) && cmp(keys[e], key) > 0
    ensures AllAbove(cmp, keys, [e] + b, key)
  {
    forall j | 0 <= j < |b| ensures b[j] in keys && cmp(keys[b[j]], key) > 0 {
      assert (a + [e] + b)[|a|] == e && (a + [e] + b)[|a| + 1 + j] == b[j];
      Chain(cmp, key, keys[e], keys[b[j]]);
    }
  }

  lemma BelowTo(cmp: (int, int) -> int, keys: map<Node, int>, a: seq<Node>, e: Node, b: seq<Node>, key: int)
    requires Lawful(cmp) && Sorted(cmp, keys, a + [e] + b) && cmp(keys[e], key) < 0
    ensures AllBelow(cmp, keys, a + [e], key)
  {
    forall j | 0 <= j < |a| ensures a[j] in keys && cmp(keys[a[j]], key) < 0 {
      assert (a + [e] + b)[|a|] == e && (a + [e] + b)[j] == a[j];
      Chain(cmp, keys[a[j]], keys[e], key);
    }
  }

  lemma SplitAround(cmp: (int, int) -> int, keys: map<Node, int>, a: seq<Node>, e: Node, b: seq<Node>, key: int)
    requires Lawful(cmp) && Sorted(cmp, keys, a + [e] + b) && e in keys && cmp(keys[e], key) == 0
    ensures AllBelow(cmp, keys, a, key) && AllAbove(cmp, keys, b, key)
  {
    var all := a + [e] + b;
    forall j | 0 <= j < |a| ensures a[j] in keys && cmp(keys[a[j]], key) < 0 {
      assert all[j] == a[j] && all[|a|] == e;
      Beside(cmp, keys[a[j]], keys[e], key);
    }
    forall j | 0 <= j < |b| ensures b[j] in keys && cmp(keys[b[j]], key) > 0 {
      assert all[|a| + 1 + j] == b[j] && all[|a|] == e;
      Beside(cmp, keys[b[j]], keys[e], key);
    }
  }

  lemma GoLeft(cmp: (int, int) -> int, keys: map<Node, int>, order: seq<Node>, p: Path<Node>, s: Shape<Node>, key: int)
    requires Lawful(cmp) && Sorted(cmp, keys, order) && s.Fork? && order == Before(p) + InOrder(s) + After(p)
    requires s.elem in keys && cmp(keys[s.elem], key) > 0
    ensures AllAbove(cmp, keys, After(DownLeft(p, s)), key)
  {
    Around(p, s);
    hide Sorted, Lawful, AllAbove;
    AboveFrom(cmp, keys, Before(p) + InOrder(s.left), s.elem, InOrder(s.right) + After(p), key);
    assert After(DownLeft(p, s)) == [s.elem] + (InOrder(s.right) + After(p));
  }

  lemma GoRight(cmp: (int, int) -> int, keys: map<Node, int>, order: seq<Node>, p: Path<Node>, s: Shape<Node>, key: int)
    requires Lawful(cmp) && Sorted(cmp, keys, order) && s.Fork? && order == Before(p) + InOrder(s) + After(p)
    requires s.elem in keys && cmp(keys[s.elem], key) < 0
    ensures AllBelow(cmp, keys, Before(DownRight(p, s)), key)
  {
    Around(p, s);
    hide Sorted, Lawful, AllBelow;
    BelowTo(cmp, keys, Before(p) + InOrder(s.left), s.elem, InOrder(s.right) + After(p), key);
  }

  lemma SortedInsert(cmp: (int, int) -> int, keys: map<Node, int>, keys': map<Node, int>, a: seq<Node>, n: Node, b: seq<Node>)
    requires Lawful(cmp) && Sorted(cmp, keys, a + b)
    requires n in keys' && forall x :: x in keys ==> x in keys' && keys'[x] == keys[x]
    requires AllBelow(cmp, keys, a, keys'[n]) && AllAbove(cmp, keys, b, keys'[n])
    ensures Sorted(cmp, keys', a + [n] + b)
    ensures forall x :: x in a + b ==> cmp(keys'[x], keys'[n]) != 0
  {
    var all := a + [n] + b;
    forall i, j | 0 <= i < j < |all| ensures cmp(keys'[all[i]], keys'[all[j]]) < 0 {
      if i != |a| && j != |a| {
        var i', j' := if i < |a| then i else i - 1, if j < |a| then j else j - 1;
        assert all[i] == (a + b)[i'] && all[j] == (a + b)[j'];
      } else if i == |a| {
        assert all[j] in b;
        Flip(cmp, keys'[all[j]], keys'[n]);
      } else {
        assert all[i] in a;
      }
    }
  }

  lemma SortedRemove(cmp: (int, int) -> int, keys: map<Node, int>, keys': map<Node, int>, ns: seq<Node>, ns': seq<Node>, d: Node)
    requires Sorted(cmp, keys, ns) && OneMore(ns', ns, d)
    requires forall x :: x in keys && x != d ==> x in keys' && keys'[x] == keys[x]
    requires d !in ns'
    ensures Sorted(cmp, keys', ns')
  {
    var k :| 0 <= k <= |ns'| && ns == InsertAt(ns', k, d);
    forall i | 0 <= i < |ns'| ensures ns'[i] in keys' && keys'[ns'[i]] == keys[ns'[i]] {
      assert ns'[i] == ns[if i < k then i else i + 1];
    }
    forall i, j | 0 <= i < j < |ns'| ensures cmp(keys'[ns'[i]], keys'[ns'[j]]) < 0 {
      assert ns'[i] == ns[if i < k then i else i + 1] && ns'[j] == ns[if j < k then j else j + 1];
    }
  }

  /** An empty place between the smaller and the larger keys is where a new node belongs. */
  lemma PlaceFound(cmp: (int, int) -> int, nodes: set<Node>, shape: Shape<Node>, n: Node, p: Path<Node>)
    requires Lawful(cmp) && nodes == Elems(shape) && n !in nodes && shape == Plug(p, Leaf)
    requires Sorted(cmp, KeysOf(nodes), InOrder(shape))
    requires AllBelow(cmp, KeysOf(nodes), Before(p), n.key) && AllAbove(cmp, KeysOf(nodes), After(p), n.key)
    ensures n !in InOrder(shape) && Before(p) + After(p) == InOrder(shape) && PathElems(p) == nodes
    ensures forall x :: x in nodes ==> cmp(x.key, n.key) != 0
    ensures Sorted(cmp, KeysOf(nodes + {n}), Before(p) + [n] + After(p))
  {
    InOrderElems(shape, n);
    PlugElems(p, Leaf);
    PlugInOrder(p, Leaf);
    assert Before(p) + After(p) == InOrder(shape);
    SortedInsert(cmp, KeysOf(nodes), KeysOf(nodes + {n}), Before(p), n, After(p));
    forall x | x in nodes ensures cmp(x.key, n.key) != 0 { InOrderElems(shape, x); }
  }

  /** An empty place between the smaller and the larger keys shows that no node has the key. */
  lemma NoSuchKey(cmp: (int, int) -> int, nodes: set<Node>, shape: Shape<Node>, p: Path<Node>, key: int)
    requires nodes == Elems(shape) && shape == Plug(p, Leaf)
    requires AllBelow(cmp, KeysOf(nodes), Before(p), key) && AllAbove(cmp, KeysOf(nodes), After(p), key)
    ensures forall x :: x in nodes ==> cmp(x.key, key) != 0
  {
    PlugInOrder(p, Leaf);
    forall x | x in nodes ensures cmp(x.key, key) != 0 {
      InOrderElems(shape, x);
      assert x in Before(p) || x in After(p);
    }
  }

  lemma Flip(cmp: (int, int) -> int, a: int, b: int)
    requires Lawful(cmp)
    ensures cmp(a, b) > 0 <==> cmp(b, a) < 0
  {
  }

  class RbRoot {
    var node: Node?
    const cmp: (int, int) -> int
    ghost var shape: Shape<Node>
    ghost var nodes: set<Node>
    ghost var order: seq<Node>

    /** rb_root_init */
    constructor (cmp: (int, int) -> int)
      requires Lawful(cmp)
      ensures Valid() && this.cmp == cmp && order == [] && nodes == {} && node == null
    {
      this.cmp := cmp;
      node, shape, nodes, order := null, Leaf, {}, [];
      new;
      FocusEmpty(Snap(nodes));
    }

    /** The subtree `s` is at the end of the path `p` in the tree, whose nodes in order are `order`. */
    ghost predicate Here(p: Path<Node>, s: Shape<Node>)
      reads this, nodes`left, nodes`right, nodes`parent, nodes`black
    {
      Focus(Snap(nodes), node, order, p, s)
    }

    lemma GoUp(p: Path<Node>, s: Shape<Node>)
      requires Here(p, s) && !p.Top?
      ensures Here(p.up, Outer(p, s)) && Plug(p.up, Outer(p, s)) == Plug(p, s)
    {
      FocusUp(Snap(nodes), node, order, p, s);
    }

    lemma GoDown(p: Path<Node>, s: Shape<Node>)
      requires Here(p, s) && s.Fork?
      ensures Here(DownLeft(p, s), s.left) && Plug(DownLeft(p, s), s.left) == Plug(p, s)
      ensures Here(DownRight(p, s), s.right) && Plug(DownRight(p, s), s.right) == Plug(p, s)
    {
      FocusDown(Snap(nodes), node, order, p, s);
    }

    /** The fields of a subtree's root, and that its link can be told from its brother's. */
    lemma LookAt(p: Path<Node>, s: Shape<Node>)
      requires Here(p, s) && s.Fork?
      ensures Fields(s.elem, s.left, s.right, Above(p), s.black) && s.elem !in PathElems(p)
      ensures !p.Top? ==> p.elem in nodes && (p.InLeft? <==> p.elem.left == s.elem) && (p.InRight? <==> p.elem.right == s.elem)
    {
      FocusRoot(Snap(nodes), node, order, p, s);
    }

    /** The fields of a subtree's root and of its children's roots. */
    lemma LookBelow(p: Path<Node>, s: Shape<Node>)
      requires Here(p, s) && s.Fork?
      ensures Fields(s.elem, s.left, s.right, Above(p), s.black)
      ensures s.left.Fork? ==> Fields(s.left.elem, s.left.left, s.left.right, s.elem, s.left.black)
      ensures s.right.Fork? ==> Fields(s.right.elem, s.right.left, s.right.right, s.elem, s.right.black)
    {
      FocusKids(Snap(nodes), node, order, p, s);
    }

    /** The parent and the grandparent of a subtree's root. */
    lemma LookAbove(p: Path<Node>, s: Shape<Node>)
      requires Here(p, s) && s.Fork?
      ensures s.elem in nodes && s.elem.parent == Above(p)
      ensures !p.Top? ==> p.elem in nodes && p.elem.parent == Above(p.up) && p.elem.black == p.black
      ensures !p.Top? && !p.up.Top? ==> p.up.elem in nodes && (p.up.InLeft? <==> p.up.elem.left == p.elem)
    {
      FocusParents(Snap(nodes), node, order, p, s);
    }

    lemma OrderOf(p: Path<Node>, s: Shape<Node>)
      requires Here(p, s)
      ensures Distinct(order) && order == Before(p) + InOrder(s) + After(p)
    {
    }

    ghost predicate Fields(n: Node, l: Shape<Node>, r: Shape<Node>, parent: Node?, black: bool)
      reads this, n
    {
      n in nodes && n.left == RootOf(l) && n.right == RootOf(r) && n.parent == parent && n.black == black
    }

    /** rb_parent */
    function Parent(n: Node?): Node?
      reads n
    {
      if n == null then null else n.parent
    }

    /** rb_is_node_black */
    predicate IsNodeBlack(n: Node?)
      reads n
    {
      n == null || n.black
    }

    function ReadLink(l: Link): Node?
      reads this, Owner(l)
    {
      match l
      case RootLink => node
      case LeftLink(o) => o.left
      case RightLink(o) => o.right
    }

    /** `*link = value` */
    method WriteLink(l: Link, value: Node?)
      requires Owner(l) <= nodes
      modifies (if l.RootLink? then {this} else {})`node, Owner(l)`left, Owner(l)`right
      ensures Snap(nodes) == PutLink(old(Snap(nodes)), l, value)
      ensures node == if l.RootLink? then value else old(node)
    {
      match l {
        case RootLink => node := value;
        case LeftLink(o) => o.left := value;
        case RightLink(o) => o.right := value;
      }
    }

    /** rb_set_parent, which leaves the colour bits of the word alone */
    method SetParent(n: Node, parent: Node?)
      requires n in nodes
      modifies n`parent
      ensures Snap(nodes) == PutParent(old(Snap(nodes)), n, parent)
    {
      n.parent := parent;
    }

    /** __rb_link_nodes */
    method LinkNodes(parent: Node?, n: Node, l: Link)
      requires n in nodes && Owner(l) <= nodes
      modifies n`parent, (if l.RootLink? then {this} else {})`node, Owner(l)`left, Owner(l)`right
      ensures Snap(nodes) == PutLink(PutParent(old(Snap(nodes)), n, parent), l, n)
      ensures node == if l.RootLink? then n else old(node)
    {
      SetParent(n, parent);
      WriteLink(l, n);
    }

    /** __rb_node_link; `None` for a node that is in no tree (its own parent). */
    function NodeLink(n: Node?): Option<Link>
      reads n, if n == null then {} else {n.parent}
    {
      if n == null || n.parent == null then Some(RootLink)
      else if n.parent == n then None
      else if n == n.parent.left then Some(LeftLink(n.parent))
      else Some(RightLink(n.parent))
    }

    /** The pointer writes of __rb_rotate_left */
    method TurnLeft(x: Node, link: Link, right: Node, rightLeft: Node?)
      requires Owner(link) <= nodes && x in nodes && right in nodes && (rightLeft != null ==> rightLeft in nodes)
      modifies this`node, nodes`left, nodes`right, nodes`parent
      ensures Snap(nodes) == RotateLeftHeap(old(Snap(nodes)), link, x, right, rightLeft)
      ensures node == if link.RootLink? then right else old(node)
    {
      LinkNodes(x.parent, right, link);
      if rightLeft != null {
        LinkNodes(x, rightLeft, RightLink(x));
      } else {
        WriteLink(RightLink(x), null);
      }
      LinkNodes(right, x, LeftLink(right));
    }

    /** __rb_rotate_left */
    method RotateLeft(x: Node?, ghost p: Path<Node>, ghost s: Shape<Node>) returns (r: Node?)
      requires x == RootOf(s) && Here(p, s)
      modifies this`node, nodes`left, nodes`right, nodes`parent
      ensures r == RootOf(RotatedLeft(s))
      ensures Here(p, RotatedLeft(s))
    {
      if x == null { return null; }
      ghost var h := Snap(nodes);
      FocusRoot(h, node, order, p, s);
      var link := NodeLink(x).value;
      var right := x.right;
      if right == null { return x; }
      RotateLeftRep(h, node, order, p, s);
      TurnLeft(x, link, right, right.left);
      return right;
    }

    /** The pointer writes of __rb_rotate_right */
    method TurnRight(x: Node, link: Link, left: Node, leftRight: Node?)
      requires Owner(link) <= nodes && x in nodes && left in nodes && (leftRight != null ==> leftRight in nodes)
      modifies this`node, nodes`right, nodes`left, nodes`parent
      ensures Snap(nodes) == RotateRightHeap(old(Snap(nodes)), link, x, left, leftRight)
      ensures node == if link.RootLink? then left else old(node)
    {
      LinkNodes(x.parent, left, link);
      if leftRight != null {
        LinkNodes(x, leftRight, LeftLink(x));
      } else {
        WriteLink(LeftLink(x), null);
      }
      LinkNodes(left, x, RightLink(left));
    }

    /** __rb_rotate_right */
    method RotateRight(x: Node?, ghost p: Path<Node>, ghost s: Shape<Node>) returns (r: Node?)
      requires x == RootOf(s) && Here(p, s)
      modifies this`node, nodes`right, nodes`left, nodes`parent
      ensures r == RootOf(RotatedRight(s))
      ensures Here(p, RotatedRight(s))
    {
      if x == null { return null; }
      ghost var h := Snap(nodes);
      FocusRoot(h, node, order, p, s);
      var link := NodeLink(x).value;
      var left := x.left;
      if left == null { return x; }
      RotateRightRep(h, node, order, p, s);
      TurnRight(x, link, left, left.right);
      return left;
    }

    /** rb_node_dye_black and rb_node_dye_red */
    method Dye(x: Node?, black: bool, ghost p: Path<Node>, ghost s: Shape<Node>)
      requires x == RootOf(s) && Here(p, s)
      modifies nodes`black
      ensures Here(p, Dyed(s, black))
    {
      if x == null { return; }
      ghost var h := Snap(nodes);
      DyeRep(h, node, order, p, s, black);
      x.black := black;
      assert Snap(nodes) == h[x := h[x].(black := black)];
    }

    method DyeLeft(x: Node?, black: bool, ghost p: Path<Node>, ghost s: Shape<Node>)
      requires s.Fork? && x == RootOf(s.left) && Here(p, s)
      modifies nodes`black
      ensures Here(p, s.(left := Dyed(s.left, black)))
    {
      GoDown(p, s);
      Dye(x, black, DownLeft(p, s), s.left);
      GoUp(DownLeft(p, s), Dyed(s.left, black));
    }

    method DyeRight(x: Node?, black: bool, ghost p: Path<Node>, ghost s: Shape<Node>)
      requires s.Fork? && x == RootOf(s.right) && Here(p, s)
      modifies nodes`black
      ensures Here(p, s.(right := Dyed(s.right, black)))
    {
      GoDown(p, s);
      Dye(x, black, DownRight(p, s), s.right);
      GoUp(DownRight(p, s), Dyed(s.right, black));
    }

    /** Dyes both children of a node black. */
    method DyeKids(l: Node?, r: Node?, ghost p: Path<Node>, ghost s: Shape<Node>)
      requires s.Fork? && l == RootOf(s.left) && r == RootOf(s.right) && Here(p, s)
      modifies nodes`black
      ensures Here(p, WithBlackKids(s))
    {
      DyeLeft(l, true, p, s);
      DyeRight(r, true, p, s.(left := Dyed(s.left, true)));
    }

    // ---------- insertion ----------

    /** The parent and the uncle are red: both become black and the grandparent red. */
    method InsertRecolour(grandParent: Node, l: Node?, r: Node?,
                          ghost p: Path<Node>, ghost s: Shape<Node>)
      requires s.Fork? && grandParent == s.elem && l == RootOf(s.left) && r == RootOf(s.right)
      requires Here(p, s)
      modifies nodes`black
      ensures Here(p, Dyed(WithBlackKids(s), false))
    {
      DyeKids(l, r, p, s);
      Dye(grandParent, false, p, WithBlackKids(s));
    }

    /** The parent is a left child and the uncle is black. */
    method InsertRotateLeft(pos: Node, parent: Node, grandParent: Node,
                            ghost p: Path<Node>, ghost s: Shape<Node>)
      returns (next: Node)
      requires Here(p, s) && s.Fork? && pos == s.elem
      requires !p.Top? && parent == p.elem && p.up.InLeft? && grandParent == p.up.elem && IsBlack(p.up.right)
      modifies this`node, nodes`left, nodes`right, nodes`parent, nodes`black
      ensures next == InsertTurn(p, s).elem
      ensures Here(p.up.up, InsertTurn(p, s))
    {
      hide Focus;
      ghost var g, inner := p.up, Outer(p, s);
      LookAt(p, s);
      GoUp(p, s);
      LookBelow(g, inner);
      var child := pos;
      next := parent;
      if pos == parent.right {
        next, child := pos, parent;
        var _ := RotateLeft(parent, g, inner);
        inner := RotatedLeft(inner);
      }
      GoUp(g, inner);
      var _ := RotateRight(grandParent, g.up, Outer(g, inner));
      DyeKids(child, grandParent, g.up, RotatedRight(Outer(g, inner)));
    }

    /** One turn of the loop of rb_insert_color when the parent is a left child */
    method InsertTurnLeft(pos: Node, parent: Node, grandParent: Node,
                          ghost p: Path<Node>, ghost s: Shape<Node>)
      returns (next: Node)
      requires Here(p, s) && s.Fork? && pos == s.elem
      requires !p.Top? && parent == p.elem && p.up.InLeft? && grandParent == p.up.elem
      modifies this`node, nodes`left, nodes`right, nodes`parent, nodes`black
      ensures next == InsertTurn(p, s).elem
      ensures Here(p.up.up, InsertTurn(p, s))
    {
      ghost var g, inner := p.up, Outer(p, s);
      GoUp(p, s);
      GoUp(g, inner);
      LookBelow(g.up, Outer(g, inner));
      var uncle := grandParent.right;
      if !IsNodeBlack(uncle) {
        InsertRecolour(grandParent, parent, uncle, g.up, Outer(g, inner));
        next := grandParent;
      } else {
        next := InsertRotateLeft(pos, parent, grandParent, p, s);
      }
    }

    /** The parent is a right child and the uncle is black. */
    method InsertRotateRight(pos: Node, parent: Node, grandParent: Node,
                            ghost p: Path<Node>, ghost s: Shape<Node>)
      returns (next: Node)
      requires Here(p, s) && s.Fork? && pos == s.elem
      requires !p.Top? && parent == p.elem && p.up.InRight? && grandParent == p.up.elem && IsBlack(p.up.left)
      modifies this`node, nodes`right, nodes`left, nodes`parent, nodes`black
      ensures next == InsertTurn(p, s).elem
      ensures Here(p.up.up, InsertTurn(p, s))
    {
      hide Focus;
      ghost var g, inner := p.up, Outer(p, s);
      LookAt(p, s);
      GoUp(p, s);
      LookBelow(g, inner);
      var child := pos;
      next := parent;
      if pos == parent.left {
        next, child := pos, parent;
        var _ := RotateRight(parent, g, inner);
        inner := RotatedRight(inner);
      }
      GoUp(g, inner);
      var _ := RotateLeft(grandParent, g.up, Outer(g, inner));
      DyeKids(grandParent, child, g.up, RotatedLeft(Outer(g, inner)));
    }

    /** One turn of the loop of rb_insert_color when the parent is a right child */
    method InsertTurnRight(pos: Node, parent: Node, grandParent: Node,
                          ghost p: Path<Node>, ghost s: Shape<Node>)
      returns (next: Node)
      requires Here(p, s) && s.Fork? && pos == s.elem
      requires !p.Top? && parent == p.elem && p.up.InRight? && grandParent == p.up.elem
      modifies this`node, nodes`right, nodes`left, nodes`parent, nodes`black
      ensures next == InsertTurn(p, s).elem
      ensures Here(p.up.up, InsertTurn(p, s))
    {
      ghost var g, inner := p.up, Outer(p, s);
      GoUp(p, s);
      GoUp(g, inner);
      LookBelow(g.up, Outer(g, inner));
      var uncle := grandParent.left;
      if !IsNodeBlack(uncle) {
        InsertRecolour(grandParent, uncle, parent, g.up, Outer(g, inner));
        next := grandParent;
      } else {
        next := InsertRotateRight(pos, parent, grandParent, p, s);
      }
    }

    method InsertTurnOnce(pos: Node, parent: Node, grandParent: Node,
                          ghost p: Path<Node>, ghost s: Shape<Node>)
      returns (next: Node)
      requires Here(p, s) && s.Fork? && pos == s.elem
      requires !p.Top? && parent == p.elem && !p.up.Top? && grandParent == p.up.elem
      modifies this`node, nodes`left, nodes`right, nodes`parent, nodes`black
      ensures next == InsertTurn(p, s).elem
      ensures Here(p.up.up, InsertTurn(p, s))
    {
      LookAbove(p, s);
      if parent == grandParent.left {
        next := InsertTurnLeft(pos, parent, grandParent, p, s);
      } else {
        next := InsertTurnRight(pos, parent, grandParent, p, s);
      }
    }

    // ---------- deletion ----------

    /** The brother is red: it is rotated above the parent. */
    method LiftLeft(parent: Node, brother: Node,
                    ghost p: Path<Node>, ghost s: Shape<Node>)
      requires Here(p, s) && p.InLeft? && p.right.Fork?
      requires parent == p.elem && brother == p.right.elem
      modifies this`node, nodes`left, nodes`right, nodes`parent, nodes`black
      ensures Here(LiftBrother(p), s)
    {
      hide Focus;
      ghost var top := Outer(p, s);
      GoUp(p, s);
      Dye(parent, false, p.up, top);
      DyeRight(brother, true, p.up, Dyed(top, false));
      top := Dyed(top, false).(right := Dyed(top.right, true));
      var _ := RotateLeft(parent, p.up, top);
      top := RotatedLeft(top);
      GoDown(p.up, top);
      GoDown(DownLeft(p.up, top), top.left);
    }

    /** The brother's only red child is the inner one: the brother is rotated to make it the outer one. */
    method SortLeft(brother: Node, ghost p: Path<Node>, ghost s: Shape<Node>)
      requires Here(p, s) && p.InLeft? && p.right.Fork? && brother == p.right.elem
      requires IsBlack(p.right.right) && p.right.left.Fork?
      modifies this`node, nodes`left, nodes`right, nodes`parent, nodes`black
      ensures Here(p.up, Fork(s, p.elem, p.black, SortBrother(p)))
    {
      hide Focus;
      ghost var top, b := Outer(p, s), p.right;
      GoUp(p, s);
      GoDown(p.up, top);
      ghost var q := DownRight(p.up, top);
      LookBelow(q, b);
      DyeLeft(brother.left, true, q, b);
      b := b.(left := Dyed(b.left, true));
      Dye(brother, false, q, b);
      var _ := RotateRight(brother, q, Dyed(b, false));
      GoUp(q, RotatedRight(Dyed(b, false)));
    }

    /** Before the brother lends: it takes the parent's colour, the parent and its outer child turn black. */
    method RepaintLeft(parent: Node, brother: Node,
                       ghost p: Path<Node>, ghost top: Shape<Node>)
      requires Here(p, top) && top.Fork? && top.right.Fork?
      requires parent == top.elem && brother == top.right.elem
      modifies nodes`black
      ensures Here(p,
                    Fork(top.left, top.elem, true, top.right.(black := top.black, right := Dyed(top.right.right, true))))
    {
      hide Focus;
      LookBelow(p, top);
      DyeRight(brother, parent.black, p, top);
      ghost var t := top.(right := Dyed(top.right, top.black));
      Dye(parent, true, p, t);
      t := Dyed(t, true);
      GoDown(p, t);
      LookBelow(DownRight(p, t), t.right);
      DyeRight(brother.right, true, DownRight(p, t), t.right);
      GoUp(DownRight(p, t), t.right.(right := Dyed(t.right.right, true)));
    }

    /** The brother lends its outer red child: the parent is rotated down to the hole's side. */
    method LendLeft(parent: Node, brother: Node,
                    ghost p: Path<Node>, ghost top: Shape<Node>)
      requires Here(p, top) && top.Fork? && top.right.Fork?
      requires parent == top.elem && brother == top.right.elem
      modifies this`node, nodes`left, nodes`right, nodes`parent, nodes`black
      ensures Here(InLeft(InLeft(p, top.right.elem, top.black, Dyed(top.right.right, true)), top.elem, true, top.right.left), top.left)
    {
      hide Focus;
      RepaintLeft(parent, brother, p, top);
      ghost var t := Fork(top.left, top.elem, true, top.right.(black := top.black, right := Dyed(top.right.right, true)));
      var _ := RotateLeft(parent, p, t);
      t := RotatedLeft(t);
      GoDown(p, t);
      GoDown(DownLeft(p, t), t.left);
    }

    method BorrowLeft(parent: Node, brother: Node,
                      ghost p: Path<Node>, ghost s: Shape<Node>)
      requires Here(p, s) && p.InLeft? && p.right.Fork? && !BlackKids(p.right)
      requires parent == p.elem && brother == p.right.elem
      modifies this`node, nodes`left, nodes`right, nodes`parent, nodes`black
      ensures Here(Borrow(p), s)
    {
      hide Focus;
      GoUp(p, s);
      GoDown(p.up, Outer(p, s));
      LookBelow(DownRight(p.up, Outer(p, s)), p.right);
      ghost var top := Fork(s, p.elem, p.black, SortBrother(p));
      var b := brother;
      if IsNodeBlack(brother.right) {
        SortLeft(brother, p, s);
        LookBelow(p.up, top);
        b := parent.right;
      }
      LendLeft(parent, b, p.up, top);
    }

    /** The brother is red: it is rotated above the parent. */
    method LiftRight(parent: Node, brother: Node,
                    ghost p: Path<Node>, ghost s: Shape<Node>)
      requires Here(p, s) && p.InRight? && p.left.Fork?
      requires parent == p.elem && brother == p.left.elem
      modifies this`node, nodes`right, nodes`left, nodes`parent, nodes`black
      ensures Here(LiftBrother(p), s)
    {
      hide Focus;
      ghost var top := Outer(p, s);
      GoUp(p, s);
      Dye(parent, false, p.up, top);
      DyeLeft(brother, true, p.up, Dyed(top, false));
      top := Dyed(top, false).(left := Dyed(top.left, true));
      var _ := RotateRight(parent, p.up, top);
      top := RotatedRight(top);
      GoDown(p.up, top);
      GoDown(DownRight(p.up, top), top.right);
    }

    /** The brother's only red child is the inner one: the brother is rotated to make it the outer one. */
    method SortRight(brother: Node, ghost p: Path<Node>, ghost s: Shape<Node>)
      requires Here(p, s) && p.InRight? && p.left.Fork? && brother == p.left.elem
      requires IsBlack(p.left.left) && p.left.right.Fork?
      modifies this`node, nodes`right, nodes`left, nodes`parent, nodes`black
      ensures Here(p.up, Fork(SortBrother(p), p.elem, p.black, s))
    {
      hide Focus;
      ghost var top, b := Outer(p, s), p.left;
      GoUp(p, s);
      GoDown(p.up, top);
      ghost var q := DownLeft(p.up, top);
      LookBelow(q, b);
      DyeRight(brother.right, true, q, b);
      b := b.(right := Dyed(b.right, true));
      Dye(brother, false, q, b);
      var _ := RotateLeft(brother, q, Dyed(b, false));
      GoUp(q, RotatedLeft(Dyed(b, false)));
    }

    /** Before the brother lends: it takes the parent's colour, the parent and its outer child turn black. */
    method RepaintRight(parent: Node, brother: Node,
                       ghost p: Path<Node>, ghost top: Shape<Node>)
      requires Here(p, top) && top.Fork? && top.left.Fork?
      requires parent == top.elem && brother == top.left.elem
      modifies nodes`black
      ensures Here(p,
                    Fork(top.left.(black := top.black, left := Dyed(top.left.left, true)), top.elem, true, top.right))
    {
      hide Focus;
      LookBelow(p, top);
      DyeLeft(brother, parent.black, p, top);
      ghost var t := top.(left := Dyed(top.left, top.black));
      Dye(parent, true, p, t);
      t := Dyed(t, true);
      GoDown(p, t);
      LookBelow(DownLeft(p, t), t.left);
      DyeLeft(brother.left, true, DownLeft(p, t), t.left);
      GoUp(DownLeft(p, t), t.left.(left := Dyed(t.left.left, true)));
    }

    /** The brother lends its outer red child: the parent is rotated down to the hole's side. */
    method LendRight(parent: Node, brother: Node,
                    ghost p: Path<Node>, ghost top: Shape<Node>)
      requires Here(p, top) && top.Fork? && top.left.Fork?
      requires parent == top.elem && brother == top.left.elem
      modifies this`node, nodes`right, nodes`left, nodes`parent, nodes`black
      ensures Here(InRight(top.left.right, top.elem, true, InRight(Dyed(top.left.left, true), top.left.elem, top.black, p)), top.right)
    {
      hide Focus;
      RepaintRight(parent, brother, p, top);
      ghost var t := Fork(top.left.(black := top.black, left := Dyed(top.left.left, true)), top.elem, true, top.right);
      var _ := RotateRight(parent, p, t);
      t := RotatedRight(t);
      GoDown(p, t);
      GoDown(DownRight(p, t), t.right);
    }

    method BorrowRight(parent: Node, brother: Node,
                      ghost p: Path<Node>, ghost s: Shape<Node>)
      requires Here(p, s) && p.InRight? && p.left.Fork? && !BlackKids(p.left)
      requires parent == p.elem && brother == p.left.elem
      modifies this`node, nodes`right, nodes`left, nodes`parent, nodes`black
      ensures Here(Borrow(p), s)
    {
      hide Focus;
      GoUp(p, s);
      GoDown(p.up, Outer(p, s));
      LookBelow(DownLeft(p.up, Outer(p, s)), p.left);
      ghost var top := Fork(SortBrother(p), p.elem, p.black, s);
      var b := brother;
      if IsNodeBlack(brother.left) {
        SortRight(brother, p, s);
        LookBelow(p.up, top);
        b := parent.left;
      }
      LendRight(parent, b, p.up, top);
    }

    /** One turn of the loop of __rb_delete_color_fixup at a left child */
    method FixTurnLeft(parent: Node,
                       ghost p: Path<Node>, ghost s: Shape<Node>, ghost h: nat)
      returns (next: Node?, above: Node?)
      requires Here(p, s) && p.InLeft? && parent == p.elem && s.Fork? && PathOk(p, h + 1)
      modifies this`node, nodes`left, nodes`right, nodes`parent, nodes`black
      ensures Brother(p).Fork? && !RealBrother(p).Top? && Brother(RealBrother(p)).Fork?
      ensures var q := RealBrother(p);
        if BlackKids(Brother(q))
        then Here(q.up, Outer(RedBrother(q), s)) && next == q.elem && above == Above(q.up)
        else Here(Borrow(q), s) && next == node && above == null
    {
      hide Focus, PathOk;
      BrotherExists(p, h);
      ghost var q := RealBrother(p);
      GoUp(p, s);
      LookBelow(p.up, Outer(p, s));
      var brother := parent.right;
      if !IsNodeBlack(brother) {
        LiftLeft(parent, brother, p, s);
        GoUp(q, s);
        LookBelow(q.up, Outer(q, s));
        brother := parent.right;
      }
      GoDown(q.up, Outer(q, s));
      LookBelow(DownRight(q.up, Outer(q, s)), q.right);
      if IsNodeBlack(brother.left) && IsNodeBlack(brother.right) {
        DyeRight(brother, false, q.up, Outer(q, s));
        LookAt(q.up, Outer(RedBrother(q), s));
        next, above := parent, parent.parent;
      } else {
        BorrowLeft(parent, brother, q, s);
        next, above := node, null;
      }
    }

    /** One turn of the loop of __rb_delete_color_fixup at a right child */
    method FixTurnRight(parent: Node,
                       ghost p: Path<Node>, ghost s: Shape<Node>, ghost h: nat)
      returns (next: Node?, above: Node?)
      requires Here(p, s) && p.InRight? && parent == p.elem && s.Fork? && PathOk(p, h + 1)
      modifies this`node, nodes`right, nodes`left, nodes`parent, nodes`black
      ensures Brother(p).Fork? && !RealBrother(p).Top? && Brother(RealBrother(p)).Fork?
      ensures var q := RealBrother(p);
        if BlackKids(Brother(q))
        then Here(q.up, Outer(RedBrother(q), s)) && next == q.elem && above == Above(q.up)
        else Here(Borrow(q), s) && next == node && above == null
    {
      hide Focus, PathOk;
      BrotherExists(p, h);
      ghost var q := RealBrother(p);
      GoUp(p, s);
      LookBelow(p.up, Outer(p, s));
      var brother := parent.left;
      if !IsNodeBlack(brother) {
        LiftRight(parent, brother, p, s);
        GoUp(q, s);
        LookBelow(q.up, Outer(q, s));
        brother := parent.left;
      }
      GoDown(q.up, Outer(q, s));
      LookBelow(DownLeft(q.up, Outer(q, s)), q.left);
      if IsNodeBlack(brother.left) && IsNodeBlack(brother.right) {
        DyeLeft(brother, false, q.up, Outer(q, s));
        LookAt(q.up, Outer(RedBrother(q), s));
        next, above := parent, parent.parent;
      } else {
        BorrowRight(parent, brother, q, s);
        next, above := node, null;
      }
    }

    method FixTurn(x: Node, parent: Node,
                   ghost p: Path<Node>, ghost s: Shape<Node>, ghost h: nat)
      returns (next: Node?, above: Node?)
      requires Here(p, s) && !p.Top? && parent == p.elem && s.Fork? && x == s.elem && PathOk(p, h + 1)
      modifies this`node, nodes`left, nodes`right, nodes`parent, nodes`black
      ensures Brother(p).Fork? && !RealBrother(p).Top? && Brother(RealBrother(p)).Fork?
      ensures var q := RealBrother(p);
        if BlackKids(Brother(q))
        then Here(q.up, Outer(RedBrother(q), s)) && next == q.elem && above == Above(q.up)
        else Here(Borrow(q), s) && next == node && above == null
    {
      hide Focus, PathOk;
      LookAt(p, s);
      if x == parent.left {
        next, above := FixTurnLeft(parent, p, s, h);
      } else {
        next, above := FixTurnRight(parent, p, s, h);
      }
    }

    /** __rb_delete_color_fixup, called either at a black leaf that is about to be unlinked (`gone`) or
        at a red node that has just taken a black node's place. */
    method DeleteFixup(n: Node, ghost gone: bool,
                       ghost p0: Path<Node>, ghost t: Shape<Node>)
      returns (ghost pt: Path<Node>)
      requires Here(p0, t) && t.Fork? && n == t.elem && PathOk(p0, 1)
      requires if gone then t == Fork(Leaf, n, true, Leaf) && !p0.Top? else !t.black && Ok(Dyed(t, true), 1)
      modifies this`node, nodes`left, nodes`right, nodes`parent, nodes`black
      ensures gone ==> Here(pt, t) && RedBlack(Plug(pt, Leaf)) && !pt.Top?
      ensures !gone ==> Here(p0, Dyed(t, true))
    {
      hide Focus, PathOk, Ok, RedBlack;
      ghost var rest := if gone then Leaf else t;
      ghost var p, q: Path<Node>, h: nat := p0, Top, 0;
      FixupStarts(p0, t, gone);
      LookAt(p, t);
      FocusIsTop(Snap(nodes), node, order, p, t);
      var x, parent := n, n.parent;
      while x != node && IsNodeBlack(x)
        invariant Here(p, Plug(q, t)) && Plug(q, t).Fork?
        invariant x == Plug(q, t).elem && x in nodes && x.black == Plug(q, t).black && parent == Above(p)
        invariant x == node <==> p.Top?
        invariant Lacks(p, Plug(q, rest), h) && IsBlack(Plug(q, rest)) == Plug(q, t).black
        invariant if gone then q.Top? ==> !p.Top? else q.Top? && p == p0
        decreases if x.black then Depth(p) + 1 else 0
      {
        BrotherExists(p, h);
        ghost var r, s := RealBrother(p), Plug(q, t);
        x, parent := FixTurn(x, parent, p, s, h);
        if BlackKids(Brother(r)) {
          h := LendStep(p, q, t, rest, h);
          p, q := r.up, Append(q, Step(RedBrother(r)));
        } else {
          FocusTop(Snap(nodes), node, order, Borrow(r), s);
          h := BorrowStep(p, q, t, rest, h);
          p, q := Top, Append(q, Borrow(r));
        }
        LookAt(p, Plug(q, t));
        FocusIsTop(Snap(nodes), node, order, p, Plug(q, t));
      }
      Dye(x, true, p, Plug(q, t));
      pt := p0;
      if gone {
        DeleteDone(p, Plug(q, Leaf), h);
        PlugDyedTop(q, t);
        PlugDyedTop(q, Leaf);
        pt := Append(DyedTop(q), p);
        FocusDescend(Snap(nodes), node, order, p, DyedTop(q), t);
        PlugAppend(DyedTop(q), p, Leaf);
      }
    }

    /** __rb_transplant */
    method Transplant(newNode: Node?, oldNode: Node, ghost p: Path<Node>, ghost s: Shape<Node>)
      requires Here(p, s) && s.Fork? && oldNode == s.elem && Owner(LinkOf(p)) <= nodes && (newNode != null ==> newNode in nodes)
      modifies this`node, nodes`left, nodes`right, nodes`parent
      ensures Snap(nodes) == var h1 := PutLink(old(Snap(nodes)), LinkOf(p), newNode);
                             if newNode == null then h1 else PutParent(h1, newNode, Above(p))
      ensures node == if p.Top? then newNode else old(node)
    {
      hide Focus;
      LookAt(p, s);
      var parent := oldNode.parent;
      if parent == null {
        WriteLink(RootLink, newNode);
      } else if parent.left == oldNode {
        WriteLink(LeftLink(parent), newNode);
      } else {
        WriteLink(RightLink(parent), newNode);
      }
      if newNode != null {
        SetParent(newNode, parent);
      }
    }

    /** Takes out a node that has one child, leaving it its own parent. */
    method Unhang(target: Node, replacement: Node, ghost p: Path<Node>, ghost s: Shape<Node>, ghost kid: Shape<Node>)
      requires Here(p, s) && OnlyKid(s, kid) && target == s.elem && kid.Fork? && replacement == kid.elem
      modifies this`node, this`order, nodes`left, nodes`right, nodes`parent
      ensures order == Before(p) + InOrder(kid) + After(p) && Here(p, kid)
      ensures target.parent == target
    {
      hide Focus;
      TransplantRep(Snap(nodes), node, order, p, s, kid);
      Transplant(replacement, target, p, s);
      SetParent(target, target);
      order := Before(p) + InOrder(kid) + After(p);
    }

    /** The node to take out in place of `d`: its in-order successor if it has two children. */
    method FindTarget(d: Node, ghost pd: Path<Node>, ghost sd: Shape<Node>)
      returns (t: Node, ghost pt: Path<Node>, ghost st: Shape<Node>)
      requires Here(pd, sd) && sd.Fork? && d == sd.elem
      ensures Here(pt, st) && st.Fork? && t == st.elem && Plug(pt, st) == Plug(pd, sd)
      ensures st.left.Leaf? || st.right.Leaf?
      ensures if t == d then pt == pd && st == sd
              else st.left.Leaf? && Before(pt) == Before(pd) + InOrder(sd.left) + [d]
    {
      hide Focus;
      LookBelow(pd, sd);
      t, pt, st := d, pd, sd;
      if d.left != null && d.right != null {
        GoDown(pd, sd);
        t, pt, st := d.right, DownRight(pd, sd), sd.right;
        LookAt(pt, st);
        while t.left != null
          invariant Here(pt, st) && st.Fork? && t == st.elem && t in nodes && t.left == RootOf(st.left)
          invariant Plug(pt, st) == Plug(pd, sd) && Before(pt) == Before(pd) + InOrder(sd.left) + [d]
          invariant d in PathElems(pt)
          decreases st
        {
          GoDown(pt, st);
          t, pt, st := t.left, DownLeft(pt, st), st.left;
          LookAt(pt, st);
        }
        LookAt(pt, st);
      }
    }

    /** The fix-up at a red node that has taken the place of `t`, which is in the tree no more. */
    method FixReplacement(t: Node, replacement: Node, ghost p: Path<Node>, ghost kid: Shape<Node>)
      requires Here(p, kid) && kid.Fork? && replacement == kid.elem && !kid.black && PathOk(p, 1) && Ok(Dyed(kid, true), 1)
      requires t in nodes && t !in PathElems(p) && t !in Elems(kid)
      modifies this`node, this`nodes, nodes`left, nodes`right, nodes`parent, nodes`black
      ensures nodes == old(nodes) && Here(p, Dyed(kid, true)) && t.parent == old(t.parent)
    {
      hide Focus, PathOk, Ok;
      FocusFrame(Snap(nodes), Snap(nodes - {t}), node, order, p, kid);
      nodes := nodes - {t};
      ghost var _ := DeleteFixup(replacement, false, p, kid);
      FocusFrame(Snap(nodes), Snap(nodes + {t}), node, order, p, Dyed(kid, true));
      nodes := nodes + {t};
    }

    /** A node with one child gives its place to it; the child, red, turns black. */
    method RemoveParent(t: Node, replacement: Node, ghost p: Path<Node>, ghost s: Shape<Node>, ghost kid: Shape<Node>)
      requires Here(p, s) && OnlyKid(s, kid) && t == s.elem && kid.Fork? && replacement == kid.elem
      requires RedBlack(Plug(p, s))
      modifies this`node, this`order, this`nodes, nodes`left, nodes`right, nodes`parent, nodes`black
      ensures nodes == old(nodes) && order == Before(p) + InOrder(kid) + After(p)
      ensures Here(p, Dyed(kid, true)) && RedBlack(Plug(p, Dyed(kid, true))) && t.parent == t
    {
      hide Focus, RedBlack, PathOk, Ok, Distinct;
      LookBelow(p, s);
      FewKids(p, s, kid);
      OrderOf(p, s);
      TransplantOrder(p, s, kid);
      Unhang(t, replacement, p, s, kid);
      if IsNodeBlack(t) {
        FixReplacement(t, replacement, p, kid);
      }
    }

    /** Unlinks a leaf, leaving it its own parent. */
    method Unlink(t: Node, ghost p: Path<Node>, ghost b: bool)
      requires Here(p, Fork(Leaf, t, b, Leaf)) && !p.Top?
      modifies this`node, this`order, nodes`left, nodes`right, nodes`parent
      ensures order == Before(p) + After(p) && Here(p, Leaf) && t.parent == t
    {
      hide Focus, Distinct, Before, After, Elems;
      assert Before(p) + InOrder<Node>(Leaf) + After(p) == Before(p) + After(p);
      hide InOrder;
      ghost var s, h, root := Fork(Leaf, t, b, Leaf), Snap(nodes), node;
      LookAt(p, s);
      var link := NodeLink(t).value;
      TransplantRep(h, root, order, p, s, Leaf);
      WriteLink(link, null);
      SetParent(t, t);
      order := Before(p) + After(p);
    }

    /** A leaf is unlinked, after the rebalancing that a black one needs. */
    method RemoveLeaf(t: Node, ghost p: Path<Node>, ghost b: bool) returns (ghost pr: Path<Node>)
      requires Here(p, Fork(Leaf, t, b, Leaf)) && !p.Top? && RedBlack(Plug(p, Fork(Leaf, t, b, Leaf)))
      modifies this`node, this`order, nodes`left, nodes`right, nodes`parent, nodes`black
      ensures order == Before(p) + After(p) && Here(pr, Leaf) && RedBlack(Plug(pr, Leaf)) && t.parent == t
    {
      hide Focus, RedBlack, PathOk, Ok, Distinct;
      ghost var s, h, root := Fork(Leaf, t, b, Leaf), Snap(nodes), node;
      LookAt(p, s);
      FewKids(p, s, Leaf);
      pr := p;
      if IsNodeBlack(t) {
        pr := DeleteFixup(t, true, p, s);
      }
      LookAt(pr, s);
      OnePlace(h, root, Snap(nodes), node, order, p, pr, t, b);
      if t.parent != null {
        Unlink(t, pr, b);
      }
    }

    /** The middle part of __rb_do_delete_node_color: takes out `t`, which has one child at most. */
    method RemoveTarget(t: Node, ghost p: Path<Node>, ghost s: Shape<Node>)
      returns (ghost pr: Path<Node>, ghost sr: Shape<Node>)
      requires Here(p, s) && s.Fork? && t == s.elem && (s.left.Leaf? || s.right.Leaf?)
      requires RedBlack(Plug(p, s))
      modifies this`node, this`order, this`nodes, nodes`left, nodes`right, nodes`parent, nodes`black
      ensures nodes == old(nodes) && order == Before(p) + InOrder(if s.left.Fork? then s.left else s.right) + After(p)
      ensures Here(pr, sr) && RedBlack(Plug(pr, sr))
      ensures t.parent == if p.Top? && s.left.Leaf? && s.right.Leaf? then null else t
      ensures p.Top? && s.left.Leaf? && s.right.Leaf? ==> t.left == null && t.right == null
    {
      hide Focus, RedBlack;
      ghost var kid := if s.left.Fork? then s.left else s.right;
      LookBelow(p, s);
      var replacement := if t.left != null then t.left else t.right;
      if replacement != null {
        RemoveParent(t, replacement, p, s, kid);
        pr, sr := p, Dyed(kid, true);
      } else if t.parent == null {
        node := null;
        FocusEmpty(Snap(nodes));
        pr, sr, order := Top, Leaf, [];
      } else {
        pr := RemoveLeaf(t, p, s.black);
        sr := Leaf;
        assert Before(p) + After(p) == Before(p) + InOrder(kid) + After(p);
      }
    }

    /** `*n = *d`, the links and the colour */
    method CopyNode(n: Node, d: Node)
      requires n in nodes && d in nodes
      modifies n`left, n`right, n`parent, n`black
      ensures Snap(nodes) == old(Snap(nodes))[n := old(Snap(nodes))[d]]
    {
      n.left, n.right, n.parent, n.black := d.left, d.right, d.parent, d.black;
    }

    /** rb_node_init: a node in no tree is its own parent */
    method InitNode(d: Node)
      requires d in nodes
      modifies d`parent, d`black
      ensures Snap(nodes) == var h := old(Snap(nodes)); h[d := h[d].(parent := d, black := false)]
    {
      d.parent, d.black := d, false;
    }

    /** __rb_replace_node: the pointer writes */
    method TakeOver(link: Link, n: Node, d: Node)
      requires n in nodes && d in nodes && n != d && Owner(link) <= nodes && d !in Owner(link)
      requires (d.left != null ==> d.left in nodes) && (d.right != null ==> d.right in nodes)
      modifies this`node, nodes`left, nodes`right, nodes`parent, nodes`black
      ensures Snap(nodes) == ReplaceHeap(old(Snap(nodes)), link, old(d.left), old(d.right), n, d)
      ensures node == if link.RootLink? then n else old(node)
    {
      CopyNode(n, d);
      WriteLink(link, n);
      if d.left != null { SetParent(d.left, n); }
      if d.right != null { SetParent(d.right, n); }
      InitNode(d);
    }

    /** __rb_replace_node at the place of `d` */
    method ReplaceNode(n: Node, d: Node, ghost p: Path<Node>, ghost s: Shape<Node>)
      requires Here(p, s) && s.Fork? && d == s.elem && n in nodes && n !in order
      modifies this`node, this`order, nodes`left, nodes`right, nodes`parent, nodes`black
      ensures order == (Before(p) + InOrder(s.left)) + [n] + (InOrder(s.right) + After(p)) && Here(p, s.(elem := n))
      ensures d.parent == d
    {
      hide Focus;
      LookAt(p, s);
      OrderOf(p, s);
      KidsApart(p, s);
      Absent(p, s, n);
      ReplaceRep(Snap(nodes), node, order, p, s, n);
      var link := NodeLink(d).value;
      TakeOver(link, n, d);
      order := (Before(p) + InOrder(s.left)) + [n] + (InOrder(s.right) + After(p));
    }

    /** The last part of __rb_do_delete_node_color: the successor `t`, already out, takes the place of `d`. */
    method Succeed(t: Node, d: Node, ghost p: Path<Node>, ghost s: Shape<Node>)
      returns (ghost p': Path<Node>, ghost s': Shape<Node>, ghost a: seq<Node>, ghost b: seq<Node>)
      requires Here(p, s) && RedBlack(Plug(p, s)) && t in nodes && t !in order && d in order
      modifies this`node, this`order, nodes`left, nodes`right, nodes`parent, nodes`black
      ensures old(order) == a + [d] + b && order == a + [t] + b && Here(p', s') && RedBlack(Plug(p', s'))
      ensures d.parent == d
    {
      hide Focus, RedBlack;
      FocusTop(Snap(nodes), node, order, p, s);
      InOrderElems(Plug(p, s), d);
      ghost var pd, sd := Locate(Snap(nodes), node, order, Top, Plug(p, s), d);
      OrderOf(pd, sd);
      Around(pd, sd);
      RelabelOk(pd, sd, t);
      ReplaceNode(t, d, pd, sd);
      a, b := Before(pd) + InOrder(sd.left), InOrder(sd.right) + After(pd);
      p', s' := pd, sd.(elem := t);
    }

    /** __rb_do_delete_node_color, but for the bookkeeping */
    method TakeOut(d: Node, ghost p: Path<Node>, ghost s: Shape<Node>)
      returns (ghost pr: Path<Node>, ghost sr: Shape<Node>)
      requires Here(p, s) && s.Fork? && d == s.elem && RedBlack(Plug(p, s))
      modifies this`node, this`order, this`nodes, nodes`left, nodes`right, nodes`parent, nodes`black
      ensures Here(pr, sr) && RedBlack(Plug(pr, sr))
      ensures nodes == old(nodes) && OneMore(order, old(order), d)
      ensures d.parent == if old(order) == [d] then null else d
      ensures old(order) == [d] ==> d.left == null && d.right == null
    {
      hide Focus, RedBlack, Distinct;
      ghost var was := order;
      var t;
      ghost var pt, st;
      t, pt, st := FindTarget(d, p, s);
      OrderOf(p, s);
      OrderOf(pt, st);
      LookAt(pt, st);
      TransplantOrder(pt, st, if st.left.Fork? then st.left else st.right);
      OnlyNode(p, s);
      pr, sr := RemoveTarget(t, pt, st);
      OneMoreDistinct(order, was, t);
      if t != d {
        ghost var rest, a, b := order, [], [];
        pr, sr, a, b := Succeed(t, d, pr, sr);
        SuccessorOrder(was, p, s, pt, st, rest, a, b);
      }
    }

    // ---------- the tree as a whole ----------

    ghost predicate Valid()
      reads this, nodes`left, nodes`right, nodes`parent, nodes`black, nodes`key
    {
      && nodes == Elems(shape) && order == InOrder(shape)
      && Lawful(cmp)
      && Here(Top, shape)
      && RedBlack(shape)
      && Sorted(cmp, KeysOf(nodes), order)
    }

    /** __rb_find_key_link */
    method FindKeyLink(key: int) returns (link: Link, parent: Node?, ghost p: Path<Node>, ghost s: Shape<Node>)
      requires Valid()
      ensures Plug(p, s) == shape && Here(p, s)
      ensures link == LinkOf(p) && parent == Above(p) && Owner(link) <= nodes && ReadLink(link) == RootOf(s)
      ensures s.Fork? ==> s.elem in nodes && cmp(s.elem.key, key) == 0
      ensures AllBelow(cmp, KeysOf(nodes), Before(p), key) && AllAbove(cmp, KeysOf(nodes), After(p), key)
    {
      hide Distinct;
      ghost var keys := KeysOf(nodes);
      var pos := node;
      parent, link, p, s := null, RootLink, Top, shape;
      while pos != null
        invariant Plug(p, s) == shape && Here(p, s)
        invariant link == LinkOf(p) && parent == Above(p) && Owner(link) <= nodes && pos == RootOf(s) == ReadLink(link)
        invariant AllBelow(cmp, keys, Before(p), key) && AllAbove(cmp, keys, After(p), key)
        decreases s
      {
        GoDown(p, s);
        LookAt(p, s);
        var c := cmp(pos.key, key);
        if c > 0 {
          GoLeft(cmp, keys, order, p, s, key);
          link, p, s := LeftLink(pos), DownLeft(p, s), s.left;
        } else if c < 0 {
          GoRight(cmp, keys, order, p, s, key);
          link, p, s := RightLink(pos), DownRight(p, s), s.right;
        } else {
          break;
        }
        parent := pos;
        pos := ReadLink(link);
      }
    }

    method Hang(n: Node, parent: Node?, link: Link)
      requires n in nodes && Owner(link) <= nodes
      modifies this`node, n`left, n`right, n`parent, nodes`left, nodes`right
      ensures Snap(nodes) == AttachHeap(old(Snap(nodes)), parent, link, n)
      ensures node == if link.RootLink? then n else old(node)
    {
      LinkNodes(parent, n, link);
      WriteLink(LeftLink(n), null);
      WriteLink(RightLink(n), null);
    }

    /** Links a new node into an empty place. */
    method Attach(n: Node, parent: Node?, link: Link, ghost p: Path<Node>)
      requires Here(p, Leaf) && n !in nodes && n !in order && PathElems(p) == nodes && link == LinkOf(p) && parent == Above(p)
      modifies this`node, this`order, this`nodes, n`left, n`right, n`parent, nodes`left, nodes`right
      ensures nodes == old(nodes) + {n} && order == Before(p) + [n] + After(p) && Here(p, Fork(Leaf, n, n.black, Leaf))
    {
      hide Focus, Before, After;
      FocusFrame(Snap(nodes), Snap(nodes + {n}), node, order, p, Leaf);
      nodes := nodes + {n};
      AttachRep(Snap(nodes), node, order, p, n);
      Hang(n, parent, link);
      order := Before(p) + [n] + After(p);
    }

    /** rb_insert_node: hangs `n` where its key belongs, unless its key is there already. */
    method InsertNode(n: Node) returns (r: Node, ghost p: Path<Node>)
      requires Valid() && n !in nodes
      modifies this`node, this`order, this`nodes, n`left, n`right, n`parent, nodes`left, nodes`right
      ensures r != n ==> r in nodes && cmp(r.key, n.key) == 0 && unchanged(this) && unchanged(n) && unchanged(old(nodes))
      ensures r == n ==> nodes == old(nodes) + {n} && forall x :: x in old(nodes) ==> cmp(x.key, n.key) != 0
      ensures r == n ==> Plug(p, Leaf) == shape && old(order) == Before(p) + After(p) && order == Before(p) + [n] + After(p)
      ensures r == n ==> Sorted(cmp, KeysOf(nodes), order) && Here(p, Fork(Leaf, n, n.black, Leaf))
    {
      hide Focus, Sorted, RedBlack, Distinct, Lawful, AllBelow, AllAbove, InOrder, Before, After, Plug, Elems, PathElems;
      var link, parent;
      ghost var s;
      link, parent, p, s := FindKeyLink(n.key);
      r := n;
      if ReadLink(link) == null {
        PlaceFound(cmp, nodes, shape, n, p);
        Attach(n, parent, link, p);
      } else {
        r := ReadLink(link);
      }
    }

    /** The rebalancing loop of rb_insert_color */
    method InsertFixup(n: Node, ghost p0: Path<Node>) returns (ghost p: Path<Node>, ghost s: Shape<Node>)
      requires Here(p0, Fork(Leaf, n, false, Leaf)) && RedBlack(Plug(p0, Leaf))
      modifies this`node, nodes`left, nodes`right, nodes`parent, nodes`black
      ensures Here(p, s) && RedBlack(Plug(p, s))
    {
      hide Focus, RedBlack;
      ghost var h: nat := 0;
      p, s := p0, Fork(Leaf, n, false, Leaf);
      InsertStarts(p0, n);
      LookAbove(p, s);
      var pos, parent := n, n.parent;
      var grandParent := Parent(parent);
      while !IsNodeBlack(parent)
        invariant Here(p, s) && RedAt(p, s, h)
        invariant pos == s.elem && pos in nodes && parent == Above(p) && (!p.Top? ==> parent in nodes && parent.black == p.black)
        invariant !p.Top? ==> grandParent == Above(p.up)
        decreases Depth(p)
      {
        InsertTurnKeeps(p, s, h);
        pos := InsertTurnOnce(pos, parent, grandParent, p, s);
        p, s, h := p.up.up, InsertTurn(p, s), h + 1;
        LookAbove(p, s);
        parent := pos.parent;
        grandParent := Parent(parent);
      }
      InsertDone(p, s, h);
      LookAt(p, s);
      if pos.parent == null {
        Dye(pos, true, p, s);
        s := Dyed(s, true);
      }
    }

    /** rb_insert_color from the point where the new node hangs in its place */
    method Rebalance(n: Node, ghost p: Path<Node>)
      requires Lawful(cmp) && nodes == Elems(shape) + {n} && shape == Plug(p, Leaf)
      requires order == Before(p) + [n] + After(p) && Here(p, Fork(Leaf, n, n.black, Leaf))
      requires RedBlack(shape) && Sorted(cmp, KeysOf(nodes), order)
      modifies this`node, this`shape, nodes`left, nodes`right, nodes`parent, nodes`black
      ensures Valid()
    {
      hide Focus, Sorted, RedBlack, Distinct;
      Dye(n, false, p, Fork(Leaf, n, n.black, Leaf));
      ghost var p', s' := InsertFixup(n, p);
      Adopt(n, p, p', s');
    }

    /** Takes in the node that was added. */
    ghost method Adopt(n: Node, p: Path<Node>, p': Path<Node>, s': Shape<Node>)
      requires Lawful(cmp) && nodes == Elems(shape) + {n} && shape == Plug(p, Leaf)
      requires order == Before(p) + [n] + After(p) && Here(p', s') && RedBlack(Plug(p', s')) && Sorted(cmp, KeysOf(nodes), order)
      modifies this`shape
      ensures Valid()
    {
      hide Focus, Sorted, RedBlack, Distinct, Lawful;
      FocusTop(Snap(nodes), node, order, p', s');
      PlugInOrder(p, Leaf);
      ElemsGrow(shape, Plug(p', s'), Before(p), n, After(p));
      hide Plug, Before, After;
      shape := Plug(p', s');
    }

    /** rb_insert_color */
    method InsertColor(n: Node?) returns (r: Node?)
      requires Valid() && n !in nodes
      modifies this`node, this`shape, this`nodes, this`order
      modifies nodes`left, nodes`right, nodes`parent, nodes`black
      modifies (if n == null then {} else {n})`left, (if n == null then {} else {n})`right
      modifies (if n == null then {} else {n})`parent, (if n == null then {} else {n})`black
      ensures Valid()
      ensures n == null ==> r == null
      ensures r != n || n == null ==> unchanged(this) && unchanged(old(nodes))
      ensures n != null && r != n ==> r in nodes && cmp(r.key, n.key) == 0 && unchanged(n)
      ensures n != null && r == n ==>
        && nodes == old(nodes) + {n} && OneMore(old(order), order, n)
        && forall x :: x in old(nodes) ==> cmp(x.key, n.key) != 0
    {
      hide Focus, Sorted, RedBlack, Distinct, Lawful;
      if n == null { return null; }
      ghost var p;
      r, p := InsertNode(n);
      if r != n { return; }
      Rebalance(n, p);
      assert order == InsertAt(old(order), |Before(p)|, n);
    }

    /** Forgets the node that was taken out. */
    ghost method Settle(d: Node, was: seq<Node>, p: Path<Node>, s: Shape<Node>)
      requires Lawful(cmp) && nodes == Elems(shape) && was == InOrder(shape) && Distinct(was) && Sorted(cmp, KeysOf(nodes), was)
      requires Here(p, s) && RedBlack(Plug(p, s)) && OneMore(order, was, d)
      modifies this`shape, this`nodes
      ensures Valid() && nodes == old(nodes) - {d}
    {
      hide Focus, RedBlack, Sorted, Lawful;
      OneMoreDistinct(order, was, d);
      hide Distinct;
      FocusTop(Snap(nodes), node, order, p, s);
      Lost(Plug(p, s), shape, d);
      hide OneMore, Plug, InOrder, Elems;
      SortedRemove(cmp, KeysOf(nodes), KeysOf(nodes - {d}), was, order, d);
      FocusFrame(Snap(nodes), Snap(nodes - {d}), node, order, Top, Plug(p, s));
      shape, nodes := Plug(p, s), nodes - {d};
    }

    /** __rb_do_delete_node_color */
    method DoDelete(d: Node, ghost p: Path<Node>, ghost s: Shape<Node>)
      requires Valid() && Here(p, s) && s.Fork? && d == s.elem && Plug(p, s) == shape
      modifies this`node, this`shape, this`nodes, this`order, nodes`left, nodes`right, nodes`parent, nodes`black
      ensures Valid() && nodes == old(nodes) - {d} && OneMore(order, old(order), d)
      ensures d.parent == if old(order) == [d] then null else d
      ensures old(order) == [d] ==> d.left == null && d.right == null
    {
      hide Focus, RedBlack, Sorted, Distinct, Lawful;
      ghost var was := order;
      OrderOf(p, s);
      ghost var pr, sr := TakeOut(d, p, s);
      Settle(d, was, pr, sr);
    }

    /** rb_delete_node_color. A null `n` stands for the root, as it does in the C code, and so does a node in no tree whose parent
        is null: one that was the last of its tree when it was deleted. Nothing but `n` is removed exactly if `n` is in the tree,
        or is its own parent, or there is no root. */
    method DeleteNodeColor(n: Node?) returns (r: Node?)
      requires Valid() && (n != null ==> n in nodes || n.parent == n || n.parent == null)
      modifies this`node, this`shape, this`nodes, this`order, nodes`left, nodes`right, nodes`parent, nodes`black
      ensures Valid()
      ensures n in old(nodes) ==> r == n
      ensures n !in old(nodes) ==> r == if n == null || old(n.parent) == null then old(node) else null
      ensures (r == null || r == n) <==> n in old(nodes) || (n != null && old(n.parent) == n) || old(node) == null
      ensures r == null ==> unchanged(this) && unchanged(old(nodes))
      ensures r != null ==> r in old(nodes) && nodes == old(nodes) - {r} && OneMore<Node>(order, old(order), r)
      ensures r != null ==> r.parent == if old(order) == [r] then null else r
      ensures r != null && old(order) == [r] ==> r.left == null && r.right == null
    {
      ghost var p, s := FindNode(if n == null || (n !in nodes && n.parent == null) then node else n);
      hide Focus, RedBlack, Sorted, Distinct, Lawful, OneMore;
      var link := NodeLink(n);
      if link.None? || ReadLink(link.value) == null { return null; }
      r := ReadLink(link.value);
      DoDelete(r, p, s);
    }

    /** Deleting a tree's only node, adding another and deleting the first one again deletes the other. */
    method DeleteTwice(n: Node, m: Node) returns (r: Node?)
      requires Valid() && order == [n] && m !in nodes
      modifies this`node, this`shape, this`nodes, this`order, nodes`left, nodes`right, nodes`parent, nodes`black
      modifies m`left, m`right, m`parent, m`black
      ensures Valid() && r == m && nodes == {}
    {
      assert n in nodes && nodes == {n} by { OrderNodes(); }
      hide Valid, OneMore;
      var gone := DeleteNodeColor(n);
      var more := InsertColor(m);
      assert more == m;
      RootIn();
      r := DeleteNodeColor(n);
    }

    lemma OrderNodes()
      requires Valid()
      ensures nodes == set x | x in order
    {
      forall x: Node ensures x in nodes <==> x in order { InOrderElems(shape, x); }
    }

    /** There is a root exactly if there are nodes, and it is one of them. */
    lemma RootIn()
      requires Valid()
      ensures node == null <==> nodes == {}
      ensures node != null ==> node in nodes
    {
      ghost var p, s := FindNode(node);
      assert node == RootOf(shape);
    }

    /** rb_delete_key_color */
    method DeleteKeyColor(key: int) returns (r: Node?)
      requires Valid()
      modifies this`node, this`shape, this`nodes, this`order, nodes`left, nodes`right, nodes`parent, nodes`black
      ensures Valid()
      ensures r == null ==> unchanged(this) && unchanged(old(nodes)) && forall x :: x in nodes ==> cmp(x.key, key) != 0
      ensures r != null ==> r in old(nodes) && cmp(r.key, key) == 0 && nodes == old(nodes) - {r} && OneMore<Node>(order, old(order), r)
    {
      hide Focus, RedBlack, Sorted, Distinct, Lawful, OneMore;
      var link, parent;
      ghost var p, s;
      link, parent, p, s := FindKeyLink(key);
      r := ReadLink(link);
      if r == null {
        NoSuchKey(cmp, nodes, shape, p, key);
        return;
      }
      DoDelete(r, p, s);
    }

    /** The place of a node, and the link that leads to it. */
    lemma FindNode(n: Node?) returns (p: Path<Node>, s: Shape<Node>)
      requires Valid()
      ensures Here(p, s) && Plug(p, s) == shape
      ensures n in nodes ==> RootOf(s) == n && NodeLink(n) == Some(LinkOf(p)) && Owner(LinkOf(p)) <= nodes && ReadLink(LinkOf(p)) == n
      ensures n == node && n != null ==> n in nodes && p.Top?
    {
      p, s := Top, shape;
      if n in nodes {
        p, s := Locate(Snap(nodes), node, order, Top, shape, n);
        LookAt(p, s);
        FocusIsTop(Snap(nodes), node, order, p, s);
      }
    }

    // ---------- walking in order ----------

    /** rb_first_node: the node with the smallest key */
    method First() returns (r: Node?)
      requires Valid()
      ensures r == FirstOf(order) && (r == null <==> nodes == {})
      ensures r != null ==> r in nodes && forall x :: x in nodes ==> cmp(r.key, x.key) <= 0
    {
      assert node == RootOf(shape);
      hide Focus, RedBlack, Sorted, Lawful, Distinct;
      if node == null { return null; }
      r := Leftmost(node, Top, shape);
      NextFacts(-1);
    }

    /** rb_last_node: the node with the largest key */
    method Last() returns (r: Node?)
      requires Valid()
      ensures r == LastOf(order) && (r == null <==> nodes == {})
      ensures r != null ==> r in nodes && forall x :: x in nodes ==> cmp(x.key, r.key) <= 0
    {
      assert node == RootOf(shape);
      hide Focus, RedBlack, Sorted, Lawful, Distinct;
      if node == null { return null; }
      r := Rightmost(node, Top, shape);
      NextFacts(|order| - 1);
    }

    /** The loop that follows left links down a subtree */
    method Leftmost(top: Node, ghost p: Path<Node>, ghost s: Shape<Node>) returns (r: Node)
      requires Here(p, s) && top == RootOf(s)
      ensures r == FirstOf(InOrder(s))
    {
      hide Focus;
      ghost var q, t := p, s;
      r := top;
      LookAt(q, t);
      while r.left != null
        invariant Here(q, t) && r == RootOf(t) && r in nodes && r.left == RootOf(t.left)
        invariant FirstOf(InOrder(t)) == FirstOf(InOrder(s))
        decreases t
      {
        GoDown(q, t);
        r, q, t := r.left, DownLeft(q, t), t.left;
        LookAt(q, t);
      }
    }

    /** The loop that follows right links down a subtree */
    method Rightmost(top: Node, ghost p: Path<Node>, ghost s: Shape<Node>) returns (r: Node)
      requires Here(p, s) && top == RootOf(s)
      ensures r == LastOf(InOrder(s))
    {
      hide Focus;
      ghost var q, t := p, s;
      r := top;
      LookAt(q, t);
      while r.right != null
        invariant Here(q, t) && r == RootOf(t) && r in nodes && r.right == RootOf(t.right)
        invariant LastOf(InOrder(t)) == LastOf(InOrder(s))
        decreases t
      {
        GoDown(q, t);
        r, q, t := r.right, DownRight(q, t), t.right;
        LookAt(q, t);
      }
    }

    /** rb_next_node, at a known place, or for a node that is alone */
    method NextAt(n: Node, ghost p: Path<Node>, ghost s: Shape<Node>) returns (r: Node?)
      requires if n in nodes then Here(p, s) && n == RootOf(s) else n.parent == null && n.right == null
      ensures if n in nodes then r == FirstOf(InOrder(s.right) + After(p)) else r == null
    {
      hide Focus;
      if n in nodes {
        LookAt(p, s);
        GoDown(p, s);
      }
      if n.right != null {
        r := Leftmost(n.right, DownRight(p, s), s.right);
        return;
      }
      ghost var q, t := p, s;
      var pos := n;
      r := n.parent;
      while r != null && pos == r.right
        invariant n !in nodes ==> r == null
        invariant n in nodes ==> Here(q, t) && pos == RootOf(t) && pos in nodes && r == pos.parent == Above(q) && (r != null ==> r in nodes)
        invariant n in nodes && !q.Top? ==> (q.InLeft? <==> r.left == pos) && (q.InRight? <==> r.right == pos)
        invariant n in nodes ==> After(q) == After(p)
        decreases q
      {
        GoUp(q, t);
        q, t := q.up, Outer(q, t);
        pos := r;
        LookAt(q, t);
        r := pos.parent;
      }
    }

    /** rb_prev_node, at a known place */
    method PrevAt(n: Node, ghost p: Path<Node>, ghost s: Shape<Node>) returns (r: Node?)
      requires Here(p, s) && n == RootOf(s)
      ensures r == LastOf(Before(p) + InOrder(s.left))
    {
      hide Focus;
      LookAt(p, s);
      GoDown(p, s);
      if n.left != null {
        r := Rightmost(n.left, DownLeft(p, s), s.left);
        return;
      }
      ghost var q, t := p, s;
      var pos := n;
      r := n.parent;
      LookAt(q, t);
      while r != null && pos == r.left
        invariant Here(q, t) && pos == RootOf(t) && pos in nodes && r == pos.parent == Above(q) && (r != null ==> r in nodes)
        invariant !q.Top? ==> (q.InLeft? <==> r.left == pos) && (q.InRight? <==> r.right == pos)
        invariant Before(q) == Before(p)
        decreases q
      {
        GoUp(q, t);
        q, t := q.up, Outer(q, t);
        pos := r;
        LookAt(q, t);
        r := pos.parent;
      }
    }

    /** rb_next_node: the node with the next larger key; a node in no tree has none, also one that was the last of its tree. */
    method Next(n: Node?) returns (r: Node?)
      requires Valid() && (n != null ==> n in nodes || n.parent == n || (n.parent == null && n.right == null))
      ensures n !in nodes ==> r == null
      ensures n in nodes && r == null ==> forall x :: x in nodes ==> cmp(x.key, n.key) <= 0
      ensures r != null ==> r in nodes && cmp(n.key, r.key) < 0 && forall x :: x in nodes ==> cmp(x.key, n.key) <= 0 || cmp(r.key, x.key) <= 0
    {
      ghost var p, s := FindNode(n);
      hide Focus, Sorted, RedBlack, Distinct, Lawful;
      if n == null || n.parent == n { return null; }
      r := NextAt(n, p, s);
      if n in nodes {
        ghost var i := PlaceIndex(p, s);
        NextFacts(i);
      }
    }

    /** What the order says about the node after index `i`, or about the first one if `i` is -1. */
    lemma NextFacts(i: int)
      requires Valid() && -1 <= i < |order|
      ensures i >= 0 ==> order[i] in nodes
      ensures i + 1 < |order| ==> order[i + 1] in nodes && (i >= 0 ==> cmp(order[i].key, order[i + 1].key) < 0)
      ensures forall x :: x in nodes ==>
        (i >= 0 && cmp(x.key, order[i].key) <= 0) || (i + 1 < |order| && cmp(order[i + 1].key, x.key) <= 0)
    {
      hide Valid;
      if i >= 0 { Increasing(i, i); }
      if i + 1 < |order| { Increasing(i + 1, i + 1); }
      if i >= 0 && i + 1 < |order| { Increasing(i, i + 1); }
      forall x | x in nodes
        ensures (i >= 0 && cmp(x.key, order[i].key) <= 0) || (i + 1 < |order| && cmp(order[i + 1].key, x.key) <= 0)
      {
        var j := IndexOf(x);
        if j <= i { Increasing(j, i); } else { Increasing(i + 1, j); }
      }
    }

    lemma PlaceIndex(p: Path<Node>, s: Shape<Node>) returns (i: int)
      requires Here(p, s) && s.Fork?
      ensures 0 <= i < |order| && order[i] == s.elem
      ensures FirstOf(InOrder(s.right) + After(p)) == if i + 1 < |order| then order[i + 1] else null
    {
      OrderOf(p, s);
      Around(p, s);
      i := |Before(p) + InOrder(s.left)|;
      assert order[i + 1..] == InOrder(s.right) + After(p);
    }

    /** `i` splits the order into the keys below `key` and those above it, with equal ones on the right
        (`up`) or on the left. */
    ghost predicate Split(key: int, i: int, up: bool)
      reads this, nodes
    {
      && 0 <= i <= |order| && (forall n :: n in order ==> n in nodes)
      && (forall j :: 0 <= j < i ==> if up then cmp(order[j].key, key) < 0 else cmp(order[j].key, key) <= 0)
      && (forall j :: i <= j < |order| ==> if up then cmp(order[j].key, key) >= 0 else cmp(order[j].key, key) > 0)
    }

    /** rb_find_key */
    method FindKey(key: int) returns (r: Node?)
      requires Valid()
      ensures r != null ==> r in nodes && cmp(r.key, key) == 0
      ensures r == null ==> forall x :: x in nodes ==> cmp(x.key, key) != 0
    {
      hide Focus, RedBlack, Sorted, Distinct, Lawful;
      var link, parent;
      ghost var p, s;
      link, parent, p, s := FindKeyLink(key);
      r := ReadLink(link);
      if r == null { NoSuchKey(cmp, nodes, shape, p, key); }
    }

    /** Smaller keys, then perhaps a node with the key, then larger keys. */
    lemma SplitFrom(a: seq<Node>, mid: seq<Node>, b: seq<Node>, key: int)
      requires order == a + mid + b && (forall n :: n in mid ==> n in nodes && cmp(n.key, key) == 0)
      requires AllBelow(cmp, KeysOf(nodes), a, key) && AllAbove(cmp, KeysOf(nodes), b, key)
      ensures Split(key, |a|, true) && Split(key, |a + mid|, false)
      ensures order[|a|..] == mid + b && order[..|a + mid|] == a + mid
    {
      forall j | 0 <= j < |order|
        ensures order[j] in nodes
        ensures j < |a| ==> cmp(order[j].key, key) < 0
        ensures |a| <= j < |a + mid| ==> cmp(order[j].key, key) == 0
        ensures |a + mid| <= j ==> cmp(order[j].key, key) > 0
      {
        assert order[j] in if j < |a| then a else if j < |a + mid| then mid else b;
      }
    }

    lemma SplitHere(p: Path<Node>, s: Shape<Node>, key: int)
      requires Valid() && Here(p, s)
      requires AllBelow(cmp, KeysOf(nodes), Before(p), key) && AllAbove(cmp, KeysOf(nodes), After(p), key)
      requires s.Fork? ==> s.elem in nodes && cmp(s.elem.key, key) == 0
      ensures s.Leaf? ==> var k := |Before(p)|;
        Split(key, k, true) && Split(key, k, false) && order[k..] == After(p) && order[..k] == Before(p)
      ensures s.Fork? ==> var k := |Before(p) + InOrder(s.left)|;
        Split(key, k, true) && Split(key, k + 1, false) && FirstOf(order[k..]) == s.elem && LastOf(order[..k + 1]) == s.elem
    {
      hide Focus, RedBlack, Distinct, Split, Sorted, AllBelow, AllAbove, Lawful, Elems, Before, After;
      OrderOf(p, s);
      if s.Leaf? {
        assert Before(p) + InOrder(s) + After(p) == Before(p) + [] + After(p);
        SplitFrom(Before(p), [], After(p), key);
        assert Before(p) + [] == Before(p) && [] + After(p) == After(p);
      } else {
        Around(p, s);
        hide InOrder;
        var a, b := Before(p) + InOrder(s.left), InOrder(s.right) + After(p);
        SplitAround(cmp, KeysOf(nodes), a, s.elem, b, key);
        SplitFrom(a, [s.elem], b, key);
        FirstAndLast(a, s.elem, b);
      }
    }

    lemma IndexOf(x: Node) returns (j: int)
      requires Valid() && x in nodes
      ensures 0 <= j < |order| && order[j] == x
    {
      hide Focus, RedBlack, Sorted, Lawful;
      InOrderElems(shape, x);
      j :| 0 <= j < |order| && order[j] == x;
    }

    /** Keys increase with the index. */
    lemma Increasing(i: int, j: int)
      requires Valid() && 0 <= i <= j < |order|
      ensures order[i] in nodes && order[j] in nodes && cmp(order[i].key, order[j].key) <= 0
      ensures i < j ==> cmp(order[i].key, order[j].key) < 0
    {
      hide Focus, RedBlack;
      Flip(cmp, KeysOf(nodes)[order[i]], KeysOf(nodes)[order[i]]);
    }

    lemma SplitRange(key: int, i: int, up: bool)
      requires Split(key, i, up)
      ensures 0 <= i <= |order|
    {
    }

    /** The side of the split a node is on. */
    lemma Side(key: int, i: int, up: bool, x: Node) returns (j: int)
      requires Valid() && Split(key, i, up) && x in nodes
      ensures 0 <= j < |order| && order[j] == x
      ensures j < i <==> if up then cmp(x.key, key) < 0 else cmp(x.key, key) <= 0
    {
      hide Focus, RedBlack, Sorted, Lawful;
      j := IndexOf(x);
    }

    /** rb_find_key_rup: the node with the smallest key at or above `key` */
    method FindKeyUp(key: int) returns (r: Node?)
      requires Valid()
      ensures if r == null then forall x :: x in nodes ==> cmp(x.key, key) < 0
              else r in nodes && cmp(r.key, key) >= 0 && forall x :: x in nodes && cmp(x.key, key) >= 0 ==> cmp(r.key, x.key) <= 0
    {
      ghost var i;
      r, i := CeilingAt(key);
      assert 0 <= i <= |order| && (r == null <==> i == |order|) && (i < |order| ==> r == order[i]);
      hide Valid, Split;
      if r != null { Increasing(i, i); var _ := Side(key, i, true, r); }
      forall x | x in nodes ensures cmp(x.key, key) < 0 || (r != null && cmp(r.key, x.key) <= 0) {
        var j := Side(key, i, true, x);
        if i <= j { Increasing(i, j); }
      }
    }

    method CeilingAt(key: int) returns (r: Node?, ghost i: int)
      requires Valid()
      ensures Split(key, i, true) && r == FirstOf(order[i..])
    {
      hide Focus, RedBlack, Sorted, Distinct, Lawful, Split, Plug;
      var link, parent;
      ghost var p, s;
      link, parent, p, s := FindKeyLink(key);
      SplitHere(p, s, key);
      i := if s.Leaf? then |Before(p)| else |Before(p) + InOrder(s.left)|;
      if ReadLink(link) != null { r := ReadLink(link); return; }
      if parent == null { r := null; return; }
      GoUp(p, s);
      LookAt(p.up, Outer(p, s));
      if cmp(parent.key, key) >= 0 {
        assert p.InRight? ==> parent in Before(p);
        r := parent;
      } else {
        assert p.InLeft? ==> parent in After(p);
        r := NextAt(parent, p.up, Outer(p, s));
      }
    }

    /** rb_find_key_rdown: the node with the largest key at or below `key` */
    method FindKeyDown(key: int) returns (r: Node?)
      requires Valid()
      ensures if r == null then forall x :: x in nodes ==> cmp(x.key, key) > 0
              else r in nodes && cmp(r.key, key) <= 0 && forall x :: x in nodes && cmp(x.key, key) <= 0 ==> cmp(x.key, r.key) <= 0
    {
      hide Valid, Split;
      ghost var i;
      r, i := FloorAt(key);
      if r != null { LastBelow(key, i); }
      forall x | x in nodes ensures cmp(x.key, key) > 0 || (r != null && cmp(x.key, r.key) <= 0) { AtOrBelow(key, i, x); }
    }

    lemma LastBelow(key: int, i: int)
      requires Valid() && Split(key, i, false) && 0 < i <= |order|
      ensures order[i - 1] in nodes && cmp(order[i - 1].key, key) <= 0
    {
      hide Valid;
      Increasing(i - 1, i - 1);
    }

    lemma AtOrBelow(key: int, i: int, x: Node)
      requires Valid() && Split(key, i, false) && x in nodes && 0 <= i <= |order|
      ensures cmp(x.key, key) > 0 || (i > 0 && order[i - 1] in nodes && cmp(x.key, order[i - 1].key) <= 0)
    {
      hide Valid, Split;
      var j := Side(key, i, false, x);
      if j < i { Increasing(j, i - 1); }
    }

    method FloorAt(key: int) returns (r: Node?, ghost i: int)
      requires Valid()
      ensures Split(key, i, false) && 0 <= i <= |order| && r == if i == 0 then null else order[i - 1]
    {
      hide Focus, RedBlack, Sorted, Distinct, Lawful, Split, Plug;
      var link, parent;
      ghost var p, s;
      link, parent, p, s := FindKeyLink(key);
      SplitHere(p, s, key);
      i := if s.Leaf? then |Before(p)| else |Before(p) + InOrder(s.left)| + 1;
      SplitRange(key, i, false);
      if ReadLink(link) != null { r := ReadLink(link); return; }
      if parent == null { r := null; return; }
      GoUp(p, s);
      LookAt(p.up, Outer(p, s));
      if cmp(parent.key, key) <= 0 {
        assert p.InLeft? ==> parent in After(p);
        r := parent;
      } else {
        assert p.InRight? ==> parent in Before(p);
        r := PrevAt(parent, p.up, Outer(p, s));
      }
    }
  }
}
