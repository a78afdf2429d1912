/** Linked tree nodes: what the left, right and parent pointers of a set of nodes represent, and what
    the pointer writes of a rotation or a recolouring do to it. */
module RbLinks {
  import opened Basics
  import opened RbShape

  /** A tree node. `key` and `data` belong to the structure the node is embedded in. */
  class Node {
    var key: int
    var data: int
    var left: Node?
    var right: Node?
    var parent: Node?
    var black: bool

    /** A node in no tree is its own parent. */
    constructor (key: int, data: int)
      ensures this.key == key && this.data == data && parent == this
    {
      this.key, this.data := key, data;
      left, right, parent, black := null, null, this, false;
    }
  }

  /** A pointer to the pointer that holds a node: `struct rb_node **`. */
  datatype Link = RootLink | LeftLink(owner: Node) | RightLink(owner: Node)

  function Owner(l: Link): set<Node> {
    if l.RootLink? then {} else {l.owner}
  }

  // ---------- what a heap of linked nodes represents ----------

  datatype Cell = Cell(left: Node?, right: Node?, parent: Node?, black: bool)
  type Heap = map<Node, Cell>

  ghost function Snap(nodes: set<Node>): Heap
    reads nodes`left, nodes`right, nodes`parent, nodes`black
  {
    map n | n in nodes :: Cell(n.left, n.right, n.parent, n.black)
  }

  ghost function RootOf(s: Shape<Node>): Node? {
    if s.Leaf? then null else s.elem
  }

  /** The node above a hole. */
  ghost function Above(p: Path<Node>): Node? {
    if p.Top? then null else p.elem
  }

  ghost function LinkOf(p: Path<Node>): Link {
    match p
    case Top => RootLink
    case InLeft(_, e, _, _) => LeftLink(e)
    case InRight(_, e, _, _) => RightLink(e)
  }

  ghost predicate At(h: Heap, n: Node, c: Cell) { n in h && h[n] == c }

  /** The nodes of `s` are linked in `h` as `s` says, below `parent`. */
  ghost predicate Rep(h: Heap, s: Shape<Node>, parent: Node?) {
    s.Fork? ==>
      && At(h, s.elem, Cell(RootOf(s.left), RootOf(s.right), parent, s.black))
      && Rep(h, s.left, s.elem)
      && Rep(h, s.right, s.elem)
  }

  /** The nodes around a hole are linked in `h` as `p` says, with `hole` in the hole, below `root`. */
  ghost predicate RepPath(h: Heap, p: Path<Node>, hole: Node?, root: Node?) {
    match p
    case Top => root == hole
    case InLeft(up, e, b, r) =>
      At(h, e, Cell(hole, RootOf(r), Above(up), b)) && Rep(h, r, e) && RepPath(h, up, e, root)
    case InRight(l, e, b, up) =>
      At(h, e, Cell(RootOf(l), hole, Above(up), b)) && Rep(h, l, e) && RepPath(h, up, e, root)
  }

  ghost predicate Agree(h: Heap, h': Heap, nodes: set<Node>) {
    forall n :: n in nodes && n in h ==> At(h', n, h[n])
  }

  lemma {:induction false} RepFrame(h: Heap, h': Heap, s: Shape<Node>, parent: Node?)
    requires Rep(h, s, parent) && Agree(h, h', Elems(s))
    ensures Rep(h', s, parent)
  {
    if s.Fork? { RepFrame(h, h', s.left, s.elem); RepFrame(h, h', s.right, s.elem); }
  }

  /** A subtree hung under another parent. */
  lemma Reparent(h: Heap, h': Heap, s: Shape<Node>, parent: Node?, parent': Node?)
    requires Rep(h, s, parent) && Distinct(InOrder(s))
    requires s.Fork? ==> At(h', s.elem, h[s.elem].(parent := parent'))
    requires forall n :: n in Elems(s) && n != RootOf(s) && n in h ==> At(h', n, h[n])
    ensures Rep(h', s, parent')
  {
    if s.Fork? {
      assert InOrder(s) == InOrder(s.left) + [s.elem] + InOrder(s.right);
      ForkApart(s.left, s.elem, s.right);
      RepFrame(h, h', s.left, s.elem);
      RepFrame(h, h', s.right, s.elem);
    }
  }

  lemma {:induction false} RepPathFrame(h: Heap, h': Heap, p: Path<Node>, hole: Node?, root: Node?)
    requires RepPath(h, p, hole, root) && Agree(h, h', PathElems(p))
    ensures RepPath(h', p, hole, root)
  {
    match p
    case Top =>
    case InLeft(up, e, b, r) => RepFrame(h, h', r, e); RepPathFrame(h, h', up, e, root);
    case InRight(l, e, b, up) => RepFrame(h, h', l, e); RepPathFrame(h, h', up, e, root);
  }

  /** Writing through the link of a hole changes what is in the hole and nothing else. */
  lemma Relinked(h: Heap, h': Heap, p: Path<Node>, hole: Node?, value: Node?, root: Node?, root': Node?)
    requires RepPath(h, p, hole, root) && Distinct(Before(p) + After(p))
    requires if p.Top? then root' == value else root' == root
    requires p.InLeft? ==> At(h', p.elem, h[p.elem].(left := value))
    requires p.InRight? ==> At(h', p.elem, h[p.elem].(right := value))
    requires forall n :: n in PathElems(p) && n != Above(p) && n in h ==> At(h', n, h[n])
    ensures RepPath(h', p, value, root')
  {
    if !p.Top? {
      PathApart(p);
      RepPathFrame(h, h', p.up, p.elem, root);
      RepFrame(h, h', if p.InLeft? then p.right else p.left, p.elem);
    }
  }

  lemma {:induction false} Join(h: Heap, p: Path<Node>, s: Shape<Node>, root: Node?)
    requires Rep(h, s, Above(p)) && RepPath(h, p, RootOf(s), root)
    ensures Rep(h, Plug(p, s), null) && root == RootOf(Plug(p, s))
    decreases p
  {
    match p
    case Top =>
    case InLeft(up, e, b, r) => Join(h, up, Fork(s, e, b, r), root);
    case InRight(l, e, b, up) => Join(h, up, Fork(l, e, b, s), root);
  }

  /** The subtree `s` sits in the hole of `p` in the tree below `root`, whose nodes are `order`. */
  ghost predicate Focus(h: Heap, root: Node?, order: seq<Node>, p: Path<Node>, s: Shape<Node>) {
    && Distinct(order) && order == Before(p) + InOrder(s) + After(p)
    && Rep(h, s, Above(p))
    && RepPath(h, p, RootOf(s), root)
  }

  /** A hole's subtree with an inner fork: parts a, b, c around nodes x and y are apart from each
      other and from the path. */
  ghost predicate Parts(p: Path<Node>, a: Shape<Node>, x: Node, b: Shape<Node>, y: Node, c: Shape<Node>) {
    && x != y && Elems(a) !! Elems(b) !! Elems(c) !! PathElems(p)
    && x !in Elems(a) + Elems(b) + Elems(c) + PathElems(p)
    && y !in Elems(a) + Elems(b) + Elems(c) + PathElems(p)
    && Distinct(InOrder(b))
  }

  lemma PartsApart(p: Path<Node>, a: Shape<Node>, x: Node, b: Shape<Node>, y: Node, c: Shape<Node>)
    requires Distinct(Before(p) + (InOrder(a) + [x] + (InOrder(b) + [y] + InOrder(c))) + After(p))
    ensures Parts(p, a, x, b, y, c) && Distinct(Before(p) + After(p))
  {
    var s := Fork(a, x, true, Fork(b, y, true, c));
    assert InOrder(s) == InOrder(a) + [x] + (InOrder(b) + [y] + InOrder(c));
    Apart(p, s);
    RotateApart(a, x, b, y, c);
    DistinctWithout(Before(p), InOrder(s), After(p));
  }

  /** The subtree's root is none of the nodes around it, so its link can be told from its brother's. */
  lemma FocusRoot(h: Heap, root: Node?, order: seq<Node>, p: Path<Node>, s: Shape<Node>)
    requires Focus(h, root, order, p, s) && s.Fork?
    ensures At(h, s.elem, Cell(RootOf(s.left), RootOf(s.right), Above(p), s.black))
    ensures s.elem !in PathElems(p)
    ensures !p.Top? ==> p.elem in h && (p.InLeft? <==> h[p.elem].left == s.elem) && (p.InRight? <==> h[p.elem].right == s.elem)
  {
    assert InOrder(s) == InOrder(s.left) + [s.elem] + InOrder(s.right);
    Apart(p, s);
  }

  ghost function DownLeft(p: Path<Node>, s: Shape<Node>): Path<Node>
    requires s.Fork?
  {
    InLeft(p, s.elem, s.black, s.right)
  }

  ghost function DownRight(p: Path<Node>, s: Shape<Node>): Path<Node>
    requires s.Fork?
  {
    InRight(s.left, s.elem, s.black, p)
  }

  /** Both children of a subtree in focus are in focus. */
  lemma FocusDown(h: Heap, root: Node?, order: seq<Node>, p: Path<Node>, s: Shape<Node>)
    requires Focus(h, root, order, p, s) && s.Fork?
    ensures Focus(h, root, order, DownLeft(p, s), s.left) && Plug(DownLeft(p, s), s.left) == Plug(p, s)
    ensures Focus(h, root, order, DownRight(p, s), s.right) && Plug(DownRight(p, s), s.right) == Plug(p, s)
  {
    assert Before(p) + InOrder(s) + After(p) == Before(p) + InOrder(s.left) + ([s.elem] + InOrder(s.right) + After(p));
    assert Before(p) + InOrder(s) + After(p) == (Before(p) + InOrder(s.left) + [s.elem]) + InOrder(s.right) + After(p);
  }

  /** The nodes whose cells a left rotation writes are different ones. */
  lemma RotateLeftNodes(h: Heap, root: Node?, order: seq<Node>, p: Path<Node>, s: Shape<Node>)
    requires Focus(h, root, order, p, s) && s.Fork? && s.right.Fork?
    ensures s.right.elem in h && h[s.right.elem].parent == s.elem
    ensures s.right.elem != s.elem && s.right.elem != Above(p)
    ensures var inner := RootOf(s.right.left);
            inner == h[s.right.elem].left
            && (inner != null ==> inner in h && inner != s.elem && inner != s.right.elem && inner != Above(p))
    ensures h[s.right.elem].right == RootOf(s.right.right) && h[s.right.elem].black == s.right.black
  {
    FocusDown(h, root, order, p, s);
    FocusRoot(h, root, order, DownRight(p, s), s.right);
    if s.right.left.Fork? {
      FocusDown(h, root, order, DownRight(p, s), s.right);
      FocusRoot(h, root, order, DownLeft(DownRight(p, s), s.right), s.right.left);
    }
  }

  /** The nodes whose cells a right rotation writes are different ones. */
  lemma RotateRightNodes(h: Heap, root: Node?, order: seq<Node>, p: Path<Node>, s: Shape<Node>)
    requires Focus(h, root, order, p, s) && s.Fork? && s.left.Fork?
    ensures s.left.elem in h && h[s.left.elem].parent == s.elem
    ensures s.left.elem != s.elem && s.left.elem != Above(p)
    ensures var inner := RootOf(s.left.right);
            inner == h[s.left.elem].right
            && (inner != null ==> inner in h && inner != s.elem && inner != s.left.elem && inner != Above(p))
    ensures h[s.left.elem].left == RootOf(s.left.left) && h[s.left.elem].black == s.left.black
  {
    FocusDown(h, root, order, p, s);
    FocusRoot(h, root, order, DownLeft(p, s), s.left);
    if s.left.right.Fork? {
      FocusDown(h, root, order, DownLeft(p, s), s.left);
      FocusRoot(h, root, order, DownRight(DownLeft(p, s), s.left), s.left.right);
    }
  }

  lemma FocusUp(h: Heap, root: Node?, order: seq<Node>, p: Path<Node>, s: Shape<Node>)
    requires Focus(h, root, order, p, s) && !p.Top?
    ensures Focus(h, root, order, p.up, Outer(p, s)) && Plug(p.up, Outer(p, s)) == Plug(p, s)
  {
    OuterOrder(p, s);
  }

  /** The cells of a focused subtree's root and of its children's roots. */
  lemma FocusKids(h: Heap, root: Node?, order: seq<Node>, p: Path<Node>, s: Shape<Node>)
    requires Focus(h, root, order, p, s) && s.Fork?
    ensures At(h, s.elem, Cell(RootOf(s.left), RootOf(s.right), Above(p), s.black))
    ensures s.left.Fork? ==> At(h, s.left.elem, Cell(RootOf(s.left.left), RootOf(s.left.right), s.elem, s.left.black))
    ensures s.right.Fork? ==> At(h, s.right.elem, Cell(RootOf(s.right.left), RootOf(s.right.right), s.elem, s.right.black))
  {
    assert Rep(h, s.left, s.elem) && Rep(h, s.right, s.elem);
  }

  /** The whole tree, from any place in it. */
  lemma FocusTop(h: Heap, root: Node?, order: seq<Node>, p: Path<Node>, s: Shape<Node>)
    requires Focus(h, root, order, p, s)
    ensures Focus(h, root, order, Top, Plug(p, s)) && InOrder(Plug(p, s)) == order
  {
    PlugInOrder(p, s);
    Join(h, p, s, root);
  }

  lemma {:induction false} FocusDescend(h: Heap, root: Node?, order: seq<Node>, p: Path<Node>, q: Path<Node>, s: Shape<Node>)
    requires Focus(h, root, order, p, Plug(q, s))
    ensures Focus(h, root, order, Append(q, p), s)
    decreases q
  {
    if !q.Top? {
      FocusDescend(h, root, order, p, q.up, Outer(q, s));
      FocusDown(h, root, order, Append(q.up, p), Outer(q, s));
    }
  }

  lemma {:induction false} RootInPath(h: Heap, p: Path<Node>, hole: Node?, root: Node?)
    requires RepPath(h, p, hole, root) && !p.Top?
    ensures root in PathElems(p)
  {
    if !p.up.Top? { RootInPath(h, p.up, p.elem, root); }
  }

  /** `node == root->node` tells whether a subtree is the whole tree. */
  lemma FocusIsTop(h: Heap, root: Node?, order: seq<Node>, p: Path<Node>, s: Shape<Node>)
    requires Focus(h, root, order, p, s) && s.Fork?
    ensures root == s.elem <==> p.Top?
  {
    if !p.Top? {
      RootInPath(h, p, s.elem, root);
      FocusRoot(h, root, order, p, s);
    }
  }

  /** The cells of the nodes above a focused subtree. */
  lemma FocusParents(h: Heap, root: Node?, order: seq<Node>, p: Path<Node>, s: Shape<Node>)
    requires Focus(h, root, order, p, s) && s.Fork?
    ensures s.elem in h && h[s.elem].parent == Above(p)
    ensures !p.Top? ==> p.elem in h && h[p.elem].parent == Above(p.up) && h[p.elem].black == p.black
    ensures !p.Top? && !p.up.Top? ==> p.up.elem in h && (p.up.InLeft? <==> h[p.up.elem].left == p.elem)
  {
    if !p.Top? {
      FocusUp(h, root, order, p, s);
      FocusRoot(h, root, order, p.up, Outer(p, s));
    }
  }

  lemma DyeRep(h: Heap, root: Node?, order: seq<Node>, p: Path<Node>, s: Shape<Node>, black: bool)
    requires Focus(h, root, order, p, s) && s.Fork?
    ensures s.elem in h && Focus(h[s.elem := h[s.elem].(black := black)], root, order, p, Dyed(s, black))
  {
    var h' := h[s.elem := h[s.elem].(black := black)];
    Apart(p, s);
    assert InOrder(s) == InOrder(s.left) + [s.elem] + InOrder(s.right);
    ForkApart(s.left, s.elem, s.right);
    RepFrame(h, h', s.left, s.elem);
    RepFrame(h, h', s.right, s.elem);
    RepPathFrame(h, h', p, s.elem, root);
  }

  ghost function PutLink(h: Heap, l: Link, value: Node?): Heap
    requires Owner(l) <= h.Keys
  {
    match l
    case RootLink => h
    case LeftLink(o) => h[o := h[o].(left := value)]
    case RightLink(o) => h[o := h[o].(right := value)]
  }

  ghost function PutParent(h: Heap, n: Node, parent: Node?): Heap
    requires n in h
  {
    h[n := h[n].(parent := parent)]
  }

  /** What writing `value` through the link of a hole does to the cell of its owner. */
  ghost function Relink(p: Path<Node>, c: Cell, value: Node?): Cell {
    match p
    case Top => c
    case InLeft(_, _, _, _) => c.(left := value)
    case InRight(_, _, _, _) => c.(right := value)
  }

  /** The cells that change in a rotation: the two nodes that turn, the inner subtree's root and the
      owner of the link above. */
  ghost predicate Turned(h: Heap, h': Heap, p: Path<Node>, x: Node, cx: Cell, y: Node, cy: Cell, inner: Node?) {
    && At(h', x, cx) && At(h', y, cy)
    && (inner != null ==> inner in h && At(h', inner, h[inner].(parent := x)))
    && (!p.Top? ==> p.elem in h && At(h', p.elem, Relink(p, h[p.elem], y)))
    && forall n :: n in h && n != x && n != y && n != inner && n != Above(p) ==> At(h', n, h[n])
  }

  lemma RotateLeftLinks(h: Heap, h': Heap, root: Node?, root': Node?, p: Path<Node>, s: Shape<Node>)
    requires s.Fork? && s.right.Fork? && Parts(p, s.left, s.elem, s.right.left, s.right.elem, s.right.right)
    requires Distinct(Before(p) + After(p))
    requires Rep(h, s, Above(p)) && RepPath(h, p, s.elem, root)
    requires Turned(h, h', p, s.elem, Cell(RootOf(s.left), RootOf(s.right.left), s.right.elem, s.black),
                    s.right.elem, Cell(s.elem, RootOf(s.right.right), Above(p), s.right.black), RootOf(s.right.left))
    requires root' == if p.Top? then s.right.elem else root
    ensures Rep(h', RotatedLeft(s), Above(p)) && RepPath(h', p, s.right.elem, root')
  {
    var x, y, inner := s.elem, s.right.elem, s.right.left;
    assert Rep(h, s.right, x) && Rep(h, inner, y);
    Relinked(h, h', p, x, y, root, root');
    RepFrame(h, h', s.left, x);
    RepFrame(h, h', s.right.right, y);
    Reparent(h, h', inner, y, x);
  }

  /** The writes of a left rotation, in the order they happen. */
  ghost function RotateLeftHeap(h: Heap, l: Link, x: Node, y: Node, inner: Node?): Heap
    requires Owner(l) <= h.Keys && x in h && y in h && (inner != null ==> inner in h)
  {
    var h1 := PutLink(PutParent(h, y, h[x].parent), l, y);
    var h2 := PutLink(if inner == null then h1 else PutParent(h1, inner, x), RightLink(x), inner);
    PutLink(PutParent(h2, x, y), LeftLink(y), x)
  }

  lemma RotateLeftWrites(h: Heap, root: Node?, order: seq<Node>, p: Path<Node>, s: Shape<Node>)
    requires Focus(h, root, order, p, s) && s.Fork? && s.right.Fork?
    ensures Owner(LinkOf(p)) <= h.Keys && s.elem in h && s.right.elem in h
    ensures s.right.left.Fork? ==> s.right.left.elem in h
    ensures h[s.right.elem].left == RootOf(s.right.left)
    ensures Turned(h, RotateLeftHeap(h, LinkOf(p), s.elem, s.right.elem, RootOf(s.right.left)), p,
                   s.elem, Cell(RootOf(s.left), RootOf(s.right.left), s.right.elem, s.black),
                   s.right.elem, Cell(s.elem, RootOf(s.right.right), Above(p), s.right.black), RootOf(s.right.left))
  {
    FocusRoot(h, root, order, p, s);
    RotateLeftNodes(h, root, order, p, s);
  }

  /** A left rotation's writes turn a focused subtree into its rotation. */
  lemma RotateLeftRep(h: Heap, root: Node?, order: seq<Node>, p: Path<Node>, s: Shape<Node>)
    requires Focus(h, root, order, p, s) && s.Fork? && s.right.Fork?
    ensures Owner(LinkOf(p)) <= h.Keys && s.elem in h && s.right.elem in h
    ensures s.right.left.Fork? ==> s.right.left.elem in h
    ensures h[s.right.elem].left == RootOf(s.right.left)
    ensures Focus(RotateLeftHeap(h, LinkOf(p), s.elem, s.right.elem, RootOf(s.right.left)),
                  if p.Top? then s.right.elem else root, order, p, RotatedLeft(s))
  {
    RotateLeftWrites(h, root, order, p, s);
    assert InOrder(s) == InOrder(s.left) + [s.elem] + (InOrder(s.right.left) + [s.right.elem] + InOrder(s.right.right));
    PartsApart(p, s.left, s.elem, s.right.left, s.right.elem, s.right.right);
    RotateLeftLinks(h, RotateLeftHeap(h, LinkOf(p), s.elem, s.right.elem, RootOf(s.right.left)),
                    root, if p.Top? then s.right.elem else root, p, s);
    RotationKeepsOrder(s);
  }

  lemma RotateRightLinks(h: Heap, h': Heap, root: Node?, root': Node?, p: Path<Node>, s: Shape<Node>)
    requires s.Fork? && s.left.Fork? && Parts(p, s.left.left, s.left.elem, s.left.right, s.elem, s.right)
    requires Distinct(Before(p) + After(p))
    requires Rep(h, s, Above(p)) && RepPath(h, p, s.elem, root)
    requires Turned(h, h', p, s.elem, Cell(RootOf(s.left.right), RootOf(s.right), s.left.elem, s.black),
                    s.left.elem, Cell(RootOf(s.left.left), s.elem, Above(p), s.left.black), RootOf(s.left.right))
    requires root' == if p.Top? then s.left.elem else root
    ensures Rep(h', RotatedRight(s), Above(p)) && RepPath(h', p, s.left.elem, root')
  {
    var x, y, inner := s.elem, s.left.elem, s.left.right;
    assert Rep(h, s.left, x) && Rep(h, inner, y);
    Relinked(h, h', p, x, y, root, root');
    RepFrame(h, h', s.right, x);
    RepFrame(h, h', s.left.left, y);
    Reparent(h, h', inner, y, x);
  }

  /** The writes of a right rotation, in the order they happen. */
  ghost function RotateRightHeap(h: Heap, l: Link, x: Node, y: Node, inner: Node?): Heap
    requires Owner(l) <= h.Keys && x in h && y in h && (inner != null ==> inner in h)
  {
    var h1 := PutLink(PutParent(h, y, h[x].parent), l, y);
    var h2 := PutLink(if inner == null then h1 else PutParent(h1, inner, x), LeftLink(x), inner);
    PutLink(PutParent(h2, x, y), RightLink(y), x)
  }

  lemma RotateRightWrites(h: Heap, root: Node?, order: seq<Node>, p: Path<Node>, s: Shape<Node>)
    requires Focus(h, root, order, p, s) && s.Fork? && s.left.Fork?
    ensures Owner(LinkOf(p)) <= h.Keys && s.elem in h && s.left.elem in h
    ensures s.left.right.Fork? ==> s.left.right.elem in h
    ensures h[s.left.elem].right == RootOf(s.left.right)
    ensures Turned(h, RotateRightHeap(h, LinkOf(p), s.elem, s.left.elem, RootOf(s.left.right)), p,
                   s.elem, Cell(RootOf(s.left.right), RootOf(s.right), s.left.elem, s.black),
                   s.left.elem, Cell(RootOf(s.left.left), s.elem, Above(p), s.left.black), RootOf(s.left.right))
  {
    FocusRoot(h, root, order, p, s);
    RotateRightNodes(h, root, order, p, s);
  }

  /** A right rotation's writes turn a focused subtree into its rotation. */
  lemma RotateRightRep(h: Heap, root: Node?, order: seq<Node>, p: Path<Node>, s: Shape<Node>)
    requires Focus(h, root, order, p, s) && s.Fork? && s.left.Fork?
    ensures Owner(LinkOf(p)) <= h.Keys && s.elem in h && s.left.elem in h
    ensures s.left.right.Fork? ==> s.left.right.elem in h
    ensures h[s.left.elem].right == RootOf(s.left.right)
    ensures Focus(RotateRightHeap(h, LinkOf(p), s.elem, s.left.elem, RootOf(s.left.right)),
                  if p.Top? then s.left.elem else root, order, p, RotatedRight(s))
  {
    RotateRightWrites(h, root, order, p, s);
    assert InOrder(s) == InOrder(s.left.left) + [s.left.elem] + (InOrder(s.left.right) + [s.elem] + InOrder(s.right));
    PartsApart(p, s.left.left, s.left.elem, s.left.right, s.elem, s.right);
    RotateRightLinks(h, RotateRightHeap(h, LinkOf(p), s.elem, s.left.elem, RootOf(s.left.right)),
                    root, if p.Top? then s.left.elem else root, p, s);
    RotationKeepsOrder(s);
  }

  // ---------- hanging a new leaf ----------

  lemma {:induction false} FocusFrame(h: Heap, h': Heap, root: Node?, order: seq<Node>, p: Path<Node>, s: Shape<Node>)
    requires Focus(h, root, order, p, s) && Agree(h, h', PathElems(p) + Elems(s))
    ensures Focus(h', root, order, p, s)
  {
    RepFrame(h, h', s, Above(p));
    RepPathFrame(h, h', p, RootOf(s), root);
  }

  ghost function AttachHeap(h: Heap, parent: Node?, l: Link, n: Node): Heap
    requires n in h && Owner(l) <= h.Keys
  {
    var h1 := PutLink(PutParent(h, n, parent), l, n);
    PutLink(PutLink(h1, LeftLink(n), null), RightLink(n), null)
  }

  /** Linking a node that is nowhere in the tree into an empty place. */
  lemma AttachRep(h: Heap, root: Node?, order: seq<Node>, p: Path<Node>, n: Node)
    requires Focus(h, root, order, p, Leaf) && n in h && n !in order
    ensures Owner(LinkOf(p)) <= h.Keys
    ensures Focus(AttachHeap(h, Above(p), LinkOf(p), n), if p.Top? then n else root, Before(p) + [n] + After(p), p,
                  Fork(Leaf, n, h[n].black, Leaf))
  {
    PathOrderElems(p, n);
    assert order == Before(p) + After(p);
    DistinctInsert(Before(p), n, After(p));
    assert InOrder(Fork(Leaf, n, h[n].black, Leaf)) == [n];
    Relinked(h, AttachHeap(h, Above(p), LinkOf(p), n), p, null, n, root, if p.Top? then n else root);
  }

  // ---------- taking a node out ----------

  lemma {:induction false} Locate(h: Heap, root: Node?, order: seq<Node>, p: Path<Node>, s: Shape<Node>, x: Node)
    returns (p': Path<Node>, s': Shape<Node>)
    requires Focus(h, root, order, p, s) && x in Elems(s)
    ensures Focus(h, root, order, p', s') && s'.Fork? && s'.elem == x && Plug(p', s') == Plug(p, s)
    decreases s
  {
    p', s' := p, s;
    if s.elem != x {
      FocusDown(h, root, order, p, s);
      if x in Elems(s.left) {
        p', s' := Locate(h, root, order, DownLeft(p, s), s.left, x);
      } else {
        p', s' := Locate(h, root, order, DownRight(p, s), s.right, x);
      }
    }
  }

  /** A subtree with one child at most is replaced by that child, and its root left as its own parent. */
  ghost function TransplantHeap(h: Heap, p: Path<Node>, kid: Node?, n: Node): Heap
    requires n in h && Owner(LinkOf(p)) <= h.Keys && (kid != null ==> kid in h)
  {
    var h1 := PutLink(h, LinkOf(p), kid);
    PutParent(if kid == null then h1 else PutParent(h1, kid, Above(p)), n, n)
  }

  /** `s` has one child at most, and `kid` is it. */
  ghost predicate OnlyKid(s: Shape<Node>, kid: Shape<Node>) {
    s.Fork? && ((s.left.Leaf? && kid == s.right) || (s.right.Leaf? && kid == s.left))
  }

  lemma TransplantSeqs(x: seq<Node>, l: seq<Node>, e: Node, r: seq<Node>, y: seq<Node>)
    requires Distinct(x + (l + [e] + r) + y)
    ensures Distinct(x + (l + r) + y) && Distinct(x + y) && Distinct(l + r)
    ensures OneMore(x + (l + r) + y, x + (l + [e] + r) + y, e)
  {
    hide Distinct, OneMore;
    Regroup(x, l, e, r, y);
    TakenOut(x + l, e, r + y);
    assert (x + l) + (r + y) == x + (l + r) + y;
    DistinctWithout(x, l + r, y);
    DistinctSplit3(x, l + r, y);
  }

  lemma TransplantElems(p: Path<Node>, s: Shape<Node>, kid: Shape<Node>)
    requires OnlyKid(s, kid) && Distinct(Before(p) + InOrder(s) + After(p))
    ensures PathElems(p) !! Elems(kid) + {s.elem} && s.elem !in Elems(kid)
  {
    hide Before, After, Distinct;
    Apart(p, s);
    ForkApart(s.left, s.elem, s.right);
  }

  lemma TransplantOrder(p: Path<Node>, s: Shape<Node>, kid: Shape<Node>)
    requires OnlyKid(s, kid) && Distinct(Before(p) + InOrder(s) + After(p))
    ensures Distinct(Before(p) + InOrder(kid) + After(p)) && Distinct(Before(p) + After(p))
    ensures OneMore(Before(p) + InOrder(kid) + After(p), Before(p) + InOrder(s) + After(p), s.elem)
    ensures PathElems(p) !! Elems(kid) + {s.elem} && s.elem !in Elems(kid)
    ensures Distinct(InOrder(kid))
  {
    TransplantElems(p, s, kid);
    hide Before, After, Distinct, OneMore, Elems, PathElems;
    var l, r := InOrder(s.left), InOrder(s.right);
    assert InOrder(s) == l + [s.elem] + r;
    assert InOrder(kid) == l + r;
    TransplantSeqs(Before(p), l, s.elem, r, After(p));
  }

  lemma TakenOut(a: seq<Node>, e: Node, b: seq<Node>)
    requires Distinct(a + [e] + b)
    ensures Distinct(a + b) && OneMore(a + b, a + [e] + b, e)
  {
    DistinctWithout(a, [e], b);
    assert a + [e] + b == InsertAt(a + b, |a|, e);
  }

  lemma TransplantRep(h: Heap, root: Node?, order: seq<Node>, p: Path<Node>, s: Shape<Node>, kid: Shape<Node>)
    requires Focus(h, root, order, p, s) && OnlyKid(s, kid)
    ensures Owner(LinkOf(p)) <= h.Keys && s.elem in h && (kid.Fork? ==> kid.elem in h)
    ensures Focus(TransplantHeap(h, p, RootOf(kid), s.elem), if p.Top? then RootOf(kid) else root,
                  Before(p) + InOrder(kid) + After(p), p, kid)
  {
    hide Distinct;
    assert Rep(h, kid, s.elem);
    var h' := TransplantHeap(h, p, RootOf(kid), s.elem);
    TransplantOrder(p, s, kid);
    Relinked(h, h', p, s.elem, RootOf(kid), root, if p.Top? then RootOf(kid) else root);
    Reparent(h, h', kid, s.elem, Above(p));
  }

  // ---------- putting a node in another's place ----------

  /** __rb_replace_node: `n` takes over the cell, the link and the children of `d`. */
  ghost function ReplaceHeap(h: Heap, l: Link, left: Node?, right: Node?, n: Node, d: Node): Heap
    requires n in h && d in h && Owner(l) <= h.Keys && (left != null ==> left in h) && (right != null ==> right in h)
  {
    var h1 := PutLink(h[n := h[d]], l, n);
    var h2 := if left == null then h1 else PutParent(h1, left, n);
    var h3 := if right == null then h2 else PutParent(h2, right, n);
    h3[d := h3[d].(parent := d, black := false)]
  }

  /** The cells that change when `n` takes the place of the root of `s`. */
  ghost predicate Replaced(h: Heap, h': Heap, p: Path<Node>, s: Shape<Node>, n: Node)
    requires s.Fork?
  {
    && At(h', n, Cell(RootOf(s.left), RootOf(s.right), Above(p), s.black))
    && (s.left.Fork? ==> s.left.elem in h && At(h', s.left.elem, h[s.left.elem].(parent := n)))
    && (s.right.Fork? ==> s.right.elem in h && At(h', s.right.elem, h[s.right.elem].(parent := n)))
    && (!p.Top? ==> p.elem in h && At(h', p.elem, Relink(p, h[p.elem], n)))
    && forall x :: x in h && x != n && x != s.elem && x != RootOf(s.left) && x != RootOf(s.right) && x != Above(p) ==> At(h', x, h[x])
  }

  lemma ReplaceWrites(h: Heap, root: Node?, order: seq<Node>, p: Path<Node>, s: Shape<Node>, n: Node)
    requires Focus(h, root, order, p, s) && s.Fork? && n in h && n !in order
    ensures Owner(LinkOf(p)) <= h.Keys && s.elem in h && (s.left.Fork? ==> s.left.elem in h) && (s.right.Fork? ==> s.right.elem in h)
    ensures h[s.elem].left == RootOf(s.left) && h[s.elem].right == RootOf(s.right)
    ensures Replaced(h, ReplaceHeap(h, LinkOf(p), RootOf(s.left), RootOf(s.right), n, s.elem), p, s, n)
  {
    hide Distinct, InOrder, Before, After, RepPath, Rep;
    FocusKids(h, root, order, p, s);
    FocusRoot(h, root, order, p, s);
    KidsApart(p, s);
    Absent(p, s, n);
  }

  lemma ReplaceRep(h: Heap, root: Node?, order: seq<Node>, p: Path<Node>, s: Shape<Node>, n: Node)
    requires Focus(h, root, order, p, s) && s.Fork? && n in h && n !in order
    ensures Owner(LinkOf(p)) <= h.Keys && s.elem in h && (s.left.Fork? ==> s.left.elem in h) && (s.right.Fork? ==> s.right.elem in h)
    ensures h[s.elem].left == RootOf(s.left) && h[s.elem].right == RootOf(s.right)
    ensures Focus(ReplaceHeap(h, LinkOf(p), RootOf(s.left), RootOf(s.right), n, s.elem), if p.Top? then n else root,
                  (Before(p) + InOrder(s.left)) + [n] + (InOrder(s.right) + After(p)), p, s.(elem := n))
  {
    ReplaceWrites(h, root, order, p, s, n);
    ReplaceLinks(h, ReplaceHeap(h, LinkOf(p), RootOf(s.left), RootOf(s.right), n, s.elem), root, order, p, s, n);
  }

  lemma ReplaceLinks(h: Heap, h': Heap, root: Node?, order: seq<Node>, p: Path<Node>, s: Shape<Node>, n: Node)
    requires Focus(h, root, order, p, s) && s.Fork? && n in h && n !in order && Replaced(h, h', p, s, n)
    ensures Focus(h', if p.Top? then n else root, (Before(p) + InOrder(s.left)) + [n] + (InOrder(s.right) + After(p)), p, s.(elem := n))
  {
    hide Distinct, InOrder, Before, After;
    assert Rep(h, s.left, s.elem) && Rep(h, s.right, s.elem);
    KidsApart(p, s);
    Absent(p, s, n);
    Around(p, s);
    Around(p, s.(elem := n));
    DistinctReplace(Before(p) + InOrder(s.left), s.elem, InOrder(s.right) + After(p), n);
    Relinked(h, h', p, s.elem, n, root, if p.Top? then n else root);
    Reparent(h, h', s.left, s.elem, n);
    Reparent(h, h', s.right, s.elem, n);
  }

  lemma Absent(p: Path<Node>, s: Shape<Node>, n: Node)
    requires n !in Before(p) + InOrder(s) + After(p)
    ensures n !in PathElems(p) && n !in Elems(s)
  {
    PathOrderElems(p, n);
    InOrderElems(s, n);
  }

  /** A focused subtree, its root and its two children's subtrees are apart. */
  lemma KidsApart(p: Path<Node>, s: Shape<Node>)
    requires s.Fork? && Distinct(Before(p) + InOrder(s) + After(p))
    ensures Distinct(Before(p) + After(p)) && PathElems(p) !! Elems(s)
    ensures s.elem !in Elems(s.left) && s.elem !in Elems(s.right) && Elems(s.left) !! Elems(s.right)
    ensures Distinct(InOrder(s.left)) && Distinct(InOrder(s.right))
  {
    DistinctWithout(Before(p), InOrder(s), After(p));
    Apart(p, s);
    assert InOrder(s) == InOrder(s.left) + [s.elem] + InOrder(s.right);
    ForkApart(s.left, s.elem, s.right);
  }

  /** One node has one place in the order, whatever path leads to it. */
  lemma OnePlace(h: Heap, root: Node?, h': Heap, root': Node?, order: seq<Node>, p: Path<Node>, p': Path<Node>, t: Node, b: bool)
    requires Focus(h, root, order, p, Fork(Leaf, t, b, Leaf)) && Focus(h', root', order, p', Fork(Leaf, t, b, Leaf))
    ensures Before(p) == Before(p') && After(p) == After(p')
  {
    assert InOrder(Fork(Leaf, t, b, Leaf)) == [t];
    UniqueSplit(Before(p), t, After(p), Before(p'), After(p'));
  }

  lemma FocusEmpty(h: Heap)
    ensures Focus(h, null, [], Top, Leaf) && RedBlack(Plug<Node>(Top, Leaf))
  {
    assert Ok(Plug<Node>(Top, Leaf), 0);
  }

  /** Taking out the successor of a node and giving it that node's place takes the node out of the order. */
  lemma SuccessorOrder(order: seq<Node>, pd: Path<Node>, sd: Shape<Node>, pt: Path<Node>, st: Shape<Node>,
                       rest: seq<Node>, a: seq<Node>, b: seq<Node>)
    requires Distinct(order) && sd.Fork? && st.Fork? && st.left.Leaf?
    requires order == Before(pt) + InOrder(st) + After(pt)
    requires Before(pt) == Before(pd) + InOrder(sd.left) + [sd.elem]
    requires rest == Before(pt) + InOrder(st.right) + After(pt) && rest == a + [sd.elem] + b
    ensures OneMore(a + [st.elem] + b, order, sd.elem)
  {
    hide Distinct;
    assert InOrder(st) == [] + [st.elem] + InOrder(st.right);
    hide InOrder, Before, After, OneMore;
    var a', b' := Before(pd) + InOrder(sd.left), InOrder(st.right) + After(pt);
    Regroup(Before(pt), [], st.elem, InOrder(st.right), After(pt));
    assert Before(pt) + [] == Before(pt);
    assert rest == a' + [sd.elem] + b';
    DropBefore(a', sd.elem, st.elem, b', a, b);
  }
}
