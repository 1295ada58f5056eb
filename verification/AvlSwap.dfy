/**
 `TreeNode::swap` of libutil/src/collections/tree.rs: two nodes change places in the tree, the
 keys stay with the nodes.

 The method makes some dozen assignments to the links of the two nodes and their neighbours.
 What they amount to is a renaming: wherever the one node was linked, the other one is.  This
 also holds when the lower node is a child of the upper one, when in between the lower node is
 its own parent.
 */
module AvlSwaps {
  import opened AvlCells

  // ---------------------------------------------------------------------------------------
  // The assignments

  function SwapLefts(m: Mem, x: Node, y: Node): (m': Mem)
    requires x in m && y in m
    ensures m'.Keys == m.Keys
  {
    var ptr := m[x].left;
    WithLeftP(WithLeftP(m, x, m[y].left), y, ptr)
  }

  function SwapRights(m: Mem, x: Node, y: Node): (m': Mem)
    requires x in m && y in m
    ensures m'.Keys == m.Keys
  {
    var ptr := m[x].right;
    WithRightP(WithRightP(m, x, m[y].right), y, ptr)
  }

  /** Whether `x` is a left child. */
  predicate IsLeft(m: Mem, x: Node)
    requires x in m
  {
    m[x].parent != null && m[x].parent in m && m[m[x].parent].left == x
  }

  function SwapParents(m: Mem, x: Node, y: Node): (m': Mem)
    requires x in m && y in m
    ensures m'.Keys == m.Keys
  {
    var ptr := m[x].parent;
    var m1 := WithParent(m, x, m[y].parent);
    var m2 := LinkAbove(m1, ptr, IsLeft(m, x), y);
    var above := m2[y].parent;
    var m3 := WithParent(m2, y, ptr);
    var m4 := LinkAbove(m3, above, IsLeft(m2, y), x);
    WithParent(m4, y, ptr)
  }

  function SwapBalances(m: Mem, x: Node, y: Node): (m': Mem)
    requires x in m && y in m
    ensures m'.Keys == m.Keys
  {
    m[x := m[x].(balance := m[y].balance)][y := m[y].(balance := m[x].balance)]
  }

  function CellsSwapped(m: Mem, x: Node, y: Node): (m': Mem)
    requires x in m && y in m
    ensures m'.Keys == m.Keys
  {
    SwapBalances(SwapParents(SwapRights(SwapLefts(m, x, y), x, y), x, y), x, y)
  }

  // ---------------------------------------------------------------------------------------
  // ... are a renaming

  function Ren(n: Node?, x: Node, y: Node): Node? {
    if n == x then y else if n == y then x else n
  }

  /** The links of a node and of its neighbours agree. */
  ghost predicate Mutual(m: Mem, n: Node) {
    && n in m && m[n].parent != n && m[n].left != n && m[n].right != n
    && (m[n].left != null ==> m[n].left in m && m[m[n].left].parent == n)
    && (m[n].right != null ==> m[n].right in m && m[m[n].right].parent == n && m[n].right != m[n].left)
    && (m[n].parent != null ==>
         && m[n].parent in m && m[n].parent != m[n].left && m[n].parent != m[n].right
         && (m[m[n].parent].left == n || m[m[n].parent].right == n)
         && m[m[n].parent].left != m[m[n].parent].right)
  }

  /** `y` is below `x`, on the left, and has no right child. */
  ghost predicate Below(m: Mem, x: Node, y: Node) {
    && Mutual(m, x) && Mutual(m, y) && x != y
    && m[x].right != y && m[x].parent != y && m[y].left != x && m[y].right == null
    && m[y].parent != null && m[y].parent != m[x].parent
  }

  /** The cell of `n`, after the swap, under its new name. */
  ghost predicate Renamed(m: Mem, m': Mem, x: Node, y: Node, n: Node)
    requires n in m && x in m && y in m
  {
    var n' := Ren(n, x, y);
    && n' in m' && m'[n'].parent == Ren(m[n].parent, x, y)
    && m'[n'].left == Ren(m[n].left, x, y) && m'[n'].right == Ren(m[n].right, x, y)
    && m'[n'].balance == m[n].balance && n in m' && m'[n].key == m[n].key
  }

  lemma LeftsCells(m: Mem, x: Node, y: Node)
    requires Below(m, x, y)
    ensures
      var m', a, b := SwapLefts(m, x, y), m[x].left, m[y].left;
      && m'[x] == m[x].(left := b)
      && m'[y] == m[y].(left := a, parent := if a == y then y else m[y].parent)
      && forall n {:trigger m'[n]} :: n in m && n != x && n != y ==>
           m'[n] == if n == a then m[n].(parent := y) else if n == b then m[n].(parent := x) else m[n]
  {
  }

  lemma RightsCells(m: Mem, x: Node, y: Node)
    requires x in m && y in m && x != y && m[x].right != x && m[x].right != y && m[y].right == null
    ensures
      var m', c := SwapRights(m, x, y), m[x].right;
      && m'[x] == m[x].(right := null) && m'[y] == m[y].(right := c)
      && forall n {:trigger m'[n]} :: n in m && n != x && n != y ==>
           m'[n] == if n == c then m[n].(parent := y) else m[n]
  {
  }

  lemma ParentsCells(m: Mem, x: Node, y: Node, p: Node?, q: Node)
    requires x in m && y in m && x != y && q in m && (p != null ==> p in m)
    requires m[x].parent == p && m[y].parent == q && p != x && p != y && q != x && p != q
    ensures
      var m' := SwapParents(m, x, y);
      && m'[x] == m[x].(parent := q)
      && (if q != y then m'[y] == m[y].(parent := p)
        else m'[y] == (if m[y].left == y then m[y].(parent := p, left := x) else m[y].(parent := p, right := x)))
      && forall n {:trigger m'[n]} :: n in m && n != x && n != y ==>
           m'[n] ==
             if n == p then if m[n].left == x then m[n].(left := y) else m[n].(right := y)
             else if n == q then if m[n].left == y then m[n].(left := x) else m[n].(right := x)
             else m[n]
  {
  }

  lemma UpperRenamed(m: Mem, x: Node, y: Node)
    requires Below(m, x, y)
    ensures Renamed(m, CellsSwapped(m, x, y), x, y, x)
  {
    hide SwapLefts, SwapRights, SwapParents;
    var m1 := SwapLefts(m, x, y);
    LeftsCells(m, x, y);
    RightsCells(m1, x, y);
    ParentsCells(SwapRights(m1, x, y), x, y, m[x].parent, if m[x].left == y then y else m[y].parent);
  }

  lemma LowerRenamed(m: Mem, x: Node, y: Node)
    requires Below(m, x, y)
    ensures Renamed(m, CellsSwapped(m, x, y), x, y, y)
  {
    hide SwapLefts, SwapRights, SwapParents;
    var m1 := SwapLefts(m, x, y);
    LeftsCells(m, x, y);
    RightsCells(m1, x, y);
    ParentsCells(SwapRights(m1, x, y), x, y, m[x].parent, if m[x].left == y then y else m[y].parent);
  }

  lemma OtherCell(m: Mem, x: Node, y: Node, n: Node, p: Node?, q: Node)
    requires Below(m, x, y) && Mutual(m, n) && n != x && n != y
    requires p == m[x].parent && q == if m[x].left == y then y else m[y].parent
    ensures
      var m' := CellsSwapped(m, x, y);
      && n in m'
      && m'[n].parent == (if n == m[x].left || n == m[x].right then y else if n == m[y].left then x else m[n].parent)
      && m'[n].left == (if n == p && m[n].left == x then y else if n == q && m[n].left == y then x else m[n].left)
      && m'[n].right == (if n == p && m[n].left != x then y else if n == q && m[n].left != y then x else m[n].right)
      && m'[n].key == m[n].key && m'[n].balance == m[n].balance
  {
    hide SwapLefts, SwapRights, SwapParents;
    var m1 := SwapLefts(m, x, y);
    LeftsCells(m, x, y);
    RightsCells(m1, x, y);
    var m2 := SwapRights(m1, x, y);
    ParentsCells(m2, x, y, p, q);
    assert m1[n] == if n == m[x].left then m[n].(parent := y) else if n == m[y].left then m[n].(parent := x) else m[n];
    assert m2[n] == if n == m[x].right then m1[n].(parent := y) else m1[n];
  }

  lemma OtherRenamed(m: Mem, x: Node, y: Node, n: Node)
    requires Below(m, x, y) && Mutual(m, n) && n != x && n != y
    ensures Renamed(m, CellsSwapped(m, x, y), x, y, n)
  {
    hide CellsSwapped;
    OtherCell(m, x, y, n, m[x].parent, if m[x].left == y then y else m[y].parent);
  }

  /** After the swap, wherever `x` was linked `y` is, and the other way round. */
  lemma SwapRenames(m: Mem, x: Node, y: Node, n: Node)
    requires Below(m, x, y) && Mutual(m, n)
    ensures Renamed(m, CellsSwapped(m, x, y), x, y, n)
  {
    hide CellsSwapped, Renamed;
    if n == x {
      UpperRenamed(m, x, y);
    } else if n == y {
      LowerRenamed(m, x, y);
    } else {
      OtherRenamed(m, x, y, n);
    }
  }

  // ---------------------------------------------------------------------------------------
  // The method

  method SwapLeftLinks(self: Node, other: Node, ghost ns: set<Node>)
    requires {self, other} <= ns && (self.left != null ==> self.left in ns) && (other.left != null ==> other.left in ns)
    modifies ns
    ensures Snap(ns) == SwapLefts(old(Snap(ns)), self, other)
  {
    hide WithLeftP;
    var ptr := self.left;
    self.SetLeftP(other.left, ns);
    other.SetLeftP(ptr, ns);
  }

  method SwapRightLinks(self: Node, other: Node, ghost ns: set<Node>)
    requires {self, other} <= ns && (self.right != null ==> self.right in ns)
      && (other.right != null ==> other.right in ns)
    modifies ns
    ensures Snap(ns) == SwapRights(old(Snap(ns)), self, other)
  {
    hide WithRightP;
    var ptr := self.right;
    self.SetRightP(other.right, ns);
    other.SetRightP(ptr, ns);
  }

  /** Whether a node is a left child: the test in `parent_type`. */
  method IsLeftChild(n: Node, ghost ns: set<Node>) returns (b: bool)
    requires n in ns && (n.parent != null ==> n.parent in ns)
    ensures b == IsLeft(Snap(ns), n)
  {
    b := n.parent != null && n.parent.left == n;
  }

  method SetLink(above: Node?, isLeft: bool, n: Node, ghost ns: set<Node>)
    requires above != null ==> above in ns
    modifies ns
    ensures Snap(ns) == LinkAbove(old(Snap(ns)), above, isLeft, n)
  {
    if above != null {
      if isLeft {
        above.left := n;
      } else {
        above.right := n;
      }
    }
  }

  method SwapParentLinks(self: Node, other: Node, ghost ns: set<Node>) returns (out: Node?)
    requires {self, other} <= ns && self != other && self.parent != self && self.parent != other
    requires (self.parent != null ==> self.parent in ns) && (other.parent != null ==> other.parent in ns)
    modifies ns
    ensures Snap(ns) == SwapParents(old(Snap(ns)), self, other)
    ensures out == if old(other.parent) == null then self else if old(self.parent) == null then other else null
  {
    hide LinkAbove, WithParent;
    out := null;
    ghost var m := Snap(ns);
    var ptr := self.parent;
    var isLeft := IsLeftChild(self, ns);
    SetParent(self, other.parent, ns);
    LinkAboveKeepsParents(Snap(ns), ptr, isLeft, other);
    WithParentKeeps(m, self, m[other].parent);
    SetLink(ptr, isLeft, other, ns);
    if ptr == null {
      out := other;
    }
    assert other.parent == Snap(ns)[other].parent;
    var above := other.parent;
    isLeft := IsLeftChild(other, ns);
    SetParent(other, ptr, ns);
    SetLink(above, isLeft, self, ns);
    if above == null {
      out := self;
    }
    SetParent(other, ptr, ns);
  }

  method SetParent(n: Node, v: Node?, ghost ns: set<Node>)
    requires n in ns
    modifies ns
    ensures Snap(ns) == WithParent(old(Snap(ns)), n, v)
  {
    n.parent := v;
  }

  lemma WithParentKeeps(m: Mem, x: Node, v: Node?)
    ensures forall n {:trigger WithParent(m, x, v)[n]} :: n in m && n != x ==> WithParent(m, x, v)[n] == m[n]
  {
  }

  lemma LinkAboveKeepsParents(m: Mem, p: Node?, isLeft: bool, top: Node)
    ensures forall n {:trigger LinkAbove(m, p, isLeft, top)[n]} :: n in m ==>
      LinkAbove(m, p, isLeft, top)[n].parent == m[n].parent
  {
  }

  method SwapBalance(self: Node, other: Node, ghost ns: set<Node>)
    requires {self, other} <= ns && self != other
    modifies ns
    ensures Snap(ns) == SwapBalances(old(Snap(ns)), self, other)
  {
    var bf := self.balance;
    self.balance := other.balance;
    other.balance := bf;
  }

  /** `swap`, for a node further down on the left; tells the new root if the upper node was it. */
  method Swap(self: Node, other: Node, ghost ns: set<Node>) returns (out: Node?)
    requires {self, other} <= ns && Below(Snap(ns), self, other)
    modifies ns
    ensures Snap(ns) == CellsSwapped(old(Snap(ns)), self, other)
    ensures out == if old(self.parent) == null then other else null
  {
    hide SwapLefts, SwapRights, SwapParents, SwapBalances;
    ghost var m := Snap(ns);
    LeftsCells(m, self, other);
    SwapLeftLinks(self, other, ns);
    ghost var m1 := Snap(ns);
    RightsCells(m1, self, other);
    SwapRightLinks(self, other, ns);
    out := SwapParentLinks(self, other, ns);
    SwapBalance(self, other, ns);
  }

  // ---------------------------------------------------------------------------------------
  // The tree after the swap

  ghost function RenTree(t: Tree, x: Node, y: Node): Tree {
    match t
    case Nil => Nil
    case Branch(n, l, r) => Branch(if n == x then y else if n == y then x else n, RenTree(l, x, y), RenTree(r, x, y))
  }

  lemma {:induction false} RenLinked(t: Tree, p: Node?, m: Mem, m': Mem, x: Node, y: Node)
    requires Linked(t, p, m) && x in m && y in m
    requires forall n :: n in Nodes(t) && n in m ==> Renamed(m, m', x, y, n)
    ensures Linked(RenTree(t, x, y), Ren(p, x, y), m')
  {
    match t {
      case Nil =>
      case Branch(n, l, r) =>
        assert Renamed(m, m', x, y, n);
        RenLinked(l, n, m, m', x, y);
        RenLinked(r, n, m, m', x, y);
    }
  }

  lemma {:induction false} RenExact(t: Tree, m: Mem, m': Mem, x: Node, y: Node)
    requires Exact(t, m) && x in m && y in m
    requires forall n :: n in Nodes(t) && n in m ==> Renamed(m, m', x, y, n)
    ensures Exact(RenTree(t, x, y), m') && Height(RenTree(t, x, y)) == Height(t)
  {
    match t {
      case Nil =>
      case Branch(n, l, r) =>
        assert Renamed(m, m', x, y, n);
        RenExact(l, m, m', x, y);
        RenExact(r, m, m', x, y);
    }
  }

  lemma {:induction false} RenAvl(t: Tree, x: Node, y: Node)
    requires Avl(t)
    ensures Avl(RenTree(t, x, y)) && Height(RenTree(t, x, y)) == Height(t)
  {
    if t.Branch? {
      RenAvl(t.left, x, y);
      RenAvl(t.right, x, y);
    }
  }

  lemma {:induction false} RenSame(t: Tree, x: Node, y: Node)
    requires x !in Nodes(t) && y !in Nodes(t)
    ensures RenTree(t, x, y) == t
  {
    if t.Branch? {
      RenSame(t.left, x, y);
      RenSame(t.right, x, y);
    }
  }

  lemma {:induction false} RenPlug(c: Path, t: Tree, x: Node, y: Node)
    requires x !in PathNodes(c) && y !in PathNodes(c)
    ensures RenTree(Plug(c, t), x, y) == Plug(c, RenTree(t, x, y))
  {
    match c {
      case Top =>
      case LeftOf(up, n, r) =>
        RenPlug(up, Branch(n, t, r), x, y);
        RenSame(r, x, y);
      case RightOf(up, l, n) =>
        RenPlug(up, Branch(n, l, t), x, y);
        RenSame(l, x, y);
    }
  }

  /** A path in a subtree, continued above. */
  ghost function Compose(d: Path, c: Path): Path {
    match d
    case Top => c
    case LeftOf(up, n, r) => LeftOf(Compose(up, c), n, r)
    case RightOf(up, l, n) => RightOf(Compose(up, c), l, n)
  }

  lemma {:induction false} PlugCompose(d: Path, c: Path, t: Tree)
    ensures Plug(Compose(d, c), t) == Plug(c, Plug(d, t))
    ensures PathNodes(Compose(d, c)) == PathNodes(d) + PathNodes(c)
  {
    match d {
      case Top =>
      case LeftOf(up, n, r) => PlugCompose(up, c, Branch(n, t, r));
      case RightOf(up, l, n) => PlugCompose(up, c, Branch(n, l, t));
    }
  }

  /** In a linked tree the links of every node and its neighbours agree. */
  lemma {:induction false} MutualIn(t: Tree, p: Node?, m: Mem, n: Node)
    requires Linked(t, p, m) && Distinct(t) && n in Nodes(t) && p !in Nodes(t)
    ensures n in m && m[n].parent != n && m[n].left != n && m[n].right != n
    ensures m[n].left != null ==> m[n].left in m && m[m[n].left].parent == n
    ensures m[n].right != null ==> m[n].right in m && m[m[n].right].parent == n && m[n].right != m[n].left
    ensures m[n].parent != m[n].left || m[n].parent == null
    ensures m[n].parent != m[n].right || m[n].parent == null
    ensures n == t.node ==> m[n].parent == p
    ensures n != t.node ==> m[n].parent != null && m[n].parent in m
    ensures n != t.node ==> m[m[n].parent].left == n || m[m[n].parent].right == n
    ensures n != t.node ==> m[m[n].parent].left != m[m[n].parent].right
  {
    RootInNodes(t.left);
    RootInNodes(t.right);
    if n in Nodes(t.left) {
      MutualIn(t.left, t.node, m, n);
    } else if n in Nodes(t.right) {
      MutualIn(t.right, t.node, m, n);
    }
  }

  lemma RootInNodes(t: Tree)
    ensures Root(t) == null || Root(t) in Nodes(t)
  {
  }

  /** `x` somewhere in a tree, and `y` somewhere in its left subtree, without a right child. */
  ghost function Pair(c: Path, x: Node, d: Path, y: Node, a: Tree, r: Tree): Tree {
    Plug(c, Branch(x, Plug(d, Branch(y, a, Nil)), r))
  }

  /** What is around the lower node. */
  ghost function Around(c: Path, x: Node, d: Path, r: Tree): Path {
    Compose(d, LeftOf(c, x, r))
  }

  lemma PairAround(c: Path, x: Node, d: Path, y: Node, a: Tree, r: Tree)
    ensures Pair(c, x, d, y, a, r) == Plug(Around(c, x, d, r), Branch(y, a, Nil))
  {
    PlugCompose(d, LeftOf(c, x, r), Branch(y, a, Nil));
  }

  /** The parts of such a tree have no nodes in common. */
  lemma PairParts(c: Path, x: Node, d: Path, y: Node, a: Tree, r: Tree)
    ensures Distinct(Pair(c, x, d, y, a, r)) <==>
      && PathDistinct(c) && PathDistinct(d) && Distinct(a) && Distinct(r) && x != y
      && x !in PathNodes(c) + PathNodes(d) + Nodes(a) + Nodes(r)
        && y !in PathNodes(c) + PathNodes(d) + Nodes(a) + Nodes(r)
      && PathNodes(c) !! PathNodes(d) !! Nodes(a) !! Nodes(r)
    ensures Nodes(Pair(c, x, d, y, a, r)) == PathNodes(c) + PathNodes(d) + Nodes(a) + Nodes(r) + {x, y}
  {
    hide Plug, PathNodes, PathDistinct;
    var b := Branch(y, a, Nil);
    var u := Branch(x, Plug(d, b), r);
    PlugDistinct(c, u);
    PlugNodes(c, u);
    PlugDistinct(d, b);
    PlugNodes(d, b);
  }

  lemma PairLinks(c: Path, x: Node, d: Path, y: Node, a: Tree, r: Tree, m: Mem)
    requires Linked(Pair(c, x, d, y, a, r), null, m) && Distinct(Pair(c, x, d, y, a, r))
    ensures Below(m, x, y)
  {
    hide Linked, Distinct, Plug, PathNodes, PathLinked, PathDistinct, Nodes;
    var t := Pair(c, x, d, y, a, r);
    var b := Branch(y, a, Nil);
    var u := Branch(x, Plug(d, b), r);
    PairParts(c, x, d, y, a, r);
    PairAround(c, x, d, y, a, r);
    MutualAt(t, m, x);
    MutualAt(t, m, y);
    PlugLinked(c, u, m);
    PlugLinked(Around(c, x, d, r), b, m);
    LinkedBranch(u, Above(c), m);
    LinkedBranch(b, Above(Around(c, x, d, r)), m);
    AboveInPath(c);
    AboveLower(c, x, d, r);
    RootInNodes(r);
    RootInNodes(a);
  }

  lemma MutualAt(t: Tree, m: Mem, n: Node)
    requires Linked(t, null, m) && Distinct(t) && n in Nodes(t)
    ensures Mutual(m, n)
  {
    hide Linked, Distinct;
    MutualIn(t, null, m, n);
  }

  lemma AboveInPath(c: Path)
    ensures Above(c) == null || Above(c) in PathNodes(c)
  {
  }

  lemma AboveLower(c: Path, x: Node, d: Path, r: Tree)
    ensures var q := Above(Around(c, x, d, r)); q == x || (q != null && q in PathNodes(d))
  {
  }

  /** The swap exchanges the two nodes in the tree, and nothing else: the tree is right but for the order. */
  lemma SwapTree(c: Path, x: Node, d: Path, y: Node, a: Tree, r: Tree, m: Mem)
    requires
      var t := Pair(c, x, d, y, a, r);
      Distinct(t) && Linked(t, null, m) && Exact(t, m) && Avl(t) && Nodes(t) == m.Keys
    ensures Below(m, x, y)
    ensures
      var s, m' := Pair(c, y, d, x, a, r), CellsSwapped(m, x, y);
      && Distinct(s) && Linked(s, null, m') && Exact(s, m') && Avl(s)
      && Nodes(s) == m.Keys && SameKeys(m, m')
  {
    hide Linked, Distinct, Plug, PathNodes, PathLinked, PathDistinct, Nodes, Exact, Avl, CellsSwapped, Below, Renamed,
      RenTree, Mutual;
    var t, s := Pair(c, x, d, y, a, r), Pair(c, y, d, x, a, r);
    PairLinks(c, x, d, y, a, r, m);
    BelowIn(m, x, y);
    var m' := CellsSwapped(m, x, y);
    PairParts(c, x, d, y, a, r);
    PairParts(c, y, d, x, a, r);
    AllRenamed(t, x, y, m);
    RenPair(c, x, d, y, a, r);
    RenLinked(t, null, m, m', x, y);
    RenExact(t, m, m', x, y);
    RenAvl(t, x, y);
    assert SameKeys(m, m') by {
      RenamedKeys(m, m', x, y);
    }
  }

  lemma BelowIn(m: Mem, x: Node, y: Node)
    requires Below(m, x, y)
    ensures x in m && y in m && x != y
  {
  }

  lemma RenamedKeys(m: Mem, m': Mem, x: Node, y: Node)
    requires x in m && y in m && m'.Keys == m.Keys && forall n :: n in m ==> Renamed(m, m', x, y, n)
    ensures SameKeys(m, m')
  {
  }

  lemma AllRenamed(t: Tree, x: Node, y: Node, m: Mem)
    requires Below(m, x, y) && Linked(t, null, m) && Distinct(t) && Nodes(t) == m.Keys
    ensures forall n :: n in m ==> Renamed(m, CellsSwapped(m, x, y), x, y, n)
  {
    hide Linked, Distinct, CellsSwapped, Renamed, Nodes, Mutual;
    BelowIn(m, x, y);
    forall n | n in m ensures Renamed(m, CellsSwapped(m, x, y), x, y, n) {
      MutualAt(t, m, n);
      SwapRenames(m, x, y, n);
    }
  }

  lemma RenPair(c: Path, x: Node, d: Path, y: Node, a: Tree, r: Tree)
    requires Distinct(Pair(c, x, d, y, a, r))
    ensures RenTree(Pair(c, x, d, y, a, r), x, y) == Pair(c, y, d, x, a, r)
  {
    hide Distinct, Plug, PathNodes, PathDistinct, Nodes;
    PairParts(c, x, d, y, a, r);
    RenPlug(c, Branch(x, Plug(d, Branch(y, a, Nil)), r), x, y);
    RenPlug(d, Branch(y, a, Nil), x, y);
    RenSame(a, x, y);
    RenSame(r, x, y);
  }
}
