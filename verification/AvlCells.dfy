/**
 The intrusive AVL tree of libutil/src/collections/tree.rs, on values.

 The links, keys and balances of the nodes at one moment are a map from nodes to cells.  What
 the links are supposed to look like is a `Tree` of nodes; the part of a tree around a subtree
 is a `Path` from the subtree up to the root.  The functions on cells below make the same
 assignments, in the same order, as the methods of the source.
 */
module AvlCells {

  /** A `TreeNode`; keys are integers. */
  class Node {
    var parent: Node?
    var left: Node?
    var right: Node?
    var key: int
    var balance: int

    /** `set_leftp`.  In all methods, `ns` holds the nodes that take part. */
    method SetLeftP(child: Node?, ghost ns: set<Node>)
      requires this in ns && (child != null ==> child in ns)
      modifies ns
      ensures Snap(ns) == WithLeftP(old(Snap(ns)), this, child)
    {
      left := child;
      if child != null {
        child.parent := this;
      }
    }

    /** `set_rightp` */
    method SetRightP(child: Node?, ghost ns: set<Node>)
      requires this in ns && (child != null ==> child in ns)
      modifies ns
      ensures Snap(ns) == WithRightP(old(Snap(ns)), this, child)
    {
      right := child;
      if child != null {
        child.parent := this;
      }
    }

    /** `inc_balance`.  Balances are single bytes in the source; they stay within -2 and 2. */
    method IncBalance(num: int, ghost ns: set<Node>)
      requires this in ns && -2 <= balance + num <= 2
      modifies ns
      ensures Snap(ns) == WithBalance(old(Snap(ns)), this, num)
    {
      balance := balance + num;
    }

    /** `rotate_right`.  The link from above is left to the caller. */
    method RotateRight(ghost ns: set<Node>) returns (top: Node)
      requires this in ns && left != null && left in ns && left != this && (left.right != null ==> left.right in ns)
      requires SmallBalances(CellsRotatedRight(Snap(ns), this, left), {this, left})
      modifies ns
      ensures top == old(left) && Snap(ns) == CellsRotatedRight(old(Snap(ns)), this, top)
    {
      top := LinksRight(ns);
      assert SmallBalances(BalanceRight(Snap(ns), this, top), {this, top});
      BalancesRight(top, ns);
    }

    /** The links of `rotate_right`. */
    method LinksRight(ghost ns: set<Node>) returns (y: Node)
      requires this in ns && left != null && left in ns && left != this && (left.right != null ==> left.right in ns)
      modifies ns
      ensures y == old(left) && Snap(ns) == LinkRight(old(Snap(ns)), this, y)
    {
      hide WithLeftP, WithRightP;
      y := left;
      var above := parent;
      SetLeftP(y.right, ns);
      y.SetRightP(this, ns);
      y.parent := above;
    }

    /** The balances of `rotate_right`. */
    method BalancesRight(y: Node, ghost ns: set<Node>)
      requires this in ns && y in ns && y != this
      requires SmallBalances(BalanceRight(Snap(ns), this, y), {this, y})
      modifies ns
      ensures Snap(ns) == BalanceRight(old(Snap(ns)), this, y)
    {
      IncBalance(if y.balance < 0 then 1 - y.balance else 1, ns);
      y.IncBalance(if balance > 0 then 1 + balance else 1, ns);
    }

    /** `rotate_left` */
    method RotateLeft(ghost ns: set<Node>) returns (top: Node)
      requires this in ns && right != null && right in ns && right != this && (right.left != null ==> right.left in ns)
      requires SmallBalances(CellsRotatedLeft(Snap(ns), this, right), {this, right})
      modifies ns
      ensures top == old(right) && Snap(ns) == CellsRotatedLeft(old(Snap(ns)), this, top)
    {
      top := LinksLeft(ns);
      assert SmallBalances(BalanceLeft(Snap(ns), this, top), {this, top});
      BalancesLeft(top, ns);
    }

    /** The links of `rotate_left`. */
    method LinksLeft(ghost ns: set<Node>) returns (y: Node)
      requires this in ns && right != null && right in ns && right != this && (right.left != null ==> right.left in ns)
      modifies ns
      ensures y == old(right) && Snap(ns) == LinkLeft(old(Snap(ns)), this, y)
    {
      hide WithLeftP, WithRightP;
      y := right;
      var above := parent;
      SetRightP(y.left, ns);
      y.SetLeftP(this, ns);
      y.parent := above;
    }

    /** The balances of `rotate_left`. */
    method BalancesLeft(y: Node, ghost ns: set<Node>)
      requires this in ns && y in ns && y != this
      requires SmallBalances(BalanceLeft(Snap(ns), this, y), {this, y})
      modifies ns
      ensures Snap(ns) == BalanceLeft(old(Snap(ns)), this, y)
    {
      IncBalance(-(if y.balance > 0 then 1 + y.balance else 1), ns);
      y.IncBalance(if balance < 0 then -1 + balance else -1, ns);
    }

    /** `rebalance`: gives the node at the top of the subtree afterwards. */
    method Rebalance(ghost t: Tree, ghost p: Node?, ghost ns: set<Node>) returns (top: Node)
      requires t.Branch? && t.node == this && Nodes(t) <= ns
      requires Distinct(t) && Linked(t, p, Snap(ns)) && Exact(t, Snap(ns))
      requires Avl(t.left) && Avl(t.right) && -2 <= Height(t.right) - Height(t.left) <= 2
      modifies ns
      ensures top == Rebalanced(t).node
      ensures Linked(Rebalanced(t), p, Snap(ns)) && Exact(Rebalanced(t), Snap(ns))
      ensures OnlyWithin(Nodes(t), old(Snap(ns)), Snap(ns))
    {
      LinkedBranch(t, p, Snap(ns));
      ExactBranch(t, Snap(ns));
      if -1 <= balance <= 1 {
        top := this;
      } else if balance < -1 {
        top := RebalanceLeftHeavy(t, p, ns);
      } else {
        top := RebalanceRightHeavy(t, p, ns);
      }
    }

    /** The branch of `rebalance` for a subtree that leans left. */
    method RebalanceLeftHeavy(ghost t: Tree, ghost p: Node?, ghost ns: set<Node>) returns (top: Node)
      requires t.Branch? && t.node == this && Nodes(t) <= ns
      requires Distinct(t) && Linked(t, p, Snap(ns)) && Exact(t, Snap(ns))
      requires Avl(t.left) && Avl(t.right) && Lean(t) == -2
      modifies ns
      ensures top == Rebalanced(t).node
      ensures Linked(Rebalanced(t), p, Snap(ns)) && Exact(Rebalanced(t), Snap(ns))
      ensures OnlyWithin(Nodes(t), old(Snap(ns)), Snap(ns))
    {
      hide Linked, Exact, Distinct, OnlyWithin, Nodes, CellsRotatedLeft, CellsRotatedRight;
      ghost var m := Snap(ns);
      LeftHeavyFacts(t, p, m, ns);
      var child := left;
      if child.balance == 1 {
        var g := child.RotateLeft(ns);
        left := g;
        assert Snap(ns) == WithLeft(CellsRotatedLeft(m, child, g), this, g);
      }
      LeftReadyFacts(t, p, m, ns);
      top := RotateRight(ns);
    }

    /** The branch of `rebalance` for a subtree that leans right. */
    method RebalanceRightHeavy(ghost t: Tree, ghost p: Node?, ghost ns: set<Node>) returns (top: Node)
      requires t.Branch? && t.node == this && Nodes(t) <= ns
      requires Distinct(t) && Linked(t, p, Snap(ns)) && Exact(t, Snap(ns))
      requires Avl(t.left) && Avl(t.right) && Lean(t) == 2
      modifies ns
      ensures top == Rebalanced(t).node
      ensures Linked(Rebalanced(t), p, Snap(ns)) && Exact(Rebalanced(t), Snap(ns))
      ensures OnlyWithin(Nodes(t), old(Snap(ns)), Snap(ns))
    {
      hide Linked, Exact, Distinct, OnlyWithin, Nodes, CellsRotatedLeft, CellsRotatedRight;
      ghost var m := Snap(ns);
      RightHeavyFacts(t, p, m, ns);
      var child := right;
      if child.balance == -1 {
        var g := child.RotateRight(ns);
        right := g;
        assert Snap(ns) == WithRight(CellsRotatedRight(m, child, g), this, g);
      }
      RightReadyFacts(t, p, m, ns);
      top := RotateLeft(ns);
    }
  }

  ghost predicate SmallBalances(m: Mem, ns: set<Node>) {
    forall n :: n in ns && n in m ==> -2 <= m[n].balance <= 2
  }

  datatype Cell = Cell(parent: Node?, left: Node?, right: Node?, key: int, balance: int)

  type Mem = map<Node, Cell>

  /** The cells of some nodes, now. */
  ghost function Snap(ns: set<Node>): (m: Mem)
    reads ns
    ensures m.Keys == ns
  {
    map n | n in ns :: Cell(n.parent, n.left, n.right, n.key, n.balance)
  }

  datatype Tree = Nil | Branch(node: Node, left: Tree, right: Tree)

  ghost function Root(t: Tree): Node? {
    if t.Nil? then null else t.node
  }

  ghost function Nodes(t: Tree): set<Node> {
    match t
    case Nil => {}
    case Branch(n, l, r) => {n} + Nodes(l) + Nodes(r)
  }

  ghost function Height(t: Tree): nat {
    match t
    case Nil => 0
    case Branch(_, l, r) => 1 + Max(Height(l), Height(r))
  }

  function Max(a: int, b: int): int {
    if a >= b then a else b
  }

  /** The nodes of a tree in order. */
  ghost function InOrder(t: Tree): seq<Node> {
    match t
    case Nil => []
    case Branch(n, l, r) => InOrder(l) + [n] + InOrder(r)
  }

  /** No node occurs twice. */
  ghost predicate Distinct(t: Tree) {
    match t
    case Nil => true
    case Branch(n, l, r) =>
      n !in Nodes(l) && n !in Nodes(r) && Nodes(l) !! Nodes(r) && Distinct(l) && Distinct(r)
  }

  /** The links of the nodes are those of the tree, in both directions. */
  ghost predicate Linked(t: Tree, parent: Node?, m: Mem) {
    match t
    case Nil => true
    case Branch(n, l, r) =>
      && n in m && m[n].parent == parent && m[n].left == Root(l) && m[n].right == Root(r)
      && Linked(l, n, m) && Linked(r, n, m)
  }

  /** Every balance is the height of the right subtree minus that of the left. */
  ghost predicate Exact(t: Tree, m: Mem) {
    match t
    case Nil => true
    case Branch(n, l, r) => n in m && m[n].balance == Height(r) - Height(l) && Exact(l, m) && Exact(r, m)
  }

  ghost predicate Avl(t: Tree) {
    match t
    case Nil => true
    case Branch(_, l, r) => -1 <= Height(r) - Height(l) <= 1 && Avl(l) && Avl(r)
  }

  ghost predicate SortedKeys(ns: seq<Node>, m: Mem) {
    && (forall n :: n in ns ==> n in m)
    && (forall i, j :: 0 <= i < j < |ns| ==> m[ns[i]].key < m[ns[j]].key)
  }

  // ---------------------------------------------------------------------------------------
  // Paths

  /** What is around a subtree: it is the left, or the right, child of `node`, and so on up. */
  datatype Path = Top | LeftOf(up: Path, node: Node, right: Tree) | RightOf(up: Path, left: Tree, node: Node)

  ghost function Plug(c: Path, t: Tree): Tree {
    match c
    case Top => t
    case LeftOf(up, n, r) => Plug(up, Branch(n, t, r))
    case RightOf(up, l, n) => Plug(up, Branch(n, l, t))
  }

  ghost function PathNodes(c: Path): set<Node> {
    match c
    case Top => {}
    case LeftOf(up, n, r) => {n} + Nodes(r) + PathNodes(up)
    case RightOf(up, l, n) => {n} + Nodes(l) + PathNodes(up)
  }

  ghost function Above(c: Path): Node? {
    if c.Top? then null else c.node
  }

  ghost predicate PathDistinct(c: Path) {
    match c
    case Top => true
    case LeftOf(up, n, r) =>
      n !in Nodes(r) && n !in PathNodes(up) && Nodes(r) !! PathNodes(up) && Distinct(r) && PathDistinct(up)
    case RightOf(up, l, n) =>
      n !in Nodes(l) && n !in PathNodes(up) && Nodes(l) !! PathNodes(up) && Distinct(l) && PathDistinct(up)
  }

  ghost predicate PathLinked(c: Path, hole: Node?, m: Mem) {
    match c
    case Top => true
    case LeftOf(up, n, r) =>
      && n in m && m[n].left == hole && m[n].right == Root(r) && m[n].parent == Above(up)
      && Linked(r, n, m) && PathLinked(up, n, m)
    case RightOf(up, l, n) =>
      && n in m && m[n].right == hole && m[n].left == Root(l) && m[n].parent == Above(up)
      && Linked(l, n, m) && PathLinked(up, n, m)
  }

  /** The balances along the path are exact if the subtree has height `h`. */
  ghost predicate PathExact(c: Path, h: nat, m: Mem) {
    match c
    case Top => true
    case LeftOf(up, n, r) =>
      && n in m && m[n].balance == Height(r) - h && Exact(r, m)
      && PathExact(up, 1 + Max(h, Height(r)), m)
    case RightOf(up, l, n) =>
      && n in m && m[n].balance == h - Height(l) && Exact(l, m)
      && PathExact(up, 1 + Max(Height(l), h), m)
  }

  ghost predicate PathAvl(c: Path, h: nat) {
    match c
    case Top => true
    case LeftOf(up, n, r) =>
      -1 <= Height(r) - h <= 1 && Avl(r) && PathAvl(up, 1 + Max(h, Height(r)))
    case RightOf(up, l, n) =>
      -1 <= h - Height(l) <= 1 && Avl(l) && PathAvl(up, 1 + Max(Height(l), h))
  }

  ghost function Before(c: Path): seq<Node> {
    match c
    case Top => []
    case LeftOf(up, _, _) => Before(up)
    case RightOf(up, l, n) => Before(up) + InOrder(l) + [n]
  }

  ghost function After(c: Path): seq<Node> {
    match c
    case Top => []
    case LeftOf(up, n, r) => [n] + InOrder(r) + After(up)
    case RightOf(up, _, _) => After(up)
  }

  lemma {:induction false} PlugNodes(c: Path, t: Tree)
    ensures Nodes(Plug(c, t)) == PathNodes(c) + Nodes(t)
  {
    match c {
      case Top =>
      case LeftOf(up, n, r) => PlugNodes(up, Branch(n, t, r));
      case RightOf(up, l, n) => PlugNodes(up, Branch(n, l, t));
    }
  }

  lemma {:induction false} PlugDistinct(c: Path, t: Tree)
    ensures Distinct(Plug(c, t)) <==> Distinct(t) && PathDistinct(c) && PathNodes(c) !! Nodes(t)
  {
    match c {
      case Top =>
      case LeftOf(up, n, r) => PlugDistinct(up, Branch(n, t, r));
      case RightOf(up, l, n) => PlugDistinct(up, Branch(n, l, t));
    }
  }

  lemma {:induction false} PlugLinked(c: Path, t: Tree, m: Mem)
    ensures Linked(Plug(c, t), null, m) <==> PathLinked(c, Root(t), m) && Linked(t, Above(c), m)
  {
    match c {
      case Top =>
      case LeftOf(up, n, r) => PlugLinked(up, Branch(n, t, r), m);
      case RightOf(up, l, n) => PlugLinked(up, Branch(n, l, t), m);
    }
  }

  lemma {:induction false} PlugExact(c: Path, t: Tree, m: Mem)
    ensures Exact(Plug(c, t), m) <==> PathExact(c, Height(t), m) && Exact(t, m)
  {
    match c {
      case Top =>
      case LeftOf(up, n, r) => PlugExact(up, Branch(n, t, r), m);
      case RightOf(up, l, n) => PlugExact(up, Branch(n, l, t), m);
    }
  }

  lemma {:induction false} PlugAvl(c: Path, t: Tree)
    ensures Avl(Plug(c, t)) <==> PathAvl(c, Height(t)) && Avl(t)
  {
    hide Avl, Height;
    match c {
      case Top =>
      case LeftOf(up, n, r) =>
        AvlBranch(Branch(n, t, r));
        PlugAvl(up, Branch(n, t, r));
      case RightOf(up, l, n) =>
        AvlBranch(Branch(n, l, t));
        PlugAvl(up, Branch(n, l, t));
    }
  }

  lemma AvlBranch(t: Tree)
    requires t.Branch?
    ensures Avl(t) <==> -1 <= Height(t.right) - Height(t.left) <= 1 && Avl(t.left) && Avl(t.right)
    ensures Height(t) == 1 + Max(Height(t.left), Height(t.right))
  {
  }

  lemma {:induction false} PlugInOrder(c: Path, t: Tree)
    ensures InOrder(Plug(c, t)) == Before(c) + InOrder(t) + After(c)
  {
    match c {
      case Top =>
        assert Before(c) + InOrder(t) + After(c) == InOrder(t);
      case LeftOf(up, n, r) =>
        PlugInOrder(up, Branch(n, t, r));
        Regroup(Before(up), InOrder(t), [n], InOrder(r), After(up));
      case RightOf(up, l, n) =>
        PlugInOrder(up, Branch(n, l, t));
        Regroup'(Before(up), InOrder(l), [n], InOrder(t), After(up));
    }
  }

  lemma Regroup<T>(a: seq<T>, b: seq<T>, c: seq<T>, d: seq<T>, e: seq<T>)
    ensures a + (b + c + d) + e == a + b + (c + d + e)
  {
  }

  lemma Regroup'<T>(a: seq<T>, b: seq<T>, c: seq<T>, d: seq<T>, e: seq<T>)
    ensures a + (b + c + d) + e == (a + b + c) + d + e
  {
  }

  // ---------------------------------------------------------------------------------------
  // Frames: only the cells of a tree's own nodes matter

  ghost predicate SameLinks(ns: set<Node>, m: Mem, m': Mem) {
    forall n :: n in ns && n in m ==>
      n in m' && m'[n].parent == m[n].parent && m'[n].left == m[n].left && m'[n].right == m[n].right
  }

  ghost predicate SameBalances(ns: set<Node>, m: Mem, m': Mem) {
    forall n :: n in ns && n in m ==> n in m' && m'[n].balance == m[n].balance
  }

  lemma {:induction false} LinkedFrame(t: Tree, p: Node?, m: Mem, m': Mem)
    requires Linked(t, p, m) && SameLinks(Nodes(t), m, m')
    ensures Linked(t, p, m')
  {
    match t {
      case Nil =>
      case Branch(n, l, r) =>
        LinkedFrame(l, n, m, m');
        LinkedFrame(r, n, m, m');
    }
  }

  lemma {:induction false} ExactFrame(t: Tree, m: Mem, m': Mem)
    requires Exact(t, m) && SameBalances(Nodes(t), m, m')
    ensures Exact(t, m')
  {
    match t {
      case Nil =>
      case Branch(n, l, r) =>
        ExactFrame(l, m, m');
        ExactFrame(r, m, m');
    }
  }

  lemma {:induction false} PathLinkedFrame(c: Path, hole: Node?, m: Mem, m': Mem)
    requires PathLinked(c, hole, m) && SameLinks(PathNodes(c), m, m')
    ensures PathLinked(c, hole, m')
  {
    match c {
      case Top =>
      case LeftOf(up, n, r) =>
        LinkedFrame(r, n, m, m');
        PathLinkedFrame(up, n, m, m');
      case RightOf(up, l, n) =>
        LinkedFrame(l, n, m, m');
        PathLinkedFrame(up, n, m, m');
    }
  }

  lemma {:induction false} PathExactFrame(c: Path, h: nat, m: Mem, m': Mem)
    requires PathExact(c, h, m) && SameBalances(PathNodes(c), m, m')
    ensures PathExact(c, h, m')
  {
    match c {
      case Top =>
      case LeftOf(up, n, r) =>
        ExactFrame(r, m, m');
        PathExactFrame(up, 1 + Max(h, Height(r)), m, m');
      case RightOf(up, l, n) =>
        ExactFrame(l, m, m');
        PathExactFrame(up, 1 + Max(Height(l), h), m, m');
    }
  }

  // ---------------------------------------------------------------------------------------
  // Assignments to cells

  function WithParent(m: Mem, x: Node?, v: Node?): (m': Mem)
    ensures m'.Keys == m.Keys
  {
    if x != null && x in m then m[x := m[x].(parent := v)] else m
  }

  function WithLeft(m: Mem, x: Node, v: Node?): (m': Mem)
    ensures m'.Keys == m.Keys
  {
    if x in m then m[x := m[x].(left := v)] else m
  }

  function WithRight(m: Mem, x: Node, v: Node?): (m': Mem)
    ensures m'.Keys == m.Keys
  {
    if x in m then m[x := m[x].(right := v)] else m
  }

  function WithBalance(m: Mem, x: Node, n: int): (m': Mem)
    ensures m'.Keys == m.Keys
  {
    if x in m then m[x := m[x].(balance := m[x].balance + n)] else m
  }

  /** `set_leftp` */
  function WithLeftP(m: Mem, x: Node, v: Node?): (m': Mem)
    ensures m'.Keys == m.Keys
  {
    WithParent(WithLeft(m, x, v), v, x)
  }

  /** `set_rightp` */
  function WithRightP(m: Mem, x: Node, v: Node?): (m': Mem)
    ensures m'.Keys == m.Keys
  {
    WithParent(WithRight(m, x, v), v, x)
  }

  /** The link from above is set to the new top of the subtree. */
  function LinkAbove(m: Mem, parent: Node?, isLeft: bool, top: Node): Mem {
    if parent == null then m else if isLeft then WithLeft(m, parent, top) else WithRight(m, parent, top)
  }

  /** The links of `rotate_right`, with `y` the left child of `x`. */
  function LinkRight(m: Mem, x: Node, y: Node): (m': Mem)
    requires x in m && y in m
    ensures m'.Keys == m.Keys
  {
    var above := m[x].parent;
    var m1 := WithLeftP(m, x, m[y].right);
    var m2 := WithRightP(m1, y, x);
    WithParent(m2, y, above)
  }

  function LinkLeft(m: Mem, x: Node, y: Node): (m': Mem)
    requires x in m && y in m
    ensures m'.Keys == m.Keys
  {
    var above := m[x].parent;
    var m1 := WithRightP(m, x, m[y].left);
    var m2 := WithLeftP(m1, y, x);
    WithParent(m2, y, above)
  }

  /** The balances of `rotate_right`. */
  function BalanceRight(m: Mem, x: Node, y: Node): (m': Mem)
    requires x in m && y in m
    ensures m'.Keys == m.Keys
  {
    var m1 := WithBalance(m, x, if m[y].balance < 0 then 1 - m[y].balance else 1);
    WithBalance(m1, y, if m1[x].balance > 0 then 1 + m1[x].balance else 1)
  }

  function BalanceLeft(m: Mem, x: Node, y: Node): (m': Mem)
    requires x in m && y in m
    ensures m'.Keys == m.Keys
  {
    var m1 := WithBalance(m, x, -(if m[y].balance > 0 then 1 + m[y].balance else 1));
    WithBalance(m1, y, if m1[x].balance < 0 then -1 + m1[x].balance else -1)
  }

  function CellsRotatedRight(m: Mem, x: Node, y: Node): (m': Mem)
    requires x in m && y in m
    ensures m'.Keys == m.Keys
  {
    BalanceRight(LinkRight(m, x, y), x, y)
  }

  function CellsRotatedLeft(m: Mem, x: Node, y: Node): (m': Mem)
    requires x in m && y in m
    ensures m'.Keys == m.Keys
  {
    BalanceLeft(LinkLeft(m, x, y), x, y)
  }

  /** `Branch(x, Branch(y, a, b), c)` becomes `Branch(y, a, Branch(x, b, c))`. */
  ghost function RotatedRight(t: Tree): Tree
    requires t.Branch? && t.left.Branch?
  {
    Branch(t.left.node, t.left.left, Branch(t.node, t.left.right, t.right))
  }

  ghost function RotatedLeft(t: Tree): Tree
    requires t.Branch? && t.right.Branch?
  {
    Branch(t.right.node, Branch(t.node, t.left, t.right.left), t.right.right)
  }

  /** The parts of a tree that take part in a rotation have no nodes in common. */
  lemma RightParts(t: Tree)
    requires t.Branch? && t.left.Branch? && Distinct(t)
    ensures
      var x, y, a, b, c := t.node, t.left.node, t.left.left, t.left.right, t.right;
      && x != y && Nodes(a) !! Nodes(b) !! Nodes(c)
      && x !in Nodes(a) + Nodes(b) + Nodes(c) && y !in Nodes(a) + Nodes(b) + Nodes(c)
      && Nodes(t) == {x, y} + Nodes(a) + Nodes(b) + Nodes(c)
      && Distinct(a) && Distinct(b) && Distinct(c)
      && (b.Branch? ==> b.node in Nodes(b) && b.node !in Nodes(b.left) && b.node !in Nodes(b.right))
  {
    assert Distinct(t.left) && Distinct(t.left.right);
  }

  lemma LeftParts(t: Tree)
    requires t.Branch? && t.right.Branch? && Distinct(t)
    ensures
      var x, y, a, b, c := t.node, t.right.node, t.left, t.right.left, t.right.right;
      && x != y && Nodes(a) !! Nodes(b) !! Nodes(c)
      && x !in Nodes(a) + Nodes(b) + Nodes(c) && y !in Nodes(a) + Nodes(b) + Nodes(c)
      && Nodes(t) == {x, y} + Nodes(a) + Nodes(b) + Nodes(c)
      && Distinct(a) && Distinct(b) && Distinct(c)
      && (b.Branch? ==> b.node in Nodes(b) && b.node !in Nodes(b.left) && b.node !in Nodes(b.right))
  {
    assert Distinct(t.right) && Distinct(t.right.left);
  }

  lemma LinkRightCells(m: Mem, x: Node, y: Node, b: Node?)
    requires x in m && y in m && x != y && m[y].right == b && b != x && b != y && (b != null ==> b in m)
    ensures
      var m' := LinkRight(m, x, y);
      && m'[x] == m[x].(left := b, parent := y)
      && m'[y] == m[y].(right := x, parent := m[x].parent)
      && (b != null ==> m'[b] == m[b].(parent := x))
      && forall n :: n in m && n != x && n != y && n != b ==> m'[n] == m[n]
  {
  }

  lemma LinkLeftCells(m: Mem, x: Node, y: Node, b: Node?)
    requires x in m && y in m && x != y && m[y].left == b && b != x && b != y && (b != null ==> b in m)
    ensures
      var m' := LinkLeft(m, x, y);
      && m'[x] == m[x].(right := b, parent := y)
      && m'[y] == m[y].(left := x, parent := m[x].parent)
      && (b != null ==> m'[b] == m[b].(parent := x))
      && forall n :: n in m && n != x && n != y && n != b ==> m'[n] == m[n]
  {
  }

  lemma LinkRightLinks(t: Tree, p: Node?, m: Mem)
    requires t.Branch? && t.left.Branch? && Distinct(t) && Linked(t, p, m)
    requires t.node in m && t.left.node in m
    ensures
      var m' := LinkRight(m, t.node, t.left.node);
      && Linked(RotatedRight(t), p, m')
      && SameLinks(m.Keys - Nodes(t), m, m') && SameBalances(m.Keys, m, m') && SameKeys(m, m')
  {
    hide Linked, Distinct, LinkRight;
    var x, y, a, b, c := t.node, t.left.node, t.left.left, t.left.right, t.right;
    var m' := LinkRight(m, x, y);
    RightParts(t);
    RightLinks(t, p, m);
    LinkRightCells(m, x, y, Root(b));
    LinkedFrame(a, y, m, m');
    LinkedFrame(c, x, m, m');
    Reparent(b, y, x, m, m');
    LinkedBranch(Branch(x, b, c), y, m');
    LinkedBranch(RotatedRight(t), p, m');
  }

  lemma LinkLeftLinks(t: Tree, p: Node?, m: Mem)
    requires t.Branch? && t.right.Branch? && Distinct(t) && Linked(t, p, m)
    requires t.node in m && t.right.node in m
    ensures
      var m' := LinkLeft(m, t.node, t.right.node);
      && Linked(RotatedLeft(t), p, m')
      && SameLinks(m.Keys - Nodes(t), m, m') && SameBalances(m.Keys, m, m') && SameKeys(m, m')
  {
    hide Linked, Distinct, LinkLeft;
    var x, y, a, b, c := t.node, t.right.node, t.left, t.right.left, t.right.right;
    var m' := LinkLeft(m, x, y);
    LeftParts(t);
    LeftLinks(t, p, m);
    LinkLeftCells(m, x, y, Root(b));
    LinkedFrame(a, x, m, m');
    LinkedFrame(c, y, m, m');
    Reparent(b, y, x, m, m');
    LinkedBranch(Branch(x, a, b), y, m');
    LinkedBranch(RotatedLeft(t), p, m');
  }

  /** The adjustments of the balances are exact, whatever the heights of the parts. */
  lemma BalanceRightExact(t: Tree, m: Mem)
    requires t.Branch? && t.left.Branch? && Distinct(t) && Exact(t, m)
    requires t.node in m && t.left.node in m
    ensures
      var m' := BalanceRight(m, t.node, t.left.node);
      && Exact(RotatedRight(t), m')
      && SameLinks(m.Keys, m, m') && SameBalances(m.Keys - Nodes(t), m, m') && SameKeys(m, m')
  {
    hide Distinct;
    var x, y, a, b, c := t.node, t.left.node, t.left.left, t.left.right, t.right;
    var m' := BalanceRight(m, x, y);
    RightParts(t);
    ExactFrame(a, m, m');
    ExactFrame(b, m, m');
    ExactFrame(c, m, m');
  }

  lemma BalanceLeftExact(t: Tree, m: Mem)
    requires t.Branch? && t.right.Branch? && Distinct(t) && Exact(t, m)
    requires t.node in m && t.right.node in m
    ensures
      var m' := BalanceLeft(m, t.node, t.right.node);
      && Exact(RotatedLeft(t), m')
      && SameLinks(m.Keys, m, m') && SameBalances(m.Keys - Nodes(t), m, m') && SameKeys(m, m')
  {
    hide Distinct;
    var x, y, a, b, c := t.node, t.right.node, t.left, t.right.left, t.right.right;
    var m' := BalanceLeft(m, x, y);
    LeftParts(t);
    ExactFrame(a, m, m');
    ExactFrame(b, m, m');
    ExactFrame(c, m, m');
  }

  /** Nothing but the cells of a tree changes, and no key. */
  ghost predicate OnlyWithin(ns: set<Node>, m: Mem, m': Mem) {
    SameLinks(m.Keys - ns, m, m') && SameBalances(m.Keys - ns, m, m') && SameKeys(m, m')
  }

  /** `rotate_right` keeps links and balances right; the order of the nodes does not change. */
  lemma RotateRightCorrect(t: Tree, p: Node?, m: Mem)
    requires t.Branch? && t.left.Branch? && Distinct(t) && Linked(t, p, m) && Exact(t, m)
    requires t.node in m && t.left.node in m
    ensures
      var m' := CellsRotatedRight(m, t.node, t.left.node);
      Linked(RotatedRight(t), p, m') && Exact(RotatedRight(t), m') && OnlyWithin(Nodes(t), m, m')
    ensures InOrder(RotatedRight(t)) == InOrder(t) && Nodes(RotatedRight(t)) == Nodes(t) && Distinct(RotatedRight(t))
  {
    var m1 := LinkRight(m, t.node, t.left.node);
    var m' := CellsRotatedRight(m, t.node, t.left.node);
    RightShape(t);
    hide Linked, Exact, Distinct, LinkRight, BalanceRight, Nodes, InOrder;
    LinkRightLinks(t, p, m);
    ExactFrame(t, m, m1);
    BalanceRightExact(t, m1);
    LinkedFrame(RotatedRight(t), p, m1, m');
  }

  lemma RotateLeftCorrect(t: Tree, p: Node?, m: Mem)
    requires t.Branch? && t.right.Branch? && Distinct(t) && Linked(t, p, m) && Exact(t, m)
    requires t.node in m && t.right.node in m
    ensures
      var m' := CellsRotatedLeft(m, t.node, t.right.node);
      Linked(RotatedLeft(t), p, m') && Exact(RotatedLeft(t), m') && OnlyWithin(Nodes(t), m, m')
    ensures InOrder(RotatedLeft(t)) == InOrder(t) && Nodes(RotatedLeft(t)) == Nodes(t) && Distinct(RotatedLeft(t))
  {
    var m1 := LinkLeft(m, t.node, t.right.node);
    var m' := CellsRotatedLeft(m, t.node, t.right.node);
    LeftShape(t);
    hide Linked, Exact, Distinct, LinkLeft, BalanceLeft, Nodes, InOrder;
    LinkLeftLinks(t, p, m);
    ExactFrame(t, m, m1);
    BalanceLeftExact(t, m1);
    LinkedFrame(RotatedLeft(t), p, m1, m');
  }

  lemma RightShape(t: Tree)
    requires t.Branch? && t.left.Branch? && Distinct(t)
    ensures InOrder(RotatedRight(t)) == InOrder(t) && Nodes(RotatedRight(t)) == Nodes(t) && Distinct(RotatedRight(t))
  {
    RightOrder(t);
    RightParts(t);
  }

  lemma RightOrder(t: Tree)
    requires t.Branch? && t.left.Branch?
    ensures InOrder(RotatedRight(t)) == InOrder(t)
  {
    hide Nodes, Distinct;
    RegroupLeft(InOrder(t.left.left), [t.left.node], InOrder(t.left.right), [t.node], InOrder(t.right));
  }

  lemma LeftShape(t: Tree)
    requires t.Branch? && t.right.Branch? && Distinct(t)
    ensures InOrder(RotatedLeft(t)) == InOrder(t) && Nodes(RotatedLeft(t)) == Nodes(t) && Distinct(RotatedLeft(t))
  {
    LeftOrder(t);
    LeftParts(t);
  }

  lemma LeftOrder(t: Tree)
    requires t.Branch? && t.right.Branch?
    ensures InOrder(RotatedLeft(t)) == InOrder(t)
  {
    hide Nodes, Distinct;
    RegroupLeft(InOrder(t.left), [t.node], InOrder(t.right.left), [t.right.node], InOrder(t.right.right));
  }

  lemma RegroupLeft<T>(a: seq<T>, b: seq<T>, c: seq<T>, d: seq<T>, e: seq<T>)
    ensures (a + b + c) + d + e == a + b + (c + d + e)
  {
  }

  // ---------------------------------------------------------------------------------------
  // Rebalancing one node

  ghost function Lean(t: Tree): int
    requires t.Branch?
  {
    Height(t.right) - Height(t.left)
  }

  /** A left subtree that leans right is rotated first. */
  ghost function LeftReady(t: Tree): Tree
    requires t.Branch? && t.left.Branch?
  {
    if Lean(t.left) == 1 && t.left.right.Branch? then Branch(t.node, RotatedLeft(t.left), t.right) else t
  }

  ghost function RightReady(t: Tree): Tree
    requires t.Branch? && t.right.Branch?
  {
    if Lean(t.right) == -1 && t.right.left.Branch? then Branch(t.node, t.left, RotatedRight(t.right)) else t
  }

  ghost function Rebalanced(t: Tree): (t': Tree)
    requires t.Branch? && -2 <= Lean(t) <= 2
    ensures t'.Branch?
  {
    if -1 <= Lean(t) <= 1 then t
    else if Lean(t) < 0 then RotatedRight(LeftReady(t))
    else RotatedLeft(RightReady(t))
  }

  /** What rebalancing makes of the height: a rotated subtree has shrunk, unless its heavy side was even. */
  lemma RebalancedHeight(t: Tree)
    requires t.Branch? && Avl(t.left) && Avl(t.right) && -2 <= Lean(t) <= 2
    ensures Avl(Rebalanced(t))
    ensures
      var t' := Rebalanced(t);
      if -1 <= Lean(t) <= 1 then t' == t
      else if HeavyLean(t) == 0 then Height(t') == Height(t) && Lean(t') == (if Lean(t) < 0 then 1 else -1)
      else Height(t') == Height(t) - 1 && Lean(t') == 0
  {
    if Lean(t) == -2 {
      LeftHeavyHeight(t);
    } else if Lean(t) == 2 {
      RightHeavyHeight(t);
    }
  }

  ghost function HeavyLean(t: Tree): int
    requires t.Branch? && (Lean(t) == -2 || Lean(t) == 2)
  {
    if Lean(t) == -2 then Lean(t.left) else Lean(t.right)
  }

  lemma LeftHeavyHeight(t: Tree)
    requires t.Branch? && Avl(t.left) && Avl(t.right) && Lean(t) == -2
    ensures
      var t' := Rebalanced(t);
      && Avl(t')
      && (if Lean(t.left) == 0 then Height(t') == Height(t) && Lean(t') == 1
          else Height(t') == Height(t) - 1 && Lean(t') == 0)
  {
    var x, y, a, b, c := t.node, t.left.node, t.left.left, t.left.right, t.right;
    if Lean(t.left) == 1 {
      var z, b1, b2 := b.node, b.left, b.right;
      DoubleHeight(a, b1, b2, c);
      assert Rebalanced(t) == Branch(z, Branch(y, a, b1), Branch(x, b2, c));
    } else {
      assert Rebalanced(t) == Branch(y, a, Branch(x, b, c));
    }
  }

  lemma RightHeavyHeight(t: Tree)
    requires t.Branch? && Avl(t.left) && Avl(t.right) && Lean(t) == 2
    ensures
      var t' := Rebalanced(t);
      && Avl(t')
      && (if Lean(t.right) == 0 then Height(t') == Height(t) && Lean(t') == -1
          else Height(t') == Height(t) - 1 && Lean(t') == 0)
  {
    var x, y, a, b, c := t.node, t.right.node, t.left, t.right.left, t.right.right;
    if Lean(t.right) == -1 {
      var z, b1, b2 := b.node, b.left, b.right;
      DoubleHeight(a, b1, b2, c);
      assert Rebalanced(t) == Branch(z, Branch(x, a, b1), Branch(y, b2, c));
    } else {
      assert Rebalanced(t) == Branch(y, Branch(x, a, b), c);
    }
  }

  /** The heights after a double rotation of even outer subtrees around a higher inner one. */
  lemma DoubleHeight(a: Tree, b1: Tree, b2: Tree, c: Tree)
    requires Height(a) == Height(c) == Max(Height(b1), Height(b2)) && -1 <= Height(b2) - Height(b1) <= 1
    ensures Max(Height(a), Height(b1)) == Max(Height(b2), Height(c)) == Height(a)
    ensures -1 <= Height(b1) - Height(a) <= 1 && -1 <= Height(c) - Height(b2) <= 1
  {
  }

  /** The cells when a subtree that leans left is ready to be rotated right. */
  function LeftReadyCells(m: Mem, x: Node): (m': Mem)
    requires x in m && m[x].left != null && m[x].left in m
    requires m[m[x].left].balance == 1 ==> m[m[x].left].right != null && m[m[x].left].right in m
    ensures m'.Keys == m.Keys
  {
    var y := m[x].left;
    if m[y].balance == 1 then WithLeft(CellsRotatedLeft(m, y, m[y].right), x, m[y].right) else m
  }

  function RightReadyCells(m: Mem, x: Node): (m': Mem)
    requires x in m && m[x].right != null && m[x].right in m
    requires m[m[x].right].balance == -1 ==> m[m[x].right].left != null && m[m[x].right].left in m
    ensures m'.Keys == m.Keys
  {
    var y := m[x].right;
    if m[y].balance == -1 then WithRight(CellsRotatedRight(m, y, m[y].left), x, m[y].left) else m
  }

  /** What a rotation needs to know of a subtree that leans left. */
  lemma LeftHeavyFacts(t: Tree, p: Node?, m: Mem, ns: set<Node>)
    requires t.Branch? && Nodes(t) <= ns == m.Keys && Distinct(t) && Linked(t, p, m) && Exact(t, m)
    requires Avl(t.left) && Avl(t.right) && Lean(t) == -2
    ensures t.left.Branch?
    ensures
      var x, y := t.node, t.left.node;
      && x in m && y in m && x != y && m[x].left == y && m[y].balance == Lean(t.left)
      && -1 <= Lean(t.left) <= 1
      && (Lean(t.left) == 1 ==>
           && t.left.right.Branch? && m[y].right == t.left.right.node && t.left.right.node in m
           && t.left.right.node != y
           && (m[t.left.right.node].left != null ==> m[t.left.right.node].left in m)
           && SmallBalances(CellsRotatedLeft(m, y, t.left.right.node), {y, t.left.right.node}))
  {
    var y := t.left.node;
    assert y in Nodes(t.left) && t.node !in Nodes(t.left);
    if Lean(t.left) == 1 {
      hide Linked, Exact;
      LinkedBranch(t, p, m);
      LinkedBranch(t.left, t.node, m);
      LinkedBranch(t.left.right, y, m);
      ExactBranch(t, m);
      RotateLeftCorrect(t.left, t.node, m);
      DoubleSmall(t.left, CellsRotatedLeft(m, y, t.left.right.node));
      RootInMem(t.left.right.left, t.left.right.node, m);
    }
  }

  /** Ready for the rotation to the right. */
  lemma LeftReadyFacts(t: Tree, p: Node?, m: Mem, ns: set<Node>)
    requires t.Branch? && Nodes(t) <= ns == m.Keys && Distinct(t) && Linked(t, p, m) && Exact(t, m)
    requires Avl(t.left) && Avl(t.right) && Lean(t) == -2 && t.left.Branch?
    requires t.node in m && t.left.node in m && m[t.node].left == t.left.node && m[t.left.node].balance == Lean(t.left)
    requires Lean(t.left) == 1 ==>
      t.left.right.Branch? && m[t.left.node].right == t.left.right.node && t.left.right.node in m
    ensures
      var x := t.node;
      var m1 := LeftReadyCells(m, x);
      var t1 := LeftReady(t);
      var z := t1.left.node;
      && m1[x].left == z && z in m1 && z != x && (m1[z].right != null ==> m1[z].right in m1)
      && SmallBalances(CellsRotatedRight(m1, x, z), {x, z})
      && z == Rebalanced(t).node
      && var m2 := CellsRotatedRight(m1, x, z);
      && Linked(Rebalanced(t), p, m2) && Exact(Rebalanced(t), m2) && OnlyWithin(Nodes(t), m, m2)
  {
    hide Linked, Exact, Distinct, CellsRotatedLeft, CellsRotatedRight, Avl, Height, Rebalanced, Lean, OnlyWithin;
    var x := t.node;
    var m1 := LeftReadyCells(m, x);
    var t1 := LeftReady(t);
    if Lean(t.left) == 1 {
      LeftReadyLinked(t, p, m);
    }
    ReadyIsRebalanced(t);
    assert Avl(RotatedRight(t1));
    ReadyRotateRight(t1, p, m1);
    OnlyWithinTrans(Nodes(t), m, m1, CellsRotatedRight(m1, x, t1.left.node));
  }

  lemma LeftReadyLinked(t: Tree, p: Node?, m: Mem)
    requires t.Branch? && Distinct(t) && Linked(t, p, m) && Exact(t, m)
    requires t.left.Branch? && t.left.right.Branch? && Lean(t.left) == 1 && Avl(t.left)
    requires t.node in m && t.left.node in m && m[t.left.node].balance == 1 && m[t.node].left == t.left.node
    requires m[t.left.node].right == t.left.right.node && t.left.right.node in m
    ensures
      var m1 := LeftReadyCells(m, t.node);
      var t1 := LeftReady(t);
      Linked(t1, p, m1) && Exact(t1, m1) && Distinct(t1) && Nodes(t1) == Nodes(t) && OnlyWithin(Nodes(t), m, m1)
  {
    hide CellsRotatedLeft, Linked, Exact;
    LinkedBranch(t, p, m);
    ExactBranch(t, m);
    var x, y, g := t.node, t.left.node, t.left.right.node;
    var m0 := CellsRotatedLeft(m, y, g);
    var m1 := WithLeft(m0, x, g);
    RotateLeftCorrect(t.left, x, m);
    assert x !in Nodes(t.left);
    LinkedFrame(RotatedLeft(t.left), x, m0, m1);
    ExactFrame(RotatedLeft(t.left), m0, m1);
    LinkedFrame(t.right, x, m, m1);
    ExactFrame(t.right, m, m1);
    SameHeight(t.left);
    LinkedBranch(LeftReady(t), p, m1);
    ExactBranch(LeftReady(t), m1);
  }

  lemma SameHeight(l: Tree)
    requires l.Branch? && l.right.Branch? && Avl(l) && Lean(l) == 1
    ensures Height(RotatedLeft(l)) == Height(l)
  {
  }

  /** What a rotation needs to know of a subtree that leans right. */
  lemma RightHeavyFacts(t: Tree, p: Node?, m: Mem, ns: set<Node>)
    requires t.Branch? && Nodes(t) <= ns == m.Keys && Distinct(t) && Linked(t, p, m) && Exact(t, m)
    requires Avl(t.right) && Avl(t.left) && Lean(t) == 2
    ensures t.right.Branch?
    ensures
      var x, y := t.node, t.right.node;
      && x in m && y in m && x != y && m[x].right == y && m[y].balance == Lean(t.right)
      && -1 <= Lean(t.right) <= 1
      && (Lean(t.right) == -1 ==>
           && t.right.left.Branch? && m[y].left == t.right.left.node && t.right.left.node in m
           && t.right.left.node != y
           && (m[t.right.left.node].right != null ==> m[t.right.left.node].right in m)
           && SmallBalances(CellsRotatedRight(m, y, t.right.left.node), {y, t.right.left.node}))
  {
    var y := t.right.node;
    assert y in Nodes(t.right) && t.node !in Nodes(t.right);
    if Lean(t.right) == -1 {
      hide Linked, Exact;
      LinkedBranch(t, p, m);
      LinkedBranch(t.right, t.node, m);
      LinkedBranch(t.right.left, y, m);
      ExactBranch(t, m);
      RotateRightCorrect(t.right, t.node, m);
      DoubleSmallRight(t.right, CellsRotatedRight(m, y, t.right.left.node));
      RootInMem(t.right.left.right, t.right.left.node, m);
    }
  }

  /** Ready for the rotation to the left. */
  lemma RightReadyFacts(t: Tree, p: Node?, m: Mem, ns: set<Node>)
    requires t.Branch? && Nodes(t) <= ns == m.Keys && Distinct(t) && Linked(t, p, m) && Exact(t, m)
    requires Avl(t.right) && Avl(t.left) && Lean(t) == 2 && t.right.Branch?
    requires t.node in m && t.right.node in m && m[t.node].right == t.right.node
      && m[t.right.node].balance == Lean(t.right)
    requires Lean(t.right) == -1 ==>
      t.right.left.Branch? && m[t.right.node].left == t.right.left.node && t.right.left.node in m
    ensures
      var x := t.node;
      var m1 := RightReadyCells(m, x);
      var t1 := RightReady(t);
      var z := t1.right.node;
      && m1[x].right == z && z in m1 && z != x && (m1[z].left != null ==> m1[z].left in m1)
      && SmallBalances(CellsRotatedLeft(m1, x, z), {x, z})
      && z == Rebalanced(t).node
      && var m2 := CellsRotatedLeft(m1, x, z);
      && Linked(Rebalanced(t), p, m2) && Exact(Rebalanced(t), m2) && OnlyWithin(Nodes(t), m, m2)
  {
    hide Linked, Exact, Distinct, CellsRotatedRight, CellsRotatedLeft;
    var x := t.node;
    var m1 := RightReadyCells(m, x);
    var t1 := RightReady(t);
    if Lean(t.right) == -1 {
      RightReadyLinked(t, p, m);
    }
    ReadyIsRebalanced(t);
    assert Avl(RotatedLeft(t1));
    ReadyRotateLeft(t1, p, m1);
    OnlyWithinTrans(Nodes(t), m, m1, CellsRotatedLeft(m1, x, t1.right.node));
  }

  lemma RightReadyLinked(t: Tree, p: Node?, m: Mem)
    requires t.Branch? && Distinct(t) && Linked(t, p, m) && Exact(t, m)
    requires t.right.Branch? && t.right.left.Branch? && Lean(t.right) == -1 && Avl(t.right)
    requires t.node in m && t.right.node in m && m[t.right.node].balance == -1 && m[t.node].right == t.right.node
    requires m[t.right.node].left == t.right.left.node && t.right.left.node in m
    ensures
      var m1 := RightReadyCells(m, t.node);
      var t1 := RightReady(t);
      Linked(t1, p, m1) && Exact(t1, m1) && Distinct(t1) && Nodes(t1) == Nodes(t) && OnlyWithin(Nodes(t), m, m1)
  {
    hide CellsRotatedRight, Linked, Exact;
    LinkedBranch(t, p, m);
    ExactBranch(t, m);
    var x, y, g := t.node, t.right.node, t.right.left.node;
    var m0 := CellsRotatedRight(m, y, g);
    var m1 := WithRight(m0, x, g);
    RotateRightCorrect(t.right, x, m);
    assert x !in Nodes(t.right);
    LinkedFrame(RotatedRight(t.right), x, m0, m1);
    ExactFrame(RotatedRight(t.right), m0, m1);
    LinkedFrame(t.left, x, m, m1);
    ExactFrame(t.left, m, m1);
    SameHeightRight(t.right);
    LinkedBranch(RightReady(t), p, m1);
    ExactBranch(RightReady(t), m1);
  }

  lemma SameHeightRight(l: Tree)
    requires l.Branch? && l.left.Branch? && Avl(l) && Lean(l) == -1
    ensures Height(RotatedRight(l)) == Height(l)
  {
  }

  lemma ReadyIsRebalanced(t: Tree)
    requires t.Branch?
    ensures Lean(t) == -2 ==>
      && t.left.Branch?
      && RotatedRight(LeftReady(t)) == Rebalanced(t)
      && (Avl(t.left) && Avl(t.right) ==> Avl(Rebalanced(t)))
    ensures Lean(t) == 2 ==>
      && t.right.Branch?
      && RotatedLeft(RightReady(t)) == Rebalanced(t)
      && (Avl(t.left) && Avl(t.right) ==> Avl(Rebalanced(t)))
  {
    if (Lean(t) == 2 || Lean(t) == -2) && Avl(t.left) && Avl(t.right) {
      RebalancedHeight(t);
    }
  }

  lemma OnlyWithinTrans(ns: set<Node>, m: Mem, m1: Mem, m2: Mem)
    requires OnlyWithin(ns, m, m1) && OnlyWithin(ns, m1, m2)
    ensures OnlyWithin(ns, m, m2)
  {
  }

  lemma ReadyRotateRight(t: Tree, p: Node?, m: Mem)
    requires t.Branch? && t.left.Branch? && Distinct(t) && Linked(t, p, m) && Exact(t, m) && Avl(RotatedRight(t))
    ensures
      var x, z := t.node, t.left.node;
      && x in m && m[x].left == z && z in m && z != x && (m[z].right != null ==> m[z].right in m)
      && SmallBalances(CellsRotatedRight(m, x, z), {x, z})
      && var m' := CellsRotatedRight(m, x, z);
      && Linked(RotatedRight(t), p, m') && Exact(RotatedRight(t), m') && OnlyWithin(Nodes(t), m, m')
  {
    hide Linked, Exact, Distinct, CellsRotatedRight;
    RightParts(t);
    RightLinks(t, p, m);
    RotateRightCorrect(t, p, m);
    TopSmall(RotatedRight(t), CellsRotatedRight(m, t.node, t.left.node));
  }

  lemma ReadyRotateLeft(t: Tree, p: Node?, m: Mem)
    requires t.Branch? && t.right.Branch? && Distinct(t) && Linked(t, p, m) && Exact(t, m) && Avl(RotatedLeft(t))
    ensures
      var x, z := t.node, t.right.node;
      && x in m && m[x].right == z && z in m && z != x && (m[z].left != null ==> m[z].left in m)
      && SmallBalances(CellsRotatedLeft(m, x, z), {x, z})
      && var m' := CellsRotatedLeft(m, x, z);
      && Linked(RotatedLeft(t), p, m') && Exact(RotatedLeft(t), m') && OnlyWithin(Nodes(t), m, m')
  {
    hide Linked, Exact, Distinct, CellsRotatedLeft;
    LeftParts(t);
    LeftLinks(t, p, m);
    RotateLeftCorrect(t, p, m);
    TopSmall(RotatedLeft(t), CellsRotatedLeft(m, t.node, t.right.node));
  }

  lemma TopSmall(t: Tree, m: Mem)
    requires t.Branch? && Avl(t) && Exact(t, m)
    ensures t.node in m && -1 <= m[t.node].balance <= 1
    ensures t.left.Branch? ==> t.left.node in m && -1 <= m[t.left.node].balance <= 1
    ensures t.right.Branch? ==> t.right.node in m && -1 <= m[t.right.node].balance <= 1
  {
  }

  lemma RootInMem(t: Tree, p: Node?, m: Mem)
    requires Linked(t, p, m)
    ensures Root(t) != null ==> Root(t) in m
  {
  }

  lemma DoubleSmallRight(r: Tree, m: Mem)
    requires r.Branch? && r.left.Branch? && Avl(r) && Lean(r) == -1 && Exact(RotatedRight(r), m)
    ensures SmallBalances(m, {r.node, r.left.node})
  {
    assert Exact(RotatedRight(r).right, m);
  }

  lemma DoubleSmall(l: Tree, m: Mem)
    requires l.Branch? && l.right.Branch? && Avl(l) && Lean(l) == 1 && Exact(RotatedLeft(l), m)
    ensures SmallBalances(m, {l.node, l.right.node})
  {
    assert Exact(RotatedLeft(l).left, m);
  }

  lemma ExactBranch(t: Tree, m: Mem)
    requires t.Branch?
    ensures Exact(t, m) <==> t.node in m && m[t.node].balance == Lean(t) && Exact(t.left, m) && Exact(t.right, m)
  {
  }

  ghost predicate SameKeys(m: Mem, m': Mem) {
    m.Keys == m'.Keys && forall n :: n in m ==> m'[n].key == m[n].key
  }

  /** A subtree whose root has been given another parent. */
  lemma Reparent(t: Tree, p: Node?, q: Node?, m: Mem, m': Mem)
    requires Linked(t, p, m) && Distinct(t)
    requires t.Branch? ==>
      && t.node in m' && m'[t.node] == m[t.node].(parent := q)
      && SameLinks(Nodes(t.left) + Nodes(t.right), m, m')
    ensures Linked(t, q, m')
  {
    if t.Branch? {
      LinkedFrame(t.left, t.node, m, m');
      LinkedFrame(t.right, t.node, m, m');
    }
  }

  lemma LinkedBranch(t: Tree, p: Node?, m: Mem)
    requires t.Branch?
    ensures Linked(t, p, m) <==>
      && t.node in m && m[t.node].parent == p && m[t.node].left == Root(t.left) && m[t.node].right == Root(t.right)
      && Linked(t.left, t.node, m) && Linked(t.right, t.node, m)
  {
  }

  lemma RightLinks(t: Tree, p: Node?, m: Mem)
    requires t.Branch? && t.left.Branch? && Linked(t, p, m)
    ensures
      var x, y, a, b, c := t.node, t.left.node, t.left.left, t.left.right, t.right;
      && x in m && y in m && m[x].parent == p && m[x].left == y && m[x].right == Root(c)
      && m[y].parent == x && m[y].left == Root(a) && m[y].right == Root(b)
      && Linked(a, y, m) && Linked(b, y, m) && Linked(c, x, m)
      && (b.Branch? ==> b.node in m)
  {
  }

  lemma LeftLinks(t: Tree, p: Node?, m: Mem)
    requires t.Branch? && t.right.Branch? && Linked(t, p, m)
    ensures
      var x, y, a, b, c := t.node, t.right.node, t.left, t.right.left, t.right.right;
      && x in m && y in m && m[x].parent == p && m[x].right == y && m[x].left == Root(a)
      && m[y].parent == x && m[y].left == Root(b) && m[y].right == Root(c)
      && Linked(a, x, m) && Linked(b, y, m) && Linked(c, y, m)
      && (b.Branch? ==> b.node in m)
  {
  }
}
