/**
 `AvlTree` of libutil/src/collections/tree.rs: search, insert, remove, and the walk up that
 rebalances after them.
 */
module AvlTrees {
  import opened Wrappers
  import opened AvlCells
  import opened AvlSwaps

  /** `BalMode` */
  datatype BalMode = Add | Del

  // ---------------------------------------------------------------------------------------
  // The walk up

  /** How high the subtree was before its left or right subtree grew or shrank. */
  ghost function OldHeight(t: Tree, delta: int, mode: BalMode): int
    requires t.Branch?
  {
    var l, r := Height(t.left), Height(t.right);
    match mode
    case Add => if delta == -1 then 1 + Max(l - 1, r) else 1 + Max(l, r - 1)
    case Del => if delta == 1 then 1 + Max(l + 1, r) else 1 + Max(l, r + 1)
  }

  /** The subtree that grew is a new leaf, or leans to one side. */
  ghost predicate GrownLeans(t: Tree, delta: int)
    requires t.Branch?
  {
    var g := if delta == -1 then t.left else t.right;
    g.Branch? && (Height(g) == 1 || Lean(g) != 0)
  }

  /**
   On the way up: the balance of the node at the top of `t` is still to be changed by `delta`;
   above it everything is as it was when the subtree had its old height.
   */
  ghost predicate Unsettled(c: Path, t: Tree, delta: int, mode: BalMode, m: Mem) {
    && t.Branch? && (delta == 1 || delta == -1) && t.node in m
    && Distinct(Plug(c, t))
    && PathLinked(c, t.node, m) && Linked(t, Above(c), m)
    && Exact(t.left, m) && Exact(t.right, m) && m[t.node].balance + delta == Lean(t)
    && Avl(t.left) && Avl(t.right) && -1 <= Lean(t) - delta <= 1
    && OldHeight(t, delta, mode) >= 0
    && PathExact(c, OldHeight(t, delta, mode), m) && PathAvl(c, OldHeight(t, delta, mode))
    && (mode == Add ==> GrownLeans(t, delta))
  }

  /** Links, balances and heights of a whole tree are right. */
  ghost predicate Upright(t: Tree, m: Mem) {
    Distinct(t) && Linked(t, null, m) && Exact(t, m) && Avl(t)
  }

  /** A tree as it should be. */
  ghost predicate RightTree(t: Tree, m: Mem) {
    Upright(t, m) && SortedKeys(InOrder(t), m)
  }

  /** Between two rounds: the subtree is right in itself, the path as before. */
  ghost predicate Between(c: Path, t: Tree, oldHeight: int, m: Mem) {
    && t.Branch? && Distinct(Plug(c, t))
    && PathLinked(c, t.node, m) && Linked(t, Above(c), m) && Exact(t, m) && Avl(t)
    && oldHeight >= 0 && PathExact(c, oldHeight, m) && PathAvl(c, oldHeight)
  }

  /** The source's test for a change of height, `hchange`. */
  function HeightChange(mode: BalMode, oldBf: int, newBf: int): int {
    if mode == Add && oldBf == 0 && (newBf == 1 || newBf == -1) then 1
    else if mode == Del && (oldBf == 1 || oldBf == -1) && newBf == 0 then -1
    else 0
  }

  /** ... is right: it tells exactly whether the subtree is higher or lower than it was. */
  lemma HeightChangeRight(t: Tree, delta: int, mode: BalMode)
    requires t.Branch? && (delta == 1 || delta == -1) && Avl(t.left) && Avl(t.right) && -1 <= Lean(t) - delta <= 1
    requires mode == Add ==> GrownLeans(t, delta)
    ensures
      var t' := Rebalanced(t);
      var h := HeightChange(mode, Lean(t) - delta, Lean(t'));
      && Avl(t') && Height(t') == OldHeight(t, delta, mode) + h
      && (h == 1 ==> Lean(t') != 0)
  {
    RebalancedHeight(t);
  }

  /** If the height has not changed, the walk may stop. */
  lemma MayStop(c: Path, t: Tree, m: Mem)
    requires Between(c, t, Height(t), m)
    ensures Upright(Plug(c, t), m)
  {
    PlugLinked(c, t, m);
    PlugExact(c, t, m);
    PlugAvl(c, t);
  }

  /** The path and the subtree one level up. */
  ghost function Up(c: Path): Path
    requires !c.Top?
  {
    c.up
  }

  ghost function Joined(c: Path, t: Tree): Tree
    requires !c.Top?
  {
    if c.LeftOf? then Branch(c.node, t, c.right) else Branch(c.node, c.left, t)
  }

  /** If the height has changed, the node above is the next to be changed. */
  lemma GoUp(c: Path, t: Tree, change: int, mode: BalMode, m: Mem)
    requires !c.Top? && (if mode == Add then change == 1 else change == -1)
    requires Between(c, t, Height(t) - change, m) && (change == 1 ==> Lean(t) != 0)
    ensures Unsettled(Up(c), Joined(c, t), if c.LeftOf? then -change else change, mode, m)
    ensures Plug(Up(c), Joined(c, t)) == Plug(c, t)
  {
    hide Distinct, Linked, Exact, Avl, Height;
    var u := Joined(c, t);
    LinkedBranch(u, Above(c.up), m);
    if c.LeftOf? {
      assert u == Branch(c.node, t, c.right);
    } else {
      assert u == Branch(c.node, c.left, t);
    }
  }

  lemma BeforeRebalance(c: Path, t: Tree, delta: int, mode: BalMode, m: Mem)
    requires Unsettled(c, t, delta, mode, m)
    ensures
      var m1 := WithBalance(m, t.node, delta);
      && Linked(t, Above(c), m1) && Exact(t, m1) && SameKeys(m, m1) && Distinct(t)
      && PathLinked(c, t.node, m1) && PathExact(c, OldHeight(t, delta, mode), m1)
      && -2 <= m[t.node].balance + delta <= 2
    ensures m[t.node].parent == Above(c) && Nodes(Plug(c, t)) == PathNodes(c) + Nodes(t) && PathNodes(c) !! Nodes(t)
    ensures !c.Top? ==> c.node in m && (m[c.node].left == t.node <==> c.LeftOf?)
  {
    hide Exact, Avl, PathExact, PathAvl, Height, GrownLeans, Plug;
    var m1 := WithBalance(m, t.node, delta);
    PlugDistinct(c, t);
    PlugNodes(c, t);
    LinkedFrame(t, Above(c), m, m1);
    assert t.node in Nodes(t);
    ExactFrame(t.left, m, m1);
    ExactFrame(t.right, m, m1);
    ExactBranch(t, m1);
    PathLinkedFrame(c, t.node, m, m1);
    PathExactFrame(c, OldHeight(t, delta, mode), m, m1);
  }

  lemma AfterRebalance(c: Path, t: Tree, t': Tree, oldHeight: nat, m1: Mem, m2: Mem)
    requires t.Branch? && OnlyWithin(Nodes(t), m1, m2) && PathNodes(c) !! Nodes(t)
    requires PathLinked(c, t.node, m1) && PathExact(c, oldHeight, m1)
    ensures PathLinked(c, t.node, m2) && PathExact(c, oldHeight, m2)
  {
    hide Exact, Linked, PathExact, PathLinked;
    PathLinkedFrame(c, t.node, m1, m2);
    PathExactFrame(c, oldHeight, m1, m2);
  }

  lemma AfterLink(c: Path, t: Tree, hole: Node, oldHeight: nat, m: Mem)
    requires t.Branch? && Distinct(Plug(c, t)) && PathLinked(c, hole, m) && Linked(t, Above(c), m) && Exact(t, m)
      && Avl(t)
    requires PathExact(c, oldHeight, m) && PathAvl(c, oldHeight)
    ensures
      var m' := LinkAbove(m, Above(c), c.LeftOf?, t.node);
      Between(c, t, oldHeight, m') && SameKeys(m, m')
  {
    hide Exact, Avl, PathExact, PathAvl, Height, Plug;
    var m' := LinkAbove(m, Above(c), c.LeftOf?, t.node);
    PlugDistinct(c, t);
    if !c.Top? {
      assert c.node in PathNodes(c);
      PathLinkedFrame(c.up, c.node, m, m');
      LinkedFrame(if c.LeftOf? then c.right else c.left, c.node, m, m');
    }
    LinkedFrame(t, Above(c), m, m');
    ExactFrame(t, m, m');
    PathExactFrame(c, oldHeight, m, m');
  }

  /** The top of a tree is the top of the path in it, whatever the subtree. */
  lemma {:induction false} RootOfPlug(c: Path, t: Tree, t': Tree)
    requires !c.Top?
    ensures Root(Plug(c, t)) == Root(Plug(c, t'))
  {
    if !c.up.Top? {
      RootOfPlug(c.up, Joined(c, t), Joined(c, t'));
    }
  }

  // ---------------------------------------------------------------------------------------
  // Search

  datatype SearchResult = Present(at: Node) | ToLeftOf(at: Node) | ToRightOf(at: Node) | AtRoot

  /** The number of visits a search of a tree may need is bounded by the height ... */
  function Fib(n: nat): nat {
    if n < 2 then n else Fib(n - 1) + Fib(n - 2)
  }

  lemma {:induction false} FibGrows(m: nat, n: nat)
    requires m <= n
    ensures Fib(m) <= Fib(n)
  {
    if m < n {
      FibGrows(m, n - 1);
      if n >= 2 {
        assert Fib(n) == Fib(n - 1) + Fib(n - 2);
      }
    }
  }

  /** ... and a balanced tree of height h has at least Fib(h + 2) - 1 nodes. */
  lemma {:induction false} HeightBound(t: Tree)
    requires Avl(t)
    ensures |InOrder(t)| + 1 >= Fib(Height(t) + 2)
  {
    hide Avl, Fib, Height;
    EmptyHeight();
    if t.Branch? {
      var l, r, h := t.left, t.right, Height(t);
      AvlBranch(t);
      HeightBound(l);
      HeightBound(r);
      FibStep(h);
      FibGrows(h, Height(r) + 2);
      FibGrows(h, Height(l) + 2);
    }
  }

  lemma EmptyHeight()
    ensures Height(Nil) == 0 && Fib(2) == 1
  {
  }

  lemma FibStep(n: nat)
    ensures Fib(n + 2) == Fib(n + 1) + Fib(n)
  {
  }

  /** `k` lies between the keys before and those after. */
  ghost predicate KeysAround(c: Path, k: int, m: Mem) {
    && (forall n :: n in Before(c) ==> n in m && m[n].key < k)
    && (forall n :: n in After(c) ==> n in m && k < m[n].key)
  }

  ghost predicate HasKey(ns: seq<Node>, k: int, m: Mem) {
    exists n :: n in ns && n in m && m[n].key == k
  }

  lemma {:induction false} InOrderNodes(t: Tree)
    ensures forall n :: n in InOrder(t) <==> n in Nodes(t)
  {
    if t.Branch? {
      InOrderNodes(t.left);
      InOrderNodes(t.right);
    }
  }

  ghost function GoLeft(c: Path, t: Tree): Path
    requires t.Branch?
  {
    LeftOf(c, t.node, t.right)
  }

  ghost function GoRight(c: Path, t: Tree): Path
    requires t.Branch?
  {
    RightOf(c, t.left, t.node)
  }

  /** The search goes down on the right side. */
  lemma Descend(c: Path, t: Tree, k: int, m: Mem)
    requires t.Branch? && SortedKeys(InOrder(Plug(c, t)), m) && KeysAround(c, k, m) && t.node in m
    ensures k < m[t.node].key ==> KeysAround(GoLeft(c, t), k, m) && Plug(GoLeft(c, t), t.left) == Plug(c, t)
    ensures k > m[t.node].key ==> KeysAround(GoRight(c, t), k, m) && Plug(GoRight(c, t), t.right) == Plug(c, t)
  {
    hide SortedKeys, Plug;
    PlugInOrder(c, t);
    var b, l, n, r, a := Before(c), InOrder(t.left), [t.node], InOrder(t.right), After(c);
    assert InOrder(Plug(c, t)) == b + (l + n + r) + a;
    SortedAround(b + l, t.node, r + a, m) by {
      assert b + (l + n + r) + a == (b + l) + n + (r + a);
    }
    PlugStep(c, t);
  }

  lemma PlugStep(c: Path, t: Tree)
    requires t.Branch?
    ensures Plug(GoLeft(c, t), t.left) == Plug(c, t) == Plug(GoRight(c, t), t.right)
  {
  }

  lemma SortedAround(b: seq<Node>, n: Node, a: seq<Node>, m: Mem)
    requires SortedKeys(b + [n] + a, m)
    ensures n in m
    ensures forall x :: x in b ==> x in m && m[x].key < m[n].key
    ensures forall x :: x in a ==> x in m && m[n].key < m[x].key
  {
    var s := b + [n] + a;
    assert s[|b|] == n;
    forall x | x in b ensures x in m && m[x].key < m[n].key {
      var i :| 0 <= i < |b| && b[i] == x;
      assert s[i] == x;
    }
    forall x | x in a ensures x in m && m[n].key < m[x].key {
      var i :| 0 <= i < |a| && a[i] == x;
      assert s[|b| + 1 + i] == x;
    }
  }

  lemma Outset(t: Tree, k: int, m: Mem)
    ensures Plug(Top, t) == t && KeysAround(Top, k, m) && Fib(2) == 1
    ensures t.Branch? && Linked(t, null, m) ==> t.node in m
  {
  }

  lemma FewVisits(t: Tree, visits: nat)
    requires Avl(t)
    ensures visits <= Height(t) ==> Fib(visits + 2) <= |InOrder(t)| + 1
  {
    HeightBound(t);
    if visits <= Height(t) {
      FibGrows(visits + 2, Height(t) + 2);
    }
  }

  /** One step down. */
  lemma OneStep(c: Path, t: Tree, k: int, m: Mem)
    requires t.Branch? && Linked(t, Above(c), m) && KeysAround(c, k, m)
    requires SortedKeys(InOrder(Plug(c, t)), m)
    ensures t.node in m && m[t.node].left == Root(t.left) && m[t.node].right == Root(t.right)
    ensures Linked(t.left, t.node, m) && Linked(t.right, t.node, m)
    ensures k < m[t.node].key ==> KeysAround(GoLeft(c, t), k, m) && Plug(GoLeft(c, t), t.left) == Plug(c, t)
    ensures k > m[t.node].key ==> KeysAround(GoRight(c, t), k, m) && Plug(GoRight(c, t), t.right) == Plug(c, t)
    ensures Height(t.left) < Height(t) && Height(t.right) < Height(t)
  {
    LinkedBranch(t, Above(c), m);
    Descend(c, t, k, m);
  }

  // ---------------------------------------------------------------------------------------
  // Insertion

  /** The cells once a new leaf has been linked. */
  ghost function CellsWithLeaf(m: Mem, c: Path, v: Node, key: int): Mem
    requires !c.Top?
  {
    (if c.LeftOf? then WithLeft(m, c.node, v) else WithRight(m, c.node, v))[v := Cell(c.node, null, null, key, 0)]
  }

  ghost function Leaf(v: Node): Tree {
    Branch(v, Nil, Nil)
  }

  /** A new leaf has been linked: the node above it is the first to be changed. */
  lemma LeafLinked(c: Path, v: Node, key: int, m: Mem)
    requires !c.Top? && Upright(Plug(c, Nil), m) && v !in Nodes(Plug(c, Nil))
    ensures
      var u := Joined(c, Leaf(v));
      && Unsettled(Up(c), u, if c.LeftOf? then -1 else 1, Add, CellsWithLeaf(m, c, v, key))
      && Plug(Up(c), u) == Plug(c, Leaf(v))
  {
    hide Plug, Linked, Exact, PathLinked, PathExact, PathAvl, Avl, Distinct, CellsWithLeaf, Nodes, PathNodes;
    var m' := CellsWithLeaf(m, c, v, key);
    PlugNodes(c, Nil);
    PlugDistinct(c, Nil);
    PlugLinked(c, Nil, m);
    PlugExact(c, Nil, m);
    PlugAvl(c, Nil);
    PlugDistinct(c, Leaf(v));
    OpenPath(c, null, 0, m);
    AroundLeaf(c, v, key, m);
    LeafAlone(v, c.node, m');
    LinkedBranch(Joined(c, Leaf(v)), Above(c.up), m');
    JoinedPlug(c, Leaf(v));
  }

  /** Around the new leaf everything is as it was. */
  lemma AroundLeaf(c: Path, v: Node, key: int, m: Mem)
    requires !c.Top? && v !in PathNodes(c) && c.node in m
    requires PathNodes(c) == {c.node} + Nodes(Side(c)) + PathNodes(c.up)
    requires c.node !in Nodes(Side(c)) && c.node !in PathNodes(c.up)
    requires Linked(Side(c), c.node, m) && Exact(Side(c), m)
    requires PathLinked(c.up, c.node, m) && PathExact(c.up, 1 + Max(0, Height(Side(c))), m)
    ensures
      var m' := CellsWithLeaf(m, c, v, key);
      && Linked(Side(c), c.node, m') && Exact(Side(c), m')
      && PathLinked(c.up, c.node, m') && PathExact(c.up, 1 + Max(0, Height(Side(c))), m')
      && c.node in m' && m'[c.node] == (if c.LeftOf? then m[c.node].(left := v) else m[c.node].(right := v))
      && v in m' && m'[v] == Cell(c.node, null, null, key, 0)
  {
    hide Linked, Exact, PathLinked, PathExact, Nodes, PathNodes;
    var m' := CellsWithLeaf(m, c, v, key);
    LinkedFrame(Side(c), c.node, m, m');
    ExactFrame(Side(c), m, m');
    PathLinkedFrame(c.up, c.node, m, m');
    PathExactFrame(c.up, 1 + Max(0, Height(Side(c))), m, m');
  }

  /** The subtree on the other side of the node above. */
  ghost function Side(c: Path): Tree
    requires !c.Top?
  {
    if c.LeftOf? then c.right else c.left
  }

  lemma JoinedPlug(c: Path, t: Tree)
    requires !c.Top?
    ensures Plug(Up(c), Joined(c, t)) == Plug(c, t)
  {
  }

  lemma OpenPath(c: Path, hole: Node?, h: nat, m: Mem)
    requires !c.Top? && PathLinked(c, hole, m) && PathExact(c, h, m) && PathAvl(c, h) && PathDistinct(c)
    ensures
      var s := Side(c);
      && c.node in m && m[c.node].parent == Above(c.up)
      && m[c.node].left == (if c.LeftOf? then hole else Root(s))
        && m[c.node].right == (if c.LeftOf? then Root(s) else hole)
      && m[c.node].balance == (if c.LeftOf? then Height(s) - h else h - Height(s)) && -1 <= m[c.node].balance <= 1
      && Linked(s, c.node, m) && Exact(s, m) && Avl(s) && Distinct(s) && c.node !in Nodes(s)
      && c.node !in PathNodes(c.up) && Nodes(s) !! PathNodes(c.up)
        && PathNodes(c) == {c.node} + Nodes(s) + PathNodes(c.up)
      && PathLinked(c.up, c.node, m) && PathExact(c.up, 1 + Max(h, Height(s)), m)
        && PathAvl(c.up, 1 + Max(h, Height(s)))
  {
  }

  lemma LeafAlone(v: Node, p: Node?, m: Mem)
    requires v in m && m[v].parent == p && m[v].left == null && m[v].right == null && m[v].balance == 0
    ensures Linked(Leaf(v), p, m) && Exact(Leaf(v), m) && Avl(Leaf(v)) && Distinct(Leaf(v)) && Height(Leaf(v)) == 1
    ensures Nodes(Leaf(v)) == {v} && InOrder(Leaf(v)) == [v]
  {
  }

  lemma LeafShape(v: Node)
    ensures Nodes(Leaf(v)) == {v} && Nodes(Nil) == {} && InOrder(Leaf(v)) == [v]
  {
  }

  /** A key between its neighbours keeps the order. */
  lemma SortedWith(b: seq<Node>, v: Node, a: seq<Node>, m: Mem, m': Mem)
    requires SortedKeys(b + a, m) && v in m'
    requires forall n :: n in b + a ==> n in m && n in m' && m'[n].key == m[n].key
    requires forall n :: n in b ==> m[n].key < m'[v].key
    requires forall n :: n in a ==> m'[v].key < m[n].key
    ensures SortedKeys(b + [v] + a, m')
  {
    var s, u := b + a, b + [v] + a;
    forall i, j | 0 <= i < j < |u| ensures m'[u[i]].key < m'[u[j]].key {
      var i' := if i <= |b| then i else i - 1;
      var j' := if j <= |b| then j else j - 1;
      if i != |b| && j != |b| {
        assert u[i] == s[i'] && u[j] == s[j'];
        assert m[s[i']].key < m[s[j']].key;
      } else if i == |b| {
        assert u[j] in a;
      } else {
        assert u[i] in b;
      }
    }
  }

  // ---------------------------------------------------------------------------------------
  // Removal

  /** A node with at most one child. */
  ghost predicate Edge(t: Tree) {
    t.Branch? && (t.left.Nil? || t.right.Nil?)
  }

  ghost function Child(t: Tree): Tree
    requires Edge(t)
  {
    if t.right.Nil? then t.left else t.right
  }

  /** `m2` holds the cells without the node, once its only child has been linked from above. */
  ghost predicate CellsWithout(c: Path, t: Tree, m: Mem, m2: Mem)
    requires !c.Top? && Edge(t)
  {
    var top := Root(Child(t));
    var m1 := if c.LeftOf? then WithLeftP(m, c.node, top) else WithRightP(m, c.node, top);
    m2.Keys == m.Keys - {t.node} && forall n {:trigger m2[n]} :: n in m2 ==> m2[n] == m1[n]
  }

  /** The node is unlinked: the one above it is the first to be changed. */
  lemma EdgeUnlinked(c: Path, t: Tree, m: Mem, m2: Mem)
    requires !c.Top? && Edge(t) && Upright(Plug(c, t), m) && m.Keys == Nodes(Plug(c, t)) && CellsWithout(c, t, m, m2)
    ensures
      var u := Joined(c, Child(t));
      && Unsettled(Up(c), u, if c.LeftOf? then 1 else -1, Del, m2)
      && Plug(Up(c), u) == Plug(c, Child(t)) && Nodes(Plug(c, Child(t))) == m2.Keys
  {
    hide Plug, Linked, Exact, PathLinked, PathExact, PathAvl, Avl, Distinct, CellsWithout, Nodes, PathNodes, Height;
    var u := Child(t);
    PlugNodes(c, t);
    PlugNodes(c, u);
    PlugDistinct(c, t);
    PlugLinked(c, t, m);
    PlugExact(c, t, m);
    PlugAvl(c, t);
    PlugDistinct(c, u);
    OpenPath(c, t.node, Height(t), m);
    ChildParts(t, Above(c), m);
    AroundChild(c, t, m, m2);
    LinkedBranch(Joined(c, u), Above(c.up), m2);
    JoinedPlug(c, u);
  }

  /** What `remove_edge_node` finds in the node and above it. */
  lemma EdgeLinks(c: Path, t: Tree, m: Mem)
    requires t.Branch? && Upright(Plug(c, t), m) && m.Keys == Nodes(Plug(c, t))
    ensures t.node in m && m[t.node].left == Root(t.left) && m[t.node].right == Root(t.right)
    ensures m[t.node].parent == Above(c) && Linked(t, Above(c), m)
    ensures !c.Top? ==> c.node in m && (m[c.node].left == t.node <==> c.LeftOf?)
    ensures forall n :: n == Root(t.left) || n == Root(t.right) ==> n == null || n in m
  {
    hide Plug, Exact, Avl, Distinct, Nodes, Linked, PathLinked;
    PlugLinked(c, t, m);
    PlugDistinct(c, t);
    LinkedBranch(t, Above(c), m);
    RootInMem(t.left, t.node, m);
    RootInMem(t.right, t.node, m);
    HoleSide(c, t, m);
  }

  lemma HoleSide(c: Path, t: Tree, m: Mem)
    requires t.Branch? && PathLinked(c, t.node, m) && PathNodes(c) !! Nodes(t)
    ensures !c.Top? ==> c.node in m && (m[c.node].left == t.node <==> c.LeftOf?)
  {
  }

  /** The only child of the root becomes the root. */
  lemma ChildAlone(t: Tree, m: Mem, m2: Mem)
    requires Edge(t) && Upright(t, m)
    requires m2.Keys == m.Keys - {t.node} && m.Keys == Nodes(t)
    requires forall n {:trigger m2[n]} :: n in m2 ==> m2[n] == WithParent(m, Root(Child(t)), null)[n]
    ensures Upright(Child(t), m2) && Nodes(Child(t)) == m2.Keys
  {
    hide Linked, Exact, Avl, Distinct, Height;
    ChildParts(t, null, m);
    RootApart(Child(t));
    Reparent(Child(t), t.node, null, m, m2);
    ExactFrame(Child(t), m, m2);
  }

  lemma ChildParts(t: Tree, p: Node?, m: Mem)
    requires Edge(t) && Linked(t, p, m) && Exact(t, m) && Avl(t) && Distinct(t)
    ensures
      var u := Child(t);
      && Height(t) == Height(u) + 1 && Linked(u, t.node, m) && Exact(u, m) && Avl(u) && Distinct(u)
      && Nodes(t) == Nodes(u) + {t.node} && t.node !in Nodes(u)
  {
  }

  lemma AroundChild(c: Path, t: Tree, m: Mem, m2: Mem)
    requires !c.Top? && Edge(t) && CellsWithout(c, t, m, m2) && c.node in m && c.node != t.node
    requires c.node !in Nodes(Side(c)) && c.node !in PathNodes(c.up)
    requires Nodes(Side(c)) !! PathNodes(c.up)
    requires PathNodes(c) !! Nodes(t) && PathNodes(c) == {c.node} + Nodes(Side(c)) + PathNodes(c.up)
    requires t.node !in Nodes(Child(t)) && Nodes(t) == Nodes(Child(t)) + {t.node} && m.Keys == PathNodes(c) + Nodes(t)
    requires Linked(Side(c), c.node, m) && Exact(Side(c), m) && Linked(Child(t), t.node, m) && Exact(Child(t), m)
    requires Distinct(Child(t))
    requires PathLinked(c.up, c.node, m) && PathExact(c.up, 1 + Max(Height(t), Height(Side(c))), m)
    ensures
      && Linked(Side(c), c.node, m2) && Exact(Side(c), m2) && Linked(Child(t), c.node, m2) && Exact(Child(t), m2)
      && PathLinked(c.up, c.node, m2) && PathExact(c.up, 1 + Max(Height(t), Height(Side(c))), m2)
      && m2.Keys == m.Keys - {t.node} && c.node in m2
      && m2[c.node] == (if c.LeftOf? then m[c.node].(left := Root(Child(t))) else m[c.node].(right := Root(Child(t))))
  {
    hide Linked, Exact, PathLinked, PathExact, PathNodes, Distinct, Height;
    var u := Child(t);
    RootApart(u);
    LinkedFrame(Side(c), c.node, m, m2);
    ExactFrame(Side(c), m, m2);
    PathLinkedFrame(c.up, c.node, m, m2);
    PathExactFrame(c.up, 1 + Max(Height(t), Height(Side(c))), m, m2);
    Reparent(u, t.node, c.node, m, m2);
    ExactFrame(u, m, m2);
  }

  lemma Restricted(c: Path, t: Tree, m: Mem, m1: Mem, m2: Mem)
    requires !c.Top? && Edge(t) && m2.Keys == m.Keys - {t.node}
      && (forall n {:trigger m2[n]} :: n in m2 ==> n in m1 && m2[n] == m1[n])
    requires m1 == if c.LeftOf? then WithLeftP(m, c.node, Root(Child(t))) else WithRightP(m, c.node, Root(Child(t)))
    ensures CellsWithout(c, t, m, m2) && SameKeys(m, m1)
  {
  }

  /** The order without a node with at most one child. */
  lemma EdgeOrder(c: Path, t: Tree)
    requires Edge(t)
    ensures InOrder(Plug(c, t)) == (Before(c) + InOrder(t.left)) + [t.node] + (InOrder(t.right) + After(c))
    ensures InOrder(Plug(c, Child(t))) == (Before(c) + InOrder(t.left)) + (InOrder(t.right) + After(c))
  {
    hide Plug, Before, After, InOrder;
    PlugInOrder(c, t);
    PlugInOrder(c, Child(t));
    OpenOrder(t);
    NoneLeft();
    Regroup3(Before(c), InOrder(t.left), t.node, InOrder(t.right), After(c));
  }

  lemma OpenOrder(t: Tree)
    requires t.Branch?
    ensures InOrder(t) == InOrder(t.left) + [t.node] + InOrder(t.right)
  {
  }

  lemma NoneLeft()
    ensures InOrder(Nil) == []
  {
  }

  lemma Regroup3(b: seq<Node>, l: seq<Node>, x: Node, r: seq<Node>, e: seq<Node>)
    ensures b + (l + [x] + r) + e == (b + l) + [x] + (r + e)
    ensures r == [] ==> b + l + e == (b + l) + (r + e)
    ensures l == [] ==> b + r + e == (b + l) + (r + e)
  {
  }

  lemma {:induction false} BeforeCompose(d: Path, c: Path)
    ensures Before(Compose(d, c)) == Before(c) + Before(d) && After(Compose(d, c)) == After(d) + After(c)
  {
    match d {
      case Top =>
      case LeftOf(up, n, r) =>
        BeforeCompose(up, c);
        assert [n] + InOrder(r) + (After(up) + After(c)) == ([n] + InOrder(r) + After(up)) + After(c);
      case RightOf(up, l, n) =>
        BeforeCompose(up, c);
        assert (Before(c) + Before(up)) + InOrder(l) + [n] == Before(c) + (Before(up) + InOrder(l) + [n]);
    }
  }

  /**
   The order when a node has changed places with the greatest node of its left subtree and has
   been taken out there: just the node is missing.
   */
  lemma PredecessorOrder(c: Path, x: Node, d: Path, y: Node, a: Tree, r: Tree)
    requires After(d) == []
    ensures
      var b, e := Before(c) + Before(d) + InOrder(a) + [y], InOrder(r) + After(c);
      && InOrder(Pair(c, x, d, y, a, r)) == b + [x] + e
      && InOrder(Plug(Around(c, y, d, r), a)) == b + e
  {
    hide Plug, Compose;
    var u := Branch(x, Plug(d, Branch(y, a, Nil)), r);
    PlugInOrder(c, u);
    PlugInOrder(d, Branch(y, a, Nil));
    PlugInOrder(Around(c, y, d, r), a);
    BeforeCompose(d, LeftOf(c, y, r));
    assert InOrder(Branch(y, a, Nil)) == InOrder(a) + [y];
    Regroup5(Before(c), Before(d), InOrder(a), y, x, InOrder(r), After(c));
  }

  lemma Regroup5(b: seq<Node>, d: seq<Node>, a: seq<Node>, y: Node, x: Node, r: seq<Node>, e: seq<Node>)
    ensures b + ((d + (a + [y]) + []) + [x] + r) + e == (b + d + a + [y]) + [x] + (r + e)
    ensures (b + d) + a + ([] + ([y] + r + e)) == (b + d + a + [y]) + (r + e)
  {
  }

  /** `s'` is `s` without the node at `at`. */
  ghost predicate TakenOut(s: seq<Node>, s': seq<Node>, x: Node, at: nat) {
    at < |s| && s[at] == x && s' == s[..at] + s[at + 1..]
  }

  /** Without a node, the others are still in order. */
  lemma Taken(t: Tree, b: seq<Node>, x: Node, e: seq<Node>, t': Tree, m: Mem, m1: Mem, m2: Mem)
    requires SortedKeys(InOrder(t), m) && InOrder(t) == b + [x] + e && InOrder(t') == b + e
    requires SameKeys(m, m1) && Nodes(t') == m2.Keys && forall n {:trigger m2[n]} :: n in m2 ==>
      n in m1 && m2[n] == m1[n]
    ensures TakenOut(InOrder(t), InOrder(t'), x, |b|) && SortedKeys(InOrder(t'), m2)
  {
    hide InOrder, Nodes, SortedKeys;
    InOrderNodes(t');
    assert forall n :: n in m2 ==> n in m && m2[n].key == m[n].key;
    SortedWithout(b, x, e, m, m2);
    assert (b + [x] + e)[..|b|] == b && (b + [x] + e)[|b| + 1..] == e;
  }

  lemma SortedWithout(b: seq<Node>, x: Node, e: seq<Node>, m: Mem, m2: Mem)
    requires SortedKeys(b + [x] + e, m)
    requires forall n :: n in b + e ==> n in m2
    requires forall n :: n in m2 ==> n in m && m2[n].key == m[n].key
    ensures SortedKeys(b + e, m2)
  {
    var s, u := b + [x] + e, b + e;
    forall i, j | 0 <= i < j < |u| ensures m2[u[i]].key < m2[u[j]].key {
      var i', j' := if i < |b| then i else i + 1, if j < |b| then j else j + 1;
      assert u[i] == s[i'] && u[j] == s[j'];
    }
  }

  lemma PairIs(c: Path, t: Tree, d: Path, u: Tree)
    requires t.Branch? && u.Branch? && u.right.Nil? && Plug(d, u) == t.left
    ensures Plug(c, t) == Pair(c, t.node, d, u.node, u.left, t.right)
  {
    assert u == Branch(u.node, u.left, Nil);
    assert t == Branch(t.node, Plug(d, u), t.right);
  }

  lemma SwapReady(c: Path, x: Node, d: Path, y: Node, a: Tree, r: Tree, m: Mem)
    requires Upright(Pair(c, x, d, y, a, r), m) && Nodes(Pair(c, x, d, y, a, r)) == m.Keys
    ensures Below(m, x, y) && x in m && y in m
    ensures
      var s, m' := Pair(c, y, d, x, a, r), CellsSwapped(m, x, y);
      Upright(s, m') && Nodes(s) == m.Keys && SameKeys(m, m')
    ensures m[x].parent == null ==> Root(Pair(c, y, d, x, a, r)) == y
    ensures m[x].parent != null ==> Root(Pair(c, y, d, x, a, r)) == Root(Pair(c, x, d, y, a, r))
  {
    hide Distinct, Linked, Exact, Avl, Nodes, Below, CellsSwapped, Plug, SameKeys;
    SwapTree(c, x, d, y, a, r, m);
    BelowIn(m, x, y);
    var u, v := Branch(x, Plug(d, Branch(y, a, Nil)), r), Branch(y, Plug(d, Branch(x, a, Nil)), r);
    PlugLinked(c, u, m);
    LinkedBranch(u, Above(c), m);
    if c.Top? {
      PlugTop(v);
    } else {
      RootOfPlug(c, u, v);
    }
  }

  lemma RootApart(t: Tree)
    requires Distinct(t)
    ensures t.Branch? ==> t.node in Nodes(t) && t.node !in Nodes(t.left) && t.node !in Nodes(t.right)
  {
  }

  class AvlTree {
    var root: Node?
    var len: nat
    /** What the links are supposed to look like. */
    ghost var shape: Tree

    ghost predicate Valid()
      reads this, Nodes(shape)
    {
      && RightTree(shape, Snap(Nodes(shape)))
      && root == Root(shape)
      && len == |InOrder(shape)|
    }

    constructor ()
      ensures Valid() && InOrder(shape) == []
    {
      root, len := null, 0;
      shape := Nil;
    }

    /**
     `search`: the node with the key, or the place where it would go; `c` and `t` tell where in
     the tree that is.  The nodes visited are no more than the height.
     */
    method Search(key: int) returns (r: SearchResult, ghost c: Path, ghost t: Tree, ghost visits: nat)
      requires Valid()
      ensures Plug(c, t) == shape && KeysAround(c, key, Snap(Nodes(shape)))
      ensures match r
        case Present(n) => t.Branch? && t.node == n && n.key == key
        case ToLeftOf(n) => t.Nil? && c.LeftOf? && c.node == n
        case ToRightOf(n) => t.Nil? && c.RightOf? && c.node == n
        case AtRoot => t.Nil? && c.Top?
      ensures !r.AtRoot? ==> r.at in Nodes(shape)
      ensures visits <= Height(shape) && Fib(visits + 2) <= len + 1
    {
      hide Linked, Exact, Distinct, Avl, Nodes, InOrder, Plug, Height, SortedKeys, KeysAround, Fib;
      ghost var m := Snap(Nodes(shape));
      c, t, visits := Top, shape, 0;
      Outset(shape, key, m);
      if root == null {
        r := AtRoot;
        return;
      }
      var node := root;
      while true
        invariant t.Branch? && t.node == node && Plug(c, t) == shape && KeysAround(c, key, m)
        invariant node in m && Linked(t, Above(c), m) && visits + Height(t) <= Height(shape)
        decreases t
      {
        ghost var u := t;
        OneStep(c, t, key, m);
        FewVisits(shape, visits + 1);
        visits := visits + 1;
        if key < node.key {
          c, t := GoLeft(c, u), u.left;
          if node.left == null {
            r := ToLeftOf(node);
            return;
          }
          node := node.left;
        } else if key > node.key {
          c, t := GoRight(c, u), u.right;
          if node.right == null {
            r := ToRightOf(node);
            return;
          }
          node := node.right;
        } else {
          r := Present(node);
          return;
        }
      }
    }

    /** The end of a round of `rebalance`: the link from above is set. */
    method LinkFromAbove(parent: Node?, isLeft: bool, top: Node, ghost ns: set<Node>)
      requires parent != null ==> parent in ns
      modifies this`root, ns
      ensures this.root == (if parent == null then top else old(this.root))
      ensures Snap(ns) == LinkAbove(old(Snap(ns)), parent, isLeft, top)
    {
      if parent == null {
        this.root := top;
      } else if isLeft {
        parent.left := top;
      } else {
        parent.right := top;
      }
    }

    /**
     One round of `rebalance`: changes the balance of `node`, rotates if it leans too far, and
     sets the link from above.
     */
    method RebalanceNode(node: Node, delta: int, ghost c: Path, ghost t: Tree, ghost mode: BalMode, ghost ns: set<Node>)
      returns (top: Node, parent: Node?, isLeft: bool, oldBf: int)
      requires ns == Nodes(Plug(c, t)) && Unsettled(c, t, delta, mode, Snap(ns)) && node == t.node
      requires this.root == Root(Plug(c, t))
      modifies this`root, ns
      ensures oldBf == Lean(t) - delta && top == Rebalanced(t).node
      ensures parent == Above(c) && (parent != null ==> (isLeft <==> c.LeftOf?))
      ensures Between(c, Rebalanced(t), OldHeight(t, delta, mode), Snap(ns))
      ensures SameKeys(old(Snap(ns)), Snap(ns))
      ensures this.root == Root(Plug(c, Rebalanced(t)))
    {
      hide Linked, Exact, Distinct, Avl, Nodes, PathNodes, PathLinked, PathExact, PathAvl, Plug, Height, Rebalanced,
        Between;
      ghost var m := Snap(ns);
      BeforeRebalance(c, t, delta, mode, m);
      oldBf := node.balance;
      parent := node.parent;
      isLeft := parent != null && parent.left == node;
      node.IncBalance(delta, ns);
      ghost var m1 := Snap(ns);
      top := node.Rebalance(t, Above(c), ns);
      ghost var m2 := Snap(ns);
      AfterRebalance(c, t, Rebalanced(t), OldHeight(t, delta, mode), m1, m2);
      RebalancedFits(c, t);
      LinkFromAbove(parent, isLeft, top, ns);
      AfterLink(c, Rebalanced(t), t.node, OldHeight(t, delta, mode), m2);
      if !c.Top? {
        RootOfPlug(c, t, Rebalanced(t));
      } else {
        PlugTop(Rebalanced(t));
      }
    }

    /** `rebalance`: the walk up from a node whose left or right subtree has grown or shrunk. */
    method Rebalance(start: Node, change: int, mode: BalMode, ghost c0: Path, ghost t0: Tree, ghost ns: set<Node>)
      returns (ghost result: Tree)
      requires ns == Nodes(Plug(c0, t0)) && Unsettled(c0, t0, change, mode, Snap(ns)) && start == t0.node
      requires this.root == Root(Plug(c0, t0))
      modifies this`root, ns
      ensures Upright(result, Snap(ns)) && this.root == Root(result)
      ensures Nodes(result) == ns && InOrder(result) == InOrder(Plug(c0, t0))
      ensures SameKeys(old(Snap(ns)), Snap(ns))
    {
      hide Unsettled, Between, Upright, SameKeys, Rebalanced, OldHeight, Nodes, InOrder, Plug, Height, Root,
        HeightChange, Joined;
      var node, bfChange := start, change;
      StartOfRound(c0, t0, change, mode, Snap(ns));
      ghost var c, t := c0, t0;
      SameKeysRefl(Snap(ns));
      while true
        invariant Unsettled(c, t, bfChange, mode, Snap(ns)) && t.Branch? && node == t.node
        invariant Nodes(Plug(c, t)) == ns && InOrder(Plug(c, t)) == InOrder(Plug(c0, t0))
        invariant this.root == Root(Plug(c, t))
        invariant SameKeys(old(Snap(ns)), Snap(ns))
        decreases c
      {
        ghost var m := Snap(ns);
        StartOfRound(c, t, bfChange, mode, m);
        ghost var t' := Rebalanced(t);
        var top, parent, isLeft, oldBf := RebalanceNode(node, bfChange, c, t, mode, ns);
        Round(c, t, bfChange, mode, m, Snap(ns));
        SameKeysTrans(old(Snap(ns)), m, Snap(ns));
        var newBf := top.balance;
        assert newBf == Snap(ns)[top].balance;
        var hchange := HeightChange(mode, oldBf, newBf);
        if parent == null || hchange == 0 {
          result := Plug(c, t');
          return;
        }
        AboveIsNode(c);
        node, bfChange := parent, if isLeft then -hchange else hchange;
        c, t := Up(c), Joined(c, t');
      }
    }

    /** The child of the node takes its place below `parent`, and the tree is rebalanced. */
    method Unlink(parent: Node, isLeft: bool, child: Node?, ghost c: Path, ghost t: Tree, ghost ns: set<Node>)
      returns (ghost result: Tree)
      requires Edge(t) && ns == Nodes(Plug(c, t)) && Upright(Plug(c, t), Snap(ns))
      requires !c.Top? && parent == c.node && parent in ns && (isLeft <==> c.LeftOf?)
      requires child == Root(Child(t)) && (child != null ==> child in ns) && this.root == Root(Plug(c, t))
      modifies this`root, ns
      ensures Nodes(result) == ns - {t.node} && Upright(result, Snap(Nodes(result)))
      ensures this.root == Root(result) && InOrder(result) == InOrder(Plug(c, Child(t)))
      ensures SameKeys(old(Snap(ns)), Snap(ns))
    {
      hide Plug, Linked, Exact, Avl, Distinct, Nodes, InOrder, Height, Upright, CellsWithout, WithLeftP, WithRightP,
        Unsettled;
      ghost var m := Snap(ns);
      if isLeft {
        parent.SetLeftP(child, ns);
      } else {
        parent.SetRightP(child, ns);
      }
      ghost var ns2 := ns - {t.node};
      Restricted(c, t, m, Snap(ns), Snap(ns2));
      EdgeUnlinked(c, t, m, Snap(ns2));
      RootOfPlug(c, t, Child(t));
      result := Rebalance(parent, if isLeft then 1 else -1, Del, Up(c), Joined(c, Child(t)), ns2);
    }

    /** `remove_edge_node`: takes out a node with at most one child; leaves any other alone. */
    method RemoveEdgeNode(node: Node, ghost c: Path, ghost t: Tree, ghost ns: set<Node>)
      returns (out: Option<Node>, ghost result: Tree)
      requires t.Branch? && t.node == node && ns == Nodes(Plug(c, t)) && Upright(Plug(c, t), Snap(ns))
      requires this.root == Root(Plug(c, t))
      modifies this`root, ns
      ensures out == if Edge(t) then Some(node) else None
      ensures out.None? ==> Snap(ns) == old(Snap(ns)) && this.root == old(this.root)
      ensures out.Some? ==> Edge(t) && Nodes(result) == ns - {node} && Upright(result, Snap(Nodes(result)))
      ensures out.Some? ==> Edge(t) && this.root == Root(result) && InOrder(result) == InOrder(Plug(c, Child(t)))
      ensures out.Some? ==> SameKeys(old(Snap(ns)), Snap(ns))
    {
      hide Plug, Linked, Exact, Avl, Distinct, Nodes, InOrder, Height, Upright, CellsWithout, WithLeftP, WithRightP,
        Unsettled;
      ghost var m := Snap(ns);
      EdgeLinks(c, t, m);
      var child;
      if node.right == null {
        child := node.left;
      } else if node.left == null {
        child := node.right;
      } else {
        return None, Nil;
      }
      if node.parent != null {
        var parent := node.parent;
        var isLeft := parent.left == node;
        result := Unlink(parent, isLeft, child, c, t, ns);
      } else {
        PlugTop(t);
        PlugTop(Child(t));
        this.root := child;
        result := Child(t);
        if child != null {
          child.parent := null;
        }
        ChildAlone(t, m, Snap(ns - {node}));
      }
      out := Some(node);
    }

    /** The walk of `remove` to the greatest node of the left subtree; `d` is the way there. */
    method Predecessor(node: Node, ghost t: Tree, ghost p: Node?, ghost ns: set<Node>)
      returns (child: Node, ghost d: Path, ghost s: Tree)
      requires t.Branch? && t.node == node && node in ns && Linked(t, p, Snap(ns)) && t.left.Branch?
      ensures s.Branch? && s.node == child && s.right.Nil? && Plug(d, s) == t.left && After(d) == []
      ensures child in ns
    {
      hide Plug, Nodes;
      ghost var m := Snap(ns);
      LinkedBranch(t, p, m);
      LinkedBranch(t.left, node, m);
      child := node.left;
      d, s := Top, t.left;
      PlugTop(s);
      ghost var up := node;
      while child.right != null
        invariant s.Branch? && s.node == child && child in m && Linked(s, up, m) && Plug(d, s) == t.left
          && After(d) == []
        decreases s
      {
        LinkedBranch(s, up, m);
        RootInMem(s.right, child, m);
        PlugStep(d, s);
        up, d, s := child, GoRight(d, s), s.right;
        child := child.right;
      }
      LinkedBranch(s, up, m);
    }

    /** The branch of `remove` for a node with at most one child. */
    method TakeOutEdge(node: Node, ghost c: Path, ghost t: Tree, ghost m: Mem)
      returns (out: Option<Node>, ghost at: nat)
      requires t.Branch? && t.node == node && Plug(c, t) == shape && m == Snap(Nodes(shape)) && RightTree(shape, m)
      requires root == Root(shape) && node in Nodes(shape) && Edge(t)
      modifies this, Nodes(shape)
      ensures out == Some(node) && len == old(len)
      ensures RightTree(shape, Snap(Nodes(shape))) && root == Root(shape) && Nodes(shape) == old(Nodes(shape)) - {node}
      ensures SameKeys(m, Snap(old(Nodes(shape)))) && TakenOut(old(InOrder(shape)), InOrder(shape), node, at)
    {
      hide Plug, Linked, Exact, Avl, Distinct, Nodes, InOrder, Height, SortedKeys, SameKeys, Upright, CellsSwapped,
        Below, Before, After, TakenOut, Pair, Around;
      ghost var ns, s := Nodes(shape), shape;
      EdgeOrder(c, t);
      out, shape := RemoveEdgeNode(node, c, t, ns);
      at := |Before(c) + InOrder(t.left)|;
      Taken(s, Before(c) + InOrder(t.left), node, InOrder(t.right) + After(c), shape, m, Snap(ns), Snap(Nodes(shape)));
    }

    /** The branch of `remove` for a node with two children. */
    method TakeOutInner(node: Node, ghost c: Path, ghost t: Tree, ghost m: Mem)
      returns (out: Option<Node>, ghost at: nat)
      requires t.Branch? && t.node == node && Plug(c, t) == shape && m == Snap(Nodes(shape)) && RightTree(shape, m)
      requires root == Root(shape) && node in Nodes(shape) && t.left.Branch?
      modifies this, Nodes(shape)
      ensures out == Some(node) && len == old(len)
      ensures RightTree(shape, Snap(Nodes(shape))) && root == Root(shape) && Nodes(shape) == old(Nodes(shape)) - {node}
      ensures SameKeys(m, Snap(old(Nodes(shape)))) && TakenOut(old(InOrder(shape)), InOrder(shape), node, at)
    {
      hide Plug, Linked, Exact, Avl, Distinct, Nodes, InOrder, Height, SortedKeys, SameKeys, Upright, CellsSwapped,
        Below, Before, After, TakenOut, Pair, Around;
      ghost var ns, s, r := Nodes(shape), shape, t.right;
      var child, d, a := SwapDown(node, c, t, m);
      PairAround(c, child, d, node, a, r);
      PredecessorOrder(c, node, d, child, a, r);
      ghost var m1 := Snap(ns);
      out, shape := RemoveEdgeNode(node, Around(c, child, d, r), Branch(node, a, Nil), ns);
      SameKeysTrans(m, m1, Snap(ns));
      ghost var b := Before(c) + Before(d) + InOrder(a) + [child];
      at := |b|;
      Taken(s, b, node, InOrder(r) + After(c), shape, m, Snap(ns), Snap(Nodes(shape)));
    }

    /** The node changes places with the greatest node of its left subtree. */
    method SwapDown(node: Node, ghost c: Path, ghost t: Tree, ghost m: Mem)
      returns (child: Node, ghost d: Path, ghost a: Tree)
      requires t.Branch? && t.node == node && Plug(c, t) == shape && m == Snap(Nodes(shape)) && Upright(shape, m)
      requires root == Root(shape) && node in Nodes(shape) && t.left.Branch?
      modifies this`root, Nodes(shape)
      ensures shape == Pair(c, node, d, child, a, t.right) && After(d) == []
      ensures
        var s := Pair(c, child, d, node, a, t.right);
        Upright(s, Snap(Nodes(shape))) && Nodes(s) == Nodes(shape) && root == Root(s)
      ensures SameKeys(m, Snap(Nodes(shape)))
    {
      hide Plug, Linked, Exact, Avl, Distinct, Nodes, InOrder, Height, SortedKeys, SameKeys, Upright, CellsSwapped,
        Below, Before, After, TakenOut, Pair, Around;
      EdgeLinks(c, t, m);
      ghost var u;
      child, d, u := Predecessor(node, t, Above(c), Nodes(shape));
      a := u.left;
      PairIs(c, t, d, u);
      SwapReady(c, node, d, child, a, t.right, m);
      var newRoot := Swap(node, child, Nodes(shape));
      if newRoot != null {
        root := newRoot;
      }
    }

    /** `remove`: the very node with the key is taken out; all nodes keep their keys. */
    method Remove(key: int) returns (out: Option<Node>, ghost at: nat)
      requires Valid()
      modifies this, Nodes(shape)
      ensures Valid()
      ensures out.Some? <==> old(HasKey(InOrder(shape), key, Snap(Nodes(shape))))
      ensures out.None? ==> shape == old(shape) && Snap(Nodes(shape)) == old(Snap(Nodes(shape)))
      ensures out.Some? ==>
        out.value in old(Nodes(shape)) && out.value.key == key && Nodes(shape) == old(Nodes(shape)) - {out.value}
      ensures out.Some? ==> TakenOut(old(InOrder(shape)), InOrder(shape), out.value, at)
      ensures forall n :: n in old(Nodes(shape)) ==> n.key == old(n.key)
    {
      hide Plug, Linked, Exact, Avl, Distinct, Nodes, InOrder, Height, SortedKeys, HasKey, KeysAround, Fib, Upright;
      ghost var m := Snap(Nodes(shape));
      var r, c, t, _ := Search(key);
      AtPlace(shape, c, t, key, m);
      match r {
        case Present(node) =>
          EdgeLinks(c, t, m);
          if node.left == null || node.right == null {
            out, at := TakeOutEdge(node, c, t, m);
          } else {
            out, at := TakeOutInner(node, c, t, m);
          }
          len := len - 1;
        case _ =>
          out, at := None, 0;
      }
    }

    /**
     `insert`: the node goes to its place in the order; if the key is taken, the tree stays as it
     is.
     */
    method Insert(key: int, v: Node) returns (ok: bool, ghost at: nat)
      requires Valid() && v !in Nodes(shape)
      modifies this, Nodes(shape), v
      ensures Valid()
      ensures ok <==> !old(HasKey(InOrder(shape), key, Snap(Nodes(shape))))
      ensures !ok ==> shape == old(shape) && Snap(Nodes(shape)) == old(Snap(Nodes(shape)))
      ensures ok ==> at <= |old(InOrder(shape))| && v.key == key
      ensures ok ==> InOrder(shape) == old(InOrder(shape))[..at] + [v] + old(InOrder(shape))[at..]
      ensures ok ==> forall n :: n in old(Nodes(shape)) ==> n.key == old(n.key)
    {
      hide Plug, Linked, Exact, Avl, Distinct, Nodes, InOrder, Height, SortedKeys, HasKey, KeysAround, Fib, RightTree;
      ghost var m := Snap(Nodes(shape));
      v.left, v.right, v.balance := null, null, 0;
      var r, c, t, _ := Search(key);
      AtPlace(shape, c, t, key, m);
      at := |Before(c)|;
      ok := !r.Present?;
      if ok {
        InsertAt(r, key, v, c, m);
      }
    }

    /** The branches of `insert` for a key that is not taken. */
    method InsertAt(r: SearchResult, key: int, v: Node, ghost c: Path, ghost m: Mem)
      requires Plug(c, Nil) == shape && RightTree(shape, m) && KeysAround(c, key, m) && v !in Nodes(shape)
      requires root == Root(shape) && Snap(Nodes(shape)) == m && len == |Before(c) + After(c)|
      requires v.left == null && v.right == null && v.balance == 0
      requires match r
        case Present(_) => false
        case ToLeftOf(n) => c.LeftOf? && c.node == n
        case ToRightOf(n) => c.RightOf? && c.node == n
        case AtRoot => c.Top?
      requires !r.AtRoot? ==> r.at in Nodes(shape)
      modifies this, Nodes(shape), v
      ensures RightTree(shape, Snap(Nodes(shape))) && root == Root(shape) && len == |InOrder(shape)|
      ensures InOrder(shape) == Before(c) + [v] + After(c)
      ensures v.key == key && forall n :: n in m ==> n.key == m[n].key
    {
      hide Plug, Linked, Exact, Avl, Distinct, Nodes, InOrder, Height, SortedKeys, KeysAround, RightTree, Before, After;
      match r {
        case ToLeftOf(node) =>
          AddLeaf(node, true, key, c, v, m);
        case ToRightOf(node) =>
          AddLeaf(node, false, key, c, v, m);
        case AtRoot =>
          AloneInTree(c);
          v.parent := null;
          v.key := key;
          root := v;
          shape := Leaf(v);
          FirstLeaf(v, Snap({v}));
      }
      len := len + 1;
    }

    /** The branches of `insert` below a node. */
    method AddLeaf(node: Node, isLeft: bool, key: int, ghost c: Path, v: Node, ghost m: Mem)
      requires Plug(c, Nil) == shape && RightTree(shape, m) && KeysAround(c, key, m) && v !in Nodes(shape)
      requires !c.Top? && node == c.node && node in Nodes(shape) && (isLeft <==> c.LeftOf?)
      requires v.left == null && v.right == null && v.balance == 0
      requires root == Root(shape) && Snap(Nodes(shape)) == m
      modifies this, Nodes(shape), v
      ensures RightTree(shape, Snap(Nodes(shape))) && root == Root(shape) && len == old(len)
      ensures InOrder(shape) == Before(c) + [v] + After(c) && Nodes(shape) == old(Nodes(shape)) + {v}
      ensures v.key == key && forall n :: n in m ==> n in Nodes(shape) && n.key == m[n].key
    {
      hide Plug, Linked, Exact, Avl, Distinct, Nodes, InOrder, Height, SortedKeys, KeysAround, RightTree, CellsWithLeaf,
        Before, After;
      ghost var ns := Nodes(shape) + {v};
      LinkLeaf(node, isLeft, key, c, v, m, ns);
      KeysWithLeaf(c, v, key, m);
      Grow(node, if isLeft then -1 else 1, c, v, m);
    }

    method LinkLeaf(node: Node, isLeft: bool, key: int, ghost c: Path, v: Node, ghost m: Mem, ghost ns: set<Node>)
      requires !c.Top? && node == c.node && node in m && v !in m && ns == m.Keys + {v} && (isLeft <==> c.LeftOf?)
      requires Snap(m.Keys) == m && v.left == null && v.right == null && v.balance == 0
      modifies ns
      ensures Snap(ns) == CellsWithLeaf(m, c, v, key)
    {
      hide CellsWithLeaf, WithLeftP, WithRightP;
      ghost var m0 := Snap(ns);
      assert forall n :: n in m ==> m0[n] == Snap(m.Keys)[n];
      LeafCells(c, v, key, m, m0);
      if isLeft {
        node.SetLeftP(v, ns);
      } else {
        node.SetRightP(v, ns);
      }
      v.key := key;
    }

    /** The part of `insert` after a new leaf has been linked. */
    method Grow(node: Node, change: int, ghost c: Path, v: Node, ghost m: Mem)
      requires Plug(c, Nil) == shape && RightTree(shape, m) && KeysAround(c, v.key, m) && v !in Nodes(shape)
      requires !c.Top? && node == c.node && change == (if c.LeftOf? then -1 else 1)
      requires root == Root(shape) && Snap(Nodes(shape) + {v}) == CellsWithLeaf(m, c, v, v.key)
      modifies this, Nodes(shape), v
      ensures RightTree(shape, Snap(Nodes(shape))) && root == Root(shape) && len == old(len)
      ensures InOrder(shape) == Before(c) + [v] + After(c) && Nodes(shape) == old(Nodes(shape)) + {v}
      ensures SameKeys(old(Snap(Nodes(shape) + {v})), Snap(Nodes(shape)))
    {
      hide Plug, Linked, Exact, Avl, Distinct, Nodes, InOrder, Height, SortedKeys, KeysAround, CellsWithLeaf, Root,
        Unsettled;
      ghost var ns := Nodes(shape) + {v};
      ghost var m' := Snap(ns);
      LeafLinked(c, v, v.key, m);
      LeafShape(v);
      PlugNodes(c, Nil);
      PlugNodes(c, Leaf(v));
      PlugInOrder(c, Leaf(v));
      RootOfPlug(c, Nil, Leaf(v));
      shape := Rebalance(node, change, Add, Up(c), Joined(c, Leaf(v)), ns);
      LeafSorted(c, v, m, m', Snap(ns));
    }
  }

  lemma KeysWithLeaf(c: Path, v: Node, key: int, m: Mem)
    requires !c.Top? && v !in m
    ensures
      var m' := CellsWithLeaf(m, c, v, key);
      m'[v].key == key && forall n :: n in m ==> n in m' && m'[n].key == m[n].key
  {
  }

  lemma LeafSorted(c: Path, v: Node, m: Mem, m': Mem, m2: Mem)
    requires !c.Top? && RightTree(Plug(c, Nil), m) && v !in Nodes(Plug(c, Nil)) && v in m'
      && KeysAround(c, m'[v].key, m)
    requires m' == CellsWithLeaf(m, c, v, m'[v].key) && SameKeys(m', m2)
    ensures SortedKeys(Before(c) + [v] + After(c), m2)
  {
    hide Plug, Linked, Exact, Avl, Distinct, Before, After, Nodes;
    PlugInOrder(c, Nil);
    assert Before(c) + InOrder(Nil) + After(c) == Before(c) + After(c);
    InOrderNodes(Plug(c, Nil));
    SortedWith(Before(c), v, After(c), m, m2);
  }

  /** Where the search has ended. */
  lemma AtPlace(s: Tree, c: Path, t: Tree, k: int, m: Mem)
    requires Plug(c, t) == s && KeysAround(c, k, m)
    ensures t.Nil? ==> InOrder(s) == Before(c) + After(c) && !HasKey(InOrder(s), k, m)
    ensures t.Nil? ==> InOrder(s)[..|Before(c)|] == Before(c) && InOrder(s)[|Before(c)|..] == After(c)
    ensures t.Branch? && t.node in m && m[t.node].key == k ==> HasKey(InOrder(s), k, m)
  {
    hide Plug, InOrder, KeysAround, HasKey, Before, After;
    PlugInOrder(c, t);
    if t.Nil? {
      NilInOrder(Before(c), After(c));
      NotThere(c, k, m);
    } else if t.node in m && m[t.node].key == k {
      There(Before(c), t, After(c), k, m);
    }
  }

  lemma NilInOrder(b: seq<Node>, a: seq<Node>)
    ensures b + InOrder(Nil) + a == b + a && (b + a)[..|b|] == b && (b + a)[|b|..] == a
  {
  }

  lemma NotThere(c: Path, k: int, m: Mem)
    requires KeysAround(c, k, m)
    ensures !HasKey(Before(c) + After(c), k, m)
  {
    hide Before, After;
  }

  lemma There(b: seq<Node>, t: Tree, a: seq<Node>, k: int, m: Mem)
    requires t.Branch? && t.node in m && m[t.node].key == k
    ensures HasKey(b + InOrder(t) + a, k, m)
  {
    InOrderNodes(t);
    assert t.node in b + InOrder(t) + a;
  }

  lemma LeafCells(c: Path, v: Node, key: int, m: Mem, m0: Mem)
    requires !c.Top? && c.node in m && v !in m && m0.Keys == m.Keys + {v} && (forall n :: n in m ==> m0[n] == m[n])
    requires m0[v].left == null && m0[v].right == null && m0[v].balance == 0
    ensures
      var m1 := if c.LeftOf? then WithLeftP(m0, c.node, v) else WithRightP(m0, c.node, v);
      m1[v := m1[v].(key := key)] == CellsWithLeaf(m, c, v, key)
  {
  }

  lemma AloneInTree(c: Path)
    ensures c.Top? ==> Nodes(Plug(c, Nil)) == {} && Before(c) == [] && After(c) == []
  {
  }

  lemma FirstLeaf(v: Node, m: Mem)
    requires v in m && m[v] == Cell(null, null, null, m[v].key, 0)
    ensures RightTree(Leaf(v), m) && Nodes(Leaf(v)) == {v} && InOrder(Leaf(v)) == [v]
  {
    LeafAlone(v, null, m);
  }

  lemma AboveIsNode(c: Path)
    ensures Above(c) == null <==> c.Top?
    ensures !c.Top? ==> Above(c) == c.node && Up(c) == c.up && Up(c) < c
  {
  }

  lemma SameKeysRefl(m: Mem)
    ensures SameKeys(m, m)
  {
  }

  lemma SameKeysTrans(m: Mem, m1: Mem, m2: Mem)
    requires SameKeys(m, m1) && SameKeys(m1, m2)
    ensures SameKeys(m, m2)
  {
  }

  lemma StartOfRound(c: Path, t: Tree, delta: int, mode: BalMode, m: Mem)
    requires Unsettled(c, t, delta, mode, m)
    ensures t.Branch? && -2 <= Lean(t) <= 2
  {
  }

  /** What one round has achieved: the tree is right, or the node above is the next to be changed. */
  lemma Round(c: Path, t: Tree, delta: int, mode: BalMode, m: Mem, m': Mem)
    requires Unsettled(c, t, delta, mode, m)
    requires -2 <= Lean(t) <= 2 && Between(c, Rebalanced(t), OldHeight(t, delta, mode), m')
    ensures
      var t' := Rebalanced(t);
      var h := HeightChange(mode, Lean(t) - delta, Lean(t'));
      && Nodes(Plug(c, t')) == Nodes(Plug(c, t)) && InOrder(Plug(c, t')) == InOrder(Plug(c, t))
      && t'.node in m' && m'[t'.node].balance == Lean(t')
      && (c.Top? || h == 0 ==> Upright(Plug(c, t'), m'))
      && (!c.Top? && h != 0 ==>
           && Unsettled(Up(c), Joined(c, t'), if c.LeftOf? then -h else h, mode, m')
           && Plug(Up(c), Joined(c, t')) == Plug(c, t')
             && Joined(c, t') == Branch(c.node, Joined(c, t').left, Joined(c, t').right))
  {
    hide Distinct, Linked, PathLinked, PathExact, PathAvl, Avl, Nodes, PathNodes, Plug, InOrder, Height, Upright,
      Rebalanced;
    var t' := Rebalanced(t);
    var h := HeightChange(mode, Lean(t) - delta, Lean(t'));
    RebalancedFits(c, t);
    HeightChangeRight(t, delta, mode);
    ExactBranch(t', m');
    if c.Top? || h == 0 {
      TopOrEven(c, t', OldHeight(t, delta, mode), m');
    } else {
      GoUp(c, t', h, mode, m');
    }
  }

  lemma TopOrEven(c: Path, t: Tree, h: nat, m: Mem)
    requires Between(c, t, h, m) && (c.Top? || h == Height(t))
    ensures Upright(Plug(c, t), m)
  {
    if c.Top? {
      PlugTop(t);
    } else {
      MayStop(c, t, m);
    }
  }

  lemma PlugTop(t: Tree)
    ensures Plug(Top, t) == t
  {
  }

  /** Rebalancing neither adds nor drops nor reorders nodes. */
  lemma RebalancedShape(t: Tree)
    requires t.Branch? && Distinct(t) && -2 <= Lean(t) <= 2
    ensures
      var t' := Rebalanced(t);
      Nodes(t') == Nodes(t) && InOrder(t') == InOrder(t) && Distinct(t')
  {
    hide Height, InOrder;
    if Lean(t) == -2 {
      ReadyShape(t);
      assert Rebalanced(t) == RotatedRight(LeftReady(t));
      RightShape(LeftReady(t));
    } else if Lean(t) == 2 {
      ReadyShape(t);
      assert Rebalanced(t) == RotatedLeft(RightReady(t));
      LeftShape(RightReady(t));
    }
  }

  /** The same nodes in the same order. */
  ghost predicate SameShape(t1: Tree, t: Tree) {
    Nodes(t1) == Nodes(t) && InOrder(t1) == InOrder(t) && Distinct(t1)
  }

  lemma ReadyShape(t: Tree)
    requires t.Branch? && Distinct(t)
    ensures Lean(t) == -2 ==> t.left.Branch? && SameShape(LeftReady(t), t)
    ensures Lean(t) == 2 ==> t.right.Branch? && SameShape(RightReady(t), t)
  {
    if Lean(t) == -2 && t.left.right.Branch? {
      LeftShape(t.left);
    }
    if Lean(t) == 2 && t.right.left.Branch? {
      RightShape(t.right);
    }
  }

  lemma RebalancedFits(c: Path, t: Tree)
    requires t.Branch? && Distinct(Plug(c, t)) && Avl(t.left) && Avl(t.right) && -2 <= Lean(t) <= 2
    ensures
      var t' := Rebalanced(t);
      Distinct(Plug(c, t')) && Nodes(Plug(c, t')) == Nodes(Plug(c, t)) && InOrder(Plug(c, t')) == InOrder(Plug(c, t))
        && Avl(t')
  {
    hide Nodes, Distinct, Plug, Avl, InOrder, Rebalanced, Height;
    PlugDistinct(c, t);
    RebalancedShape(t);
    RebalancedHeight(t);
    PlugDistinct(c, Rebalanced(t));
    PlugNodes(c, t);
    PlugNodes(c, Rebalanced(t));
    PlugInOrder(c, t);
    PlugInOrder(c, Rebalanced(t));
  }
}
