/**
 The free list of a heap zone, on values: what `Node::resize`, `Node::merge` and the list edits
 of libutil/src/mem/heap.rs make of the free bytes, and why there is only one list for every set
 of free bytes.
 */
module FreeLists {
  import opened Arith

  /** A free node: the bytes from its own address on. */
  datatype Node = Node(addr: nat, size: nat) {
    function End(): nat {
      addr + size
    }
  }

  /** `Layout`: alignments are powers of two. */
  datatype Layout = Layout(size: nat, align: nat)

  ghost predicate RightLayout(l: Layout) {
    l.size > 0 && exists k: nat :: l.align == Pow2(k)
  }

  /** The unit in which blocks are cut: CHUNK_SIZE is 32, the size of a `Node` rounded up. */
  function Unit(l: Layout): (m: nat)
    ensures m >= 32
  {
    Max(l.align, 32)
  }

  lemma {:induction false} ChunkDividesPow2(k: nat)
    requires k >= 5
    ensures Pow2(k) % 32 == 0
  {
    if k == 5 {
      assert Pow2(5) == 32 by {
        assert Pow2(1) == 2 && Pow2(2) == 4 && Pow2(3) == 8;
      }
    } else {
      ChunkDividesPow2(k - 1);
    }
  }

  lemma UnitInChunks(l: Layout)
    requires RightLayout(l)
    ensures Unit(l) % 32 == 0
  {
    var k: nat :| l.align == Pow2(k);
    if k < 5 {
      Pow2Mono(k, 5);
      ChunkDividesPow2(5);
      assert Pow2(5) == 32 by {
        assert Pow2(1) == 2 && Pow2(2) == 4 && Pow2(3) == 8;
      }
    } else {
      ChunkDividesPow2(k);
    }
  }

  // ---------------------------------------------------------------------------------------
  // The list and its bytes

  predicate RightNode(n: Node) {
    n.size > 0 && n.addr % 32 == 0 && n.size % 32 == 0
  }

  /** Whole chunks, sorted, disjoint, and no two nodes touch. */
  predicate Canonical(l: seq<Node>) {
    && (forall i :: 0 <= i < |l| ==> RightNode(l[i]))
    && (forall i, j :: 0 <= i < j < |l| ==> l[i].End() < l[j].addr)
  }

  function Bytes(lo: int, hi: int): (r: set<int>)
    ensures forall b: int :: b in r <==> (lo <= b < hi)
    decreases if lo < hi then hi - lo else 0
  {
    if lo >= hi then {} else {lo} + Bytes(lo + 1, hi)
  }

  function Free(l: seq<Node>): set<int> {
    if l == [] then {} else Bytes(l[0].addr, l[0].End()) + Free(l[1..])
  }

  function Sizes(l: seq<Node>): nat {
    if l == [] then 0 else l[0].size + Sizes(l[1..])
  }

  lemma {:induction false} FreeSplit(a: seq<Node>, b: seq<Node>)
    ensures Free(a + b) == Free(a) + Free(b)
  {
    if a == [] {
      assert a + b == b;
    } else {
      assert (a + b)[1..] == a[1..] + b;
      FreeSplit(a[1..], b);
    }
  }

  lemma {:induction false} SizesSplit(a: seq<Node>, b: seq<Node>)
    ensures Sizes(a + b) == Sizes(a) + Sizes(b)
  {
    if a == [] {
      assert a + b == b;
    } else {
      assert (a + b)[1..] == a[1..] + b;
      SizesSplit(a[1..], b);
    }
  }

  lemma {:induction false} FreeIs(l: seq<Node>, b: int)
    ensures b in Free(l) <==> exists i :: 0 <= i < |l| && l[i].addr <= b < l[i].End()
  {
    if l != [] {
      FreeIs(l[1..], b);
      if exists i :: 0 <= i < |l| && l[i].addr <= b < l[i].End() {
        var i :| 0 <= i < |l| && l[i].addr <= b < l[i].End();
        if i > 0 {
          assert l[1..][i - 1] == l[i];
        }
      }
      if b in Free(l[1..]) {
        var i :| 0 <= i < |l[1..]| && l[1..][i].addr <= b < l[1..][i].End();
        assert l[i + 1] == l[1..][i];
      }
    }
  }

  lemma CanonicalTail(l: seq<Node>)
    requires Canonical(l) && l != []
    ensures Canonical(l[1..]) && RightNode(l[0])
    ensures forall b :: b in Free(l[1..]) ==> b > l[0].End()
  {
    forall b | b in Free(l[1..]) ensures b > l[0].End() {
      FreeIs(l[1..], b);
      var i :| 0 <= i < |l[1..]| && l[1..][i].addr <= b < l[1..][i].End();
      assert l[1..][i] == l[i + 1];
    }
  }

  lemma NoBytesNoNodes(l: seq<Node>)
    requires Canonical(l)
    ensures l == [] <==> Free(l) == {}
  {
    if l != [] {
      assert l[0].addr in Free(l);
    }
  }

  /** For every set of free bytes there is only one such list. */
  lemma {:induction false} CanonicalUnique(k: seq<Node>, l: seq<Node>)
    requires Canonical(k) && Canonical(l) && Free(k) == Free(l)
    ensures k == l
  {
    NoBytesNoNodes(k);
    NoBytesNoNodes(l);
    if k != [] {
      SameFirst(k, l);
      CanonicalTail(k);
      CanonicalTail(l);
      var first := Bytes(k[0].addr, k[0].End());
      assert Free(k[1..]) == Free(k) - first;
      assert Free(l[1..]) == Free(l) - first;
      CanonicalUnique(k[1..], l[1..]);
      assert k == [k[0]] + k[1..] && l == [l[0]] + l[1..];
    }
  }

  lemma SameFirst(k: seq<Node>, l: seq<Node>)
    requires Canonical(k) && Canonical(l) && Free(k) == Free(l) && k != [] && l != []
    ensures k[0] == l[0]
  {
    CanonicalTail(k);
    CanonicalTail(l);
    assert k[0].addr in Free(k) && l[0].addr in Free(l);
    assert k[0].addr == l[0].addr;
    assert k[0].End() !in Free(k) && l[0].End() !in Free(l);
    assert k[0].End() >= l[0].End() && l[0].End() >= k[0].End();
  }

  predicate AllBelow(s: set<int>, x: int) {
    forall b :: b in s ==> b < x
  }

  predicate AllAbove(s: set<int>, x: int) {
    forall b :: b in s ==> b > x
  }

  /** A node in the middle of a list, and the bytes before and after it. */
  lemma Middle(l: seq<Node>, i: nat)
    requires Canonical(l) && i < |l|
    ensures Free(l) == Free(l[..i]) + Bytes(l[i].addr, l[i].End()) + Free(l[i + 1..])
    ensures Sizes(l) == Sizes(l[..i]) + l[i].size + Sizes(l[i + 1..])
    ensures AllBelow(Free(l[..i]), l[i].addr) && AllAbove(Free(l[i + 1..]), l[i].End())
  {
    var a, n, c := l[..i], [l[i]], l[i + 1..];
    Replace(a, l[i], c);
    assert l == a + n + c;
    forall b | b in Free(a) ensures b < l[i].addr {
      FreeIs(a, b);
    }
    forall b | b in Free(c) ensures b > l[i].End() {
      FreeIs(c, b);
      var j :| 0 <= j < |c| && c[j].addr <= b < c[j].End();
      assert c[j] == l[i + 1 + j];
    }
  }

  lemma Replace(a: seq<Node>, n: Node, c: seq<Node>)
    ensures Free(a + [n] + c) == Free(a) + Bytes(n.addr, n.End()) + Free(c)
    ensures Sizes(a + [n] + c) == Sizes(a) + n.size + Sizes(c)
  {
    FreeSplit(a + [n], c);
    FreeSplit(a, [n]);
    SizesSplit(a + [n], c);
    SizesSplit(a, [n]);
    assert Free([n]) == Bytes(n.addr, n.End()) && Sizes([n]) == n.size by {
      assert [n][1..] == [];
    }
  }

  // ---------------------------------------------------------------------------------------
  // Cutting a block off a node

  /** The start of the block that would be cut off the end of a node. */
  function CutAt(n: Node, l: Layout): nat
    requires l.size <= n.size
  {
    AlignDown(n.addr + (n.size - l.size), Unit(l))
  }

  predicate Fits(n: Node, l: Layout) {
    l.size <= n.size && CutAt(n, l) >= n.addr
  }

  /** Where a block of this layout can lie in a node. */
  predicate Room(n: Node, l: Layout, x: int) {
    n.addr <= x && x + l.size <= n.End() && x % Unit(l) == 0
  }

  /** A node is large enough exactly if the block can lie somewhere in it; it is cut off as high up as it can lie. */
  lemma FitsExactly(n: Node, l: Layout)
    ensures Fits(n, l) <==> exists x :: Room(n, l, x)
    ensures Fits(n, l) ==> Room(n, l, CutAt(n, l)) && forall x :: Room(n, l, x) ==> x <= CutAt(n, l)
  {
    if l.size <= n.size {
      var top := n.addr + (n.size - l.size);
      AlignDownIs(top, Unit(l));
      forall x | Room(n, l, x) ensures x <= CutAt(n, l) {
        if x > CutAt(n, l) {
          MultiplesApart(x, CutAt(n, l), Unit(l));
        }
      }
      assert Fits(n, l) ==> Room(n, l, CutAt(n, l));
    }
  }

  /** The block lies at the end of the node and is aligned; what is left are whole chunks. */
  lemma CutFacts(n: Node, l: Layout)
    requires RightNode(n) && RightLayout(l) && Fits(n, l)
    ensures
      var at := CutAt(n, l);
      && at % Unit(l) == 0 && at % 32 == 0 && (at - n.addr) % 32 == 0 && (n.End() - at) % 32 == 0
      && n.addr <= at && at + l.size <= n.End()
    ensures CutAt(n, l) - n.addr < 32 ==> CutAt(n, l) == n.addr
  {
    var at := CutAt(n, l);
    AlignDownIs(n.addr + (n.size - l.size), Unit(l));
    UnitInChunks(l);
    var q := Unit(l) / 32;
    assert q * 32 == Unit(l);
    MultipleOfMultiple(at, 32, q);
    MultiplesSubtract(at, n.addr, 32);
    MultiplesAdd(n.addr, n.size, 32);
    MultiplesSubtract(n.End(), at, 32);
    if at - n.addr < 32 {
      MultiplesApart(at, n.addr, 32);
    }
  }

  /** The number of bytes that `dealloc` gives back. */
  function GivenBack(l: Layout): nat {
    AlignUp(l.size, Unit(l))
  }

  /**
   What is given back is never more than what was cut off if and only if the size is a multiple
   of the unit or the node ends closer above a multiple than the size does; and if the node
   ends at a multiple, it is exactly as much.
   */
  lemma GivenBackFits(end: nat, l: Layout)
    requires l.size <= end
    ensures
      var m := Unit(l);
      GivenBack(l) <= end - AlignDown(end - l.size, m) <==> (l.size % m == 0 || end % m < l.size % m)
    ensures end % Unit(l) == 0 ==> GivenBack(l) == end - AlignDown(end - l.size, Unit(l))
  {
    var m := Unit(l);
    var p, s := l.size / m, l.size % m;
    var q, e := end / m, end % m;
    assert l.size == p * m + s && end == q * m + e;
    UpOf(l.size, p, s, m);
    if e >= s {
      assert end - l.size == (q - p) * m + (e - s);
      ModUnique(end - l.size, m, q - p, e - s);
    } else {
      assert end - l.size == (q - p - 1) * m + (m + e - s);
      ModUnique(end - l.size, m, q - p - 1, m + e - s);
    }
  }

  lemma UpOf(a: nat, p: nat, s: nat, m: nat)
    requires m > 0 && a == p * m + s && s < m
    ensures AlignUp(a, m) == (if s == 0 then a else a - s + m)
  {
    if s == 0 {
      ModUnique(a + m - 1, m, p, m - 1);
    } else {
      assert a + m - 1 == (p + 1) * m + (s - 1);
      ModUnique(a + m - 1, m, p + 1, s - 1);
    }
  }

  /** The list when the bytes of node `i` from `at` on have been taken. */
  function CutList(l: seq<Node>, i: nat, at: nat): seq<Node>
    requires i < |l| && l[i].addr <= at
  {
    if at - l[i].addr >= 32 then l[i := Node(l[i].addr, at - l[i].addr)] else l[..i] + l[i + 1..]
  }

  lemma CutListRight(l: seq<Node>, i: nat, layout: Layout)
    requires Canonical(l) && i < |l| && RightLayout(layout) && Fits(l[i], layout)
    ensures
      var at := CutAt(l[i], layout);
      var l' := CutList(l, i, at);
      && l[i].addr <= at && at + layout.size <= l[i].End()
      && Canonical(l') && Free(l') == Free(l) - Bytes(at, l[i].End()) && Bytes(at, l[i].End()) <= Free(l)
      && Sizes(l') == Sizes(l) - (l[i].End() - at)
  {
    hide CutAt, Unit, Free, Sizes, RightLayout, Canonical;
    var at := CutAt(l[i], layout);
    NodeOf(l, i);
    CutFacts(l[i], layout);
    if at - l[i].addr >= 32 {
      Shrink(l, i, at);
    } else {
      Drop(l, i);
    }
  }

  lemma NodeOf(l: seq<Node>, i: nat)
    requires Canonical(l) && i < |l|
    ensures RightNode(l[i])
  {
  }

  lemma Shrink(l: seq<Node>, i: nat, at: nat)
    requires Canonical(l) && i < |l| && l[i].addr < at <= l[i].End() && (at - l[i].addr) % 32 == 0
    ensures
      var l' := l[i := Node(l[i].addr, at - l[i].addr)];
      && Canonical(l') && Free(l') == Free(l) - Bytes(at, l[i].End()) && Bytes(at, l[i].End()) <= Free(l)
      && Sizes(l') == Sizes(l) - (l[i].End() - at)
  {
    hide Free, Sizes;
    var n := Node(l[i].addr, at - l[i].addr);
    Middle(l, i);
    Replace(l[..i], n, l[i + 1..]);
    assert l[i := n] == l[..i] + [n] + l[i + 1..];
  }

  lemma Drop(l: seq<Node>, i: nat)
    requires Canonical(l) && i < |l|
    ensures
      var l' := l[..i] + l[i + 1..];
      && Canonical(l') && Free(l') == Free(l) - Bytes(l[i].addr, l[i].End()) && Bytes(l[i].addr, l[i].End()) <= Free(l)
      && Sizes(l') == Sizes(l) - l[i].size
  {
    CanonicalWithout(l, i);
    hide Free, Sizes, Canonical;
    Middle(l, i);
    FreeSplit(l[..i], l[i + 1..]);
    SizesSplit(l[..i], l[i + 1..]);
  }

  lemma CanonicalWithout(l: seq<Node>, i: nat)
    requires Canonical(l) && i < |l|
    ensures Canonical(l[..i] + l[i + 1..])
  {
    var k := l[..i] + l[i + 1..];
    assert forall j :: 0 <= j < |k| ==> k[j] == l[if j < i then j else j + 1];
  }

  // ---------------------------------------------------------------------------------------
  // Giving a block back

  predicate JoinsLeft(l: seq<Node>, i: nat, c: Node)
    requires i <= |l|
  {
    i > 0 && l[i - 1].End() == c.addr
  }

  predicate JoinsRight(l: seq<Node>, i: nat, c: Node)
    requires i <= |l|
  {
    i < |l| && c.End() == l[i].addr
  }

  /** The node that comes of a block between the first `i` nodes and the others. */
  function Joined(l: seq<Node>, i: nat, c: Node): Node
    requires i <= |l|
  {
    Node(if JoinsLeft(l, i, c) then l[i - 1].addr else c.addr,
         (if JoinsLeft(l, i, c) then l[i - 1].size else 0) + c.size + (if JoinsRight(l, i, c) then l[i].size else 0))
  }

  function GiveList(l: seq<Node>, i: nat, c: Node): seq<Node>
    requires i <= |l|
  {
    l[..if JoinsLeft(l, i, c) then i - 1 else i] + [Joined(l, i, c)] + l[if JoinsRight(l, i, c) then i + 1 else i..]
  }

  /** The place for a block: after the nodes that start before it. */
  predicate Place(l: seq<Node>, i: nat, addr: nat) {
    && i <= |l| && (forall j :: 0 <= j < i ==> l[j].addr <= addr) && (forall j :: i <= j < |l| ==> l[j].addr > addr)
  }

  /** A block that comes back, with no byte free yet, leaves the list canonical. */
  lemma GiveListRight(l: seq<Node>, i: nat, c: Node)
    requires Canonical(l) && RightNode(c) && Place(l, i, c.addr) && Bytes(c.addr, c.End()) !! Free(l)
    ensures
      var l' := GiveList(l, i, c);
      Canonical(l') && Free(l') == Free(l) + Bytes(c.addr, c.End()) && Sizes(l') == Sizes(l) + c.size
  {
    hide Free, Sizes, Canonical, GiveList;
    Neighbours(l, i, c);
    GiveListCanonical(l, i, c);
    GiveListBytes(l, i, c);
  }

  lemma GiveListCanonical(l: seq<Node>, i: nat, c: Node)
    requires Canonical(l) && RightNode(c) && i <= |l|
    requires i > 0 ==> l[i - 1].End() <= c.addr
    requires i < |l| ==> c.End() <= l[i].addr
    ensures Canonical(GiveList(l, i, c))
  {
    hide Canonical, Joined, RightNode;
    var left, right := if JoinsLeft(l, i, c) then i - 1 else i, if JoinsRight(l, i, c) then i + 1 else i;
    JoinedRight(l, i, c);
    CanonicalPart(l, 0, left);
    CanonicalPart(l, right, |l|);
    Gaps(l, i, c, left, right);
    assert l[0..left] == l[..left] && l[right..|l|] == l[right..];
    Glue(l[..left], Joined(l, i, c), l[right..]);
  }

  lemma CanonicalPart(l: seq<Node>, a: nat, b: nat)
    requires Canonical(l) && a <= b <= |l|
    ensures Canonical(l[a..b])
  {
  }

  /** What is on either side of the joined node does not touch it. */
  lemma Gaps(l: seq<Node>, i: nat, c: Node, left: nat, right: nat)
    requires Canonical(l) && i <= |l|
    requires i > 0 ==> l[i - 1].End() <= c.addr
    requires i < |l| ==> c.End() <= l[i].addr
    requires left == (if JoinsLeft(l, i, c) then i - 1 else i) && right == (if JoinsRight(l, i, c) then i + 1 else i)
    ensures left > 0 ==> l[left - 1].End() < Joined(l, i, c).addr
    ensures right < |l| ==> Joined(l, i, c).End() < l[right].addr
  {
  }

  lemma GiveListBytes(l: seq<Node>, i: nat, c: Node)
    requires Canonical(l) && RightNode(c) && i <= |l|
    requires i > 0 ==> l[i - 1].End() <= c.addr
    requires i < |l| ==> c.End() <= l[i].addr
    ensures
      var l' := GiveList(l, i, c);
      Free(l') == Free(l) + Bytes(c.addr, c.End()) && Sizes(l') == Sizes(l) + c.size
  {
    hide Free, Sizes, Canonical, RightNode, Joined;
    var left, right := if JoinsLeft(l, i, c) then i - 1 else i, if JoinsRight(l, i, c) then i + 1 else i;
    var n := Joined(l, i, c);
    Replace(l[..left], n, l[right..]);
    Around(l, left, i, right);
    var bl := if left < i then Bytes(l[left].addr, l[left].End()) else {};
    var br := if i < right then Bytes(l[i].addr, l[i].End()) else {};
    assert Bytes(n.addr, n.End()) == bl + Bytes(c.addr, c.End()) + br by {
      JoinedRight(l, i, c);
    }
    JoinedSize(l, i, c);
    SetShuffle(Free(l[..left]), bl, Bytes(c.addr, c.End()), br, Free(l[right..]));
  }

  lemma JoinedSize(l: seq<Node>, i: nat, c: Node)
    requires i <= |l|
    ensures Joined(l, i, c).size ==
      (if JoinsLeft(l, i, c) then l[i - 1].size else 0) + c.size + (if JoinsRight(l, i, c) then l[i].size else 0)
  {
  }

  lemma SetShuffle(a: set<int>, b: set<int>, c: set<int>, d: set<int>, e: set<int>)
    ensures a + (b + c + d) + e == (a + b + d + e) + c
  {
  }

  /** The nodes that the block joins are at most one on either side. */
  lemma Around(l: seq<Node>, left: nat, i: nat, right: nat)
    requires left <= i <= right <= |l| && i - 1 <= left && right <= i + 1
    ensures Free(l) ==
      Free(l[..left]) + (if left < i then Bytes(l[left].addr, l[left].End()) else {})
      + (if i < right then Bytes(l[i].addr, l[i].End()) else {}) + Free(l[right..])
    ensures Sizes(l) ==
      Sizes(l[..left]) + (if left < i then l[left].size else 0)
      + (if i < right then l[i].size else 0) + Sizes(l[right..])
  {
    hide Free, Sizes;
    assert l == l[..left] + (l[left..i] + (l[i..right] + l[right..])) by {
      assert l[left..] == l[left..i] + l[i..];
      assert l[i..] == l[i..right] + l[right..];
    }
    FreeSplit(l[..left], l[left..i] + (l[i..right] + l[right..]));
    FreeSplit(l[left..i], l[i..right] + l[right..]);
    FreeSplit(l[i..right], l[right..]);
    SizesSplit(l[..left], l[left..i] + (l[i..right] + l[right..]));
    SizesSplit(l[left..i], l[i..right] + l[right..]);
    SizesSplit(l[i..right], l[right..]);
    AtMostOne(l, left, i);
    AtMostOne(l, i, right);
  }

  lemma AtMostOne(l: seq<Node>, a: nat, b: nat)
    requires a <= b <= |l| && b <= a + 1
    ensures Free(l[a..b]) == if a < b then Bytes(l[a].addr, l[a].End()) else {}
    ensures Sizes(l[a..b]) == if a < b then l[a].size else 0
  {
    if a < b {
      assert l[a..b] == [l[a]] && l[a..b][1..] == [];
    }
  }

  /** A block whose bytes are not free lies between its neighbours. */
  lemma Neighbours(l: seq<Node>, i: nat, c: Node)
    requires Canonical(l) && RightNode(c) && Place(l, i, c.addr) && Bytes(c.addr, c.End()) !! Free(l)
    ensures i > 0 ==> l[i - 1].End() <= c.addr
    ensures i < |l| ==> c.End() <= l[i].addr
  {
    if i > 0 {
      FreeIs(l, c.addr);
      assert c.addr in Bytes(c.addr, c.End());
    }
    if i < |l| {
      FreeIs(l, l[i].addr);
      assert RightNode(l[i]);
      assert l[i].addr in Free(l);
      assert l[i].addr !in Bytes(c.addr, c.End());
    }
  }

  lemma JoinedRight(l: seq<Node>, i: nat, c: Node)
    requires Canonical(l) && RightNode(c) && i <= |l|
    requires i > 0 ==> l[i - 1].End() <= c.addr
    requires i < |l| ==> c.End() <= l[i].addr
    ensures
      var n := Joined(l, i, c);
      && RightNode(n)
      && Bytes(n.addr, n.End()) ==
           (if JoinsLeft(l, i, c) then Bytes(l[i - 1].addr, l[i - 1].End()) else {}) + Bytes(c.addr, c.End())
           + (if JoinsRight(l, i, c) then Bytes(l[i].addr, l[i].End()) else {})
  {
    assert i > 0 ==> RightNode(l[i - 1]);
    assert i < |l| ==> RightNode(l[i]);
  }

  lemma Glue(a: seq<Node>, n: Node, d: seq<Node>)
    requires Canonical(a) && Canonical(d) && RightNode(n)
    requires a != [] ==> a[|a| - 1].End() < n.addr
    requires d != [] ==> n.End() < d[0].addr
    ensures Canonical(a + [n] + d)
  {
    var s := a + [n] + d;
    forall i, j | 0 <= i < j < |s| ensures s[i].End() < s[j].addr {
      var k := |a|;
      assert i < k ==> s[i] == a[i] && s[i].End() <= a[k - 1].End();
      assert j > k ==> s[j] == d[j - k - 1] && s[j].addr >= d[0].addr;
      assert i > k ==> s[i] == d[i - k - 1];
      assert j < k ==> s[j] == a[j];
    }
  }
}
