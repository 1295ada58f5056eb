/**
 The heap of libutil/src/mem/heap.rs: zones with a list of free nodes, and the allocator over
 them.

 Blocks that have been handed out are kept in a ghost map, so that the zone can say at any time
 where every one of its bytes is.
 */
module Heaps {
  import opened Wrappers
  import opened Arith
  import opened FreeLists

  datatype ResizeResult = Shrink(at: nat) | Remove(at: nat) | NoCapacity

  /** A block that has been handed out: the bytes cut off for it, and what was asked for. */
  datatype Block = Block(len: nat, layout: Layout)

  /** No two blocks overlap. */
  ghost predicate Apart(live: map<nat, Block>) {
    forall a, b {:trigger live[a], live[b]} :: a in live && b in live && a < b ==> a + live[a].len <= b
  }

  function BlockBytes(live: map<nat, Block>, a: nat): set<int>
    requires a in live
  {
    Bytes(a, a + live[a].len)
  }

  ghost function LiveBytes(live: map<nat, Block>): set<int> {
    set a, b | a in live && b in BlockBytes(live, a) :: b
  }

  lemma AddBlock(live: map<nat, Block>, a: nat, b: Block)
    requires a !in live
    ensures LiveBytes(live[a := b]) == LiveBytes(live) + Bytes(a, a + b.len)
  {
    var live' := live[a := b];
    assert BlockBytes(live', a) == Bytes(a, a + b.len);
    forall x | x in LiveBytes(live) ensures x in LiveBytes(live') {
      var c :| c in live && x in BlockBytes(live, c);
      assert x in BlockBytes(live', c);
    }
    forall x | x in LiveBytes(live') && x !in Bytes(a, a + b.len) ensures x in LiveBytes(live) {
      var c :| c in live' && x in BlockBytes(live', c);
      assert x in BlockBytes(live, c);
    }
  }

  lemma RemoveBlock(live: map<nat, Block>, a: nat)
    requires a in live && Apart(live)
    ensures LiveBytes(live - {a}) == LiveBytes(live) - BlockBytes(live, a) && BlockBytes(live, a) <= LiveBytes(live)
  {
    var live' := live - {a};
    forall x | x in LiveBytes(live') ensures x in LiveBytes(live) && x !in BlockBytes(live, a) {
      var c :| c in live' && x in BlockBytes(live', c);
      assert x in BlockBytes(live, c);
      assert c < a ==> c + live[c].len <= a;
      assert a < c ==> a + live[a].len <= c;
    }
    forall x | x in LiveBytes(live) && x !in BlockBytes(live, a) ensures x in LiveBytes(live') {
      var c :| c in live && x in BlockBytes(live, c);
      assert x in BlockBytes(live', c);
    }
  }

  lemma NoBlocks()
    ensures LiveBytes(map[]) == {}
  {
  }

  /** A block whose bytes are all free overlaps no live block. */
  lemma ApartWith(live: map<nat, Block>, a: nat, b: Block)
    requires Apart(live) && b.len > 0 && (forall c :: c in live ==> live[c].len > 0)
      && Bytes(a, a + b.len) !! LiveBytes(live)
    ensures a !in live && Apart(live[a := b])
  {
    hide LiveBytes;
    forall c | c in live ensures c != a && (c + live[c].len <= a || a + b.len <= c) {
      RemoveBlock(live, c);
      ApartFrom(c, live[c].len, a, b.len);
    }
  }

  lemma ApartFrom(c: nat, m: nat, a: nat, n: nat)
    requires m > 0 && n > 0 && Bytes(c, c + m) !! Bytes(a, a + n)
    ensures c + m <= a || a + n <= c
  {
    assert a in Bytes(a, a + n) && c in Bytes(c, c + m);
  }

  /** With such a layout, no more is given back than was cut off. */
  predicate Safe(l: Layout) {
    l.align <= 32 || l.size % l.align == 0
  }

  ghost predicate RightBlock(a: nat, b: Block) {
    && RightLayout(b.layout) && a % 32 == 0 && b.len % 32 == 0 && b.layout.size <= b.len && a % b.layout.align == 0
    && (Safe(b.layout) ==> GivenBack(b.layout) <= b.len)
    && (b.layout.align <= 32 ==> GivenBack(b.layout) == b.len)
  }

  /** `resize`; the new size of a node that shrinks goes from its address to the block. */
  function Resize(n: Node, l: Layout): ResizeResult {
    if l.size > n.size then NoCapacity
    else
      var naddr := CutAt(n, l);
      if naddr < n.addr then NoCapacity
      else if naddr - n.addr >= 32 then Shrink(naddr)
      else Remove(naddr)
  }

  class HeapZone {
    /** The memory of the zone, and the part of it that the zone's own header takes. */
    const addr: nat
    const len: nat
    const header: nat
    var freeSpace: nat
    var list: seq<Node>
    ghost var live: map<nat, Block>
    /** Bytes that were cut off with a block for the sake of its alignment and never came back. */
    ghost var leaked: set<int>
    /** Whether a block with an alignment of more than a chunk has ever been asked for. */
    ghost var wide: bool

    ghost predicate Valid()
      reads this
    {
      && header >= 32 && header % 32 == 0 && addr % 32 == 0 && len % 32 == 0 && header <= len
      && Canonical(list) && freeSpace == Sizes(list)
      && Free(list) !! LiveBytes(live) !! leaked
      && Free(list) + LiveBytes(live) + leaked == Bytes(addr + header, addr + len)
      && Apart(live) && (forall a :: a in live ==> RightBlock(a, live[a]))
      && (!wide ==> leaked == {} && forall a :: a in live ==> live[a].layout.align <= 32)
    }

    /** `new`, given the memory. */
    constructor (addr: nat, len: nat, header: nat)
      requires header >= 32 && header % 32 == 0 && addr % 32 == 0 && len % 32 == 0 && header < len
      ensures Valid() && this.addr == addr && this.len == len && this.header == header
      ensures list == [Node(addr + header, len - header)] && live == map[] && leaked == {} && !wide
    {
      this.addr, this.len, this.header := addr, len, header;
      freeSpace := len - header;
      list := [Node(addr + header, len - header)];
      live, leaked, wide := map[], {}, false;
      new;
      Replace([], list[0], []);
      assert [] + [list[0]] + [] == list;
      MultiplesAdd(addr, header, 32);
      MultiplesSubtract(len, header, 32);
    }

    /** `contains` */
    predicate Contains(a: nat, size: nat) {
      addr + 32 <= a && a + size <= addr + 32 + len
    }

    /**
     `alloc`: cuts the block off the first node in which it fits.  `at` is that node.  There is no
     block exactly if there is no such node.
     */
    method Alloc(layout: Layout) returns (out: Option<nat>, ghost at: nat)
      requires Valid() && RightLayout(layout)
      modifies this
      ensures Valid()
      ensures out.None? <==> forall i :: 0 <= i < |old(list)| ==> !Fits(old(list)[i], layout)
      ensures out.None? ==> list == old(list) && live == old(live) && leaked == old(leaked)
      ensures out.Some? ==>
        && at < |old(list)| && Fits(old(list)[at], layout) && (forall i :: 0 <= i < at ==> !Fits(old(list)[i], layout))
        && out.value == CutAt(old(list)[at], layout) && list == CutList(old(list), at, out.value)
        && out.value !in old(live) && live == old(live)[out.value := Block(old(list)[at].End() - out.value, layout)]
        && leaked == old(leaked)
      ensures wide == (old(wide) || layout.align > 32)
    {
      hide Canonical, CutAt, Free, Sizes, LiveBytes, RightBlock, RightLayout, Apart;
      out, at := None, 0;
      wide := wide || layout.align > 32;
      if layout.size > freeSpace {
        NoneFits(list, layout);
        return;
      }
      var i := 0;
      while i < |list|
        invariant i <= |list| && list == old(list) && wide == (old(wide) || layout.align > 32)
        invariant forall j :: 0 <= j < i ==> !Fits(list[j], layout)
        invariant Valid() && live == old(live) && leaked == old(leaked)
      {
        if list[i].size >= layout.size {
          var result := Resize(list[i], layout);
          if !result.NoCapacity? {
            CutOff(i, result, layout);
            return Some(result.at), i;
          }
        }
        i := i + 1;
      }
    }

    /** The branches of `alloc` for a node in which the block fits. */
    method CutOff(i: nat, result: ResizeResult, layout: Layout)
      requires Valid() && i < |list| && Fits(list[i], layout) && RightLayout(layout)
        && result == Resize(list[i], layout)
      requires layout.align > 32 ==> wide
      modifies this
      ensures Valid() && wide == old(wide)
      ensures
        var at := CutAt(old(list)[i], layout);
        && list == CutList(old(list), i, at) && leaked == old(leaked)
        && at !in old(live) && live == old(live)[at := Block(old(list)[i].End() - at, layout)]
    {
      hide Canonical, CutAt, Free, Sizes, LiveBytes, RightBlock, RightLayout, Apart;
      BlockTaken(this, i, layout);
      var oldSize := list[i].size;
      live := live[result.at := Block(list[i].End() - result.at, layout)];
      match result {
        case Shrink(at) =>
          list := list[i := Node(list[i].addr, at - list[i].addr)];
          freeSpace := freeSpace - oldSize + list[i].size;
        case Remove(at) =>
          freeSpace := freeSpace - oldSize;
          list := list[..i] + list[i + 1..];
      }
    }

    /** `get_prev_next_node`: the last node that starts at or before an address, and the next one. */
    method GetPrevNextNode(a: nat) returns (p: Option<nat>, n: Option<nat>)
      ensures n.Some? ==> n.value < |list| && list[n.value].addr > a
      ensures
        var i := if n.Some? then n.value else |list|;
        && (forall j :: 0 <= j < i ==> list[j].addr <= a)
        && p == if i > 0 then Some(i - 1) else None
    {
      p, n := None, None;
      var i := 0;
      while i < |list|
        invariant i <= |list| && n.None? && p == if i > 0 then Some(i - 1) else None
        invariant forall j :: 0 <= j < i ==> list[j].addr <= a
      {
        if list[i].addr > a {
          n := Some(i);
          break;
        }
        p := Some(i);
        i := i + 1;
      }
    }

    /** What `dealloc` gives back beyond the end of a block leaked before. */
    ghost predicate Returnable(a: nat)
      requires a in live
      reads this
    {
      Beyond(a) <= leaked
    }

    /** The bytes given back that were not cut off with the block. */
    ghost function Beyond(a: nat): set<int>
      requires a in live
      reads this
    {
      Bytes(a + live[a].len, a + GivenBack(live[a].layout))
    }

    /**
     `dealloc`: the block goes back to the list and is joined with the nodes it touches.  What was
     cut off beyond it, for the sake of its alignment, does not come back.  The zone stays right
     exactly if no more is given back than was cut off, but for bytes that leaked before.
     */
    method Dealloc(a: nat, layout: Layout)
      requires Valid() && a in live && live[a].layout == layout
      modifies this
      ensures Valid() <==> old(Returnable(a))
      ensures Safe(layout) || GivenBack(layout) <= old(live[a].len) ==> old(Returnable(a))
      ensures wide == old(wide) && live == old(live) - {a} && freeSpace == old(freeSpace) + GivenBack(layout)
      ensures Bytes(a, a + GivenBack(layout)) <= Free(list)
      ensures old(Returnable(a)) ==>
        && Free(list) == old(Free(list)) + Bytes(a, a + GivenBack(layout))
        && leaked == old(leaked - Beyond(a)) + Bytes(a + GivenBack(layout), a + old(live)[a].len)
      ensures layout.align <= 32 ==> leaked == old(leaked)
    {
      hide Canonical, Free, Sizes, LiveBytes, RightLayout, RightBlock, Apart, GivenBack, Place, GiveList, Bytes, Safe;
      var size := GivenBack(layout);
      var cnode := Node(a, size);
      var p, n := GetPrevNextNode(a);
      ghost var i := if n.Some? then n.value else |list|;
      SortedPlace(list, i, a);
      NothingBeyond(this, a);
      Given(this, a, i);
      Join(cnode, p, n);
      leaked := (leaked - Beyond(a)) + Bytes(a + size, a + live[a].len);
      live := live - {a};
      freeSpace := freeSpace + size;
    }

    /** The part of `dealloc` that puts the node between its neighbours. */
    method Join(cnode: Node, p: Option<nat>, n: Option<nat>)
      requires n.Some? ==> n.value < |list|
      requires var i := if n.Some? then n.value else |list|; p == if i > 0 then Some(i - 1) else None
      modifies this`list
      ensures list == GiveList(old(list), if n.Some? then n.value else |old(list)|, cnode)
    {
      hide GiveList, GiveLeft;
      ghost var l, i := list, if n.Some? then n.value else |list|;
      GiveSteps(l, i, cnode);
      var c := 0;
      if p.Some? {
        if list[p.value].End() == cnode.addr {
          c := p.value;
          list := list[c := Node(list[c].addr, list[c].size + cnode.size)];
        } else {
          c := p.value + 1;
          list := list[..c] + [cnode] + list[c..];
        }
      } else {
        list := [cnode] + list;
      }
      assert list == GiveLeft(l, i, cnode) && c == (if JoinsLeft(l, i, cnode) then i - 1 else i) by {
        LeftStep(l, i, cnode);
      }
      if n.Some? {
        if list[c].End() == list[c + 1].addr {
          list := list[..c] + [Node(list[c].addr, list[c].size + list[c + 1].size)] + list[c + 2..];
        }
      }
    }
  }

  /** The first of the two steps of joining a block with its neighbours. */
  function GiveLeft(l: seq<Node>, i: nat, c: Node): seq<Node>
    requires i <= |l|
  {
    if JoinsLeft(l, i, c) then l[i - 1 := Node(l[i - 1].addr, l[i - 1].size + c.size)] else l[..i] + [c] + l[i..]
  }

  lemma LeftStep(l: seq<Node>, i: nat, c: Node)
    requires i <= |l|
    ensures i > 0 && l[i - 1].End() == c.addr ==>
      GiveLeft(l, i, c) == l[i - 1 := Node(l[i - 1].addr, l[i - 1].size + c.size)]
    ensures i > 0 && l[i - 1].End() != c.addr ==> GiveLeft(l, i, c) == l[..i] + [c] + l[i..]
    ensures i == 0 ==> GiveLeft(l, i, c) == [c] + l
  {
    assert i == 0 ==> l[..i] + [c] + l[i..] == [c] + l;
  }

  /** Joining on the left and then on the right is joining on both sides. */
  lemma GiveSteps(l: seq<Node>, i: nat, c: Node)
    requires i <= |l|
    ensures
      var l1 := GiveLeft(l, i, c);
      var k := if JoinsLeft(l, i, c) then i - 1 else i;
      && k < |l1| && (i < |l| ==> k + 1 < |l1| && l1[k + 1] == l[i])
      && GiveList(l, i, c) ==
           if i < |l| && l1[k].End() == l1[k + 1].addr
             then l1[..k] + [Node(l1[k].addr, l1[k].size + l1[k + 1].size)] + l1[k + 2..]
           else l1
  {
    var l1 := GiveLeft(l, i, c);
    var k := if JoinsLeft(l, i, c) then i - 1 else i;
    assert l1[..k] == l[..k];
    assert k + 1 <= |l1| && l1[k + 1..] == l[i..];
    assert l1 == l1[..k] + [l1[k]] + l1[k + 1..];
    if i < |l| {
      assert l1[k + 2..] == l[i + 1..];
    }
  }

  /** The nodes are sorted, so the search finds the place. */
  lemma SortedPlace(l: seq<Node>, i: nat, a: nat)
    requires Canonical(l) && i <= |l| && (forall j :: 0 <= j < i ==> l[j].addr <= a) && (i < |l| ==> l[i].addr > a)
    ensures Place(l, i, a)
  {
    assert forall j :: i < j < |l| ==> l[i].End() < l[j].addr;
  }

  /** What becomes of a zone when the block at `a` comes back. */
  lemma BlockBack(z: HeapZone, a: nat)
    requires z.Valid() && a in z.live && z.Returnable(a)
    ensures
      var size := GivenBack(z.live[a].layout);
      var given, lost := Bytes(a, a + size), Bytes(a + size, a + z.live[a].len);
      var live', leaked' := z.live - {a}, (z.leaked - z.Beyond(a)) + lost;
      && given !! Free(z.list)
      && (Free(z.list) + given) !! LiveBytes(live') !! leaked'
      && (Free(z.list) + given) + LiveBytes(live') + leaked' == Free(z.list) + LiveBytes(z.live) + z.leaked
  {
    hide Canonical, Free, Sizes, LiveBytes, RightBlock, GivenBack, Apart;
    var size := GivenBack(z.live[a].layout);
    var len := z.live[a].len;
    RemoveBlock(z.live, a);
    SplitBytes(a, size, len);
    BackBytes(Free(z.list), LiveBytes(z.live), z.leaked, Bytes(a, a + len), Bytes(a, a + size),
              Bytes(a + size, a + len), z.Beyond(a));
  }

  lemma BlockNode(z: HeapZone, a: nat)
    requires z.Valid() && a in z.live
    ensures RightNode(Node(a, GivenBack(z.live[a].layout))) && Apart(z.live - {a})
    ensures z.live[a].layout.align > 32 ==> z.wide
  {
    hide Canonical, Free, Sizes, LiveBytes, RightLayout, GivenBack;
    assert RightBlock(a, z.live[a]);
    GivenBackRight(z.live[a].layout);
  }

  /** Blocks of which no more comes back than was cut off. */
  lemma NothingBeyond(z: HeapZone, a: nat)
    requires z.Valid() && a in z.live
    ensures
      var l, len := z.live[a].layout, z.live[a].len;
      && (Safe(l) || GivenBack(l) <= len ==> z.Beyond(a) == {})
      && (l.align <= 32 ==> z.Beyond(a) == {} && Bytes(a + GivenBack(l), a + len) == {})
  {
    hide Canonical, Free, Sizes, LiveBytes, RightLayout, GivenBack, Apart;
    assert RightBlock(a, z.live[a]);
  }

  /** The bytes of a block are free once its node is in the list, whatever the list is like. */
  lemma GivenInList(l: seq<Node>, i: nat, c: Node)
    requires i <= |l|
    ensures Bytes(c.addr, c.End()) <= Free(GiveList(l, i, c))
  {
    hide Free, Sizes;
    var left, right := if JoinsLeft(l, i, c) then i - 1 else i, if JoinsRight(l, i, c) then i + 1 else i;
    Replace(l[..left], Joined(l, i, c), l[right..]);
  }

  /** A byte given back that had not leaked is live, lies outside the zone, or is free already. */
  lemma BlockNotBack(z: HeapZone, a: nat, i: nat)
    requires z.Valid() && a in z.live && !z.Returnable(a) && Place(z.list, i, a)
    ensures
      var list' := GiveList(z.list, i, Node(a, GivenBack(z.live[a].layout)));
      !(Canonical(list') && Free(list') !! LiveBytes(z.live - {a})
        && Free(list') <= Bytes(z.addr + z.header, z.addr + z.len))
  {
    hide Canonical, Free, Sizes, LiveBytes, RightLayout, GivenBack, GiveList, RightBlock, Apart;
    var c := Node(a, GivenBack(z.live[a].layout));
    var x :| x in z.Beyond(a) && x !in z.leaked;
    GivenInList(z.list, i, c);
    RemoveBlock(z.live, a);
    if x in Free(z.list) {
      BlockInside(z, a);
      assert a in BlockBytes(z.live, a) && a !in Free(z.list);
      OverlapsNode(z.list, i, c, x);
    }
  }

  /** A node that starts within the block given back is overlapped by it. */
  lemma OverlapsNode(l: seq<Node>, i: nat, c: Node, x: int)
    requires Canonical(l) && Place(l, i, c.addr) && c.addr !in Free(l) && x in Free(l) && c.addr < x < c.End()
    ensures !Canonical(GiveList(l, i, c))
  {
    hide Free, GiveList, Joined;
    FreeIs(l, x);
    FreeIs(l, c.addr);
    var j :| 0 <= j < |l| && l[j].addr <= x < l[j].End();
    assert l[j].addr > c.addr && j >= i;
    assert l[i].addr <= l[j].addr;
    BehindGiven(l, i, c, j);
  }

  /** Where the nodes behind a block end up, if it is joined with none of them. */
  lemma BehindGiven(l: seq<Node>, i: nat, c: Node, j: nat)
    requires i <= j < |l| && !JoinsRight(l, i, c)
    ensures
      var l' := GiveList(l, i, c);
      var k := if JoinsLeft(l, i, c) then i - 1 else i;
      k + 1 + (j - i) < |l'| && l'[k].End() == c.End() && l'[k + 1 + (j - i)] == l[j]
  {
    assert Joined(l, i, c).End() == c.End();
  }

  /** What `dealloc` makes of a zone. */
  lemma Given(z: HeapZone, a: nat, i: nat)
    requires z.Valid() && a in z.live && Place(z.list, i, a)
    ensures
      var size := GivenBack(z.live[a].layout);
      var list' := GiveList(z.list, i, Node(a, size));
      var live', leaked' := z.live - {a}, (z.leaked - z.Beyond(a)) + Bytes(a + size, a + z.live[a].len);
      && Bytes(a, a + size) <= Free(list') && Apart(live') && (z.live[a].layout.align > 32 ==> z.wide)
      && (z.Returnable(a) ==>
            && Canonical(list') && Sizes(list') == Sizes(z.list) + size
            && Free(list') == Free(z.list) + Bytes(a, a + size)
            && Free(list') !! LiveBytes(live') !! leaked'
            && Free(list') + LiveBytes(live') + leaked' == Bytes(z.addr + z.header, z.addr + z.len))
      && (!z.Returnable(a) ==>
            !(Canonical(list') && Free(list') !! LiveBytes(live')
              && Free(list') <= Bytes(z.addr + z.header, z.addr + z.len)))
  {
    hide Canonical, Free, Sizes, LiveBytes, RightLayout, GivenBack, GiveList, RightBlock;
    var c := Node(a, GivenBack(z.live[a].layout));
    GivenInList(z.list, i, c);
    BlockNode(z, a);
    if z.Returnable(a) {
      BlockBack(z, a);
      GiveListRight(z.list, i, c);
    } else {
      BlockNotBack(z, a, i);
    }
  }

  lemma GivenBackRight(l: Layout)
    requires RightLayout(l)
    ensures GivenBack(l) > 0 && GivenBack(l) % 32 == 0
  {
    AlignUpIs(l.size, Unit(l));
    UnitInChunks(l);
    var q := Unit(l) / 32;
    assert q * 32 == Unit(l);
    MultipleOfMultiple(GivenBack(l), 32, q);
  }

  lemma SplitBytes(a: nat, m: nat, n: nat)
    ensures Bytes(a, a + m) == (Bytes(a, a + n) - Bytes(a + m, a + n)) + Bytes(a + n, a + m)
    ensures Bytes(a + m, a + n) <= Bytes(a, a + n)
  {
  }

  /** Bytes that were live are partly free now, and partly lost; some that were lost are free. */
  lemma BackBytes(f: set<int>, l: set<int>, k: set<int>, b: set<int>, x: set<int>, y: set<int>, e: set<int>)
    requires f !! l !! k && b <= l && y <= b && e <= k && x == (b - y) + e
    ensures x !! f && (f + x) !! (l - b) !! ((k - e) + y) && (f + x) + (l - b) + ((k - e) + y) == f + l + k
  {
  }

  /** Bytes that were free are live now. */
  lemma MoveBytes(f: set<int>, l: set<int>, k: set<int>, x: set<int>)
    requires f !! l !! k && x <= f
    ensures (f - x) !! (l + x) !! k && (f - x) + (l + x) + k == f + l + k
  {
  }

  lemma NodeBlock(n: Node, l: Layout)
    requires RightNode(n) && RightLayout(l) && Fits(n, l)
    ensures RightBlock(CutAt(n, l), Block(n.End() - CutAt(n, l), l)) && CutAt(n, l) < n.End()
  {
    hide CutAt, GivenBack;
    CutFacts(n, l);
    AlignedTo(CutAt(n, l), l);
    EndInChunks(n);
    assert Safe(l) ==> GivenBack(l) <= n.End() - CutAt(n, l) by {
      CutIs(n, l);
      GivenBackFits(n.End(), l);
    }
    assert l.align <= 32 ==> GivenBack(l) == n.End() - CutAt(n, l) by {
      CutIs(n, l);
      GivenBackFits(n.End(), l);
    }
  }

  lemma CutIs(n: Node, l: Layout)
    requires l.size <= n.size
    ensures CutAt(n, l) == AlignDown(n.End() - l.size, Unit(l))
  {
  }

  lemma EndInChunks(n: Node)
    requires RightNode(n)
    ensures n.End() % 32 == 0
  {
    MultiplesAdd(n.addr, n.size, 32);
  }

  /** A multiple of the unit is a multiple of the alignment. */
  lemma AlignedTo(at: nat, l: Layout)
    requires RightLayout(l) && at % Unit(l) == 0
    ensures l.align > 0 && at % l.align == 0
  {
    var k: nat :| l.align == Pow2(k);
    if l.align <= 32 {
      Thirtytwo();
      if k > 5 {
        Pow2Mono(6, k);
      }
      Pow2Add(5 - k, k);
      MultipleOfMultiple(at, Pow2(k), Pow2(5 - k));
    }
  }

  lemma Thirtytwo()
    ensures Pow2(5) == 32 && Pow2(6) == 64
  {
    assert Pow2(1) == 2 && Pow2(2) == 4 && Pow2(3) == 8 && Pow2(4) == 16;
  }

  /** What becomes of a zone when a block is cut off node `i`. */
  lemma BlockTaken(z: HeapZone, i: nat, layout: Layout)
    requires z.Valid() && i < |z.list| && RightLayout(layout) && Fits(z.list[i], layout)
    ensures
      var n := z.list[i];
      var a := CutAt(n, layout);
      var b := Block(n.End() - a, layout);
      var list', live' := CutList(z.list, i, a), z.live[a := b];
      && n.addr <= a < n.End() && RightBlock(a, b) && a !in z.live && Apart(live')
      && (a - n.addr < 32 ==> a == n.addr)
      && Canonical(list') && Sizes(list') == Sizes(z.list) - b.len && z.list[i].size <= Sizes(z.list)
      && Free(list') !! LiveBytes(live') !! z.leaked
      && Free(list') + LiveBytes(live') + z.leaked == Free(z.list) + LiveBytes(z.live) + z.leaked
  {
    hide Canonical, CutAt, CutList, Free, Sizes, LiveBytes, Fits, RightBlock, RightLayout, Apart;
    var n := z.list[i];
    NodeOf(z.list, i);
    CutFacts(n, layout);
    NodeBlock(n, layout);
    CutListRight(z.list, i, layout);
    var a := CutAt(n, layout);
    var b := Block(n.End() - a, layout);
    LiveNotEmpty(z.live);
    ApartWith(z.live, a, b);
    AddBlock(z.live, a, b);
    MoveBytes(Free(z.list), LiveBytes(z.live), z.leaked, Bytes(a, n.End()));
    Middle(z.list, i);
  }

  lemma LiveNotEmpty(live: map<nat, Block>)
    requires forall a :: a in live ==> RightBlock(a, live[a])
    ensures forall a :: a in live ==> live[a].len > 0
  {
    hide GivenBack;
  }

  lemma {:induction false} NoneFits(l: seq<Node>, layout: Layout)
    requires layout.size > Sizes(l)
    ensures forall i :: 0 <= i < |l| ==> !Fits(l[i], layout)
  {
    if l != [] {
      NoneFits(l[1..], layout);
      assert forall i :: 0 < i < |l| ==> l[i] == l[1..][i - 1];
    }
  }

  // ---------------------------------------------------------------------------------------
  // What this means for a zone

  /**
   The free list of a zone is a function of what is live and what is lost: it is the one canonical
   list of all other bytes.
   */
  lemma ListDetermined(z: HeapZone, l: seq<Node>)
    requires z.Valid()
    ensures Free(z.list) == Bytes(z.addr + z.header, z.addr + z.len) - LiveBytes(z.live) - z.leaked
    ensures Canonical(l) && Free(l) == Bytes(z.addr + z.header, z.addr + z.len) - LiveBytes(z.live) - z.leaked ==>
      l == z.list
  {
    hide Canonical, Free, Sizes, LiveBytes, RightBlock, Apart;
    Others(Free(z.list), LiveBytes(z.live), z.leaked, Bytes(z.addr + z.header, z.addr + z.len));
    if Canonical(l) && Free(l) == Free(z.list) {
      CanonicalUnique(l, z.list);
    }
  }

  lemma Others(f: set<int>, l: set<int>, k: set<int>, all: set<int>)
    requires f !! l !! k && f + l + k == all
    ensures f == all - l - k
  {
  }

  /** Once everything has been freed, a zone that never saw a wide alignment is as good as new. */
  lemma AllFreed(z: HeapZone)
    requires z.Valid() && z.live == map[] && !z.wide && z.header < z.len
    ensures z.list == [Node(z.addr + z.header, z.len - z.header)]
  {
    hide LiveBytes, RightBlock, Apart;
    var l := [Node(z.addr + z.header, z.len - z.header)];
    NoBlocks();
    MultiplesAdd(z.addr, z.header, 32);
    MultiplesSubtract(z.len, z.header, 32);
    Replace([], l[0], []);
    assert [] + l + [] == l;
    ListDetermined(z, l);
  }

  lemma {:induction false} BytesCount(lo: int, hi: int)
    requires lo <= hi
    ensures |Bytes(lo, hi)| == hi - lo
    decreases hi - lo
  {
    if lo < hi {
      BytesCount(lo + 1, hi);
      assert Bytes(lo, hi) == {lo} + Bytes(lo + 1, hi);
    }
  }

  /** `free_space` is the number of free bytes. */
  lemma {:induction false} SizesCount(l: seq<Node>)
    requires Canonical(l)
    ensures Sizes(l) == |Free(l)|
  {
    if l != [] {
      CanonicalTail(l);
      SizesCount(l[1..]);
      BytesCount(l[0].addr, l[0].End());
      assert Bytes(l[0].addr, l[0].End()) !! Free(l[1..]);
    }
  }

  /**
   A layout with a wide alignment and a size that is no multiple of it, in a zone with room for
   four chunks: the block is cut off in front of a chunk that is live, and once it is freed, that
   chunk is free and live at once.
   */
  method UnsafeGivesTooMuch(base: nat) returns (z: HeapZone, chunk: nat)
    requires base >= 64 && base % 64 == 0
    ensures fresh(z) && !z.Valid() && chunk in z.live && chunk in Free(z.list)
  {
    hide Canonical, Free, Sizes, LiveBytes, RightBlock, Apart, RightLayout, Bytes, CutAt, AlignUp, Fits;
    FourChunks(base);
    z := new HeapZone(base - 32, 160, 32);
    ghost var at;
    var c, b;
    assert z.list == [Node(base, 128)] && Fits(z.list[0], Layout(32, 32));
    c, at := z.Alloc(Layout(32, 32));
    assert c == Some(base + 96) && z.list == [Node(base, 96)] && Fits(z.list[0], Layout(16, 64));
    b, at := z.Alloc(Layout(16, 64));
    assert b == Some(base + 64);
    chunk := c.value;
    assert chunk in z.Beyond(b.value);
    BlockBytesLive(z, chunk);
    z.Dealloc(b.value, Layout(16, 64));
  }

  /** The blocks cut off such a zone. */
  lemma FourChunks(base: nat)
    requires base >= 64 && base % 64 == 0
    ensures (base - 32) % 32 == 0
    ensures RightLayout(Layout(32, 32)) && RightLayout(Layout(16, 64)) && GivenBack(Layout(16, 64)) == 64
    ensures CutAt(Node(base, 128), Layout(32, 32)) == base + 96 && Fits(Node(base, 128), Layout(32, 32))
    ensures CutAt(Node(base, 96), Layout(16, 64)) == base + 64 && Fits(Node(base, 96), Layout(16, 64))
  {
    hide RightLayout, AlignDown;
    ChunkLayouts();
    AlignedDown(base / 64);
  }

  lemma AlignedDown(q: nat)
    ensures AlignDown(64 * q + 96, 32) == 64 * q + 96 && AlignDown(64 * q + 80, 64) == 64 * q + 64
  {
    ModUnique(64 * q + 96, 32, 2 * q + 3, 0);
    ModUnique(64 * q + 80, 64, q + 1, 16);
  }

  lemma ChunkLayouts()
    ensures RightLayout(Layout(32, 32)) && RightLayout(Layout(16, 64)) && AlignUp(16, 64) == 64
  {
    Thirtytwo();
    ModUnique(16 + 63, 64, 1, 15);
  }

  /** Bytes of live blocks have not leaked. */
  lemma BlockBytesLive(z: HeapZone, a: nat)
    requires z.Valid() && a in z.live
    ensures a !in z.leaked
  {
    hide Canonical, Free, Sizes;
    BlockInside(z, a);
    RemoveBlock(z.live, a);
    assert a in BlockBytes(z.live, a);
  }

  // ---------------------------------------------------------------------------------------
  // The allocator

  /** A piece of memory from the page allocator. */
  datatype Mem = Mem(addr: nat, len: nat)

  const HEAP_INC_SIZE: nat := 0x4000

  /** The size asked for when no zone has room. */
  function SizeInc(layout: Layout, header: nat): nat {
    Max(HEAP_INC_SIZE, layout.size + Unit(layout) + header)
  }

  ghost predicate RightMem(m: Mem, layout: Layout, header: nat) {
    m.addr % 32 == 0 && m.len % 32 == 0 && m.len >= AlignUp(SizeInc(layout, header), 0x1000)
  }

  /** A zone made for a layout has room for it. */
  lemma NewZoneFits(m: Mem, layout: Layout, header: nat)
    requires RightMem(m, layout, header) && RightLayout(layout)
    ensures header < m.len && Fits(Node(m.addr + header, m.len - header), layout) && m.len >= HEAP_INC_SIZE
  {
    AlignUpIs(SizeInc(layout, header), 0x1000);
    AlignDownIs(m.addr + header + (m.len - header - layout.size), Unit(layout));
  }

  /** Blocks lie inside their zone, behind its header. */
  lemma BlockInside(z: HeapZone, a: nat)
    requires z.Valid() && a in z.live
    ensures z.addr + z.header <= a && a + z.live[a].len <= z.addr + z.len && 0 < z.live[a].layout.size <= z.live[a].len
  {
    hide Canonical, Free, Sizes, GivenBack;
    assert RightBlock(a, z.live[a]);
    RemoveBlock(z.live, a);
    assert a in BlockBytes(z.live, a) && a + z.live[a].len - 1 in BlockBytes(z.live, a);
  }

  predicate Separate(y: HeapZone, z: HeapZone) {
    y.addr + y.len <= z.addr || z.addr + z.len <= y.addr
  }

  lemma InRightZone(z: HeapZone, a: nat)
    requires z.Valid() && a in z.live
    ensures z.Contains(a, z.live[a].layout.size)
  {
    BlockInside(z, a);
  }

  /** `contains` leaves out the first chunk of a zone, and takes in the one behind its end. */
  lemma ContainsIs(z: HeapZone, a: nat, size: nat)
    requires size > 0
    ensures z.Contains(a, size) <==>
      Bytes(a, a + size) <= Bytes(z.addr, z.addr + z.len + 32) - Bytes(z.addr, z.addr + 32)
  {
    assert a in Bytes(a, a + size) && a + size - 1 in Bytes(a, a + size);
  }

  /** Although `contains` reaches beyond the end of a zone, it picks no zone but the right one. */
  lemma RightZone(y: HeapZone, z: HeapZone, a: nat)
    requires z.Valid() && a in z.live && Separate(y, z)
    ensures z.Contains(a, z.live[a].layout.size) && !y.Contains(a, z.live[a].layout.size)
  {
    BlockInside(z, a);
  }

  lemma TooLittleFree(z: HeapZone, layout: Layout)
    requires z.Valid() && z.freeSpace < layout.size
    ensures forall i :: 0 <= i < |z.list| ==> !Fits(z.list[i], layout)
  {
    hide Canonical, Free, LiveBytes, RightBlock, Apart;
    NoneFits(z.list, layout);
  }

  /** `LinkedListAllocator`.  All zones have headers of one size. */
  class LinkedListAllocator {
    const header: nat
    var zones: seq<HeapZone>

    ghost predicate Valid()
      reads this, zones
    {
      && header >= 32 && header % 32 == 0
      && (forall i :: 0 <= i < |zones| ==> zones[i].Valid() && zones[i].header == header)
      && (forall i, j :: 0 <= i < j < |zones| ==> zones[i] != zones[j] && Separate(zones[i], zones[j]))
    }

    /** `new`, given the memory of the initial zone. */
    constructor (header: nat, mem: Mem)
      requires header >= 32 && header % 32 == 0 && mem.addr % 32 == 0 && mem.len % 32 == 0 && header < mem.len
      ensures Valid() && this.header == header && |zones| == 1 && fresh(zones[0])
      ensures zones[0].live == map[] && zones[0].list == [Node(mem.addr + header, mem.len - header)] && !zones[0].wide
    {
      hide Canonical, Free, Sizes, LiveBytes, RightBlock, Apart;
      var zone := new HeapZone(mem.addr, mem.len, header);
      this.header := header;
      zones := [zone];
    }

    /** No zone has a node in which such a block fits. */
    ghost predicate NoRoom(layout: Layout)
      reads this, zones
    {
      forall i, j :: 0 <= i < |zones| && 0 <= j < |zones[i].list| ==> !Fits(zones[i].list[j], layout)
    }

    /**
     `alloc`.  `mem` is what the page allocator gives if it is asked.  The block comes from the first
     zone that has room, or from a new one, which has room; there is none exactly if no zone has
     room and there is no memory for another one.
     */
    method Alloc(layout: Layout, mem: Option<Mem>) returns (out: Option<nat>, ghost k: nat)
      requires Valid() && RightLayout(layout)
      requires mem.Some? ==> RightMem(mem.value, layout, header)
      requires mem.Some? ==> forall z :: z in zones ==>
        mem.value.addr + mem.value.len <= z.addr || z.addr + z.len <= mem.value.addr
      modifies this, zones
      ensures Valid()
      ensures out.None? <==> old(NoRoom(layout)) && mem.None?
      ensures |zones| == |old(zones)| + (if old(NoRoom(layout)) && mem.Some? then 1 else 0)
      ensures zones[..|old(zones)|] == old(zones)
      ensures layout.align <= 32 ==>
        && (forall i :: 0 <= i < |old(zones)| ==> zones[i].wide == old(zones[i].wide))
        && (forall i :: |old(zones)| <= i < |zones| ==> !zones[i].wide)
      ensures out.Some? ==>
        && k < |zones| && out.value in zones[k].live && zones[k].live[out.value].layout == layout
        && (k < |old(zones)| ==> out.value !in old(zones[k].live) && zones[k].live - {out.value} == old(zones[k].live))
        && (k == |old(zones)| ==> zones[k].live.Keys == {out.value})
      ensures out.Some? ==> forall i, j :: 0 <= i < k && i < |old(zones)| && 0 <= j < |zones[i].list| ==>
        !Fits(zones[i].list[j], layout)
      ensures forall i :: 0 <= i < |old(zones)| && (out.None? || i != k) ==>
        zones[i].list == old(zones[i].list) && zones[i].live == old(zones[i].live)
    {
      hide Canonical, Free, Sizes, LiveBytes, RightBlock, Apart, GivenBack, RightLayout;
      out, k := FromZones(layout);
      if out.None? && mem.Some? {
        k := |zones|;
        out := FromNew(layout, mem.value);
      }
    }

    /** The loop of `alloc` over the zones. */
    method FromZones(layout: Layout) returns (out: Option<nat>, ghost k: nat)
      requires Valid() && RightLayout(layout)
      modifies zones
      ensures Valid()
      ensures out.None? <==> old(NoRoom(layout))
      ensures layout.align <= 32 ==> forall i :: 0 <= i < |zones| ==> zones[i].wide == old(zones[i].wide)
      ensures out.Some? ==>
        && k < |zones| && out.value in zones[k].live && zones[k].live[out.value].layout == layout
        && out.value !in old(zones[k].live) && zones[k].live - {out.value} == old(zones[k].live)
      ensures out.Some? ==> forall i, j :: 0 <= i < k && 0 <= j < |zones[i].list| ==> !Fits(zones[i].list[j], layout)
      ensures forall i :: 0 <= i < |zones| && (out.None? || i != k) ==>
        zones[i].list == old(zones[i].list) && zones[i].live == old(zones[i].live)
    {
      hide HeapZone.Valid, RightLayout, Fits, CutList, CutAt;
      out, k := None, 0;
      var i := 0;
      while i < |zones|
        invariant i <= |zones| && Valid() && out.None?
        invariant forall j :: 0 <= j < |zones| ==>
          zones[j].list == old(zones[j].list) && zones[j].live == old(zones[j].live)
        invariant layout.align <= 32 ==> forall j :: 0 <= j < |zones| ==> zones[j].wide == old(zones[j].wide)
        invariant forall j, n :: 0 <= j < i && 0 <= n < |zones[j].list| ==> !Fits(zones[j].list[n], layout)
      {
        if zones[i].freeSpace >= layout.size {
          var ptr, at := zones[i].Alloc(layout);
          if ptr.Some? {
            out, k := ptr, i;
            return;
          }
        } else {
          TooLittleFree(zones[i], layout);
        }
        i := i + 1;
      }
    }

    /** The end of `alloc`: a new zone, in which the block fits. */
    method FromNew(layout: Layout, mem: Mem) returns (out: Option<nat>)
      requires Valid() && RightLayout(layout) && RightMem(mem, layout, header)
      requires forall z :: z in zones ==> mem.addr + mem.len <= z.addr || z.addr + z.len <= mem.addr
      modifies this
      ensures Valid() && out.Some?
      ensures |zones| == |old(zones)| + 1 && zones[..|old(zones)|] == old(zones) && fresh(zones[|old(zones)|])
      ensures zones[|old(zones)|].live.Keys == {out.value} && zones[|old(zones)|].live[out.value].layout == layout
      ensures zones[|old(zones)|].wide == (layout.align > 32)
    {
      hide Canonical, Free, Sizes, LiveBytes, RightBlock, Apart, GivenBack, RightLayout, Fits, CutList;
      NewZoneFits(mem, layout, header);
      var zone := new HeapZone(mem.addr, mem.len, header);
      assert Fits(zone.list[0], layout);
      ghost var at;
      out, at := zone.Alloc(layout);
      zones := zones + [zone];
    }

    /**
     `dealloc`: the block goes back to the zone `w` it came from, and to no other.  The heap stays
     right exactly if that zone does.
     */
    method Dealloc(a: nat, layout: Layout, ghost w: nat)
      requires Valid() && w < |zones| && a in zones[w].live && zones[w].live[a].layout == layout
      modifies zones
      ensures Valid() <==> old(zones[w].Returnable(a))
      ensures Safe(layout) || GivenBack(layout) <= old(zones[w].live[a].len) ==> old(zones[w].Returnable(a))
      ensures zones[w].live == old(zones[w].live) - {a}
      ensures old(zones[w].Returnable(a)) ==>
        Free(zones[w].list) == old(Free(zones[w].list)) + Bytes(a, a + GivenBack(layout))
      ensures layout.align <= 32 ==> zones[w].leaked == old(zones[w].leaked)
      ensures forall i :: 0 <= i < |zones| ==> zones[i].wide == old(zones[i].wide)
      ensures forall i :: 0 <= i < |zones| && i != w ==>
        zones[i].Valid() && zones[i].list == old(zones[i].list) && zones[i].live == old(zones[i].live)
    {
      hide Canonical, Free, Sizes, LiveBytes, Apart, GivenBack, RightLayout;
      assert AlignOf(a) >= 32 by {
        ChunkAligned(zones[w], a);
      }
      var i := FindZone(a, layout, w);
      zones[i].Dealloc(a, layout);
    }

    /** The loop of `dealloc`; it does not run off the end of the list. */
    method FindZone(a: nat, layout: Layout, ghost w: nat) returns (i: nat)
      requires Valid() && w < |zones| && a in zones[w].live && zones[w].live[a].layout == layout
      ensures i == w
    {
      InRightZone(zones[w], a);
      i := 0;
      while !zones[i].Contains(a, layout.size)
        invariant i <= w
        decreases w - i
      {
        i := i + 1;
      }
      if i < w {
        RightZone(zones[i], zones[w], a);
      }
    }
  }

  lemma ChunkAligned(z: HeapZone, a: nat)
    requires z.Valid() && a in z.live
    ensures AlignOf(a) >= 32
  {
    assert RightBlock(a, z.live[a]);
    Thirtytwo();
    AlignOfDivides(5, a);
  }
}
