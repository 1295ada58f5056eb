/**
 What runs of mapping actions do to the set of leaves of the page tables: the meaning of
 `map_internal` in kernel/src/mem/virt_alloc.rs, above the walk of a single frame.
 */
module MappedLeaves {
  import opened Wrappers
  import opened Arith
  import opened AddrRange
  import opened PageTables
  import opened VirtLayouts
  import opened PageMapping

  function LevelOf(s: PageSize): (l: nat)
    ensures 1 <= l <= 3 && Span(l) == s.Bytes()
  {
    match s
    case K4 => 1
    case M2 => 2
    case G1 => 3
  }

  /** The slot that maps a frame. */
  function PosOf(f: Frame): (p: Pos)
    ensures 1 <= p.level <= 3
  {
    At(LevelOf(f.size), f.start)
  }

  ghost predicate AlignedFrame(f: Frame) {
    f.start % f.size.Bytes() == 0
  }

  lemma PosOfAligned(f: Frame)
    requires AlignedFrame(f)
    ensures Start(PosOf(f)) == f.start && End(PosOf(f)) == f.End()
  {
    AtIsQuotient(LevelOf(f.size), f.start);
    AlignedQuotient(f.start, f.size.Bytes());
  }

  lemma AlignedQuotient(a: nat, m: nat)
    requires m > 0 && a % m == 0
    ensures (a / m) * m == a && (a / m + 1) * m == a + m
  {
    assert a == (a / m) * m;
    assert (a / m + 1) * m == (a / m) * m + m;
  }

  lemma PosOfInjective(f: Frame, g: Frame)
    requires AlignedFrame(f) && AlignedFrame(g) && PosOf(f) == PosOf(g)
    ensures f == g
  {
    PosOfAligned(f);
    PosOfAligned(g);
  }

  // ---------------------------------------------------------------------------------------
  // Ascending runs

  /** The frames of a run lie one after the other in [lo, hi), perhaps with gaps. */
  ghost predicate Ascending(acts: seq<Action>, lo: nat, hi: nat) {
    if acts == [] then lo <= hi
    else
      && lo <= acts[0].virt.start && AlignedFrame(acts[0].virt)
      && Ascending(acts[1..], acts[0].virt.End(), hi)
  }

  ghost predicate AllMap(acts: seq<Action>) {
    forall a :: a in acts ==> a.Map?
  }

  ghost predicate AllUnmap(acts: seq<Action>) {
    forall a :: a in acts ==> a.Unmap?
  }

  lemma {:induction false} AscendingBounds(acts: seq<Action>, lo: nat, hi: nat)
    requires Ascending(acts, lo, hi)
    ensures lo <= hi
    ensures forall f :: f in Frames(acts) ==> AlignedFrame(f) && lo <= f.start && f.End() <= hi
  {
    if acts != [] {
      AscendingBounds(acts[1..], acts[0].virt.End(), hi);
      FramesCons(acts);
    }
  }

  lemma FramesCons(acts: seq<Action>)
    requires acts != []
    ensures Frames(acts) == {acts[0].virt} + Frames(acts[1..])
  {
    assert acts == [acts[0]] + acts[1..];
    FramesAppend([acts[0]], acts[1..]);
  }

  lemma {:induction false} AscendingAppend(a: seq<Action>, b: seq<Action>, lo: nat, mid: nat, hi: nat)
    requires Ascending(a, lo, mid) && Ascending(b, mid, hi)
    ensures Ascending(a + b, lo, hi)
  {
    if a == [] {
      assert a + b == b;
      AscendingWiden(b, lo, mid, hi);
    } else {
      AscendingAppend(a[1..], b, a[0].virt.End(), mid, hi);
      assert (a + b)[1..] == a[1..] + b;
    }
  }

  lemma AscendingWiden(acts: seq<Action>, lo: nat, lo': nat, hi: nat)
    requires lo <= lo' && Ascending(acts, lo', hi)
    ensures Ascending(acts, lo, hi)
  {
    AscendingBounds(acts, lo', hi);
  }

  lemma {:induction false} TilesAscend(acts: seq<Action>, lo: nat, hi: nat)
    requires Tiles(acts, lo, hi) && forall a :: a in acts ==> WellCut(a)
    ensures Ascending(acts, lo, hi)
  {
    if acts != [] {
      assert acts[0] in acts;
      assert forall a :: a in acts[1..] ==> a in acts;
      TilesAscend(acts[1..], acts[0].virt.End(), hi);
    }
  }

  /** The actions for elements from `vaddr` on ascend through exactly the range of the elements. */
  lemma {:induction false} ElementsAscend(vaddr: nat, es: seq<Element>, unmap: bool)
    requires AllGood(es) && vaddr % 0x1000 == 0
    ensures Ascending(CutElements(vaddr, es, unmap), vaddr, vaddr + SizeOf(es))
    ensures if unmap then AllUnmap(CutElements(vaddr, es, unmap)) else AllMap(CutElements(vaddr, es, unmap))
    decreases |es|
  {
    if es != [] {
      GoodSplit(vaddr, es);
      var next := vaddr + es[0].mapSize;
      ElementAscends(vaddr, es[0], unmap);
      ElementsAscend(next, es[1..], unmap);
      AscendingAppend(CutElement(vaddr, es[0], unmap), CutElements(next, es[1..], unmap), vaddr, next,
        vaddr + SizeOf(es));
    }
  }

  lemma GoodSplit(vaddr: nat, es: seq<Element>)
    requires es != [] && AllGood(es) && vaddr % 0x1000 == 0
    ensures es[0].Good() && AllGood(es[1..]) && (vaddr + es[0].mapSize) % 0x1000 == 0
  {
    assert es[0] in es;
    assert forall e :: e in es[1..] ==> e in es;
    MultiplesAdd(vaddr, es[0].mapSize, 0x1000);
  }

  lemma ElementAscends(vaddr: nat, e: Element, unmap: bool)
    requires e.Good() && vaddr % 0x1000 == 0
    ensures Ascending(CutElement(vaddr, e, unmap), vaddr, vaddr + e.mapSize)
    ensures if unmap then AllUnmap(CutElement(vaddr, e, unmap)) else AllMap(CutElement(vaddr, e, unmap))
  {
    match PieceOf(vaddr, e, unmap) {
      case None =>
      case Some(z) =>
        CutTiles(z);
        TilesAscend(Cut(z), vaddr, vaddr + e.mapSize);
    }
  }

  /** Unmapping an element later goes through the very frames that mapping it went through. */
  lemma {:induction false} UnmapReplaysCut(z: Pmit, y: Pmit)
    requires z.phys == y.phys && z.virt == y.virt
    ensures |Cut(z)| == |Cut(y)| && forall i :: 0 <= i < |Cut(z)| ==> Cut(z)[i].virt == Cut(y)[i].virt
    decreases z.virt.size
  {
    match z.GetTakeSize() {
      case None =>
      case Some(s) =>
        if s.Bytes() <= z.virt.size && s.Bytes() <= z.phys.size {
          UnmapReplaysCut(z.Without(s), y.Without(s));
        }
    }
  }

  lemma {:induction false} UnmapReplays(vaddr: nat, es: seq<Element>)
    ensures
      var u, m := CutElements(vaddr, es, true), CutElements(vaddr, es, false);
      |u| == |m| && forall i :: 0 <= i < |u| ==> u[i].virt == m[i].virt
    decreases |es|
  {
    if es != [] {
      UnmapReplays(vaddr + es[0].mapSize, es[1..]);
      match es[0].AsPhysZone() {
        case None =>
        case Some(_) => UnmapReplaysCut(PieceOf(vaddr, es[0], true).value, PieceOf(vaddr, es[0], false).value);
      }
    }
  }

  lemma SameFrames(a: seq<Action>, b: seq<Action>)
    requires |a| == |b| && forall i :: 0 <= i < |a| ==> a[i].virt == b[i].virt
    ensures Frames(a) == Frames(b)
  {
    forall f ensures f in Frames(a) <==> f in Frames(b) {
      if f in Frames(a) {
        var i :| 0 <= i < |a| && a[i].virt == f;
        assert b[i].virt == f;
      }
      if f in Frames(b) {
        var i :| 0 <= i < |b| && b[i].virt == f;
        assert a[i].virt == f;
      }
    }
  }

  // ---------------------------------------------------------------------------------------
  // Leaves

  /** The leaves that a run of `Map` actions stands for. */
  ghost function Leaves(acts: seq<Action>): map<Pos, Pte> {
    if acts == [] then map[]
    else if acts[0].Unmap? then Leaves(acts[1..])
    else Leaves(acts[1..])[PosOf(acts[0].virt) := Pte(acts[0].paddr, acts[0].flags)]
  }

  ghost function Positions(frames: set<Frame>): set<Pos> {
    set f <- frames :: PosOf(f)
  }

  lemma {:induction false} LeavesKeys(acts: seq<Action>)
    requires AllMap(acts)
    ensures Leaves(acts).Keys == Positions(Frames(acts))
  {
    if acts != [] {
      assert acts[0] in acts;
      assert forall a :: a in acts[1..] ==> a in acts;
      LeavesKeys(acts[1..]);
      FramesCons(acts);
    }
  }

  /** Leaves of frames in [lo, hi) lie in [lo, hi). */
  lemma LeavesWithin(acts: seq<Action>, lo: nat, hi: nat)
    requires AllMap(acts) && Ascending(acts, lo, hi)
    ensures forall p :: p in Leaves(acts) ==> 1 <= p.level <= 3 && lo <= Start(p) && End(p) <= hi
  {
    LeavesKeys(acts);
    AscendingBounds(acts, lo, hi);
    forall p | p in Leaves(acts) ensures 1 <= p.level <= 3 && lo <= Start(p) && End(p) <= hi {
      var f :| f in Frames(acts) && PosOf(f) == p;
      PosOfAligned(f);
    }
  }

  ghost predicate Clear(leaves: map<Pos, Pte>, lo: nat, hi: nat) {
    forall p :: p in leaves ==> 1 <= p.level <= 3 && (End(p) <= lo || hi <= Start(p))
  }

  /** The page tables can carry out a run: no page is mapped twice, none unmapped in vain. */
  ghost predicate Legal(leaves: map<Pos, Pte>, acts: seq<Action>)
    decreases |acts|
  {
    acts == [] ||
    (StepLegal(leaves, acts[0]) && Legal(Step(leaves, acts[0]), acts[1..]))
  }

  ghost predicate StepLegal(leaves: map<Pos, Pte>, a: Action) {
    && AlignedFrame(a.virt) && a.virt.End() <= MAX_USER_ADDR
    && match a
       case Map(f, _, _) => forall l :: l in leaves ==> 1 <= l.level <= 3 && Apart(l, PosOf(f))
       case Unmap(f) => PosOf(f) in leaves
  }

  ghost function Step(leaves: map<Pos, Pte>, a: Action): map<Pos, Pte> {
    match a
    case Map(f, paddr, flags) => leaves[PosOf(f) := Pte(paddr, flags)]
    case Unmap(f) => leaves - {PosOf(f)}
  }

  ghost function Apply(leaves: map<Pos, Pte>, acts: seq<Action>): map<Pos, Pte>
    decreases |acts|
  {
    if acts == [] then leaves else Apply(Step(leaves, acts[0]), acts[1..])
  }

  lemma {:induction false} LegalAppend(leaves: map<Pos, Pte>, a: seq<Action>, b: seq<Action>)
    ensures Legal(leaves, a + b) <==> Legal(leaves, a) && Legal(Apply(leaves, a), b)
    ensures Apply(leaves, a + b) == Apply(Apply(leaves, a), b)
    decreases |a|
  {
    hide StepLegal, Step;
    if a == [] {
      assert a + b == b;
    } else {
      LegalAppend(Step(leaves, a[0]), a[1..], b);
      assert (a + b)[1..] == a[1..] + b;
    }
  }

  /** Mapping an ascending run into a range without leaves adds the leaves of the run. */
  lemma {:induction false} RunMaps(leaves: map<Pos, Pte>, acts: seq<Action>, lo: nat, hi: nat)
    requires AllMap(acts) && Ascending(acts, lo, hi) && hi <= MAX_USER_ADDR && Clear(leaves, lo, hi)
    ensures Legal(leaves, acts) && Apply(leaves, acts) == leaves + Leaves(acts)
    decreases |acts|
  {
    hide Clear, StepLegal, PosOf, AlignedFrame;
    if acts != [] {
      assert acts[0] in acts;
      assert forall b :: b in acts[1..] ==> b in acts;
      MapsFirst(leaves, acts, lo, hi);
      RunMaps(Step(leaves, acts[0]), acts[1..], acts[0].virt.End(), hi);
      FirstNotInRest(acts, lo, hi);
      AddFirst(leaves, Leaves(acts[1..]), PosOf(acts[0].virt), Pte(acts[0].paddr, acts[0].flags));
    }
  }

  lemma FirstNotInRest(acts: seq<Action>, lo: nat, hi: nat)
    requires acts != [] && AllMap(acts) && Ascending(acts, lo, hi)
    ensures PosOf(acts[0].virt) !in Leaves(acts[1..])
  {
    assert forall b :: b in acts[1..] ==> b in acts;
    LeavesWithin(acts[1..], acts[0].virt.End(), hi);
    PosOfAligned(acts[0].virt);
  }

  lemma AddFirst(m: map<Pos, Pte>, rest: map<Pos, Pte>, p: Pos, pte: Pte)
    requires p !in rest
    ensures m[p := pte] + rest == m + rest[p := pte]
  {
  }

  lemma MapsFirst(leaves: map<Pos, Pte>, acts: seq<Action>, lo: nat, hi: nat)
    requires acts != [] && acts[0].Map? && Ascending(acts, lo, hi) && hi <= MAX_USER_ADDR && Clear(leaves, lo, hi)
    ensures StepLegal(leaves, acts[0]) && Clear(Step(leaves, acts[0]), acts[0].virt.End(), hi)
  {
    PosOfAligned(acts[0].virt);
    AscendingBounds(acts[1..], acts[0].virt.End(), hi);
  }

  /** No frame occurs twice. */
  ghost predicate Once(acts: seq<Action>) {
    acts == [] || (acts[0].virt !in Frames(acts[1..]) && Once(acts[1..]))
  }

  ghost predicate AllAligned(frames: set<Frame>, hi: nat) {
    forall f :: f in frames ==> AlignedFrame(f) && f.End() <= hi
  }

  /** Unmapping a run of mapped frames, in whatever order, removes their leaves. */
  lemma {:induction false} RunUnmaps(leaves: map<Pos, Pte>, acts: seq<Action>)
    requires AllUnmap(acts) && Once(acts) && AllAligned(Frames(acts), MAX_USER_ADDR)
    requires Positions(Frames(acts)) <= leaves.Keys
    ensures Legal(leaves, acts) && Apply(leaves, acts) == leaves - Positions(Frames(acts))
    decreases |acts|
  {
    if acts != [] {
      var f := acts[0].virt;
      assert acts[0] in acts;
      assert forall b :: b in acts[1..] ==> b in acts;
      FramesCons(acts);
      UnmapsRest(acts);
      assert PosOf(f) in Positions(Frames(acts));
      RunUnmaps(leaves - {PosOf(f)}, acts[1..]);
      assert Positions(Frames(acts)) == {PosOf(f)} + Positions(Frames(acts[1..]));
    }
  }

  lemma UnmapsRest(acts: seq<Action>)
    requires acts != [] && Once(acts) && AllAligned(Frames(acts), MAX_USER_ADDR)
    ensures PosOf(acts[0].virt) !in Positions(Frames(acts[1..]))
    ensures AllAligned(Frames(acts[1..]), MAX_USER_ADDR)
  {
    FramesCons(acts);
    forall f | f in Frames(acts[1..]) && PosOf(f) == PosOf(acts[0].virt) ensures false {
      PosOfInjective(f, acts[0].virt);
    }
  }

  lemma {:induction false} AscendingOnce(acts: seq<Action>, lo: nat, hi: nat)
    requires Ascending(acts, lo, hi)
    ensures Once(acts)
  {
    if acts != [] {
      AscendingOnce(acts[1..], acts[0].virt.End(), hi);
      AscendingBounds(acts[1..], acts[0].virt.End(), hi);
    }
  }

  lemma {:induction false} OnceAppend(a: seq<Action>, b: seq<Action>)
    requires Once(a) && Once(b) && Frames(a) !! Frames(b)
    ensures Once(a + b)
    decreases |a|
  {
    if a == [] {
      assert a + b == b;
    } else {
      FramesCons(a);
      OnceAppend(a[1..], b);
      assert (a + b)[1..] == a[1..] + b;
      FramesAppend(a[1..], b);
    }
  }

  /** The actions for a queue touch each frame of the queue's range once. */
  lemma {:induction false} QueueOnce(end: nat, es: seq<Element>)
    requires AllGood(es) && SizeOf(es) <= end && end % 0x1000 == 0
    ensures Once(CutQueue(end, es)) && AllUnmap(CutQueue(end, es))
    ensures forall f :: f in Frames(CutQueue(end, es)) ==> AlignedFrame(f) && f.End() <= end
    decreases |es|
  {
    if es != [] {
      QueueSplit(end, es);
      var start := end - es[0].mapSize;
      var a, b := CutElement(start, es[0], true), CutQueue(start, es[1..]);
      QueueOnce(start, es[1..]);
      ElementAscends(start, es[0], true);
      AscendingOnce(a, start, end);
      AscendingBounds(a, start, end);
      FramesAppend(a, b);
      OnceAppend(a, b);
    }
  }

  lemma QueueSplit(end: nat, es: seq<Element>)
    requires es != [] && AllGood(es) && end % 0x1000 == 0 && SizeOf(es) <= end
    ensures es[0].Good() && AllGood(es[1..])
    ensures es[0].mapSize <= end && (end - es[0].mapSize) % 0x1000 == 0
  {
    assert es[0] in es;
    assert forall e :: e in es[1..] ==> e in es;
    MultiplesSubtract(end, es[0].mapSize, 0x1000);
  }

  lemma {:induction false} LeavesAppend(a: seq<Action>, b: seq<Action>)
    requires Leaves(a).Keys !! Leaves(b).Keys
    ensures Leaves(a + b) == Leaves(a) + Leaves(b)
    decreases |a|
  {
    if a == [] {
      assert a + b == b;
    } else {
      LeavesAppend(a[1..], b);
      assert (a + b)[1..] == a[1..] + b;
    }
  }

  // ---------------------------------------------------------------------------------------
  // Runs in the middle of other runs

  /** Three runs one after the other, up to `a`, from `a` to `b`, and from `b` on. */
  ghost predicate InOrder(x: seq<Action>, y: seq<Action>, z: seq<Action>, lo: nat, a: nat, b: nat, hi: nat) {
    && Ascending(x, lo, a) && Ascending(y, a, b) && Ascending(z, b, hi)
    && AllMap(x) && AllMap(y) && AllMap(z)
  }

  lemma MiddleApart(x: seq<Action>, y: seq<Action>, z: seq<Action>, lo: nat, a: nat, b: nat, hi: nat)
    requires InOrder(x, y, z, lo, a, b, hi)
    ensures Leaves(x).Keys !! Leaves(y).Keys && Leaves(y).Keys !! Leaves(z).Keys && Leaves(x).Keys !! Leaves(z).Keys
    ensures Leaves(x + z) == Leaves(x) + Leaves(z) && Clear(Leaves(x + z), a, b)
    ensures Leaves(x + (y + z)) == Leaves(x) + (Leaves(y) + Leaves(z))
  {
    hide Ascending, PosOf;
    LeavesWithin(x, lo, a);
    LeavesWithin(y, a, b);
    LeavesWithin(z, b, hi);
    AscendingBounds(y, a, b);
    forall p | p in Leaves(x) || p in Leaves(y) || p in Leaves(z) ensures Start(p) < End(p) {
      AtStart(p);
    }
    LeavesAppend(x, z);
    LeavesAppend(y, z);
    LeavesAppend(x, y + z);
  }

  /** Taking the middle run out. */
  lemma RemoveMiddle(x: seq<Action>, y: seq<Action>, z: seq<Action>, lo: nat, a: nat, b: nat, hi: nat)
    requires InOrder(x, y, z, lo, a, b, hi)
    ensures Positions(Frames(y)) <= Leaves(x + (y + z)).Keys
    ensures Leaves(x + (y + z)) - Positions(Frames(y)) == Leaves(x + z)
    ensures Clear(Leaves(x + z), a, b)
  {
    MiddleApart(x, y, z, lo, a, b, hi);
    LeavesKeys(y);
    DropMiddle(Leaves(x), Leaves(y), Leaves(z));
  }

  lemma DropMiddle(x: map<Pos, Pte>, y: map<Pos, Pte>, z: map<Pos, Pte>)
    requires x.Keys !! y.Keys && y.Keys !! z.Keys
    ensures (x + (y + z)) - y.Keys == x + z
  {
  }

  /** Putting a run in between. */
  lemma InsertMiddle(x: seq<Action>, y: seq<Action>, z: seq<Action>, lo: nat, a: nat, b: nat, hi: nat)
    requires InOrder(x, y, z, lo, a, b, hi)
    ensures Leaves(x + z) + Leaves(y) == Leaves(x + (y + z))
    ensures Clear(Leaves(x + z), a, b)
  {
    MiddleApart(x, y, z, lo, a, b, hi);
    AddMiddle(Leaves(x), Leaves(y), Leaves(z));
  }

  lemma AddMiddle(x: map<Pos, Pte>, y: map<Pos, Pte>, z: map<Pos, Pte>)
    requires y.Keys !! z.Keys
    ensures (x + z) + y == x + (y + z)
  {
  }
}
