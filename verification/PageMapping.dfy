/**
 `Pmit` and `PageMappingIterator` of kernel/src/mem/virt_alloc.rs: how the memory of a
 layout is cut into page frames to map or unmap.
 */
module PageMapping {
  import opened Wrappers
  import opened Arith
  import opened AddrRange
  import opened PageTables
  import opened VirtLayouts

  /** `PageMappingAction` */
  datatype Action = Map(virt: Frame, paddr: nat, flags: PageFlags) | Unmap(virt: Frame)

  /** `Pmit`: a piece of memory to map, with these flags, or to unmap. */
  datatype Pmit = Pmit(phys: Range, virt: Range, flags: Option<PageFlags>) {

    /** Both ranges are page aligned and equally long. */
    ghost predicate Good() {
      phys.size == virt.size && virt.PageAligned() && phys.addr % 0x1000 == 0
    }

    /** `get_take_size` */
    function GetTakeSize(): Option<PageSize> {
      match (phys.GetTakeSize(), virt.GetTakeSize())
      case (Some(p), Some(v)) => Some(MinSize(p, v))
      case _ => None
    }

    /** A page of this size can be cut off the front. */
    ghost predicate FitsBoth(s: PageSize) {
      Fits(virt.addr, virt.size, s) && Fits(phys.addr, phys.size, s)
    }

    /** What `take` cuts off the front, as an action. */
    function First(s: PageSize): Action {
      match flags
      case Some(fl) => Map(Frame(virt.addr, s), phys.addr, fl)
      case None => Unmap(Frame(virt.addr, s))
    }

    /** What `take` leaves. */
    function Without(s: PageSize): Pmit
      requires s.Bytes() <= virt.size && s.Bytes() <= phys.size
    {
      var n := s.Bytes();
      Pmit(Range(phys.addr + n, phys.size - n), Range(virt.addr + n, virt.size - n), flags)
    }
  }

  /** The iterator stops exactly at the end of the piece, and otherwise takes the largest page. */
  lemma TakeSizeIsLargest(z: Pmit)
    requires z.Good()
    ensures z.GetTakeSize() == None <==> z.virt.size == 0
    ensures forall s: PageSize :: z.GetTakeSize().Some? ==>
      (z.FitsBoth(s) <==> s.AtMost(z.GetTakeSize().value))
    ensures z.GetTakeSize().Some? ==> z.FitsBoth(z.GetTakeSize().value)
  {
    GetTakeSizeIsLargest(z.phys);
    GetTakeSizeIsLargest(z.virt);
    NoPartialPage(z.virt.size);
  }

  lemma NoPartialPage(n: nat)
    requires n % 0x1000 == 0
    ensures n == 0 || n >= 0x1000
  {
  }

  lemma WithoutGood(z: Pmit, s: PageSize)
    requires z.Good() && z.FitsBoth(s)
    ensures z.Without(s).Good()
  {
    var n := s.Bytes();
    assert n % 0x1000 == 0;
    MultiplesAdd(z.virt.addr, n, 0x1000);
    MultiplesAdd(z.phys.addr, n, 0x1000);
    MultiplesSubtract(z.virt.size, n, 0x1000);
  }

  /** All the actions the iterator makes of one piece, in order. */
  ghost function Cut(z: Pmit): seq<Action>
    decreases z.virt.size
  {
    match z.GetTakeSize()
    case None => []
    case Some(s) =>
      if s.Bytes() <= z.virt.size && s.Bytes() <= z.phys.size then [z.First(s)] + Cut(z.Without(s)) else []
  }

  /** The frames of a run of actions tile the range [lo, hi) in order, without gap or overlap. */
  ghost predicate Tiles(acts: seq<Action>, lo: nat, hi: nat) {
    if acts == [] then lo == hi
    else acts[0].virt.start == lo && Tiles(acts[1..], acts[0].virt.End(), hi)
  }

  /** A frame is aligned to its own size, in both address spaces. */
  ghost predicate WellCut(a: Action) {
    && a.virt.start % a.virt.size.Bytes() == 0
    && (a.Map? ==> a.paddr % a.virt.size.Bytes() == 0)
  }

  /** No larger page could have been cut at this address from what remains up to `hi`. */
  ghost predicate Maximal(a: Action, hi: nat, z: Pmit) {
    a.virt.start >= z.virt.addr &&
    forall s: PageSize :: !s.AtMost(a.virt.size) && a.virt.start + s.Bytes() <= hi ==>
      !(a.virt.start % s.Bytes() == 0 && (a.virt.start - z.virt.addr + z.phys.addr) % s.Bytes() == 0)
  }

  ghost predicate SameOffset(a: Action, z: Pmit) {
    a.virt.start >= z.virt.addr &&
    match z.flags
    case Some(fl) => a.Map? && a.flags == fl && a.paddr - a.virt.start == z.phys.addr - z.virt.addr
    case None => a.Unmap?
  }

  /**
   The greedy cut of a piece tiles its virtual range in order, with a constant offset to
   physical memory, and every page is aligned on both sides and as large as can be.
   */
  lemma {:induction false} CutTiles(z: Pmit)
    requires z.Good()
    ensures Tiles(Cut(z), z.virt.addr, z.virt.End())
    ensures forall a :: a in Cut(z) ==> CutFrom(a, z)
    decreases z.virt.size
  {
    TakeSizeIsLargest(z);
    if z.GetTakeSize().Some? {
      var s := z.GetTakeSize().value;
      WithoutGood(z, s);
      var y := z.Without(s);
      CutTiles(y);
      FirstIsMaximal(z, s);
      assert Cut(z) == [z.First(s)] + Cut(y);
      forall a | a in Cut(z) ensures CutFrom(a, z) {
        if a in Cut(y) {
          assert CutFrom(a, y);
          CutFromRest(a, z, s);
        }
      }
    }
  }

  /** What holds of every action cut from a piece. */
  ghost predicate CutFrom(a: Action, z: Pmit) {
    WellCut(a) && SameOffset(a, z) && Maximal(a, z.virt.End(), z)
  }

  lemma CutFromRest(a: Action, z: Pmit, s: PageSize)
    requires s.Bytes() <= z.virt.size && s.Bytes() <= z.phys.size && CutFrom(a, z.Without(s))
    ensures CutFrom(a, z)
  {
  }

  lemma FirstIsMaximal(z: Pmit, s: PageSize)
    requires z.Good() && z.GetTakeSize() == Some(s)
    ensures CutFrom(z.First(s), z)
  {
    TakeSizeIsLargest(z);
    forall t: PageSize | !t.AtMost(s) && z.virt.addr + t.Bytes() <= z.virt.End()
      ensures !(z.virt.addr % t.Bytes() == 0 && z.phys.addr % t.Bytes() == 0)
    {
      assert !z.FitsBoth(t);
    }
  }

  // ---------------------------------------------------------------------------------------
  // Cutting a list of elements

  /** The piece of memory of an element that lies at `vaddr`; unmapping drops the flags. */
  function PieceOf(vaddr: nat, e: Element, unmap: bool): Option<Pmit> {
    match e.AsPhysZone()
    case None => None
    case Some(phys) => Some(Pmit(phys, Range(vaddr, e.mapSize), if unmap then None else Some(e.flags)))
  }

  ghost function CutElement(vaddr: nat, e: Element, unmap: bool): seq<Action> {
    match PieceOf(vaddr, e, unmap)
    case None => []
    case Some(z) => Cut(z)
  }

  /** The actions for elements that lie one after the other from `vaddr` on. */
  ghost function CutElements(vaddr: nat, es: seq<Element>, unmap: bool): seq<Action>
    decreases |es|
  {
    if es == [] then []
    else CutElement(vaddr, es[0], unmap) + CutElements(vaddr + es[0].mapSize, es[1..], unmap)
  }

  /** The actions for queued elements: the first lies just below `end`, the next below it. */
  ghost function CutQueue(end: nat, es: seq<Element>): seq<Action>
    requires SizeOf(es) <= end
    decreases |es|
  {
    if es == [] then []
    else CutElement(end - es[0].mapSize, es[0], true) + CutQueue(end - es[0].mapSize, es[1..])
  }

  /** The actions of a list of pieces. */
  ghost function CutPieces(zones: seq<Pmit>): seq<Action> {
    if zones == [] then [] else Cut(zones[0]) + CutPieces(zones[1..])
  }

  lemma {:induction false} CutPiecesSnoc(zones: seq<Pmit>, z: Pmit)
    ensures CutPieces(zones + [z]) == CutPieces(zones) + Cut(z)
  {
    hide Cut;
    if zones == [] {
      assert zones + [z] == [z];
      assert CutPieces([z]) == Cut(z) + CutPieces([]);
    } else {
      CutPiecesSnoc(zones[1..], z);
      assert (zones + [z])[1..] == zones[1..] + [z];
      assert Cut(zones[0]) + (CutPieces(zones[1..]) + Cut(z)) == (Cut(zones[0]) + CutPieces(zones[1..])) + Cut(z);
    }
  }

  lemma {:induction false} CutElementsAppend(vaddr: nat, a: seq<Element>, b: seq<Element>, unmap: bool)
    ensures CutElements(vaddr, a + b, unmap) == CutElements(vaddr, a, unmap) + CutElements(vaddr + SizeOf(a), b, unmap)
    decreases |a|
  {
    hide CutElement;
    if a == [] {
      assert a + b == b;
    } else {
      var next := vaddr + a[0].mapSize;
      CutElementsAppend(next, a[1..], b, unmap);
      CutElementsCons(vaddr, a[0], a[1..] + b, unmap);
      assert a + b == [a[0]] + (a[1..] + b);
      Assoc(CutElement(vaddr, a[0], unmap), CutElements(next, a[1..], unmap),
        CutElements(next + SizeOf(a[1..]), b, unmap));
    }
  }

  lemma CutElementsCons(vaddr: nat, e: Element, es: seq<Element>, unmap: bool)
    ensures CutElements(vaddr, [e] + es, unmap) == CutElement(vaddr, e, unmap) + CutElements(vaddr + e.mapSize, es,
      unmap)
  {
    assert ([e] + es)[1..] == es;
  }

  lemma Assoc<T>(x: seq<T>, y: seq<T>, z: seq<T>)
    ensures x + (y + z) == (x + y) + z
  {
  }

  /** Queued elements lie in the reverse order of the queue. */
  lemma {:induction false} CutQueueFrames(end: nat, es: seq<Element>)
    requires SizeOf(es) <= end
    ensures Frames(CutQueue(end, es)) == Frames(CutElements(end - SizeOf(es), Reversed(es), true))
    decreases |es|
  {
    hide CutElement;
    if es != [] {
      var start, low := end - es[0].mapSize, end - SizeOf(es);
      CutQueueFrames(start, es[1..]);
      SizeOfReversed(es[1..]);
      CutElementsAppend(low, Reversed(es[1..]), [es[0]], true);
      OneElement(start, es[0], true);
      FramesAppend(CutElement(start, es[0], true), CutQueue(start, es[1..]));
      FramesAppend(CutElements(low, Reversed(es[1..]), true), CutElement(start, es[0], true));
    }
  }

  lemma OneElement(vaddr: nat, e: Element, unmap: bool)
    ensures CutElements(vaddr, [e], unmap) == CutElement(vaddr, e, unmap)
  {
    assert [e][1..] == [];
    assert CutElements(vaddr + e.mapSize, [], unmap) == [];
  }

  /** The virtual frames a run of actions touches. */
  ghost function Frames(acts: seq<Action>): set<Frame> {
    set a <- acts :: a.virt
  }

  lemma FramesAppend(a: seq<Action>, b: seq<Action>)
    ensures Frames(a + b) == Frames(a) + Frames(b)
  {
    assert forall x :: x in a + b <==> x in a || x in b;
  }

  // ---------------------------------------------------------------------------------------
  // The iterator

  class PageMappingIterator {
    var zones: seq<Pmit>
    var pindex: nat

    ghost predicate Valid()
      reads this
    {
      pindex <= |zones| && forall z :: z in zones ==> z.Good()
    }

    /** The actions still to come. */
    ghost function Rest(): seq<Action>
      requires Valid()
      reads this
    {
      CutPieces(zones[pindex..])
    }

    /** `new`: unmaps what was popped since the last sync, then maps what was pushed. */
    constructor New(layout: VirtLayout, vaddr: nat)
      requires layout.Valid() && vaddr % 0x1000 == 0
      ensures Valid()
      ensures Rest() ==
        CutQueue(vaddr + layout.cleanSize, layout.deallocQue)
        + CutElements(vaddr + SizeOf(layout.data[..layout.dirtyIndex]), layout.data[layout.dirtyIndex..], false)
    {
      hide CutElement, CutElements, CutQueue, CutPieces, SizeOf, Element.Good;
      CleanAligned(layout, vaddr);
      var ps := ChangedPieces(layout.deallocQue, layout.data[layout.dirtyIndex..], vaddr + layout.cleanSize);
      zones := ps;
      pindex := 0;
      new;
      assert zones[0..] == zones;
    }

    /** `new_unmapper`: unmaps everything that is in the page tables. */
    constructor NewUnmapper(layout: VirtLayout, vaddr: nat)
      requires layout.Valid() && vaddr % 0x1000 == 0
      ensures Valid() && Rest() == CutElements(vaddr, layout.Mapped(), true)
    {
      hide CutElement, CutElements, CutPieces, SizeOf, Pmit.Good, Element.Good;
      var ps := UnmapPieces(layout.data[..layout.dirtyIndex], layout.deallocQue, vaddr);
      zones := ps;
      pindex := 0;
      new;
      assert zones[0..] == zones;
    }

    /** `next`: passes over pieces that are used up, then takes the largest page. */
    method Next() returns (a: Option<Action>)
      requires Valid()
      modifies this
      ensures Valid()
      ensures a == None <==> old(Rest()) == []
      ensures Rest() == if a == None then [] else old(Rest())[1..]
      ensures a.Some? ==> a.value == old(Rest())[0]
    {
      SkipUsedUp();
      if pindex == |zones| {
        a := None;
      } else {
        var z := zones[pindex];
        var s := z.GetTakeSize().value;
        TakePiece(zones, pindex);
        hide Cut, CutPieces;
        a := Some(z.First(s));
        zones := zones[pindex := z.Without(s)];
      }
    }

    /** The inner loop of `next`. */
    method SkipUsedUp()
      requires Valid()
      modifies this`pindex
      ensures Valid() && Rest() == old(Rest())
      ensures pindex < |zones| ==> zones[pindex].GetTakeSize().Some?
    {
      while pindex < |zones| && zones[pindex].GetTakeSize() == None
        invariant pindex <= |zones| && CutPieces(zones[pindex..]) == old(Rest())
        decreases |zones| - pindex
      {
        SkipPiece(zones, pindex);
        pindex := pindex + 1;
      }
    }
  }

  method ChangedPieces(que: seq<Element>, dirty: seq<Element>, end: nat) returns (ps: seq<Pmit>)
    requires AllGood(que) && AllGood(dirty) && SizeOf(que) <= end && end % 0x1000 == 0
    ensures forall z :: z in ps ==> z.Good()
    ensures CutPieces(ps) == CutQueue(end, que) + CutElements(end - SizeOf(que), dirty, false)
  {
    hide CutElement, CutElements, CutQueue, CutPieces, SizeOf, Pmit.Good, Element.Good, AllGood;
    var at;
    ps, at := QueuePieces(que, end);
    ps, at := ElementPieces(ps, at, dirty, false);
  }

  method UnmapPieces(clean: seq<Element>, que: seq<Element>, vaddr: nat) returns (ps: seq<Pmit>)
    requires AllGood(clean) && AllGood(que) && vaddr % 0x1000 == 0
    ensures forall z :: z in ps ==> z.Good()
    ensures CutPieces(ps) == CutElements(vaddr, clean + Reversed(que), true)
  {
    hide CutElement, CutElements, CutPieces, SizeOf, Reversed, Pmit.Good, Element.Good, AllGood;
    var at;
    ps, at := ElementPieces([], vaddr, clean, true);
    ghost var first := CutElements(vaddr, clean, true);
    assert CutPieces(ps) == first by { Prepend(CutPieces([]), first); NoPieces(); }
    ps, at := ReversedPieces(ps, at, que);
    CutElementsAppend(vaddr, clean, Reversed(que), true);
  }

  lemma NoPieces()
    ensures CutPieces([]) == []
  {
  }

  lemma Prepend<T>(x: seq<T>, y: seq<T>)
    ensures x == [] ==> x + y == y
  {
  }

  lemma SkipPiece(zones: seq<Pmit>, i: nat)
    requires i < |zones| && zones[i].GetTakeSize() == None
    ensures CutPieces(zones[i..]) == CutPieces(zones[i + 1..])
  {
    assert zones[i..][1..] == zones[i + 1..];
  }

  /** Taking a page off the current piece takes the first action off what is to come. */
  lemma TakePiece(zones: seq<Pmit>, i: nat)
    requires i < |zones| && zones[i].GetTakeSize().Some? && zones[i].Good()
    ensures
      var s := zones[i].GetTakeSize().value;
      && s.Bytes() <= zones[i].virt.size && s.Bytes() <= zones[i].phys.size
      && zones[i].Without(s).Good()
      && CutPieces(zones[i..]) == [zones[i].First(s)] + CutPieces(zones[i := zones[i].Without(s)][i..])
  {
    var z := zones[i];
    var s := z.GetTakeSize().value;
    TakeSizeIsLargest(z);
    WithoutGood(z, s);
    var zones' := zones[i := z.Without(s)];
    assert zones[i..][1..] == zones[i + 1..] && zones'[i..][1..] == zones[i + 1..];
    assert Cut(z) == [z.First(s)] + Cut(z.Without(s));
  }

  /** The pieces of a queue: each element lies just below the one queued before it. */
  method QueuePieces(que: seq<Element>, end: nat) returns (ps: seq<Pmit>, at: nat)
    requires AllGood(que) && SizeOf(que) <= end && end % 0x1000 == 0
    ensures forall z :: z in ps ==> z.Good()
    ensures CutPieces(ps) == CutQueue(end, que)
    ensures at == end - SizeOf(que) && at % 0x1000 == 0
  {
    hide CutElement, Cut;
    ps, at := [], end;
    for i := 0 to |que|
      invariant SizeOf(que[i..]) <= at && at % 0x1000 == 0 && at - SizeOf(que[i..]) == end - SizeOf(que)
      invariant forall z :: z in ps ==> z.Good()
      invariant CutPieces(ps) + CutQueue(at, que[i..]) == CutQueue(end, que)
    {
      assert que[i..][1..] == que[i + 1..];
      assert que[i] in que;
      MultiplesSubtract(at, que[i].mapSize, 0x1000);
      at := at - que[i].mapSize;
      ps := AddPiece(ps, at, que[i], true, CutQueue(at, que[i + 1..]));
    }
  }

  /** Adds the pieces of elements that lie one after the other. */
  method ElementPieces(ps0: seq<Pmit>, vaddr: nat, es: seq<Element>, unmap: bool) returns (ps: seq<Pmit>, at: nat)
    requires AllGood(es) && vaddr % 0x1000 == 0 && forall z :: z in ps0 ==> z.Good()
    ensures forall z :: z in ps ==> z.Good()
    ensures CutPieces(ps) == CutPieces(ps0) + CutElements(vaddr, es, unmap)
    ensures at == vaddr + SizeOf(es) && at % 0x1000 == 0
  {
    hide CutElement, Cut, CutPieces;
    ps, at := ps0, vaddr;
    for i := 0 to |es|
      invariant at % 0x1000 == 0 && at + SizeOf(es[i..]) == vaddr + SizeOf(es)
      invariant forall z :: z in ps ==> z.Good()
      invariant CutPieces(ps) + CutElements(at, es[i..], unmap) == CutPieces(ps0) + CutElements(vaddr, es, unmap)
    {
      assert es[i..][1..] == es[i + 1..];
      assert es[i] in es;
      ps := AddPiece(ps, at, es[i], unmap, CutElements(at + es[i].mapSize, es[i + 1..], unmap));
      MultiplesAdd(at, es[i].mapSize, 0x1000);
      at := at + es[i].mapSize;
    }
  }

  /** Adds the pieces of a queue to unmap, last queued first, from low to high addresses. */
  method ReversedPieces(ps0: seq<Pmit>, vaddr: nat, que: seq<Element>) returns (ps: seq<Pmit>, at: nat)
    requires AllGood(que) && vaddr % 0x1000 == 0 && forall z :: z in ps0 ==> z.Good()
    ensures forall z :: z in ps ==> z.Good()
    ensures CutPieces(ps) == CutPieces(ps0) + CutElements(vaddr, Reversed(que), true)
  {
    hide CutElement, Cut, CutPieces, SizeOf, Pmit.Good;
    ps, at := ps0, vaddr;
    var j := |que|;
    assert que[..j] == que;
    while j > 0
      invariant 0 <= j <= |que| && at % 0x1000 == 0
      invariant forall z :: z in ps ==> z.Good()
      invariant CutPieces(ps) + CutElements(at, Reversed(que[..j]), true)
        == CutPieces(ps0) + CutElements(vaddr, Reversed(que), true)
    {
      j := j - 1;
      var e := que[j];
      assert e in que;
      assert que[..j + 1] == que[..j] + [e];
      ReversedSnoc(que[..j], e);
      assert Reversed(que[..j + 1])[1..] == Reversed(que[..j]);
      ps := AddPiece(ps, at, e, true, CutElements(at + e.mapSize, Reversed(que[..j]), true));
      MultiplesAdd(at, e.mapSize, 0x1000);
      at := at + e.mapSize;
    }
  }

  lemma CleanAligned(layout: VirtLayout, vaddr: nat)
    requires layout.Valid() && vaddr % 0x1000 == 0
    ensures (vaddr + layout.cleanSize) % 0x1000 == 0
  {
    var es := layout.data[..layout.dirtyIndex];
    assert forall e :: e in es ==> e in layout.data;
    SizeOfAligned(es);
    SizeOfAligned(layout.deallocQue);
    MultiplesAdd(SizeOf(es), SizeOf(layout.deallocQue), 0x1000);
    MultiplesAdd(vaddr, layout.cleanSize, 0x1000);
  }

  /** One step of the loops that list the pieces: elements without pages are passed over. */
  method AddPiece(ps: seq<Pmit>, vaddr: nat, e: Element, unmap: bool, ghost rest: seq<Action>)
    returns (ps': seq<Pmit>)
    requires e.Good() && vaddr % 0x1000 == 0 && forall z :: z in ps ==> z.Good()
    ensures forall z :: z in ps' ==> z.Good()
    ensures CutPieces(ps') + rest == CutPieces(ps) + (CutElement(vaddr, e, unmap) + rest)
  {
    hide Cut;
    ps' := ps;
    match PieceOf(vaddr, e, unmap) {
      case None =>
      case Some(z) =>
        CutPiecesSnoc(ps, z);
        ps' := ps + [z];
        assert CutPieces(ps) + (Cut(z) + rest) == (CutPieces(ps) + Cut(z)) + rest;
    }
  }
}
