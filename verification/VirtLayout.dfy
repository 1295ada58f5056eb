/**
 `VirtLayout` of kernel/src/mem/virt_alloc.rs: the list of memory elements that one virtual
 zone maps, with edits that are not yet carried out in the page tables.
 */
module VirtLayouts {
  import opened Wrappers
  import opened Arith
  import opened AddrRange
  import opened PageTables

  /** `VirtLayoutElementType`; the memory of an allocation is named by its physical range. */
  datatype Backing = Mem(range: Range) | AllocedMem(range: Range) | Reserved(size: nat)

  /** `VirtLayoutElement`; `present` is the present bit of its page table flags. */
  datatype Element = Element(backing: Backing, mapSize: nat, present: bool, flags: PageFlags) {

    /** Sizes and addresses of elements are page aligned. */
    ghost predicate Good() {
      mapSize % 0x1000 == 0 && (backing.Reserved? || backing.range.addr % 0x1000 == 0)
    }

    /** `as_phys_zone`: nothing if no page of this element is to be mapped. */
    function AsPhysZone(): Option<Range> {
      if !present || backing.Reserved? then None
      else Some(Range(backing.range.addr, mapSize))
    }
  }

  datatype AllocType = VirtMem | PhysMap | Shared | Protected

  /** `VirtLayout::size` of a list of elements. */
  function SizeOf(es: seq<Element>): (n: nat) {
    if es == [] then 0 else es[0].mapSize + SizeOf(es[1..])
  }

  lemma {:induction false} SizeOfAppend(a: seq<Element>, b: seq<Element>)
    ensures SizeOf(a + b) == SizeOf(a) + SizeOf(b)
  {
    if a == [] {
      assert a + b == b;
    } else {
      SizeOfAppend(a[1..], b);
      assert (a + b)[1..] == a[1..] + b;
    }
  }

  lemma SizeOfSnoc(a: seq<Element>, e: Element)
    ensures SizeOf(a + [e]) == SizeOf(a) + e.mapSize
  {
    SizeOfAppend(a, [e]);
    assert [e][1..] == [];
  }

  function Reversed(es: seq<Element>): (r: seq<Element>)
    ensures |r| == |es|
  {
    if es == [] then [] else Reversed(es[1..]) + [es[0]]
  }

  lemma {:induction false} ReversedAppend(a: seq<Element>, b: seq<Element>)
    ensures Reversed(a + b) == Reversed(b) + Reversed(a)
  {
    if a == [] {
      assert a + b == b;
    } else {
      ReversedAppend(a[1..], b);
      assert (a + b)[1..] == a[1..] + b;
      assert Reversed(b) + (Reversed(a[1..]) + [a[0]]) == (Reversed(b) + Reversed(a[1..])) + [a[0]];
    }
  }

  lemma ReversedSnoc(a: seq<Element>, e: Element)
    ensures Reversed(a + [e]) == [e] + Reversed(a)
  {
    ReversedAppend(a, [e]);
    assert [e][1..] == [];
    assert Reversed([e]) == [e];
  }

  lemma {:induction false} SizeOfReversed(es: seq<Element>)
    ensures SizeOf(Reversed(es)) == SizeOf(es)
  {
    if es != [] {
      SizeOfReversed(es[1..]);
      SizeOfSnoc(Reversed(es[1..]), es[0]);
    }
  }

  ghost predicate AllGood(es: seq<Element>) {
    forall e :: e in es ==> e.Good()
  }

  lemma {:induction false} ReversedGood(es: seq<Element>)
    requires AllGood(es)
    ensures AllGood(Reversed(es))
  {
    if es != [] {
      assert forall e :: e in es[1..] ==> e in es;
      ReversedGood(es[1..]);
    }
  }

  lemma {:induction false} SizeOfAligned(es: seq<Element>)
    requires AllGood(es)
    ensures SizeOf(es) % 0x1000 == 0
  {
    if es != [] {
      assert forall e :: e in es[1..] ==> e in es;
      SizeOfAligned(es[1..]);
      assert es[0].Good();
    }
  }

  class VirtLayout {
    var data: seq<Element>
    var deallocQue: seq<Element>
    var dirtyIndex: nat
    var cleanSize: nat
    const atype: AllocType

    /** The elements that are in the page tables, in the order of their addresses. */
    ghost function Mapped(): seq<Element>
      reads this
    {
      (if dirtyIndex <= |data| then data[..dirtyIndex] else []) + Reversed(deallocQue)
    }

    /** `clean_size` accounts for exactly the elements that are in the page tables. */
    ghost predicate Valid()
      reads this
    {
      && dirtyIndex <= |data|
      && AllGood(data) && AllGood(deallocQue)
      && cleanSize == SizeOf(data[..dirtyIndex]) + SizeOf(deallocQue)
    }

    /** `VirtLayout::from`: nothing is mapped yet. */
    constructor (elements: seq<Element>, atype: AllocType)
      requires AllGood(elements)
      ensures Valid() && data == elements && Mapped() == [] && deallocQue == [] && this.atype == atype
    {
      data := elements;
      deallocQue := [];
      dirtyIndex := 0;
      cleanSize := 0;
      this.atype := atype;
    }

    /** `size` */
    method Size() returns (n: nat)
      ensures n == SizeOf(data)
    {
      n := 0;
      for i := 0 to |data|
        invariant n == SizeOf(data[..i])
      {
        assert data[..i + 1] == data[..i] + [data[i]];
        SizeOfSnoc(data[..i], data[i]);
        n := n + data[i].mapSize;
      }
      assert data[..|data|] == data;
    }

    method Push(e: Element)
      requires Valid() && e.Good()
      modifies this`data
      ensures Valid() && Mapped() == old(Mapped())
      ensures data == old(data) + [e]
    {
      assert (data + [e])[..dirtyIndex] == data[..dirtyIndex];
      data := data + [e];
    }

    /** `pop_delete`: an element that is mapped waits in the queue until the next sync. */
    method PopDelete()
      requires Valid()
      modifies this`data, this`deallocQue, this`dirtyIndex
      ensures Valid() && Mapped() == old(Mapped())
      ensures data == if old(data) == [] then [] else old(data)[..|old(data)| - 1]
      ensures deallocQue == if old(data) != [] && old(dirtyIndex) == |old(data)|
        then old(deallocQue) + [old(data)[|old(data)| - 1]] else old(deallocQue)
    {
      if |data| > 0 {
        var elem := data[|data| - 1];
        ghost var was := data;
        data := data[..|data| - 1];
        if |data| < dirtyIndex {
          assert was[..dirtyIndex] == data + [elem];
          SizeOfSnoc(data, elem);
          SizeOfSnoc(deallocQue, elem);
          ReversedSnoc(deallocQue, elem);
          assert data + ([elem] + Reversed(deallocQue)) == (data + [elem]) + Reversed(deallocQue);
          deallocQue := deallocQue + [elem];
          dirtyIndex := |data|;
          assert data[..dirtyIndex] == data;
        } else {
          assert data[..dirtyIndex] == was[..dirtyIndex];
        }
      }
    }

    /** `sync_mem`: the page tables now hold exactly the elements of `data`. */
    method SyncMem()
      requires Valid()
      modifies this`deallocQue, this`dirtyIndex, this`cleanSize
      ensures Valid() && Mapped() == data && deallocQue == [] && dirtyIndex == |data|
    {
      var i := dirtyIndex;
      while i < |data|
        invariant dirtyIndex <= i <= |data|
        invariant dirtyIndex == old(dirtyIndex) && deallocQue == old(deallocQue)
        invariant cleanSize == SizeOf(data[..i]) + SizeOf(deallocQue)
      {
        assert data[..i + 1] == data[..i] + [data[i]];
        SizeOfSnoc(data[..i], data[i]);
        cleanSize := cleanSize + data[i].mapSize;
        i := i + 1;
      }
      dirtyIndex := |data|;
      assert data[..|data|] == data;
      var j := 0;
      while j < |deallocQue|
        invariant 0 <= j <= |deallocQue|
        invariant dirtyIndex == |data| && deallocQue == old(deallocQue)
        invariant cleanSize == SizeOf(data) + SizeOf(deallocQue[j..])
      {
        assert deallocQue[j..][1..] == deallocQue[j + 1..];
        cleanSize := cleanSize - deallocQue[j].mapSize;
        j := j + 1;
      }
      deallocQue := [];
    }

    /** `mark_unmapped`: nothing of this layout is in the page tables any more. */
    method MarkUnmapped()
      requires Valid()
      modifies this`deallocQue, this`dirtyIndex, this`cleanSize
      ensures Valid() && Mapped() == [] && deallocQue == [] && dirtyIndex == 0
    {
      dirtyIndex := 0;
      cleanSize := 0;
      deallocQue := [];
    }

    /**
     `revert`: restores the list of elements of the last sync.  `dirty_index` is not restored,
     so the layout stays consistent exactly when the elements popped since then had no size.
     */
    method Revert()
      requires Valid()
      modifies this`data, this`deallocQue
      ensures data == old(Mapped()) && deallocQue == [] && dirtyIndex <= |data|
      ensures Mapped() == old(data[..dirtyIndex])
      ensures Valid() <==> SizeOf(old(deallocQue)) == 0
    {
      while |data| > dirtyIndex
        invariant dirtyIndex <= |data| <= |old(data)| && data == old(data)[..|data|]
        invariant deallocQue == old(deallocQue)
      {
        data := data[..|data| - 1];
      }
      var i := |deallocQue|;
      ReversedGood(deallocQue);
      assert deallocQue[i..] == [];
      while i > 0
        invariant 0 <= i <= |deallocQue| && deallocQue == old(deallocQue)
        invariant data == old(data)[..dirtyIndex] + Reversed(deallocQue[i..])
      {
        i := i - 1;
        assert deallocQue[i..] == [deallocQue[i]] + deallocQue[i + 1..];
        assert deallocQue[i..][1..] == deallocQue[i + 1..];
        data := data + [deallocQue[i]];
      }
      assert deallocQue[0..] == deallocQue;
      deallocQue := [];
      assert data[..dirtyIndex] == old(data)[..dirtyIndex];
    }
  }

  /** One of the two edits a caller of `remap` can make to a layout. */
  datatype Edit = PushElement(e: Element) | PopElement

  /** What a run of edits makes of the elements, of how many are clean, and of the queue. */
  datatype Edits = Edits(data: seq<Element>, clean: nat, que: seq<Element>)

  ghost function Edited(s: Edits, edits: seq<Edit>): Edits
    decreases |edits|
  {
    if edits == [] then s else Edited(EditOnce(s, edits[0]), edits[1..])
  }

  ghost function EditOnce(s: Edits, e: Edit): Edits {
    match e
    case PushElement(x) => s.(data := s.data + [x])
    case PopElement =>
      if s.data == [] then s
      else
        var last, rest := s.data[|s.data| - 1], s.data[..|s.data| - 1];
        if s.clean == |s.data| then Edits(rest, |rest|, s.que + [last]) else s.(data := rest)
  }

  ghost predicate GoodEdits(edits: seq<Edit>) {
    forall e :: e in edits && e.PushElement? ==> e.e.Good()
  }

  /** A caller's `alloc_func`: it pushes and pops elements through the layout's own methods. */
  method EditLayout(layout: VirtLayout, edits: seq<Edit>)
    requires layout.Valid() && GoodEdits(edits)
    modifies layout
    ensures layout.Valid() && layout.Mapped() == old(layout.Mapped())
    ensures Edits(layout.data, layout.dirtyIndex, layout.deallocQue)
      == Edited(old(Edits(layout.data, layout.dirtyIndex, layout.deallocQue)), edits)
  {
    for i := 0 to |edits|
      invariant layout.Valid() && layout.Mapped() == old(layout.Mapped())
      invariant Edited(Edits(layout.data, layout.dirtyIndex, layout.deallocQue), edits[i..])
        == Edited(old(Edits(layout.data, layout.dirtyIndex, layout.deallocQue)), edits)
    {
      assert edits[i..][0] == edits[i] && edits[i..][1..] == edits[i + 1..];
      assert edits[i] in edits;
      match edits[i] {
        case PushElement(e) => layout.Push(e);
        case PopElement => layout.PopDelete();
      }
    }
  }
}
