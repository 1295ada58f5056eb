/**
 `VirtMapper` of kernel/src/mem/virt_alloc.rs: an address space as a sorted map from zones to
 layouts, kept in step with its page tables.
 */
module VirtMappers {
  import opened Wrappers
  import opened Arith
  import opened AddrRange
  import opened PageTables
  import opened VirtLayouts
  import opened PageMapping
  import opened MappedLeaves
  import opened FaithfulRuns
  import opened ZoneKeys
  import opened ZoneMap

  datatype MemErr =
    | EmptyMapping      // "tryed to map page of size zero"
    | SizeMismatch      // "phys_zones and virt_zone size did not match"
    | InvalidZone       // "invalid virt zone passed to map_at"
    | NoSpace           // no room in the address space; edits are reverted
    | NotMapped         // "invalid virt zone passed to remap"
    | WrongType         // "memory type does not match passed atype"
    | AllocFailed       // the error of `alloc_func`

  class VirtMapper {
    /** The `BTreeMap`: its keys in order, and the layout of each. */
    var keys: seq<Range>
    var layouts: seq<VirtLayout>
    const space: AddressSpace
    const maxMapAddr: nat

    /** The elements of each zone that are in the page tables. */
    ghost function MappedLists(): (m: seq<Elements>)
      reads this, layouts
      ensures |m| == |layouts|
    {
      seq(|layouts|, i requires 0 <= i < |layouts| reads this, layouts => layouts[i].Mapped())
    }

    ghost predicate Valid()
      reads this, layouts, space
    {
      && |keys| == |layouts|
      && (forall i, j :: 0 <= i < j < |layouts| ==> layouts[i] != layouts[j])
      && (forall i :: 0 <= i < |layouts| ==> layouts[i].Valid())
      && space.Valid()
      && Consistent(keys, MappedLists(), space.leaves, maxMapAddr)
    }

    /** The page tables hold the elements of zone `i`, whatever its layout says of how many are clean. */
    ghost predicate HoldsData(i: nat)
      reads this, layouts, space
    {
      && |keys| == |layouts| && i < |layouts| && space.Valid()
      && Consistent(keys, MappedLists()[i := layouts[i].data], space.leaves, maxMapAddr)
    }

    /**
     The source has freed the same page tables so far, and will if these pages are unmapped now:
     without them, every table has more entries in use than its packed count is behind.
     */
    ghost predicate Spares(unmaps: seq<Action>)
      reads this, space
    {
      space.faithful && Ahead(space.Lags(), Apply(space.leaves, unmaps))
    }

    constructor (maxMapAddr: nat)
      requires PAGE_SIZE <= maxMapAddr <= MAX_USER_ADDR
      ensures Valid() && keys == [] && fresh(space) && this.maxMapAddr == maxMapAddr
      ensures space.faithful && space.history == []
    {
      keys := [];
      layouts := [];
      space := new AddressSpace();
      this.maxMapAddr := maxMapAddr;
    }

    /** `map_internal` */
    method MapInternal(iter: PageMappingIterator)
      requires iter.Valid() && space.Valid() && Legal(space.leaves, iter.Rest())
      modifies iter, space
      ensures space.Valid() && space.leaves == Apply(old(space.leaves), old(iter.Rest()))
      ensures space.history == old(space.history) + Events(old(iter.Rest()))
    {
      hide AddressSpace.Valid, Legal, Apply, Step, StepLegal, Events, EventOf;
      ghost var acts := iter.Rest();
      var action := iter.Next();
      LegalOne(space.leaves, acts);
      ActsLeft(space.history, acts);
      while action.Some?
        invariant iter.Valid() && space.Valid()
        invariant action.Some? ==>
          StepLegal(space.leaves, action.value) && Legal(Step(space.leaves, action.value), iter.Rest())
          && Apply(Step(space.leaves, action.value), iter.Rest()) == Apply(old(space.leaves), acts)
          && space.history + [EventOf(action.value)] + Events(iter.Rest()) == old(space.history) + Events(acts)
        invariant action.None? ==>
          space.leaves == Apply(old(space.leaves), acts) && space.history == old(space.history) + Events(acts)
        decreases if action.None? then 0 else 1 + |iter.Rest()|
      {
        CarryOutOne(action.value);
        LegalOne(space.leaves, iter.Rest());
        ActsLeft(space.history, iter.Rest());
        action := iter.Next();
      }
    }

    /** One round of that loop. */
    method CarryOutOne(action: Action)
      requires space.Valid() && StepLegal(space.leaves, action)
      modifies space
      ensures space.Valid() && space.leaves == Step(old(space.leaves), action)
      ensures space.history == old(space.history) + [EventOf(action)]
      ensures action.Map? ==> space.faithful == old(space.faithful)
    {
      hide AddressSpace.Valid;
      var f := action.virt;
      PosOfAligned(f);
      match action {
        case Map(_, paddr, flags) => space.MapFrame(PosOf(f), f.start, Pte(paddr, flags));
        case Unmap(_) => space.UnmapFrame(PosOf(f), f.start);
      }
    }

    /**
     The steps that map, map_at, remap and remap_at share: carry out the edits of a layout at
     an address and sync it.
     */
    method CarryOut(layout: VirtLayout, addr: nat)
      requires layout.Valid() && space.Valid() && addr % 0x1000 == 0
      requires Legal(space.leaves, PendingActs(layout, addr))
      modifies space, layout`deallocQue, layout`dirtyIndex, layout`cleanSize
      ensures space.Valid() && space.leaves == Apply(old(space.leaves), old(PendingActs(layout, addr)))
      ensures space.history == old(space.history) + Events(old(PendingActs(layout, addr)))
      ensures layout.Valid() && layout.Mapped() == layout.data && layout.deallocQue == []
    {
      hide Legal, Apply, CutElements, CutQueue, Events;
      var iter := new PageMappingIterator.New(layout, addr);
      MapInternal(iter);
      layout.SyncMem();
    }

    /** The steps that remap, remap_at and unmap share: unmap all of a layout. */
    method TakeDown(layout: VirtLayout, addr: nat)
      requires layout.Valid() && space.Valid() && addr % 0x1000 == 0
      requires Legal(space.leaves, CutElements(addr, layout.Mapped(), true))
      modifies space, layout`deallocQue, layout`dirtyIndex, layout`cleanSize
      ensures space.Valid() && space.leaves == Apply(old(space.leaves), old(CutElements(addr, layout.Mapped(), true)))
      ensures space.history == old(space.history) + Events(old(CutElements(addr, layout.Mapped(), true)))
      ensures Unmapped(layout)
    {
      hide Legal, Apply, CutElements, Events;
      var iter := new PageMappingIterator.NewUnmapper(layout, addr);
      MapInternal(iter);
      layout.MarkUnmapped();
    }

    /** `BTreeMap::insert` of a key that is not in the map. */
    method Insert(zone: Range, layout: VirtLayout)
      modifies this`keys, this`layouts
      requires |keys| == |layouts|
      ensures keys == Inserted(old(keys), zone)
      ensures layouts == InsertedAt(old(layouts), Rank(old(keys), zone), layout)
    {
      var k := Rank(keys, zone);
      keys := Inserted(keys, zone);
      layouts := InsertedAt(layouts, k, layout);
    }

    /** `BTreeMap::remove` of the key at index `i`. */
    method Remove(i: nat) returns (layout: VirtLayout)
      requires |keys| == |layouts| && i < |keys|
      modifies this`keys, this`layouts
      ensures layout == old(layouts[i])
      ensures keys == WithoutAt(old(keys), i) && layouts == WithoutAt(old(layouts), i)
    {
      layout := layouts[i];
      keys := WithoutAt(keys, i);
      layouts := WithoutAt(layouts, i);
    }

    /** Maps a layout none of which is mapped into a free zone, and inserts it. */
    method InstallZone(layout: VirtLayout, zone: Range)
      requires Valid() && layout !in layouts && Unmapped(layout)
      requires Free(keys, zone, PAGE_SIZE, maxMapAddr) && zone.size > 0 && zone.PageAligned()
      requires SizeOf(layout.data) == zone.size
      modifies this`keys, this`layouts, space, layout`deallocQue, layout`dirtyIndex, layout`cleanSize
      ensures Valid() && keys == Inserted(old(keys), zone) && layout.deallocQue == []
      ensures space.history == old(space.history) + Events(CutElements(zone.addr, layout.data, false))
      ensures layouts == InsertedAt(old(layouts), Rank(old(keys), zone), layout)
      ensures MappedLists() == InsertedAt(old(MappedLists()), Rank(old(keys), zone), layout.data)
    {
      hide Consistent, Inserted, Rank, Legal, Apply, CutElements, CutQueue, SizeOf, Free, AllGood, AddressSpace.Valid,
        Events, PendingActs, VirtLayout.Mapped;
      ghost var lists := MappedLists();
      MapZone(keys, lists, space.leaves, maxMapAddr, zone, layout.data);
      NothingQueued(layout, zone.addr);
      CarryOut(layout, zone.addr);
      Insert(zone, layout);
      assert MappedLists() == InsertedAt(lists, Rank(old(keys), zone), layout.data);
      assert forall i, j :: 0 <= i < j < |layouts| ==> layouts[i] != layouts[j];
      assert forall i :: 0 <= i < |layouts| ==> layouts[i].Valid();
    }

    /** Unmaps all of the zone at index `i`, and removes it. */
    method UninstallZone(i: nat) returns (layout: VirtLayout)
      requires Valid() && i < |keys|
      modifies this`keys, this`layouts, space, layouts[i]
      ensures Valid() && layout == old(layouts[i]) && Unmapped(layout) && layout !in layouts
      ensures space.history == old(space.history) + Events(CutElements(old(keys[i].addr), old(MappedLists()[i]), true))
      ensures layout.data == old(layouts[i].data)
      ensures keys == WithoutAt(old(keys), i) && layouts == WithoutAt(old(layouts), i)
      ensures MappedLists() == WithoutAt(old(MappedLists()), i)
    {
      hide Legal, Apply, CutElements, AllGood, AddressSpace.Valid, Events, Consistent, SizeOf;
      ghost var lists := MappedLists();
      UnmapZone(keys, lists, space.leaves, maxMapAddr, i);
      var addr := keys[i].addr;
      ZoneAligned(keys, lists, space.leaves, maxMapAddr, i);
      layout := Remove(i);
      TakeDown(layout, addr);
      assert MappedLists() == WithoutAt(lists, i);
      assert forall j :: 0 <= j < |layouts| ==> layouts[j].Valid();
    }

    /** `map`: maps a layout into the lowest gap that is large enough. */
    method Map(layout: VirtLayout) returns (r: Result<Range, MemErr>)
      requires Valid() && layout !in layouts && Unmapped(layout)
      modifies this`keys, this`layouts, space, layout`deallocQue, layout`dirtyIndex, layout`cleanSize
      ensures Valid() && space.faithful == old(space.faithful)
      ensures space.history == old(space.history)
        + (if r.Ok? then Events(CutElements(r.value.addr, layout.data, false)) else [])
      ensures r.Ok? ==> Laid(space, r.value.addr, layout.data)
      ensures r.Ok? ==>
        && LowestGap(old(keys), r.value, maxMapAddr) && r.value.size == SizeOf(layout.data) && layout.deallocQue == []
        && keys == Inserted(old(keys), r.value)
        && layouts == InsertedAt(old(layouts), Rank(old(keys), r.value), layout)
        && MappedLists() == InsertedAt(old(MappedLists()), Rank(old(keys), r.value), layout.data)
      ensures r.Err? ==> keys == old(keys) && layouts == old(layouts) && MappedLists() == old(MappedLists())
      ensures r == Err(EmptyMapping) <==> SizeOf(layout.data) == 0
      ensures r.Err? && r.error != EmptyMapping ==>
        r.error == NoSpace && NoGap(old(keys), SizeOf(layout.data), maxMapAddr)
    {
      hide SizeOf, KeysFrom, Inserted, Rank, AddressSpace.Valid, Events, Free, Filled, AllActs, Leaves, Laid;
      var size := layout.Size();
      if size == 0 {
        return Err(EmptyMapping);
      }
      SizeOfAligned(layout.data);
      var zone := FindRange(keys, size, maxMapAddr);
      if zone.None? {
        return Err(NoSpace);
      }
      GoodLayout(layout, zone.value.addr);
      HistorySays(space);
      InstallZone(layout, zone.value);
      HistorySays(space);
      AfterSets(old(space.history), Events(CutElements(zone.value.addr, layout.data, false)));
      NewZoneLaid(this, old(keys), old(MappedLists()), zone.value, layout.data);
      r := Ok(zone.value);
    }

    /** `map_at`: maps a layout at the zone given, if it is free. */
    method MapAt(layout: VirtLayout, virtZone: Range) returns (r: Result<Range, MemErr>)
      requires Valid() && layout !in layouts && Unmapped(layout)
      modifies this`keys, this`layouts, space, layout`deallocQue, layout`dirtyIndex, layout`cleanSize
      ensures Valid() && space.faithful == old(space.faithful)
      ensures space.history == old(space.history)
        + (if r.Ok? then Events(CutElements(r.value.addr, layout.data, false)) else [])
      ensures r.Ok? ==> Laid(space, r.value.addr, layout.data)
      ensures r.Ok? <==>
        && virtZone.Aligned().size == SizeOf(layout.data) > 0
        && Free(old(keys), virtZone.Aligned(), PAGE_SIZE, maxMapAddr)
      ensures r.Ok? ==>
        && r.value == virtZone.Aligned() && layout.deallocQue == []
        && keys == Inserted(old(keys), r.value)
        && layouts == InsertedAt(old(layouts), Rank(old(keys), r.value), layout)
        && MappedLists() == InsertedAt(old(MappedLists()), Rank(old(keys), r.value), layout.data)
      ensures r.Err? ==> keys == old(keys) && layouts == old(layouts) && MappedLists() == old(MappedLists())
      ensures r.Err? ==>
        r.error == (if SizeOf(layout.data) != virtZone.Aligned().size then SizeMismatch
                    else if SizeOf(layout.data) == 0 then EmptyMapping
                    else InvalidZone)
    {
      hide SizeOf, KeysFrom, Inserted, Rank, FreeSpace, Laid, AddressSpace.Valid, Events, Range.Aligned;
      var zone := virtZone.Aligned();
      AlignedIsSmallestCover(virtZone);
      var size := layout.Size();
      if size != zone.size {
        return Err(SizeMismatch);
      }
      if size == 0 {
        return Err(EmptyMapping);
      }
      FreeSpaceExact(keys, zone, None, maxMapAddr);
      if FreeSpace(keys, zone, None, maxMapAddr) == None {
        return Err(InvalidZone);
      }
      GoodLayout(layout, zone.addr);
      HistorySays(space);
      InstallZone(layout, zone);
      HistorySays(space);
      AfterSets(old(space.history), Events(CutElements(zone.addr, layout.data, false)));
      NewZoneLaid(this, old(keys), old(MappedLists()), zone, layout.data);
      r := Ok(zone);
    }

    /** `unmap`: takes a zone out of the address space and hands back its layout. */
    method Unmap(virtZone: Range, atype: AllocType) returns (r: Result<VirtLayout, MemErr>, ghost i: nat)
      requires Valid()
      modifies this`keys, this`layouts, space, layouts
      ensures Valid()
      ensures r.Err? ==> space.history == old(space.history) && space.faithful == old(space.faithful)
      ensures r.Ok? ==>
        && i < |old(keys)| && i < |old(layouts)|
        && var unmaps := CutElements(virtZone.addr, old(MappedLists()[i]), true);
        && space.history == old(space.history) + Events(unmaps) && space.Lags() == old(space.Lags())
        && (space.faithful <==> old(Spares(unmaps)))
      ensures r.Ok? <==> virtZone in old(keys) && old(AtypeOf(virtZone)) == atype
      ensures r.Err? ==>
        && keys == old(keys) && layouts == old(layouts) && MappedLists() == old(MappedLists())
        && r.error == if virtZone in old(keys) then WrongType else NotMapped
      ensures r.Ok? ==>
        && i < |old(keys)| && old(keys)[i] == virtZone && i < |old(layouts)|
        && r.value == old(layouts)[i] && Unmapped(r.value) && r.value.data == old(layouts[i].data)
        && keys == WithoutAt(old(keys), i) && MappedLists() == WithoutAt(old(MappedLists()), i)
    {
      hide Consistent, AddressSpace.Valid, Events;
      FindZone(keys, MappedLists(), space.leaves, maxMapAddr, virtZone);
      var at := Lookup(keys, virtZone);
      if at.None? {
        return Err(NotMapped), 0;
      }
      if layouts[at.value].atype != atype {
        return Err(WrongType), 0;
      }
      ghost var unmaps := CutElements(virtZone.addr, MappedLists()[at.value], true);
      ZoneUnmaps(keys, MappedLists(), space.leaves, maxMapAddr, at.value);
      HistorySays(space);
      UnmapsThenMaps(space.history, unmaps, []);
      var layout := UninstallZone(at.value);
      HistorySays(space);
      assert unmaps + [] == unmaps;
      r, i := Ok(layout), at.value;
    }

    /** How remap and remap_at find their zone: by its exact range, and only of the right type. */
    method OpenZone(zone: Range, atype: AllocType) returns (r: Result<nat, MemErr>)
      requires Valid()
      ensures r.Ok? <==> zone in keys && AtypeOf(zone) == atype
      ensures r.Ok? ==> r.value < |keys| && keys[r.value] == zone
      ensures r.Err? ==> r.error == if zone in keys then WrongType else NotMapped
    {
      hide Consistent, AddressSpace.Valid, Events;
      FindZone(keys, MappedLists(), space.leaves, maxMapAddr, zone);
      var at := Lookup(keys, zone);
      if at.None? {
        return Err(NotMapped);
      }
      if layouts[at.value].atype != atype {
        return Err(WrongType);
      }
      r := Ok(at.value);
    }

    /** The caller's `alloc_func` edits the layout of a zone in place. */
    method EditZone(i: nat, edits: seq<Edit>)
      requires Valid() && i < |keys| && GoodEdits(edits)
      modifies layouts[i]
      ensures Valid() && MappedLists() == old(MappedLists())
      ensures EditsOf(layouts[i]) == Edited(old(EditsOf(layouts[i])), edits)
    {
      hide Consistent, AddressSpace.Valid, Events, Edited;
      ghost var lists := MappedLists();
      EditLayout(layouts[i], edits);
      assert forall j :: 0 <= j < |layouts| ==> layouts[j].Valid();
      assert MappedLists() == lists;
    }

    /** Carries out the edits of a zone where it is; the zone takes its new size, or goes. */
    method ResizeZone(i: nat)
      requires Valid() && i < |keys|
      requires
        var r := Range(keys[i].addr, SizeOf(layouts[i].data));
        r.size == 0 || FreeBut(keys, r, PAGE_SIZE, maxMapAddr, Some(keys[i]))
      modifies this`keys, this`layouts, space, layouts[i]
      ensures Valid()
      ensures space.history == old(space.history) + Events(old(PendingActs(layouts[i], keys[i].addr)))
      ensures
        var es := old(layouts[i].data);
        var r := Range(old(keys[i].addr), SizeOf(es));
        if r.size == 0 then
          && keys == WithoutAt(old(keys), i) && layouts == WithoutAt(old(layouts), i)
          && MappedLists() == WithoutAt(old(MappedLists()), i)
        else
          && keys == Inserted(WithoutAt(old(keys), i), r) && layouts == old(layouts)
          && MappedLists() == old(MappedLists())[i := es]
    {
      hide Consistent, AddressSpace.Valid, Events, Legal, Apply, SizeOf, Free, FreeBut, Inserted, Rank,
        PendingActs, VirtLayout.Mapped, VirtLayout.Valid;
      ghost var lists := MappedLists();
      ghost var es := layouts[i].data;
      ResizeReady(i);
      var zone := keys[i];
      var size := layouts[i].Size();
      var layout := Remove(i);
      CarryOut(layout, zone.addr);
      if size > 0 {
        Insert(Range(zone.addr, size), layout);
        assert layouts == old(layouts);
        assert MappedLists() == lists[i := es];
      } else {
        assert MappedLists() == WithoutAt(lists, i);
      }
    }

    lemma ResizeReady(i: nat)
      requires Valid() && i < |keys|
      requires
        var r := Range(keys[i].addr, SizeOf(layouts[i].data));
        r.size == 0 || FreeBut(keys, r, PAGE_SIZE, maxMapAddr, Some(keys[i]))
      ensures keys[i].addr % 0x1000 == 0
      ensures
        var es := layouts[i].data;
        var r := Range(keys[i].addr, SizeOf(es));
        var acts := PendingActs(layouts[i], r.addr);
        && Legal(space.leaves, acts)
        && if r.size == 0 then Consistent(WithoutAt(keys, i), WithoutAt(MappedLists(), i), Apply(space.leaves, acts),
          maxMapAddr)
           else
             && Rank(WithoutAt(keys, i), r) == i
             && Consistent(Inserted(WithoutAt(keys, i), r), MappedLists()[i := es], Apply(space.leaves, acts),
               maxMapAddr)
    {
      hide Consistent, AddressSpace.Valid, Events, Legal, Apply, CutElements, CutQueue, SizeOf, FreeBut,
        AllGood, Inserted, Rank;
      var lists, l := MappedLists(), layouts[i];
      var clean, dirty := l.data[..l.dirtyIndex], l.data[l.dirtyIndex..];
      assert l.Valid() && clean + dirty == l.data && lists[i] == clean + Reversed(l.deallocQue);
      PartsGood(l);
      ResyncZone(keys, lists, space.leaves, maxMapAddr, i, clean, l.deallocQue, dirty);
      ZoneAligned(keys, lists, space.leaves, maxMapAddr, i);
      assert InsertedAt(WithoutAt(lists, i), i, l.data) == lists[i := l.data];
    }

    /**
     What a failed remap leaves behind: the elements of the last sync, which the page tables
     still hold.  The layout knows how much of it is mapped exactly when the elements popped
     meanwhile had no size.
     */
    method RevertZone(i: nat)
      requires Valid() && i < |keys|
      modifies layouts[i]
      ensures layouts[i].data == old(MappedLists()[i]) && HoldsData(i)
      ensures Valid() <==> SizeOf(old(layouts[i].deallocQue)) == 0
    {
      hide Consistent, AddressSpace.Valid, Events, AllGood, SizeOf;
      ghost var lists := MappedLists();
      ghost var l := layouts[i];
      ghost var clean, que := l.data[..l.dirtyIndex], l.deallocQue;
      assert l.Valid() && lists[i] == clean + Reversed(que);
      PartsGood(l);
      if SizeOf(que) == 0 {
        RevertHarmless(keys, lists, space.leaves, maxMapAddr, i, clean, que);
      }
      layouts[i].Revert();
      assert MappedLists() == lists[i := clean];
      assert MappedLists()[i := layouts[i].data] == lists;
      assert forall j :: 0 <= j < |layouts| && j != i ==> layouts[j].Valid();
    }

    /**
     `remap`: edits a zone and maps what has become of it: in place if it has grown and there
     is room behind it, else in the lowest gap.
     */
    method Remap(virtZone: Range, atype: AllocType, edits: seq<Edit>, allocOk: bool)
      returns (r: Result<Range, MemErr>, ghost i: nat, ghost s: Edits)
      requires Valid() && GoodEdits(edits)
      modifies this`keys, this`layouts, space, layouts
      ensures r == Err(NoSpace) || Valid()
      // the zone is not found, or its type is wrong: nothing happens
      ensures (r == Err(NotMapped)) <==> (virtZone.Aligned() !in old(keys))
      ensures (r == Err(WrongType)) <==> (virtZone.Aligned() in old(keys) && old(AtypeOf(virtZone.Aligned())) != atype)
      ensures r == Err(NotMapped) || r == Err(WrongType) ==>
        keys == old(keys) && layouts == old(layouts) && MappedLists() == old(MappedLists())
      // otherwise zone `i` is edited
      ensures r != Err(NotMapped) && r != Err(WrongType) ==>
        && i < |old(keys)| && i < |old(layouts)| && old(keys)[i] == virtZone.Aligned()
        && s == Edited(old(EditsOf(layouts[i])), edits)
        && RemapResult(r, old(keys), i, s.data, maxMapAddr, allocOk)
        && (r.Ok? ==> RemappedTo(old(keys), old(MappedLists()), i, s.data, r.value, keys, MappedLists()))
        && (r == Err(AllocFailed) ==> MappedLists() == old(MappedLists()))
        && (r == Err(NoSpace) ==> HoldsData(i) && layouts[i].data == old(MappedLists()[i]))
        && (r == Err(NoSpace) ==> (Valid() <==> SizeOf(s.que) == 0))
      ensures r.Err? ==> keys == old(keys) && layouts == old(layouts) && space.leaves == old(space.leaves)
      ensures r.Err? ==> space.history == old(space.history) && space.faithful == old(space.faithful)
      ensures r.Ok? ==>
        && i < |old(keys)| && i < |old(layouts)|
        && var unmaps := RemapUnmaps(old(keys)[i], old(MappedLists())[i], s, r.value);
        && space.history == old(space.history) + Events(unmaps + RemapMaps(old(keys)[i], s, r.value))
        && (space.faithful <==> old(Spares(unmaps)))
        && (SizeOf(s.data) > 0 ==> Laid(space, r.value.addr, s.data))
    {
      hide Consistent, AddressSpace.Valid, Events, AllGood, SizeOf, Range.Aligned, Edited, RemapResult,
        RemappedTo, RemapUnmaps, RemapMaps, Ahead, Apply, After, Laid;
      var zone := virtZone.Aligned();
      var found := OpenZone(zone, atype);
      if found.Err? {
        return Err(found.error), 0, Edits([], 0, []);
      }
      i := found.value;
      EditZone(found.value, edits);
      s := EditsOf(layouts[i]);
      HistorySays(space);
      RemapKinds(i);
      r := RemapEdited(found.value, allocOk);
      HistorySays(space);
      if r.Ok? {
        UnmapsThenMaps(old(space.history), RemapUnmaps(old(keys)[i], old(MappedLists())[i], s, r.value),
                       RemapMaps(old(keys)[i], s, r.value));
        RemappedLaid(this, old(keys), old(MappedLists()), i, s.data, r.value);
      }
    }

    /** A remap first unmaps and then maps, whatever its answer. */
    lemma RemapKinds(k: nat)
      requires Valid() && k < |keys|
      ensures forall r: Range {:trigger RemapMaps(keys[k], EditsOf(layouts[k]), r)} :: r.addr % 0x1000 == 0 ==>
        && AllUnmap(RemapUnmaps(keys[k], MappedLists()[k], EditsOf(layouts[k]), r))
        && AllMap(RemapMaps(keys[k], EditsOf(layouts[k]), r))
    {
      hide Consistent, AddressSpace.Valid, Events, AllGood, SizeOf, CutElements, CutQueue;
      ZoneAligned(keys, MappedLists(), space.leaves, maxMapAddr, k);
      PartsGood(layouts[k]);
      var s := EditsOf(layouts[k]);
      forall r: Range | r.addr % 0x1000 == 0
        ensures AllUnmap(RemapUnmaps(keys[k], MappedLists()[k], s, r)) && AllMap(RemapMaps(keys[k], s, r))
      {
        ActKinds(keys[k], MappedLists()[k], s, r);
      }
    }

    /** `remap`, once the edits are made. */
    method RemapEdited(k: nat, allocOk: bool) returns (r: Result<Range, MemErr>)
      requires Valid() && k < |keys|
      modifies this`keys, this`layouts, space, layouts[k]
      ensures r == Err(NoSpace) || Valid()
      ensures r != Err(NotMapped) && r != Err(WrongType)
      ensures RemapResult(r, old(keys), k, old(layouts[k].data), maxMapAddr, allocOk)
      ensures r.Ok? ==> RemappedTo(old(keys), old(MappedLists()), k, old(layouts[k].data), r.value, keys, MappedLists())
      ensures r == Err(AllocFailed) ==> MappedLists() == old(MappedLists())
      ensures r.Err? ==> keys == old(keys) && layouts == old(layouts) && space.leaves == old(space.leaves)
      ensures r.Err? ==> space.history == old(space.history) && space.faithful == old(space.faithful)
      ensures r.Ok? ==>
        && r.value.addr % 0x1000 == 0
        && space.history == old(space.history) + Events(old(RemapActs(k, r.value)))
      ensures r == Err(NoSpace) ==> HoldsData(k) && layouts[k].data == old(MappedLists()[k])
      ensures r == Err(NoSpace) ==> (Valid() <==> SizeOf(old(layouts[k].deallocQue)) == 0)
    {
      hide Consistent, AddressSpace.Valid, Events, AllGood, SizeOf, Inserted, FreeSpace, Rank, FreeBut,
        KeysFrom, RemapActs, PendingActs, VirtLayout.Mapped;
      if !allocOk {
        return Err(AllocFailed);
      }
      var zone := keys[k];
      var newSize := layouts[k].Size();
      var nrange := Range(zone.addr, newSize);
      if newSize == 0 {
        StaysActs(k, Range(0, 0));
        ResizeZone(k);
        return Ok(Range(0, 0));
      }
      StaysActs(k, nrange);
      InPlace(keys, MappedLists(), space.leaves, maxMapAddr, k, newSize);
      ZoneAligned(keys, MappedLists(), space.leaves, maxMapAddr, k);
      if FreeSpace(keys, nrange, Some(zone), maxMapAddr).Some? {
        ResizeZone(k);
        return Ok(nrange);
      }
      r := Relocate(k, newSize);
    }

    /** `remap`, if the zone cannot stay where it is. */
    method Relocate(k: nat, newSize: nat) returns (r: Result<Range, MemErr>)
      requires Valid() && k < |keys| && newSize == SizeOf(layouts[k].data) > 0
      modifies this`keys, this`layouts, space, layouts[k]
      ensures r.Ok? ==> Valid() && r.value.size == newSize && LowestGap(old(keys), r.value, maxMapAddr)
      ensures r.Err? ==> r == Err(NoSpace) && NoGap(old(keys), newSize, maxMapAddr)
      ensures r.Ok? <==> !NoGap(old(keys), newSize, maxMapAddr)
      ensures r.Ok? ==>
        && keys == Inserted(WithoutAt(old(keys), k), r.value)
        && MappedLists() == InsertedAt(WithoutAt(old(MappedLists()), k), Rank(WithoutAt(old(keys), k), r.value),
          old(layouts[k].data))
      ensures r.Err? ==> keys == old(keys) && layouts == old(layouts) && space.leaves == old(space.leaves)
      ensures r.Err? ==> space.history == old(space.history) && space.faithful == old(space.faithful)
      ensures r.Ok? ==>
        r.value.addr % 0x1000 == 0 && space.history == old(space.history) + Events(old(RemapActs(k, r.value)))
      ensures r.Err? ==> HoldsData(k) && layouts[k].data == old(MappedLists()[k])
      ensures r.Err? ==> (Valid() <==> SizeOf(old(layouts[k].deallocQue)) == 0)
    {
      hide Consistent, AddressSpace.Valid, Events, AllGood, SizeOf, Inserted, Rank, FreeBut, KeysFrom;
      SizeAligned(layouts[k]);
      KeysOf(keys, MappedLists(), space.leaves, maxMapAddr);
      var newZone := FindRange(keys, newSize, maxMapAddr);
      if newZone.None? {
        RevertZone(k);
        return Err(NoSpace);
      }
      FreeOnceRemoved(keys, k, newZone.value, maxMapAddr);
      assert !NoGap(keys, newSize, maxMapAddr) by {
        assert newZone.value == Range(newZone.value.addr, newSize);
      }
      GapElsewhere(keys, MappedLists(), space.leaves, maxMapAddr, k, newZone.value);
      MoveZone(k, newZone.value);
      return Ok(newZone.value);
    }

    /** Unmaps all of a zone and maps it where there is room. */
    method MoveZone(k: nat, r: Range)
      requires Valid() && k < |keys| && r.size == SizeOf(layouts[k].data) > 0 && r.PageAligned()
      requires Free(WithoutAt(keys, k), r, PAGE_SIZE, maxMapAddr) && r.addr != keys[k].addr
      modifies this`keys, this`layouts, space, layouts[k]
      ensures Valid() && keys == Inserted(WithoutAt(old(keys), k), r)
      ensures MappedLists() ==
        InsertedAt(WithoutAt(old(MappedLists()), k), Rank(WithoutAt(old(keys), k), r), old(layouts[k].data))
      ensures space.history == old(space.history) + Events(old(RemapActs(k, r)))
    {
      hide Consistent, AddressSpace.Valid, Events, AllGood, SizeOf, Inserted, Rank, Free, KeysFrom, CutElements,
        VirtLayout.Mapped, VirtLayout.Valid;
      ghost var unmaps := CutElements(keys[k].addr, MappedLists()[k], true);
      ghost var maps := CutElements(r.addr, layouts[k].data, false);
      assert RemapActs(k, r) == unmaps + maps;
      EventsAppend(unmaps, maps);
      var layout := UninstallZone(k);
      InstallZone(layout, r);
    }

    /** What a remap of zone `k` that answers `r` does to the page tables. */
    ghost function RemapActs(k: nat, r: Range): seq<Action>
      requires |keys| == |layouts| && k < |keys|
      reads this, layouts
    {
      RemapUnmaps(keys[k], MappedLists()[k], EditsOf(layouts[k]), r) + RemapMaps(keys[k], EditsOf(layouts[k]), r)
    }

    /** A zone that stays, or goes altogether. */
    lemma StaysActs(k: nat, r: Range)
      requires Valid() && k < |keys| && (SizeOf(layouts[k].data) == 0 || r.addr == keys[k].addr)
      ensures RemapActs(k, r) == PendingActs(layouts[k], keys[k].addr)
    {
      hide Consistent, AddressSpace.Valid, CutElements, CutQueue, SizeOf, AllGood;
      assert layouts[k].Valid();
    }

    /**
     `remap_at`: edits a zone and maps what has become of it at the address given.  For a zone
     left empty the source unmaps what was popped as if it lay at the target: unless it does,
     or has no pages, the walk goes astray.  The model stops there; whatever it leaves of the page
     tables, they do not agree with the zones that are left.
     */
    method RemapAt(virtZone: Range, targetAddr: nat, atype: AllocType, edits: seq<Edit>, allocOk: bool)
      returns (r: RemapOutcome, ghost i: nat, ghost s: Edits)
      requires Valid() && GoodEdits(edits)
      modifies this`keys, this`layouts, space, layouts
      ensures r == Astray || r == Finished(Err(NoSpace)) || Valid()
      ensures (r == Finished(Err(NotMapped))) <==> (virtZone.Aligned() !in old(keys))
      ensures (r == Finished(Err(WrongType))) <==>
        (virtZone.Aligned() in old(keys) && old(AtypeOf(virtZone.Aligned())) != atype)
      ensures r == Finished(Err(NotMapped)) || r == Finished(Err(WrongType)) ==>
        keys == old(keys) && layouts == old(layouts) && MappedLists() == old(MappedLists())
      ensures r != Finished(Err(NotMapped)) && r != Finished(Err(WrongType)) ==>
        && i < |old(keys)| && i < |old(layouts)| && old(keys)[i] == virtZone.Aligned()
        && s == Edited(old(EditsOf(layouts[i])), edits)
        && RemapAtResult(r, old(keys), i, s, AlignDown(targetAddr, 0x1000), maxMapAddr, allocOk)
        && (r.Finished? && r.result.Ok? ==>
             RemappedTo(old(keys), old(MappedLists()), i, s.data, r.result.value, keys, MappedLists()))
        && (r == Astray ==>
              NeverAgrees(old(keys), old(MappedLists()), old(space.leaves), maxMapAddr, i, s.que,
                          AlignDown(targetAddr, 0x1000)))
        && (r == Finished(Err(AllocFailed)) ==> MappedLists() == old(MappedLists()))
        && (r == Finished(Err(NoSpace)) ==> HoldsData(i) && layouts[i].data == old(MappedLists()[i]))
        && (r == Finished(Err(NoSpace)) ==> (Valid() <==> SizeOf(s.que) == 0))
      ensures r.Finished? && r.result.Err? ==>
        keys == old(keys) && layouts == old(layouts) && space.leaves == old(space.leaves)
      ensures r.Finished? && r.result.Err? ==>
        space.history == old(space.history) && space.faithful == old(space.faithful)
      ensures r.Finished? && r.result.Ok? ==>
        && i < |old(keys)| && i < |old(layouts)|
        && var unmaps := RemapUnmaps(old(keys)[i], old(MappedLists())[i], s, r.result.value);
        && space.history == old(space.history) + Events(unmaps + RemapMaps(old(keys)[i], s, r.result.value))
        && (space.faithful <==> old(Spares(unmaps)))
        && (SizeOf(s.data) > 0 ==> Laid(space, r.result.value.addr, s.data))
    {
      hide Consistent, AddressSpace.Valid, Events, AllGood, SizeOf, Range.Aligned, Edited, RemapAtResult,
        RemappedTo, AlignDown, NeverAgrees, RemapUnmaps, RemapMaps, Ahead, Apply, After, Laid;
      var zone := virtZone.Aligned();
      var target := AlignDown(targetAddr, 0x1000);
      AlignDownIs(targetAddr, 0x1000);
      var found := OpenZone(zone, atype);
      if found.Err? {
        return Finished(Err(found.error)), 0, Edits([], 0, []);
      }
      i := found.value;
      EditZone(found.value, edits);
      s := EditsOf(layouts[i]);
      HistorySays(space);
      RemapKinds(i);
      r := RemapAtEdited(found.value, target, allocOk);
      if r.Finished? && r.result.Ok? {
        HistorySays(space);
        UnmapsThenMaps(old(space.history), RemapUnmaps(old(keys)[i], old(MappedLists())[i], s, r.result.value),
                       RemapMaps(old(keys)[i], s, r.result.value));
        RemappedLaid(this, old(keys), old(MappedLists()), i, s.data, r.result.value);
      }
    }

    /** `remap_at`, once the edits are made. */
    method RemapAtEdited(k: nat, target: nat, allocOk: bool) returns (r: RemapOutcome)
      requires Valid() && k < |keys| && target % 0x1000 == 0
      modifies this`keys, this`layouts, space, layouts[k]
      ensures r == Astray || r == Finished(Err(NoSpace)) || Valid()
      ensures r != Finished(Err(NotMapped)) && r != Finished(Err(WrongType))
      ensures RemapAtResult(r, old(keys), k, old(EditsOf(layouts[k])), target, maxMapAddr, allocOk)
      ensures r.Finished? && r.result.Ok? ==>
        RemappedTo(old(keys), old(MappedLists()), k, old(layouts[k].data), r.result.value, keys, MappedLists())
      ensures r == Finished(Err(AllocFailed)) ==> MappedLists() == old(MappedLists())
      ensures r == Astray ==>
        NeverAgrees(old(keys), old(MappedLists()), old(space.leaves), maxMapAddr, k, old(layouts[k].deallocQue), target)
      ensures r.Finished? && r.result.Err? ==>
        keys == old(keys) && layouts == old(layouts) && space.leaves == old(space.leaves)
      ensures r.Finished? && r.result.Err? ==>
        space.history == old(space.history) && space.faithful == old(space.faithful)
      ensures r.Finished? && r.result.Ok? ==>
        && r.result.value.addr % 0x1000 == 0
        && space.history == old(space.history) + Events(old(RemapActs(k, r.result.value)))
      ensures r == Finished(Err(NoSpace)) ==> HoldsData(k) && layouts[k].data == old(MappedLists()[k])
      ensures r == Finished(Err(NoSpace)) ==> (Valid() <==> SizeOf(old(layouts[k].deallocQue)) == 0)
    {
      hide Consistent, AddressSpace.Valid, Events, AllGood, SizeOf, Inserted, FreeSpace, Rank, FreeBut,
        KeysFrom, HasPages, RemapActs, PendingActs, VirtLayout.Mapped, NeverAgrees;
      if !allocOk {
        return Finished(Err(AllocFailed));
      }
      var zone := keys[k];
      var newSize := layouts[k].Size();
      var nrange := Range(target, newSize);
      if newSize == 0 {
        StaysActs(k, Range(0, 0));
        if target == zone.addr {
          ResizeZone(k);
        } else if HasPages(layouts[k].deallocQue) {
          PoppedStays(k, target);
          return Astray;
        } else {
          DropPagelessZone(k, target);
        }
        return Finished(Ok(Range(0, 0)));
      }
      MovedTo(keys, MappedLists(), space.leaves, maxMapAddr, k, nrange);
      if FreeSpace(keys, nrange, Some(zone), maxMapAddr).Some? {
        if target != zone.addr {
          SizeAligned(layouts[k]);
          MoveZone(k, nrange);
        } else {
          StaysActs(k, nrange);
          ResizeZone(k);
        }
        return Finished(Ok(nrange));
      } else {
        RevertZone(k);
        return Finished(Err(NoSpace));
      }
    }

    lemma PoppedStays(k: nat, target: nat)
      requires Valid() && k < |keys| && target % 0x1000 == 0 && target != keys[k].addr
      requires SizeOf(layouts[k].data) == 0 && HasPages(layouts[k].deallocQue)
      ensures NeverAgrees(keys, MappedLists(), space.leaves, maxMapAddr, k, layouts[k].deallocQue, target)
    {
      hide Consistent, AddressSpace.Valid, SizeOf, HasPages, AllGood, LostWithin, CutQueue;
      var l := layouts[k];
      var clean, dirty, que := l.data[..l.dirtyIndex], l.data[l.dirtyIndex..], l.deallocQue;
      assert l.Valid() && clean + dirty == l.data && MappedLists()[k] == clean + Reversed(que);
      SizeOfAppend(clean, dirty);
      forall leaves' | LostWithin(space.leaves, leaves', Frames(CutQueue(target + SizeOf(que), que)))
        ensures !Consistent(WithoutAt(keys, k), WithoutAt(MappedLists(), k), leaves', maxMapAddr)
      {
        PoppedPageStays(keys, MappedLists(), space.leaves, maxMapAddr, k, clean, que, target, leaves');
      }
    }

    /** A zone left empty whose popped elements have no pages: nothing is unmapped anywhere. */
    method DropPagelessZone(k: nat, target: nat)
      requires Valid() && k < |keys| && target % 0x1000 == 0
      requires SizeOf(layouts[k].data) == 0 && !HasPages(layouts[k].deallocQue)
      modifies this`keys, this`layouts, space, layouts[k]
      ensures Valid() && space.history == old(space.history) && old(PendingActs(layouts[k], keys[k].addr)) == []
      ensures keys == WithoutAt(old(keys), k) && layouts == WithoutAt(old(layouts), k)
      ensures MappedLists() == WithoutAt(old(MappedLists()), k)
    {
      hide Consistent, AddressSpace.Valid, Events, Legal, Apply, SizeOf, AllGood, HasPages, PendingActs;
      ghost var lists := MappedLists();
      ZoneAligned(keys, lists, space.leaves, maxMapAddr, k);
      NothingPending(layouts[k], target);
      NothingPending(layouts[k], keys[k].addr);
      ForgetPageless(keys, lists, space.leaves, maxMapAddr, k);
      NothingToDo(space.leaves);
      var layout := Remove(k);
      CarryOut(layout, target);
      assert MappedLists() == WithoutAt(lists, k);
      assert Events([]) == [];
    }

    /** The allocation type of the zone with this key. */
    ghost function AtypeOf(zone: Range): AllocType
      reads this
    {
      var i := Lookup(keys, zone);
      if i.Some? && i.value < |layouts| then layouts[i.value].atype else VirtMem
    }
  }

  /**
   Elements that lie one after the other from `start` on, as the processor sees them: each address in
   one of them translates to the memory behind it.
   */
  ghost predicate Laid(space: AddressSpace, start: nat, es: Elements)
    reads space
  {
    forall j, addr: nat {:trigger es[j], space.Translate(addr)} ::
      0 <= j < |es| && start + SizeOf(es[..j]) <= addr < start + SizeOf(es[..j]) + es[j].mapSize ==>
        space.Translate(addr) == MemoryAt(es[j], addr - start - SizeOf(es[..j]))
  }

  /** In every valid state that is so of every zone ... */
  lemma EveryZoneLaid(m: VirtMapper, i: nat)
    requires m.Valid() && i < |m.keys|
    ensures Laid(m.space, m.keys[i].addr, m.MappedLists()[i])
  {
    hide AddressSpace.Valid, Consistent, ZoneTranslate, ElementTranslate, MemoryAt, AllGood, After;
    var es, start := m.MappedLists()[i], m.keys[i].addr;
    ZoneAligned(m.keys, m.MappedLists(), m.space.leaves, m.maxMapAddr, i);
    ZonesDisjoint(m);
    forall j, addr: nat {:trigger es[j], m.space.Translate(addr)} |
      0 <= j < |es| && start + SizeOf(es[..j]) <= addr < start + SizeOf(es[..j]) + es[j].mapSize
      ensures m.space.Translate(addr) == MemoryAt(es[j], addr - start - SizeOf(es[..j]))
    {
      ElementInZone(es, j);
      InBounds(m.keys, m.MappedLists(), m.space.leaves, m.maxMapAddr);
      PageTablesFollowZones(m, addr);
      ZoneAddress(m.keys, m.MappedLists(), PAGE_SIZE, m.maxMapAddr, i, addr);
      ElementAddress(start, es, j, addr);
    }
  }

  lemma InBounds(keys: seq<Range>, mapped: seq<Elements>, leaves: map<Pos, Pte>, maxMapAddr: nat)
    requires Consistent(keys, mapped, leaves, maxMapAddr)
    ensures maxMapAddr <= MAX_USER_ADDR && KeysFrom(keys, PAGE_SIZE, maxMapAddr) && |keys| == |mapped|
  {
  }

  /** A zone that has been put in its place among the others. */
  lemma NewZoneLaid(m: VirtMapper, keys: seq<Range>, mapped: seq<Elements>, zone: Range, es: Elements)
    requires m.Valid() && |keys| == |mapped| && m.keys == Inserted(keys, zone)
    requires m.MappedLists() == InsertedAt(mapped, Rank(keys, zone), es)
    ensures Laid(m.space, zone.addr, es)
  {
    hide AddressSpace.Valid, Consistent, Laid;
    var k := Rank(keys, zone);
    assert m.keys[k] == zone && m.MappedLists()[k] == es;
    EveryZoneLaid(m, k);
  }

  /** ... and outside of the zones nothing translates. */
  lemma NothingElseMapped(m: VirtMapper, addr: nat)
    requires m.Valid() && addr < MAX_USER_ADDR && forall z :: z in m.keys ==> !(z.addr <= addr < z.addr + z.size)
    ensures m.space.Translate(addr) == None
  {
    hide AddressSpace.Valid, Consistent, ZoneTranslate, After;
    PageTablesFollowZones(m, addr);
    InBounds(m.keys, m.MappedLists(), m.space.leaves, m.maxMapAddr);
    OutsideZones(m.keys, m.MappedLists(), addr);
  }

  lemma ActsLeft(events: seq<Event>, acts: seq<Action>)
    ensures if acts == [] then events + Events(acts) == events
      else events + [EventOf(acts[0])] + Events(acts[1..]) == events + Events(acts)
  {
    if acts != [] {
      EventsFirst(acts);
    }
  }

  lemma GoodLayout(l: VirtLayout, addr: nat)
    requires l.Valid() && addr % 0x1000 == 0
    ensures forall e :: e in Events(CutElements(addr, l.data, false)) ==> e.SetFrame?
  {
    hide CutElements, Events;
    var acts := CutElements(addr, l.data, false);
    ElementsAscend(addr, l.data, false);
    forall e | e in Events(acts) ensures e.SetFrame? {
      var i :| 0 <= i < |Events(acts)| && Events(acts)[i] == e;
      assert acts[i] in acts;
    }
  }

  lemma ZoneUnmaps(keys: seq<Range>, mapped: seq<Elements>, leaves: map<Pos, Pte>, maxMapAddr: nat, i: nat)
    requires Consistent(keys, mapped, leaves, maxMapAddr) && i < |keys|
    ensures AllUnmap(CutElements(keys[i].addr, mapped[i], true))
  {
    hide CutElements, KeysFrom, AllGood, SizeOf;
    ZoneAligned(keys, mapped, leaves, maxMapAddr, i);
    ElementsAscend(keys[i].addr, mapped[i], true);
  }

  lemma LegalOne(leaves: map<Pos, Pte>, acts: seq<Action>)
    requires Legal(leaves, acts)
    ensures if acts == [] then Apply(leaves, acts) == leaves
      else
        && StepLegal(leaves, acts[0]) && Legal(Step(leaves, acts[0]), acts[1..])
        && Apply(leaves, acts) == Apply(Step(leaves, acts[0]), acts[1..])
  {
  }

  lemma ZoneAligned(keys: seq<Range>, mapped: seq<Elements>, leaves: map<Pos, Pte>, maxMapAddr: nat, i: nat)
    requires Consistent(keys, mapped, leaves, maxMapAddr) && i < |keys|
    ensures keys[i].PageAligned() && keys[i].size > 0 && keys[i].size == SizeOf(mapped[i]) && AllGood(mapped[i])
  {
    KeysBounds(keys, PAGE_SIZE, maxMapAddr);
  }

  lemma FindZone(keys: seq<Range>, mapped: seq<Elements>, leaves: map<Pos, Pte>, maxMapAddr: nat, zone: Range)
    requires Consistent(keys, mapped, leaves, maxMapAddr)
    ensures Lookup(keys, zone).Some? <==> zone in keys
  {
    LookupFinds(keys, PAGE_SIZE, maxMapAddr, zone);
  }

  /**
   The answer of a remap whose zone was found: the empty range for a zone left empty, the same
   place if the zone has grown and the room behind it is free, else the lowest gap; an error
   if the caller's edits failed, or if no gap is large enough.
   */
  ghost predicate RemapResult(r: Result<Range, MemErr>, keys: seq<Range>, i: nat, data: Elements, maxMapAddr: nat,
                              allocOk: bool)
    requires i < |keys|
  {
    var n := SizeOf(data);
    if !allocOk then r == Err(AllocFailed)
    else if n == 0 then r == Ok(Range(0, 0))
    else if n > keys[i].size && FreeBut(keys, Range(keys[i].addr, n), PAGE_SIZE, maxMapAddr, Some(keys[i])) then
      r == Ok(Range(keys[i].addr, n))
    else if NoGap(keys, n, maxMapAddr) then r == Err(NoSpace)
    else r.Ok? && r.value.size == n && LowestGap(keys, r.value, maxMapAddr)
  }

  /**
   Unmapping the popped elements at the target may take away leaves within the frames it goes
   through, but whatever is left never agrees with the zones without zone `i`.
   */
  ghost predicate NeverAgrees(keys: seq<Range>, mapped: seq<Elements>, leaves: map<Pos, Pte>, maxMapAddr: nat, i: nat,
                              que: Elements, target: nat)
    requires |keys| == |mapped| && i < |keys|
  {
    forall leaves' :: LostWithin(leaves, leaves', Frames(CutQueue(target + SizeOf(que), que))) ==>
      !Consistent(WithoutAt(keys, i), WithoutAt(mapped, i), leaves', maxMapAddr)
  }

  datatype RemapOutcome = Finished(result: Result<Range, MemErr>) | Astray

  /** The answer of a remap to a target address whose zone was found. */
  ghost predicate RemapAtResult(r: RemapOutcome, keys: seq<Range>, i: nat, s: Edits, target: nat, maxMapAddr: nat,
                                allocOk: bool)
    requires i < |keys|
  {
    var n, zone := SizeOf(s.data), keys[i];
    var moved := Range(target, n);
    if !allocOk then r == Finished(Err(AllocFailed))
    else if n == 0 then r == if target != zone.addr && HasPages(s.que) then Astray else Finished(Ok(Range(0, 0)))
    else if FreeBut(keys, moved, PAGE_SIZE, maxMapAddr, Some(zone)) && (zone.Before(moved) || moved.Disjoint(zone)) then
      r == Finished(Ok(moved))
    else r == Finished(Err(NoSpace))
  }

  lemma MovedTo(keys: seq<Range>, mapped: seq<Elements>, leaves: map<Pos, Pte>, maxMapAddr: nat, i: nat, r: Range)
    requires Consistent(keys, mapped, leaves, maxMapAddr) && i < |keys| && r.size > 0
    ensures FreeSpace(keys, r, Some(keys[i]), maxMapAddr).Some? <==>
      FreeBut(keys, r, PAGE_SIZE, maxMapAddr, Some(keys[i])) && (keys[i].Before(r) || r.Disjoint(keys[i]))
    ensures FreeBut(keys, r, PAGE_SIZE, maxMapAddr, Some(keys[i])) ==>
      Free(WithoutAt(keys, i), r, PAGE_SIZE, maxMapAddr)
    ensures r.addr == keys[i].addr ==> Rank(WithoutAt(keys, i), r) == i
  {
    FreeSpaceExact(keys, r, Some(keys[i]), maxMapAddr);
    if FreeBut(keys, r, PAGE_SIZE, maxMapAddr, Some(keys[i])) {
      FreeWithout(keys, i, r, maxMapAddr);
    }
    if r.addr == keys[i].addr {
      RankWithout(keys, i, r, maxMapAddr);
    }
  }

  lemma NothingToDo(leaves: map<Pos, Pte>)
    ensures Legal(leaves, []) && Apply(leaves, []) == leaves
  {
  }

  lemma NothingPending(l: VirtLayout, target: nat)
    requires l.Valid() && SizeOf(l.data) == 0 && !HasPages(l.deallocQue) && target % 0x1000 == 0
    ensures PendingActs(l, target) == [] && !HasPages(l.Mapped())
  {
    hide CutElements, CutQueue, HasPages;
    var clean, dirty, que := l.data[..l.dirtyIndex], l.data[l.dirtyIndex..], l.deallocQue;
    assert l.data == clean + dirty;
    PartsGood(l);
    SizeOfAppend(clean, dirty);
    NoSizeNoPages(clean);
    NoSizeNoPages(dirty);
    SizeOfAligned(que);
    MultiplesAdd(target, SizeOf(que), 0x1000);
    QueueWithoutPages(target + SizeOf(que), que);
    NoPagesNoActs(target, dirty, false);
    HasPagesReversed(que);
    HasPagesAppend(clean, Reversed(que));
  }

  /** The clean elements of an edited layout, and those that are to be mapped. */
  ghost function CleanOf(s: Edits): Elements {
    if s.clean <= |s.data| then s.data[..s.clean] else []
  }

  ghost function DirtyOf(s: Edits): Elements {
    if s.clean <= |s.data| then s.data[s.clean..] else []
  }

  /** What a remap that answered `r` unmaps ... */
  ghost function RemapUnmaps(zone: Range, mapped: Elements, s: Edits, r: Range): seq<Action> {
    if SizeOf(s.data) == 0 || r.addr == zone.addr then
      CutQueue(zone.addr + SizeOf(CleanOf(s)) + SizeOf(s.que), s.que)
    else CutElements(zone.addr, mapped, true)
  }

  /** ... and what it then maps: what was popped and pushed if the zone stays or goes, else all of it. */
  ghost function RemapMaps(zone: Range, s: Edits, r: Range): seq<Action> {
    if SizeOf(s.data) == 0 || r.addr == zone.addr then CutElements(zone.addr + SizeOf(CleanOf(s)), DirtyOf(s), false)
    else CutElements(r.addr, s.data, false)
  }

  lemma ActKinds(zone: Range, mapped: Elements, s: Edits, r: Range)
    requires AllGood(mapped) && AllGood(s.data) && AllGood(s.que) && AllGood(CleanOf(s)) && AllGood(DirtyOf(s))
    requires zone.addr % 0x1000 == 0 && r.addr % 0x1000 == 0
    ensures AllUnmap(RemapUnmaps(zone, mapped, s, r)) && AllMap(RemapMaps(zone, s, r))
  {
    hide AllGood, SizeOf, CutElements, CutQueue, AllMap, AllUnmap;
    var mid := zone.addr + SizeOf(CleanOf(s));
    SizeOfAligned(CleanOf(s));
    SizeOfAligned(s.que);
    MultiplesAdd(zone.addr, SizeOf(CleanOf(s)), 0x1000);
    MultiplesAdd(mid, SizeOf(s.que), 0x1000);
    QueueOnce(mid + SizeOf(s.que), s.que);
    ElementsAscend(mid, DirtyOf(s), false);
    ElementsAscend(zone.addr, mapped, true);
    ElementsAscend(r.addr, s.data, false);
  }

  /** What has become of the zones after a remap that answered `r`. */
  ghost predicate RemappedTo(keys: seq<Range>, mapped: seq<Elements>, i: nat, data: Elements,
                             r: Range, keys': seq<Range>, mapped': seq<Elements>)
    requires |keys| == |mapped| && i < |keys|
  {
    if SizeOf(data) == 0 then keys' == WithoutAt(keys, i) && mapped' == WithoutAt(mapped, i)
    else
      && keys' == Inserted(WithoutAt(keys, i), r)
      && mapped' == InsertedAt(WithoutAt(mapped, i), Rank(WithoutAt(keys, i), r), data)
  }

  lemma RemappedLaid(m: VirtMapper, keys: seq<Range>, mapped: seq<Elements>, i: nat, data: Elements, r: Range)
    requires m.Valid() && |keys| == |mapped| && i < |keys|
    requires RemappedTo(keys, mapped, i, data, r, m.keys, m.MappedLists())
    ensures SizeOf(data) > 0 ==> Laid(m.space, r.addr, data)
  {
    hide AddressSpace.Valid, Consistent, Laid, SizeOf, Inserted, Rank;
    if SizeOf(data) > 0 {
      NewZoneLaid(m, WithoutAt(keys, i), WithoutAt(mapped, i), r, data);
    }
  }

  lemma InPlace(keys: seq<Range>, mapped: seq<Elements>, leaves: map<Pos, Pte>, maxMapAddr: nat, i: nat, size: nat)
    requires Consistent(keys, mapped, leaves, maxMapAddr) && i < |keys| && size > 0
    ensures
      var r := Range(keys[i].addr, size);
      FreeSpace(keys, r, Some(keys[i]), maxMapAddr).Some? <==>
        size > keys[i].size && FreeBut(keys, r, PAGE_SIZE, maxMapAddr, Some(keys[i]))
    ensures
      var r := Range(keys[i].addr, size);
      size > keys[i].size && FreeBut(keys, r, PAGE_SIZE, maxMapAddr, Some(keys[i])) ==>
        Rank(WithoutAt(keys, i), r) == i
  {
    var r := Range(keys[i].addr, size);
    if size > keys[i].size {
      GrowInPlaceFree(keys, keys[i], size, maxMapAddr);
      RankWithout(keys, i, r, maxMapAddr);
    } else {
      ShrinkInPlaceNeverFree(keys, keys[i], size, maxMapAddr);
    }
  }

  lemma KeysOf(keys: seq<Range>, mapped: seq<Elements>, leaves: map<Pos, Pte>, maxMapAddr: nat)
    requires Consistent(keys, mapped, leaves, maxMapAddr)
    ensures KeysFrom(keys, PAGE_SIZE, maxMapAddr)
  {
  }

  lemma SizeAligned(l: VirtLayout)
    requires l.Valid()
    ensures SizeOf(l.data) % 0x1000 == 0
  {
    SizeOfAligned(l.data);
  }

  /** A gap is not at the place of a zone. */
  lemma GapElsewhere(keys: seq<Range>, mapped: seq<Elements>, leaves: map<Pos, Pte>, maxMapAddr: nat, i: nat, r: Range)
    requires Consistent(keys, mapped, leaves, maxMapAddr) && i < |keys|
    requires Free(keys, r, PAGE_SIZE, maxMapAddr) && r.size > 0
    ensures r.addr != keys[i].addr
  {
    hide Consistent;
    ZoneAligned(keys, mapped, leaves, maxMapAddr, i);
    assert keys[i] in keys;
  }

  lemma FreeOnceRemoved(keys: seq<Range>, i: nat, r: Range, maxMapAddr: nat)
    requires i < |keys| && Free(keys, r, PAGE_SIZE, maxMapAddr)
    ensures Free(WithoutAt(keys, i), r, PAGE_SIZE, maxMapAddr)
  {
    assert forall k :: k in WithoutAt(keys, i) ==> k in keys;
  }

  ghost function EditsOf(l: VirtLayout): Edits
    reads l
  {
    Edits(l.data, l.dirtyIndex, l.deallocQue)
  }

  lemma PartsGood(l: VirtLayout)
    requires l.Valid()
    ensures AllGood(l.data[..l.dirtyIndex]) && AllGood(l.data[l.dirtyIndex..]) && AllGood(l.deallocQue)
  {
    assert forall e :: e in l.data[..l.dirtyIndex] ==> e in l.data;
    assert forall e :: e in l.data[l.dirtyIndex..] ==> e in l.data;
  }

  /** A free range, and no lower one of its size is free. */
  ghost predicate LowestGap(keys: seq<Range>, r: Range, maxMapAddr: nat) {
    && Free(keys, r, PAGE_SIZE, maxMapAddr)
    && forall a: nat :: a < r.addr ==> !Free(keys, Range(a, r.size), PAGE_SIZE, maxMapAddr)
  }

  ghost predicate NoGap(keys: seq<Range>, size: nat, maxMapAddr: nat) {
    forall a: nat :: !Free(keys, Range(a, size), PAGE_SIZE, maxMapAddr)
  }

  /** The actions that would bring the page tables in step with a layout at `addr`. */
  ghost function PendingActs(layout: VirtLayout, addr: nat): seq<Action>
    requires layout.dirtyIndex <= |layout.data|
    reads layout
  {
    EditActs(addr, layout.data[..layout.dirtyIndex], layout.deallocQue, layout.data[layout.dirtyIndex..])
  }

  /** Nothing of a layout is in the page tables, as when it was made or has been unmapped. */
  ghost predicate Unmapped(layout: VirtLayout)
    reads layout
  {
    layout.Valid() && layout.dirtyIndex == 0 && layout.deallocQue == []
  }

  lemma NothingQueued(layout: VirtLayout, addr: nat)
    requires Unmapped(layout)
    ensures PendingActs(layout, addr) == CutElements(addr, layout.data, false)
  {
    assert layout.data[0..] == layout.data && layout.data[..0] == [];
    assert CutQueue(addr, []) == [];
  }

  /**
   In every valid state the processor translates an address exactly as the zones say: by the
   element it falls into, at its offset in the element, with the element's permissions; an
   address outside of all elements with pages is not translated.  That is so by the true counts of
   the page tables; the source, which goes by the packed ones, has the same tables exactly if the
   run of frames mapped and unmapped so far comes to that.
   */
  lemma PageTablesFollowZones(m: VirtMapper, addr: nat)
    requires m.Valid() && addr < MAX_USER_ADDR
    ensures m.space.Translate(addr) == ZoneTranslate(m.keys, m.MappedLists(), addr)
    ensures m.space.faithful <==> After(m.space.history).faithful
  {
    hide AddressSpace.Valid, Consistent, ZoneTranslate, After;
    HistorySays(m.space);
    TranslateIsFlat(m.space, addr);
    ConsistentTranslates(m.keys, m.MappedLists(), m.space.leaves, m.maxMapAddr, addr);
  }

  /** From the first page below 512 GiB on, the packed count of the root is behind ... */
  lemma LowPageMarksRoot(m: VirtMapper, addr: nat)
    requires m.Valid() && addr < Span(4) && ZoneTranslate(m.keys, m.MappedLists(), addr).Some?
    ensures m.space.RootLag() != 0
  {
    hide Consistent, ZoneTranslate, AddressSpace.RootLag, AddressSpace.Valid;
    PageTablesFollowZones(m, addr);
    LowPageLagsRoot(m.space, addr);
  }

  /** ... and an address space that is empty again has then lost its root, or another table in use. */
  lemma EmptiedMapperIsLost(m: VirtMapper)
    requires m.Valid() && m.keys == [] && m.space.RootLag() != 0
    ensures !m.space.faithful
  {
    hide Inv, AddressSpace.RootLag, NoneEarly;
    assert m.space.leaves == map[];
    EmptiedSpaceIsLost(m.space);
  }

  /**
   So it goes with every zone that is mapped into a new address space and unmapped again, if it
   has a page below 512 GiB.
   */
  method FirstZoneComesAndGoes(layout: VirtLayout, maxMapAddr: nat, ghost addr: nat)
    returns (m: VirtMapper, r: Result<Range, MemErr>)
    requires PAGE_SIZE <= maxMapAddr <= MAX_USER_ADDR && Unmapped(layout)
    modifies layout
    ensures fresh(m) && m.Valid() && m.keys == []
    ensures r.Ok? && addr < Span(4) && ZoneTranslate([r.value], [old(layout.data)], addr).Some? ==> !m.space.faithful
  {
    hide AddressSpace.Valid, Events, Consistent, ZoneTranslate, Rank;
    m := new VirtMapper(maxMapAddr);
    r := m.Map(layout);
    if r.Ok? {
      assert m.keys == [r.value] && m.layouts == [layout] && m.MappedLists() == [old(layout.data)];
      if addr < Span(4) && ZoneTranslate(m.keys, m.MappedLists(), addr).Some? {
        LowPageMarksRoot(m, addr);
      }
      UnmapOnlyZone(m, r.value);
    }
  }

  method UnmapOnlyZone(m: VirtMapper, zone: Range)
    requires m.Valid() && m.keys == [zone]
    modifies m, m.space, m.layouts
    ensures m.Valid() && m.keys == []
    ensures old(m.space.RootLag()) != 0 ==> !m.space.faithful
  {
    hide AddressSpace.Valid, AddressSpace.RootLag, AddressSpace.Lags, Consistent, Ahead, Apply, CutElements, Events;
    LookupOnly(zone);
    if m.space.faithful {
      RootLagIs(m.space);
    }
    var _, i := m.Unmap(zone, m.layouts[0].atype);
    assert i == 0;
    if m.space.faithful && old(m.space.RootLag()) != 0 {
      RootLagIs(m.space);
      EmptiedMapperIsLost(m);
    }
  }

  lemma LookupOnly(zone: Range)
    ensures Lookup([zone], zone) == Some(0)
  {
  }

  /** After a refused remap too: the zone's restored elements are what its addresses translate to. */
  lemma RefusedTranslates(m: VirtMapper, i: nat, addr: nat)
    requires m.HoldsData(i) && addr < MAX_USER_ADDR
    ensures m.space.Translate(addr) == ZoneTranslate(m.keys, m.MappedLists()[i := m.layouts[i].data], addr)
  {
    hide Inv, Consistent, ZoneTranslate;
    TranslateIsFlat(m.space, addr);
    ConsistentTranslates(m.keys, m.MappedLists()[i := m.layouts[i].data], m.space.leaves, m.maxMapAddr, addr);
  }

  /**
   A zone of one page whose caller pops the page and pushes three where there is room for two:
   the remap is refused, and the layout takes a page that is mapped for one that is not.
   */
  method PopThenRefused(page: Element, big: Element) returns (m: VirtMapper, r: Result<Range, MemErr>)
    requires page.Good() && big.Good() && page.mapSize == 0x1000 && big.mapSize == 0x3000
    ensures fresh(m) && r == Err(NoSpace) && !m.Valid() && m.HoldsData(0)
  {
    hide AddressSpace.Valid, Events, Consistent, Rank, Range.Aligned, VirtMapper.AtypeOf, Edited,
      FreeBut, NoGap, VirtLayout.Mapped;
    var zone;
    m, zone := OnePage(page);
    PageEdits(m.layouts[0], page, big);
    OnlyZone(m, zone);
    NoRoomForThree(zone);
    assert SizeOf([big]) == 0x3000 && SizeOf([page]) == 0x1000;
    ghost var i, s;
    r, i, s := m.Remap(zone, VirtMem, [PopElement, PushElement(big)], true);
  }

  /** A zone of one page whose caller pops the page and remaps it one page further up. */
  method PopThenAstray(page: Element) returns (m: VirtMapper, r: RemapOutcome)
    requires page.Good() && page.mapSize == 0x1000 && page.AsPhysZone().Some?
    ensures fresh(m) && r == Astray
  {
    hide AddressSpace.Valid, Consistent, Rank, Range.Aligned, VirtMapper.AtypeOf, Edited, FreeBut, NeverAgrees,
      VirtLayout.Mapped;
    var zone;
    m, zone := OnePage(page);
    PagePopped(m.layouts[0], page);
    OnlyZone(m, zone);
    AlignDownIs(zone.addr + 0x1000, 0x1000);
    ghost var i, s;
    r, i, s := m.RemapAt(zone, zone.addr + 0x1000, VirtMem, [PopElement], true);
  }

  lemma PagePopped(l: VirtLayout, page: Element)
    requires l.Valid() && l.data == [page] && l.deallocQue == [] && l.Mapped() == [page]
    requires page.mapSize > 0 && page.AsPhysZone().Some?
    ensures Edited(EditsOf(l), [PopElement]) == Edits([], 0, [page]) && HasPages([page]) && SizeOf([]) == 0
  {
    assert l.dirtyIndex == 1;
    assert EditOnce(EditsOf(l), PopElement) == Edits([], 0, [page]);
    assert Edited(Edits([], 0, [page]), []) == Edits([], 0, [page]);
    assert [PopElement][1..] == [];
  }

  /** One page, mapped into an address space with room for two. */
  method OnePage(page: Element) returns (m: VirtMapper, zone: Range)
    requires page.Good() && page.mapSize == 0x1000
    ensures fresh(m) && fresh(m.space) && m.Valid() && m.maxMapAddr == 0x3000
    ensures m.keys == [zone] && |m.layouts| == 1 && fresh(m.layouts[0]) && m.layouts[0].atype == VirtMem
    ensures var l := m.layouts[0]; l.data == [page] && l.deallocQue == [] && l.Mapped() == [page]
  {
    hide AddressSpace.Valid, Events, Consistent, Rank, NoGap;
    var layout := new VirtLayout([page], VirtMem);
    m := new VirtMapper(0x3000);
    RoomForPage();
    assert SizeOf(layout.data) == 0x1000;
    var z := m.Map(layout);
    zone := z.value;
    assert m.MappedLists()[0] == [page];
  }

  lemma RoomForPage()
    ensures !NoGap([], 0x1000, 0x3000)
  {
    assert Free([], Range(0x1000, 0x1000), PAGE_SIZE, 0x3000);
  }

  lemma NoRoomForThree(z: Range)
    ensures !FreeBut([z], Range(z.addr, 0x3000), PAGE_SIZE, 0x3000, Some(z)) && NoGap([z], 0x3000, 0x3000)
  {
  }

  lemma PageEdits(l: VirtLayout, page: Element, big: Element)
    requires l.Valid() && l.data == [page] && l.deallocQue == [] && l.Mapped() == [page]
    ensures Edited(EditsOf(l), [PopElement, PushElement(big)]) == Edits([big], 0, [page])
  {
    assert l.dirtyIndex == 1;
    var edits := [PopElement, PushElement(big)];
    var s1 := Edits([], 0, [page]);
    assert EditOnce(EditsOf(l), PopElement) == s1;
    assert EditOnce(s1, PushElement(big)) == Edits([big], 0, [page]);
    assert edits[1..] == [PushElement(big)] && edits[1..][1..] == [];
    assert Edited(s1, edits[1..]) == Edited(Edits([big], 0, [page]), []);
  }

  lemma OnlyZone(m: VirtMapper, z: Range)
    requires m.Valid() && m.keys == [z]
    ensures z.Aligned() == z && m.AtypeOf(z) == m.layouts[0].atype
  {
    hide Inv;
    ZonesDisjoint(m);
    AlignedIsSmallestCover(z);
    LookupOnly(z);
  }

  /** In every valid state the zones are page aligned, not empty, in bounds and disjoint. */
  lemma ZonesDisjoint(m: VirtMapper)
    requires m.Valid()
    ensures forall z :: z in m.keys ==> z.PageAligned() && z.size > 0 && PAGE_SIZE <= z.addr && z.End() <= m.maxMapAddr
    ensures forall i, j :: 0 <= i < j < |m.keys| ==> m.keys[i].End() <= m.keys[j].addr
  {
    hide AddressSpace.Valid, Events;
    KeysBounds(m.keys, PAGE_SIZE, m.maxMapAddr);
  }
}
