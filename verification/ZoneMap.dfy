/**
 When the page tables agree with the zones of a `VirtMapper`, and which runs of actions keep
 the agreement: the steps of map, map_at, remap, remap_at and unmap in
 kernel/src/mem/virt_alloc.rs, on values.
 */
module ZoneMap {
  import opened Wrappers
  import opened Arith
  import opened AddrRange
  import opened PageTables
  import opened VirtLayouts
  import opened PageMapping
  import opened MappedLeaves
  import opened ZoneKeys

  type Elements = seq<Element>

  /** The map actions for all zones, in the order of their addresses. */
  ghost function AllActs(keys: seq<Range>, mapped: seq<Elements>): seq<Action>
    requires |keys| == |mapped|
  {
    if keys == [] then []
    else CutElements(keys[0].addr, mapped[0], false) + AllActs(keys[1..], mapped[1..])
  }

  /** The elements of a zone fill it exactly. */
  ghost predicate Filled(keys: seq<Range>, mapped: seq<Elements>) {
    && |keys| == |mapped|
    && forall i :: 0 <= i < |keys| ==> AllGood(mapped[i]) && SizeOf(mapped[i]) == keys[i].size
  }

  /** The leaves of the page tables are exactly the pages of the mapped elements. */
  ghost predicate Consistent(keys: seq<Range>, mapped: seq<Elements>, leaves: map<Pos, Pte>, maxMapAddr: nat) {
    && maxMapAddr <= MAX_USER_ADDR
    && KeysFrom(keys, PAGE_SIZE, maxMapAddr)
    && Filled(keys, mapped)
    && leaves == Leaves(AllActs(keys, mapped))
  }

  lemma {:induction false} ActsAscend(keys: seq<Range>, mapped: seq<Elements>, lo: nat, hi: nat)
    requires KeysFrom(keys, lo, hi) && Filled(keys, mapped)
    ensures Ascending(AllActs(keys, mapped), lo, hi) && AllMap(AllActs(keys, mapped))
    decreases |keys|
  {
    hide CutElements;
    if keys != [] {
      var k := keys[0];
      assert AllGood(mapped[0]) && SizeOf(mapped[0]) == k.size;
      ElementsAscend(k.addr, mapped[0], false);
      ActsAscend(keys[1..], mapped[1..], k.End(), hi);
      var a, b := CutElements(k.addr, mapped[0], false), AllActs(keys[1..], mapped[1..]);
      AscendingWiden(a, lo, k.addr, k.End());
      AscendingAppend(a, b, lo, k.End(), hi);
    }
  }

  lemma {:induction false} ActsAppend(k1: seq<Range>, m1: seq<Elements>, k2: seq<Range>, m2: seq<Elements>)
    requires |k1| == |m1| && |k2| == |m2|
    ensures AllActs(k1 + k2, m1 + m2) == AllActs(k1, m1) + AllActs(k2, m2)
    decreases |k1|
  {
    hide CutElements;
    if k1 == [] {
      assert k1 + k2 == k2 && m1 + m2 == m2;
    } else {
      ActsAppend(k1[1..], m1[1..], k2, m2);
      assert (k1 + k2)[1..] == k1[1..] + k2 && (m1 + m2)[1..] == m1[1..] + m2;
      Assoc(CutElements(k1[0].addr, m1[0], false), AllActs(k1[1..], m1[1..]), AllActs(k2, m2));
    }
  }

  lemma ActsCons(r: Range, es: Elements, k2: seq<Range>, m2: seq<Elements>)
    requires |k2| == |m2|
    ensures AllActs([r] + k2, [es] + m2) == CutElements(r.addr, es, false) + AllActs(k2, m2)
  {
    hide CutElements;
    assert ([r] + k2)[1..] == k2 && ([es] + m2)[1..] == m2;
  }

  /** A zone in the middle. */
  lemma ActsMiddle(k1: seq<Range>, m1: seq<Elements>, r: Range, es: Elements, k2: seq<Range>, m2: seq<Elements>)
    requires |k1| == |m1| && |k2| == |m2|
    ensures AllActs(k1 + [r] + k2, m1 + [es] + m2)
      == AllActs(k1, m1) + (CutElements(r.addr, es, false) + AllActs(k2, m2))
  {
    hide CutElements, AllActs;
    ActsCons(r, es, k2, m2);
    ActsAppend(k1, m1, [r] + k2, [es] + m2);
    Assoc(k1, [r], k2);
    Assoc(m1, [es], m2);
  }

  // ---------------------------------------------------------------------------------------
  // A new zone

  lemma {:induction false} KeysSplit(keys: seq<Range>, k: nat, lo: nat, mid1: nat, mid2: nat, hi: nat)
    requires KeysFrom(keys, lo, hi) && k <= |keys| && lo <= mid1 && mid2 <= hi
    requires forall i :: 0 <= i < k ==> keys[i].End() <= mid1
    requires forall i :: k <= i < |keys| ==> mid2 <= keys[i].addr
    ensures KeysFrom(keys[..k], lo, mid1) && KeysFrom(keys[k..], mid2, hi)
  {
    hide KeysFrom, Range.PageAligned;
    KeysBounds(keys, lo, hi);
    KeysFromIndices(keys[..k], lo, mid1);
    KeysFromIndices(keys[k..], mid2, hi);
  }

  /** Mapping a layout into a free range keeps page tables and zones in agreement. */
  lemma MapZone(keys: seq<Range>, mapped: seq<Elements>, leaves: map<Pos, Pte>, maxMapAddr: nat, r: Range, es: Elements)
    requires Consistent(keys, mapped, leaves, maxMapAddr)
    requires Free(keys, r, PAGE_SIZE, maxMapAddr) && r.size > 0 && r.PageAligned()
    requires AllGood(es) && SizeOf(es) == r.size
    ensures
      var acts := CutElements(r.addr, es, false);
      var k := Rank(keys, r);
      && Legal(leaves, acts)
      && Consistent(Inserted(keys, r), InsertedAt(mapped, k, es), Apply(leaves, acts), maxMapAddr)
  {
    hide CutElements, Ascending, KeysFrom, Rank, Legal, Apply, Leaves, AllActs, Clear, AllGood;
    var k := Rank(keys, r);
    var y := CutElements(r.addr, es, false);
    InsertedKeys(keys, r, PAGE_SIZE, maxMapAddr);
    KeysSplit(keys, k, PAGE_SIZE, r.addr, r.End(), maxMapAddr);
    ActsAscend(keys[..k], mapped[..k], PAGE_SIZE, r.addr);
    ActsAscend(keys[k..], mapped[k..], r.End(), maxMapAddr);
    ElementsAscend(r.addr, es, false);
    ActsMiddle(keys[..k], mapped[..k], r, es, keys[k..], mapped[k..]);
    ActsAppend(keys[..k], mapped[..k], keys[k..], mapped[k..]);
    assert keys[..k] + keys[k..] == keys && mapped[..k] + mapped[k..] == mapped;
    InsertMiddle(AllActs(keys[..k], mapped[..k]), y, AllActs(keys[k..], mapped[k..]), PAGE_SIZE, r.addr, r.End(),
      maxMapAddr);
    RunMaps(leaves, y, r.addr, r.End());
  }

  // ---------------------------------------------------------------------------------------
  // A zone goes

  lemma ZoneInside(keys: seq<Range>, mapped: seq<Elements>, i: nat, maxMapAddr: nat)
    requires KeysFrom(keys, PAGE_SIZE, maxMapAddr) && Filled(keys, mapped) && i < |keys|
    ensures KeysFrom(keys[..i], PAGE_SIZE, keys[i].addr) && KeysFrom(keys[i + 1..], keys[i].End(), maxMapAddr)
    ensures PAGE_SIZE <= keys[i].addr && keys[i].End() <= maxMapAddr && keys[i].PageAligned() && keys[i].size > 0
    ensures Filled(keys[..i], mapped[..i]) && Filled(keys[i + 1..], mapped[i + 1..])
    ensures AllActs(keys, mapped)
      == AllActs(keys[..i], mapped[..i])
           + (CutElements(keys[i].addr, mapped[i], false) + AllActs(keys[i + 1..], mapped[i + 1..]))
    ensures AllActs(WithoutAt(keys, i), WithoutAt(mapped, i))
      == AllActs(keys[..i], mapped[..i]) + AllActs(keys[i + 1..], mapped[i + 1..])
  {
    hide KeysFrom, CutElements, AllActs, Range.PageAligned, AllGood;
    KeysBounds(keys, PAGE_SIZE, maxMapAddr);
    KeysFromIndices(keys[..i], PAGE_SIZE, keys[i].addr);
    KeysFromIndices(keys[i + 1..], keys[i].End(), maxMapAddr);
    ActsMiddle(keys[..i], mapped[..i], keys[i], mapped[i], keys[i + 1..], mapped[i + 1..]);
    assert keys[..i] + [keys[i]] + keys[i + 1..] == keys && mapped[..i] + [mapped[i]] + mapped[i + 1..] == mapped;
    ActsAppend(keys[..i], mapped[..i], keys[i + 1..], mapped[i + 1..]);
  }

  /** Unmapping all of a zone and forgetting it keeps the agreement. */
  lemma UnmapZone(keys: seq<Range>, mapped: seq<Elements>, leaves: map<Pos, Pte>, maxMapAddr: nat, i: nat)
    requires Consistent(keys, mapped, leaves, maxMapAddr) && i < |keys|
    ensures
      var acts := CutElements(keys[i].addr, mapped[i], true);
      && Legal(leaves, acts)
      && Consistent(WithoutAt(keys, i), WithoutAt(mapped, i), Apply(leaves, acts), maxMapAddr)
  {
    hide CutElements, Ascending, KeysFrom, Legal, Apply, Leaves, AllActs, Clear, AllGood, Once;
    var r, es := keys[i], mapped[i];
    ZoneInside(keys, mapped, i, maxMapAddr);
    WithoutKeys(keys, i, PAGE_SIZE, maxMapAddr);
    ActsAscend(keys[..i], mapped[..i], PAGE_SIZE, r.addr);
    ActsAscend(keys[i + 1..], mapped[i + 1..], r.End(), maxMapAddr);
    ElementsAscend(r.addr, es, false);
    RemoveMiddle(AllActs(keys[..i], mapped[..i]), CutElements(r.addr, es, false),
      AllActs(keys[i + 1..], mapped[i + 1..]),
                 PAGE_SIZE, r.addr, r.End(), maxMapAddr);
    UnmapReplays(r.addr, es);
    SameFrames(CutElements(r.addr, es, true), CutElements(r.addr, es, false));
    ElementsAscend(r.addr, es, true);
    AscendingOnce(CutElements(r.addr, es, true), r.addr, r.End());
    AscendingBounds(CutElements(r.addr, es, true), r.addr, r.End());
    RunUnmaps(leaves, CutElements(r.addr, es, true));
  }

  // ---------------------------------------------------------------------------------------
  // A zone is edited

  /** The actions of `PageMappingIterator::new` for a layout at `addr`. */
  ghost function EditActs(addr: nat, clean: Elements, que: Elements, dirty: Elements): seq<Action> {
    CutQueue(addr + SizeOf(clean) + SizeOf(que), que) + CutElements(addr + SizeOf(clean), dirty, false)
  }

  /** Unmapping what was popped: the leaves of the popped elements go. */
  lemma UnmapPopped(x: seq<Action>, z: seq<Action>, mid: nat, que: Elements, lo: nat, hi: nat)
    requires Ascending(x, lo, mid) && AllMap(x) && Ascending(z, mid + SizeOf(que), hi) && AllMap(z)
    requires hi <= MAX_USER_ADDR && AllGood(que) && mid % 0x1000 == 0
    ensures
      var y := CutElements(mid, Reversed(que), false);
      var acts := CutQueue(mid + SizeOf(que), que);
      && Legal(Leaves(x + (y + z)), acts)
      && Apply(Leaves(x + (y + z)), acts) == Leaves(x + z)
      && Clear(Leaves(x + z), mid, mid + SizeOf(que))
  {
    hide CutElements, CutQueue, Ascending, Legal, Apply, Leaves, Clear, AllGood, Once, Reversed, SizeOf;
    var end := mid + SizeOf(que);
    var y := CutElements(mid, Reversed(que), false);
    ReversedGood(que);
    SizeOfReversed(que);
    SizeOfAligned(que);
    MultiplesAdd(mid, SizeOf(que), 0x1000);
    ElementsAscend(mid, Reversed(que), false);
    RemoveMiddle(x, y, z, lo, mid, end, hi);
    AscendingBounds(z, end, hi);
    QueueOnce(end, que);
    CutQueueFrames(end, que);
    UnmapReplays(mid, Reversed(que));
    SameFrames(CutElements(mid, Reversed(que), true), y);
    RunUnmaps(Leaves(x + (y + z)), CutQueue(end, que));
  }

  /** Mapping what was pushed. */
  lemma MapPushed(x: seq<Action>, z: seq<Action>, mid: nat, dirty: Elements, lo: nat, hi: nat)
    requires Ascending(x, lo, mid) && AllMap(x) && Ascending(z, mid + SizeOf(dirty), hi) && AllMap(z)
    requires hi <= MAX_USER_ADDR && AllGood(dirty) && mid % 0x1000 == 0
    ensures
      var y := CutElements(mid, dirty, false);
      && Legal(Leaves(x + z), y) && Apply(Leaves(x + z), y) == Leaves(x + (y + z))
  {
    hide CutElements, Ascending, Legal, Apply, Leaves, Clear, AllGood, SizeOf;
    var end := mid + SizeOf(dirty);
    var y := CutElements(mid, dirty, false);
    ElementsAscend(mid, dirty, false);
    InsertMiddle(x, y, z, lo, mid, end, hi);
    AscendingBounds(z, end, hi);
    RunMaps(Leaves(x + z), y, mid, end);
  }

  /** Both one after the other, in front of `z`, behind the elements that stay. */
  lemma EditInPlace(x: seq<Action>, z: seq<Action>, addr: nat, clean: Elements, que: Elements, dirty: Elements, lo: nat,
                    hi: nat)
    requires Ascending(x, lo, addr) && AllMap(x) && AllMap(z) && hi <= MAX_USER_ADDR && addr % 0x1000 == 0
    requires AllGood(clean) && AllGood(que) && AllGood(dirty)
    requires Ascending(z, addr + SizeOf(clean) + SizeOf(que), hi)
    requires Ascending(z, addr + SizeOf(clean) + SizeOf(dirty), hi)
    ensures
      var oldLeaves := Leaves(x + (CutElements(addr, clean + Reversed(que), false) + z));
      var acts := EditActs(addr, clean, que, dirty);
      && Legal(oldLeaves, acts)
      && Apply(oldLeaves, acts) == Leaves(x + (CutElements(addr, clean + dirty, false) + z))
  {
    hide CutElements, CutQueue, Ascending, Legal, Apply, Leaves, Clear, AllGood, Reversed, SizeOf;
    var mid := addr + SizeOf(clean);
    SizeOfAligned(clean);
    MultiplesAdd(addr, SizeOf(clean), 0x1000);
    var c := CutElements(addr, clean, false);
    ElementsAscend(addr, clean, false);
    AscendingAppend(x, c, lo, addr, mid);
    UnmapPopped(x + c, z, mid, que, lo, hi);
    MapPushed(x + c, z, mid, dirty, lo, hi);
    CutElementsAppend(addr, clean, Reversed(que), false);
    CutElementsAppend(addr, clean, dirty, false);
    Regroup(x, c, CutElements(mid, Reversed(que), false), z);
    Regroup(x, c, CutElements(mid, dirty, false), z);
    LegalAppend(Leaves(x + (CutElements(addr, clean + Reversed(que), false) + z)),
                CutQueue(mid + SizeOf(que), que), CutElements(mid, dirty, false));
  }

  lemma DropEmpty<T>(x: seq<T>, z: seq<T>)
    ensures x + ([] + z) == x + z
  {
  }

  lemma Regroup<T>(x: seq<T>, c: seq<T>, y: seq<T>, z: seq<T>)
    ensures x + ((c + y) + z) == (x + c) + (y + z)
  {
  }

  lemma RestAfter(keys: seq<Range>, i: nat, r: Range, maxMapAddr: nat)
    requires KeysFrom(keys, PAGE_SIZE, maxMapAddr) && i < |keys| && r.addr == keys[i].addr
    requires r.size == 0 || FreeBut(keys, r, PAGE_SIZE, maxMapAddr, Some(keys[i]))
    ensures KeysFrom(keys[i + 1..], r.End(), maxMapAddr)
    ensures r.size > 0 ==> Rank(WithoutAt(keys, i), r) == i && Free(WithoutAt(keys, i), r, PAGE_SIZE, maxMapAddr)
  {
    hide KeysFrom, Range.PageAligned, Rank;
    KeysBounds(keys, PAGE_SIZE, maxMapAddr);
    assert forall j :: 0 <= j < |keys| && j != i ==> keys[j] != keys[i] && keys[j] in keys;
    KeysFromIndices(keys[i + 1..], r.End(), maxMapAddr);
    if r.size > 0 {
      FreeWithout(keys, i, r, maxMapAddr);
      RankWithout(keys, i, r, maxMapAddr);
    }
  }

  lemma FreeWithout(keys: seq<Range>, i: nat, r: Range, maxMapAddr: nat)
    requires KeysFrom(keys, PAGE_SIZE, maxMapAddr) && i < |keys|
    requires FreeBut(keys, r, PAGE_SIZE, maxMapAddr, Some(keys[i]))
    ensures Free(WithoutAt(keys, i), r, PAGE_SIZE, maxMapAddr)
  {
    hide KeysFrom, Range.PageAligned, Rank;
    KeysBounds(keys, PAGE_SIZE, maxMapAddr);
    var rest := WithoutAt(keys, i);
    forall k | k in rest ensures r.Disjoint(k) {
      var j :| 0 <= j < |rest| && rest[j] == k;
      assert k == if j < i then keys[j] else keys[j + 1];
    }
  }

  lemma RankWithout(keys: seq<Range>, i: nat, r: Range, maxMapAddr: nat)
    requires KeysFrom(keys, PAGE_SIZE, maxMapAddr) && i < |keys| && r.addr == keys[i].addr && r.size > 0
    ensures Rank(WithoutAt(keys, i), r) == i
  {
    hide KeysFrom, Range.PageAligned, Rank;
    KeysBounds(keys, PAGE_SIZE, maxMapAddr);
    var rest := WithoutAt(keys, i);
    WithoutKeys(keys, i, PAGE_SIZE, maxMapAddr);
    RankSplits(rest, PAGE_SIZE, maxMapAddr, r);
    assert i > 0 ==> rest[i - 1] == keys[i - 1] && rest[i - 1].Before(r);
    assert i < |rest| ==> rest[i] == keys[i + 1] && !rest[i].Before(r);
  }

  /**
   Carrying out the edits of a zone where it is, and giving it its new size, keeps the
   agreement; a zone that has become empty is forgotten.
   */
  lemma ResyncZone(keys: seq<Range>, mapped: seq<Elements>, leaves: map<Pos, Pte>, maxMapAddr: nat, i: nat,
                   clean: Elements, que: Elements, dirty: Elements)
    requires Consistent(keys, mapped, leaves, maxMapAddr) && i < |keys|
    requires mapped[i] == clean + Reversed(que) && AllGood(clean) && AllGood(que) && AllGood(dirty)
    requires
      var r := Range(keys[i].addr, SizeOf(clean + dirty));
      r.size == 0 || FreeBut(keys, r, PAGE_SIZE, maxMapAddr, Some(keys[i]))
    ensures
      var r := Range(keys[i].addr, SizeOf(clean + dirty));
      var acts := EditActs(r.addr, clean, que, dirty);
      var keys1, mapped1 := WithoutAt(keys, i), WithoutAt(mapped, i);
      && Legal(leaves, acts)
      && if r.size == 0 then Consistent(keys1, mapped1, Apply(leaves, acts), maxMapAddr)
         else
           && Rank(keys1, r) == i
           && Consistent(Inserted(keys1, r), InsertedAt(mapped1, i, clean + dirty), Apply(leaves, acts), maxMapAddr)
  {
    hide KeysFrom, CutElements, CutQueue, Ascending, Legal, Apply, Leaves, AllActs, AllGood, Reversed, SizeOf, Rank;
    var r := Range(keys[i].addr, SizeOf(clean + dirty));
    SizeOfAppend(clean, dirty);
    SizeOfAppend(clean, Reversed(que));
    SizeOfReversed(que);
    ZoneInside(keys, mapped, i, maxMapAddr);
    RestAfter(keys, i, r, maxMapAddr);
    var x, z := AllActs(keys[..i], mapped[..i]), AllActs(keys[i + 1..], mapped[i + 1..]);
    ActsAscend(keys[..i], mapped[..i], PAGE_SIZE, r.addr);
    ActsAscend(keys[i + 1..], mapped[i + 1..], keys[i].End(), maxMapAddr);
    ActsAscend(keys[i + 1..], mapped[i + 1..], r.End(), maxMapAddr);
    EditInPlace(x, z, r.addr, clean, que, dirty, PAGE_SIZE, maxMapAddr);
    WithoutKeys(keys, i, PAGE_SIZE, maxMapAddr);
    BothGood(clean, dirty);
    if r.size == 0 {
      ElementsAscend(r.addr, clean + dirty, false);
      NoRoomNoActs(CutElements(r.addr, clean + dirty, false), r.addr);
      DropEmpty(x, z);
    } else {
      Replaced(keys, mapped, i, r, clean + dirty, maxMapAddr);
    }
  }

  lemma BothGood(a: Elements, b: Elements)
    requires AllGood(a) && AllGood(b)
    ensures AllGood(a + b) && SizeOf(a + b) % 0x1000 == 0
  {
    SizeOfAligned(a + b);
  }

  lemma NoRoomNoActs(acts: seq<Action>, a: nat)
    requires Ascending(acts, a, a)
    ensures acts == []
  {
    if acts != [] {
      AscendingBounds(acts[1..], acts[0].virt.End(), a);
    }
  }

  lemma Replaced(keys: seq<Range>, mapped: seq<Elements>, i: nat, r: Range, es: Elements, maxMapAddr: nat)
    requires KeysFrom(keys, PAGE_SIZE, maxMapAddr) && Filled(keys, mapped) && i < |keys|
    requires KeysFrom(WithoutAt(keys, i), PAGE_SIZE, maxMapAddr)
    requires r.size > 0 && r.PageAligned() && AllGood(es) && SizeOf(es) == r.size
    requires Rank(WithoutAt(keys, i), r) == i && Free(WithoutAt(keys, i), r, PAGE_SIZE, maxMapAddr)
    ensures
      var keys2, mapped2 := Inserted(WithoutAt(keys, i), r), InsertedAt(WithoutAt(mapped, i), i, es);
      && KeysFrom(keys2, PAGE_SIZE, maxMapAddr) && Filled(keys2, mapped2)
      && AllActs(keys2, mapped2)
        == AllActs(keys[..i], mapped[..i]) + (CutElements(r.addr, es, false) + AllActs(keys[i + 1..], mapped[i + 1..]))
  {
    hide KeysFrom, CutElements, AllActs, AllGood, SizeOf, Rank;
    InsertedKeys(WithoutAt(keys, i), r, PAGE_SIZE, maxMapAddr);
    assert WithoutAt(keys, i)[..i] == keys[..i] && WithoutAt(keys, i)[i..] == keys[i + 1..];
    assert WithoutAt(mapped, i)[..i] == mapped[..i] && WithoutAt(mapped, i)[i..] == mapped[i + 1..];
    ActsMiddle(keys[..i], mapped[..i], r, es, keys[i + 1..], mapped[i + 1..]);
  }

  // ---------------------------------------------------------------------------------------
  // What an address translates to

  /** The flat meaning of elements from `vaddr` on: the element at the address, at its offset. */
  ghost function ElementTranslate(vaddr: nat, es: Elements, addr: nat): Option<Pte>
    decreases |es|
  {
    if es == [] || addr < vaddr then None
    else if addr < vaddr + es[0].mapSize then
      match es[0].AsPhysZone()
      case None => None
      case Some(phys) => Some(Pte(phys.addr + (addr - vaddr), es[0].flags))
    else ElementTranslate(vaddr + es[0].mapSize, es[1..], addr)
  }

  /** The flat meaning of all zones. */
  ghost function ZoneTranslate(keys: seq<Range>, mapped: seq<Elements>, addr: nat): Option<Pte>
    requires |keys| == |mapped|
    decreases |keys|
  {
    if keys == [] then None
    else if keys[0].Contains(addr) then ElementTranslate(keys[0].addr, mapped[0], addr)
    else ZoneTranslate(keys[1..], mapped[1..], addr)
  }

  /**
   What an address in an element is to be translated to: the element's own memory, at the offset of
   the address in the element, with the element's permissions; nothing, if it has no memory or is
   not present.
   */
  function MemoryAt(e: Element, offset: nat): Option<Pte> {
    match e.backing
    case Mem(m) => if e.present then Some(Pte(m.addr + offset, e.flags)) else None
    case AllocedMem(m) => if e.present then Some(Pte(m.addr + offset, e.flags)) else None
    case Reserved(_) => None
  }

  lemma {:induction false} ElementAddress(vaddr: nat, es: Elements, j: nat, addr: nat)
    requires j < |es| && vaddr + SizeOf(es[..j]) <= addr < vaddr + SizeOf(es[..j]) + es[j].mapSize
    ensures ElementTranslate(vaddr, es, addr) == MemoryAt(es[j], addr - vaddr - SizeOf(es[..j]))
    decreases j
  {
    if j > 0 {
      assert es[..j][1..] == es[1..][..j - 1];
      ElementAddress(vaddr + es[0].mapSize, es[1..], j - 1, addr);
    }
  }

  lemma {:induction false} ZoneAddress(keys: seq<Range>, mapped: seq<Elements>, lo: nat, hi: nat, i: nat, addr: nat)
    requires KeysFrom(keys, lo, hi) && |keys| == |mapped| && i < |keys| && keys[i].Contains(addr)
    ensures ZoneTranslate(keys, mapped, addr) == ElementTranslate(keys[i].addr, mapped[i], addr)
    decreases i
  {
    hide ElementTranslate;
    if i > 0 {
      KeysBounds(keys, lo, hi);
      ZoneAddress(keys[1..], mapped[1..], keys[0].End(), hi, i - 1, addr);
    }
  }

  /** An address in no zone translates to nothing. */
  lemma {:induction false} OutsideZones(keys: seq<Range>, mapped: seq<Elements>, addr: nat)
    requires |keys| == |mapped| && forall k :: k in keys ==> !(k.addr <= addr < k.addr + k.size)
    ensures ZoneTranslate(keys, mapped, addr) == None
    decreases |keys|
  {
    hide ElementTranslate;
    if keys != [] {
      assert keys[0] in keys && forall k :: k in keys[1..] ==> k in keys;
      OutsideZones(keys[1..], mapped[1..], addr);
    }
  }

  /** Every element lies in its zone. */
  lemma ElementInZone(es: Elements, j: nat)
    requires j < |es|
    ensures SizeOf(es[..j]) + es[j].mapSize <= SizeOf(es)
  {
    assert es == es[..j] + ([es[j]] + es[j + 1..]);
    SizeOfAppend(es[..j], [es[j]] + es[j + 1..]);
    assert ([es[j]] + es[j + 1..])[1..] == es[j + 1..];
  }

  /** The page of a run that covers an address. */
  ghost function ActTranslate(acts: seq<Action>, addr: nat): Option<Pte> {
    if acts == [] then None
    else if acts[0].Map? && acts[0].virt.start <= addr < acts[0].virt.End() then
      Some(Pte(acts[0].paddr + (addr - acts[0].virt.start), acts[0].flags))
    else ActTranslate(acts[1..], addr)
  }

  lemma {:induction false} ActTranslateAppend(a: seq<Action>, b: seq<Action>, addr: nat)
    ensures ActTranslate(a + b, addr) ==
      if ActTranslate(a, addr).Some? then ActTranslate(a, addr) else ActTranslate(b, addr)
    decreases |a|
  {
    if a == [] {
      assert a + b == b;
    } else {
      ActTranslateAppend(a[1..], b, addr);
      assert (a + b)[1..] == a[1..] + b;
    }
  }

  lemma {:induction false} ActTranslateOutside(acts: seq<Action>, lo: nat, hi: nat, addr: nat)
    requires Ascending(acts, lo, hi) && !(lo <= addr < hi)
    ensures ActTranslate(acts, addr) == None
  {
    if acts != [] {
      AscendingBounds(acts[1..], acts[0].virt.End(), hi);
      ActTranslateOutside(acts[1..], acts[0].virt.End(), hi, addr);
    }
  }

  /** The leaves of a run translate an address as the page of the run that covers it does. */
  lemma {:induction false} LeavesTranslate(acts: seq<Action>, lo: nat, hi: nat, addr: nat)
    requires AllMap(acts) && Ascending(acts, lo, hi)
    ensures GoodLeaves(Leaves(acts))
    ensures Translated(LeafOver(Leaves(acts), 4, addr), addr) == ActTranslate(acts, addr)
  {
    hide LeafOver, At, PosOf;
    if acts == [] {
      NoCoveringLeaf(map[], addr);
    } else {
      var a, rest := acts[0], acts[1..];
      assert a in acts && forall b :: b in rest ==> b in acts;
      LeavesTranslate(rest, a.virt.End(), hi, addr);
      LeavesWithin(rest, a.virt.End(), hi);
      PosOfAligned(a.virt);
      MapChangesOnlyFrame(Leaves(rest), PosOf(a.virt), Pte(a.paddr, a.flags), addr);
      AddGoodLeaf(Leaves(rest), PosOf(a.virt), Pte(a.paddr, a.flags));
      LeafOffset(a, addr);
      if a.virt.start <= addr < a.virt.End() {
      } else {
        assert !Covers(PosOf(a.virt), addr);
      }
    }
  }

  lemma AddGoodLeaf(leaves: map<Pos, Pte>, p: Pos, pte: Pte)
    requires GoodLeaves(leaves) && 1 <= p.level <= 3 && forall l :: l in leaves ==> Apart(l, p)
    ensures GoodLeaves(leaves[p := pte])
  {
  }

  lemma LeafOffset(a: Action, addr: nat)
    requires a.Map? && AlignedFrame(a.virt)
    ensures a.virt.start <= addr < a.virt.End() ==>
      PosOf(a.virt).level == LevelOf(a.virt.size)
      && addr % Span(PosOf(a.virt).level) == addr - a.virt.start
  {
    if a.virt.start <= addr < a.virt.End() {
      var m := a.virt.size.Bytes();
      var q := a.virt.start / m;
      assert a.virt.start == q * m;
      ModUnique(addr, m, q, addr - a.virt.start);
    }
  }

  /** A piece translates its whole range, with a constant offset. */
  lemma {:induction false} CutTranslate(z: Pmit, addr: nat)
    requires z.Good() && z.flags.Some?
    ensures ActTranslate(Cut(z), addr) ==
      if z.virt.Contains(addr) then Some(Pte(z.phys.addr + (addr - z.virt.addr), z.flags.value)) else None
    decreases z.virt.size
  {
    hide AlignOf, AlignDownToPageSize, TryFromUsize, Range.GetTakeSize;
    TakeSizeIsLargest(z);
    if z.GetTakeSize().Some? {
      var s := z.GetTakeSize().value;
      WithoutGood(z, s);
      CutTranslate(z.Without(s), addr);
      assert Cut(z) == [z.First(s)] + Cut(z.Without(s));
      assert Cut(z)[1..] == Cut(z.Without(s));
    }
  }

  lemma {:induction false} ElementsTranslate(vaddr: nat, es: Elements, addr: nat)
    requires AllGood(es) && vaddr % 0x1000 == 0
    ensures ActTranslate(CutElements(vaddr, es, false), addr) == ElementTranslate(vaddr, es, addr)
    decreases |es|
  {
    hide Cut, Pmit.GetTakeSize;
    if es != [] {
      GoodSplit(vaddr, es);
      var next := vaddr + es[0].mapSize;
      var a, b := CutElement(vaddr, es[0], false), CutElements(next, es[1..], false);
      ElementsTranslate(next, es[1..], addr);
      ActTranslateAppend(a, b, addr);
      ElementAscends(vaddr, es[0], false);
      ElementsAscend(next, es[1..], false);
      if addr < next {
        ActTranslateOutside(b, next, next + SizeOf(es[1..]), addr);
      } else {
        ActTranslateOutside(a, vaddr, next, addr);
      }
      match PieceOf(vaddr, es[0], false) {
        case None =>
        case Some(z) => CutTranslate(z, addr);
      }
    }
  }

  lemma {:induction false} ZonesTranslate(keys: seq<Range>, mapped: seq<Elements>, lo: nat, hi: nat, addr: nat)
    requires KeysFrom(keys, lo, hi) && Filled(keys, mapped)
    ensures ActTranslate(AllActs(keys, mapped), addr) == ZoneTranslate(keys, mapped, addr)
    decreases |keys|
  {
    hide CutElements, ElementTranslate, AllGood;
    if keys != [] {
      var k := keys[0];
      assert AllGood(mapped[0]) && SizeOf(mapped[0]) == k.size;
      var a, b := CutElements(k.addr, mapped[0], false), AllActs(keys[1..], mapped[1..]);
      ZonesTranslate(keys[1..], mapped[1..], k.End(), hi, addr);
      ElementsTranslate(k.addr, mapped[0], addr);
      ElementsAscend(k.addr, mapped[0], false);
      ActsAscend(keys[1..], mapped[1..], k.End(), hi);
      ActTranslateAppend(a, b, addr);
      if k.Contains(addr) {
        ActTranslateOutside(b, k.End(), hi, addr);
      } else {
        ActTranslateOutside(a, k.addr, k.End(), addr);
      }
    }
  }

  /**
   The leaves of a consistent state translate every address exactly as the elements of the
   zones do: the element the address falls into, at its offset, or nothing.
   */
  lemma ConsistentTranslates(keys: seq<Range>, mapped: seq<Elements>, leaves: map<Pos, Pte>, maxMapAddr: nat, addr: nat)
    requires Consistent(keys, mapped, leaves, maxMapAddr)
    ensures Translated(LeafOver(leaves, 4, addr), addr) == ZoneTranslate(keys, mapped, addr)
  {
    ActsAscend(keys, mapped, PAGE_SIZE, maxMapAddr);
    LeavesTranslate(AllActs(keys, mapped), PAGE_SIZE, maxMapAddr, addr);
    ZonesTranslate(keys, mapped, PAGE_SIZE, maxMapAddr, addr);
  }

  // ---------------------------------------------------------------------------------------
  // Reverted edits, and edits carried out at the wrong address

  /** Reverting is harmless when what was popped had no size. */
  lemma RevertHarmless(keys: seq<Range>, mapped: seq<Elements>, leaves: map<Pos, Pte>, maxMapAddr: nat, i: nat,
                       clean: Elements, que: Elements)
    requires Consistent(keys, mapped, leaves, maxMapAddr) && i < |keys|
    requires mapped[i] == clean + Reversed(que) && SizeOf(que) == 0 && AllGood(clean) && AllGood(que)
    ensures Consistent(keys, mapped[i := clean], leaves, maxMapAddr)
  {
    hide KeysFrom, CutElements, Leaves, AllActs, AllGood, SizeOf, Reversed;
    var r := keys[i];
    SizeOfAppend(clean, Reversed(que));
    SizeOfReversed(que);
    ZoneInside(keys, mapped, i, maxMapAddr);
    assert mapped[i := clean][..i] == mapped[..i] && mapped[i := clean][i + 1..] == mapped[i + 1..];
    ZoneInside(keys, mapped[i := clean], i, maxMapAddr);
    ReversedGood(que);
    SizeOfAligned(clean);
    MultiplesAdd(r.addr, SizeOf(clean), 0x1000);
    CutElementsAppend(r.addr, clean, Reversed(que), false);
    ElementsAscend(r.addr + SizeOf(clean), Reversed(que), false);
    NoRoomNoActs(CutElements(r.addr + SizeOf(clean), Reversed(que), false), r.addr + SizeOf(clean));
    AppendNothing(CutElements(r.addr, clean, false));
  }

  lemma AppendNothing<T>(x: seq<T>)
    ensures x + [] == x
  {
  }

  /** Some element of a list has pages to map. */
  predicate HasPages(es: Elements) {
    es != [] && ((es[0].AsPhysZone().Some? && es[0].mapSize > 0) || HasPages(es[1..]))
  }

  lemma {:induction false} NoPagesNoActs(vaddr: nat, es: Elements, unmap: bool)
    requires !HasPages(es) && AllGood(es) && vaddr % 0x1000 == 0
    ensures CutElements(vaddr, es, unmap) == []
    decreases |es|
  {
    hide Cut;
    if es != [] {
      GoodSplit(vaddr, es);
      NoPagesNoActs(vaddr + es[0].mapSize, es[1..], unmap);
      ElementAscends(vaddr, es[0], unmap);
      if es[0].mapSize == 0 {
        NoRoomNoActs(CutElement(vaddr, es[0], unmap), vaddr);
      }
    }
  }

  lemma {:induction false} QueueWithoutPages(end: nat, es: Elements)
    requires !HasPages(es) && AllGood(es) && end % 0x1000 == 0 && SizeOf(es) <= end
    ensures CutQueue(end, es) == []
    decreases |es|
  {
    hide Cut;
    if es != [] {
      QueueSplit(end, es);
      var start := end - es[0].mapSize;
      QueueWithoutPages(start, es[1..]);
      ElementAscends(start, es[0], true);
      if es[0].mapSize == 0 {
        NoRoomNoActs(CutElement(start, es[0], true), start);
      }
    }
  }

  lemma {:induction false} HasPagesAppend(a: Elements, b: Elements)
    ensures HasPages(a + b) <==> HasPages(a) || HasPages(b)
    decreases |a|
  {
    if a == [] {
      assert a + b == b;
    } else {
      HasPagesAppend(a[1..], b);
      assert (a + b)[1..] == a[1..] + b;
    }
  }

  lemma {:induction false} HasPagesReversed(es: Elements)
    ensures HasPages(Reversed(es)) <==> HasPages(es)
  {
    if es != [] {
      HasPagesReversed(es[1..]);
      HasPagesAppend(Reversed(es[1..]), [es[0]]);
    }
  }

  lemma {:induction false} NoSizeNoPages(es: Elements)
    requires SizeOf(es) == 0
    ensures !HasPages(es)
  {
    if es != [] {
      NoSizeNoPages(es[1..]);
    }
  }

  /** Where the last page of a list ends, counted from its start. */
  ghost function TopOf(es: Elements): nat {
    if es == [] then 0
    else if HasPages(es[1..]) then es[0].mapSize + TopOf(es[1..])
    else es[0].mapSize
  }

  lemma {:induction false} LastTile(acts: seq<Action>, lo: nat, hi: nat)
    requires Tiles(acts, lo, hi) && lo < hi
    ensures exists f :: f in Frames(acts) && f.End() == hi
  {
    FramesCons(acts);
    if acts[1..] != [] && acts[0].virt.End() < hi {
      LastTile(acts[1..], acts[0].virt.End(), hi);
    } else {
      assert acts[0].virt in Frames(acts);
      if acts[1..] != [] {
        assert acts[1..][0] == acts[1];
        TilesOrdered(acts[1..], acts[0].virt.End(), hi);
      }
    }
  }

  lemma {:induction false} TilesOrdered(acts: seq<Action>, lo: nat, hi: nat)
    requires Tiles(acts, lo, hi)
    ensures lo <= hi && (acts != [] ==> lo < hi)
  {
    if acts != [] {
      TilesOrdered(acts[1..], acts[0].virt.End(), hi);
    }
  }

  lemma {:induction false} TopPage(vaddr: nat, es: Elements, unmap: bool)
    requires HasPages(es) && AllGood(es) && vaddr % 0x1000 == 0
    ensures exists f :: f in Frames(CutElements(vaddr, es, unmap)) && f.End() == vaddr + TopOf(es)
    ensures forall f :: f in Frames(CutElements(vaddr, es, unmap)) ==> f.End() <= vaddr + TopOf(es)
    decreases |es|
  {
    hide Cut;
    GoodSplit(vaddr, es);
    var next := vaddr + es[0].mapSize;
    var a, b := CutElement(vaddr, es[0], unmap), CutElements(next, es[1..], unmap);
    FramesAppend(a, b);
    ElementAscends(vaddr, es[0], unmap);
    AscendingBounds(a, vaddr, next);
    if HasPages(es[1..]) {
      TopPage(next, es[1..], unmap);
    } else {
      NoPagesNoActs(next, es[1..], unmap);
      var z := PieceOf(vaddr, es[0], unmap).value;
      CutTiles(z);
      LastTile(Cut(z), vaddr, next);
    }
  }

  /**
   Unmapping the popped elements as if they lay at `target` goes through the frames they are
   mapped with exactly when they do lie there, or when they have no pages at all.
   */
  lemma PoppedFramesMove(addr: nat, target: nat, que: Elements)
    requires AllGood(que) && addr % 0x1000 == 0 && target % 0x1000 == 0
    ensures
      (Frames(CutQueue(target + SizeOf(que), que)) == Frames(CutElements(addr, Reversed(que), false)))
      <==> (target == addr || !HasPages(que))
  {
    hide CutElements, CutQueue, HasPages, TopOf, Reversed;
    ReversedGood(que);
    SizeOfAligned(que);
    MultiplesAdd(target, SizeOf(que), 0x1000);
    CutQueueFrames(target + SizeOf(que), que);
    UnmapReplays(target, Reversed(que));
    SameFrames(CutElements(target, Reversed(que), true), CutElements(target, Reversed(que), false));
    HasPagesReversed(que);
    if HasPages(que) {
      TopPage(addr, Reversed(que), false);
      TopPage(target, Reversed(que), false);
    } else {
      NoPagesNoActs(addr, Reversed(que), false);
      NoPagesNoActs(target, Reversed(que), false);
    }
  }

  /** Where the first page of a list starts, counted from its start. */
  ghost function BottomOf(es: Elements): nat {
    if es == [] || (es[0].AsPhysZone().Some? && es[0].mapSize > 0) then 0
    else es[0].mapSize + BottomOf(es[1..])
  }

  lemma FirstPage(vaddr: nat, e: Element, unmap: bool)
    requires e.Good() && vaddr % 0x1000 == 0 && e.AsPhysZone().Some? && e.mapSize > 0
    ensures exists f :: f in Frames(CutElement(vaddr, e, unmap)) && f.start == vaddr
  {
    hide Cut;
    var z := PieceOf(vaddr, e, unmap).value;
    CutTiles(z);
    assert Cut(z)[0].virt in Frames(Cut(z));
  }

  lemma NoPage(vaddr: nat, e: Element, unmap: bool)
    requires e.Good() && vaddr % 0x1000 == 0 && !(e.AsPhysZone().Some? && e.mapSize > 0)
    ensures CutElement(vaddr, e, unmap) == []
  {
    hide Cut;
    ElementAscends(vaddr, e, unmap);
    if e.mapSize == 0 {
      NoRoomNoActs(CutElement(vaddr, e, unmap), vaddr);
    }
  }

  lemma {:induction false} BottomPage(vaddr: nat, es: Elements, unmap: bool)
    requires HasPages(es) && AllGood(es) && vaddr % 0x1000 == 0
    ensures exists f :: f in Frames(CutElements(vaddr, es, unmap)) && f.start == vaddr + BottomOf(es)
    ensures forall f :: f in Frames(CutElements(vaddr, es, unmap)) ==> f.start >= vaddr + BottomOf(es)
    decreases |es|
  {
    hide Cut, CutElement, Ascending, AllMap, AllUnmap;
    GoodSplit(vaddr, es);
    var next := vaddr + es[0].mapSize;
    var a, b := CutElement(vaddr, es[0], unmap), CutElements(next, es[1..], unmap);
    FramesAppend(a, b);
    ElementAscends(vaddr, es[0], unmap);
    AscendingBounds(a, vaddr, next);
    if es[0].AsPhysZone().Some? && es[0].mapSize > 0 {
      FirstPage(vaddr, es[0], unmap);
      ElementsAscend(next, es[1..], unmap);
      AscendingBounds(b, next, next + SizeOf(es[1..]));
    } else {
      NoPage(vaddr, es[0], unmap);
      BottomPage(next, es[1..], unmap);
    }
  }

  /** The leaves lost, if any, lie within these frames. */
  ghost predicate LostWithin(leaves: map<Pos, Pte>, leaves': map<Pos, Pte>, frames: set<Frame>) {
    forall p :: p in leaves && p !in leaves' ==>
      1 <= p.level <= 3 && exists f :: f in frames && f.start <= Start(p) && End(p) <= f.End()
  }

  /**
   A zone left empty, whose popped pages are unmapped as if they lay at another place: whatever
   page tables are left by that, a popped page of the zone is still mapped, and so they do not agree
   with the zones that are left.
   */
  lemma PoppedPageStays(keys: seq<Range>, mapped: seq<Elements>, leaves: map<Pos, Pte>, maxMapAddr: nat, i: nat,
                        clean: Elements, que: Elements, target: nat, leaves': map<Pos, Pte>)
    requires Consistent(keys, mapped, leaves, maxMapAddr) && i < |keys|
    requires mapped[i] == clean + Reversed(que) && SizeOf(clean) == 0 && HasPages(que) && AllGood(que)
    requires target % 0x1000 == 0 && target != keys[i].addr
    requires LostWithin(leaves, leaves', Frames(CutQueue(target + SizeOf(que), que)))
    ensures exists p :: p in leaves' && 1 <= p.level <= 3 && keys[i].addr <= Start(p) && End(p) <= keys[i].End()
    ensures !Consistent(WithoutAt(keys, i), WithoutAt(mapped, i), leaves', maxMapAddr)
  {
    hide KeysFrom, CutElements, CutQueue, AllActs, AllGood, SizeOf, HasPages, Reversed, LostWithin, Leaves;
    ZoneInside(keys, mapped, i, maxMapAddr);
    var f := PageKept(keys[i].addr, target, que);
    ZoneFrames(keys, mapped, maxMapAddr, i, clean, que);
    var p := PosOf(f);
    PosOfAligned(f);
    assert p in leaves;
    assert p in leaves' by {
      KeptLeaf(leaves, leaves', Frames(CutQueue(target + SizeOf(que), que)), f);
    }
    if Consistent(WithoutAt(keys, i), WithoutAt(mapped, i), leaves', maxMapAddr) {
      OthersClear(keys, mapped, maxMapAddr, i);
      assert false;
    }
  }

  lemma KeptLeaf(leaves: map<Pos, Pte>, leaves': map<Pos, Pte>, frames: set<Frame>, f: Frame)
    requires LostWithin(leaves, leaves', frames) && AlignedFrame(f) && PosOf(f) in leaves
    requires forall w :: w in frames ==> !(w.start <= f.start && f.End() <= w.End())
    ensures PosOf(f) in leaves'
  {
    PosOfAligned(f);
  }

  /** A page of the queue that is not within the frames computed at the other place. */
  lemma PageKept(addr: nat, target: nat, que: Elements) returns (f: Frame)
    requires AllGood(que) && HasPages(que) && addr % 0x1000 == 0 && target % 0x1000 == 0 && target != addr
    ensures f in Frames(CutElements(addr, Reversed(que), false)) && AlignedFrame(f)
    ensures addr <= f.start && f.End() <= addr + SizeOf(que)
    ensures forall w :: w in Frames(CutQueue(target + SizeOf(que), que)) ==> !(w.start <= f.start && f.End() <= w.End())
  {
    hide CutElements, CutQueue, HasPages, TopOf, BottomOf, Reversed, SizeOf;
    ReversedGood(que);
    SizeOfAligned(que);
    SizeOfReversed(que);
    MultiplesAdd(target, SizeOf(que), 0x1000);
    CutQueueFrames(target + SizeOf(que), que);
    HasPagesReversed(que);
    ElementsAscend(addr, Reversed(que), false);
    AscendingBounds(CutElements(addr, Reversed(que), false), addr, addr + SizeOf(que));
    if target < addr {
      TopPage(addr, Reversed(que), false);
      TopPage(target, Reversed(que), true);
      f :| f in Frames(CutElements(addr, Reversed(que), false)) && f.End() == addr + TopOf(Reversed(que));
    } else {
      BottomPage(addr, Reversed(que), false);
      BottomPage(target, Reversed(que), true);
      f :| f in Frames(CutElements(addr, Reversed(que), false)) && f.start == addr + BottomOf(Reversed(que));
    }
  }

  /** The popped pages of a zone are mapped, behind its clean elements. */
  lemma ZoneFrames(keys: seq<Range>, mapped: seq<Elements>, maxMapAddr: nat, i: nat, clean: Elements, que: Elements)
    requires KeysFrom(keys, PAGE_SIZE, maxMapAddr) && Filled(keys, mapped) && i < |keys|
    requires mapped[i] == clean + Reversed(que) && SizeOf(clean) == 0
    ensures SizeOf(que) == keys[i].size
    ensures forall f :: f in Frames(CutElements(keys[i].addr, Reversed(que), false)) ==>
      PosOf(f) in Leaves(AllActs(keys, mapped))
  {
    hide KeysFrom, CutElements, AllActs, AllGood, Leaves;
    var a, b, c := AllActs(keys[..i], mapped[..i]), CutElements(keys[i].addr, mapped[i], false),
      AllActs(keys[i + 1..], mapped[i + 1..]);
    ZoneInside(keys, mapped, i, maxMapAddr);
    CutElementsAppend(keys[i].addr, clean, Reversed(que), false);
    FramesAppend(CutElements(keys[i].addr, clean, false), CutElements(keys[i].addr, Reversed(que), false));
    FramesAppend(b, c);
    FramesAppend(a, b + c);
    ActsAscend(keys, mapped, PAGE_SIZE, maxMapAddr);
    LeavesKeys(AllActs(keys, mapped));
    SizeOfAppend(clean, Reversed(que));
    SizeOfReversed(que);
  }

  /** No leaf of the other zones lies in the range of a zone. */
  lemma OthersClear(keys: seq<Range>, mapped: seq<Elements>, maxMapAddr: nat, i: nat)
    requires KeysFrom(keys, PAGE_SIZE, maxMapAddr) && Filled(keys, mapped) && i < |keys|
    ensures forall p :: p in Leaves(AllActs(WithoutAt(keys, i), WithoutAt(mapped, i))) ==>
      1 <= p.level <= 3 && !(keys[i].addr <= Start(p) && End(p) <= keys[i].End())
  {
    hide KeysFrom, CutElements, AllActs, AllGood, Leaves;
    var a, c := AllActs(keys[..i], mapped[..i]), AllActs(keys[i + 1..], mapped[i + 1..]);
    ZoneInside(keys, mapped, i, maxMapAddr);
    ActsAscend(keys[..i], mapped[..i], PAGE_SIZE, keys[i].addr);
    ActsAscend(keys[i + 1..], mapped[i + 1..], keys[i].End(), maxMapAddr);
    AscendingBounds(a, PAGE_SIZE, keys[i].addr);
    AscendingBounds(c, keys[i].End(), maxMapAddr);
    FramesAppend(a, c);
    assert AllMap(a + c);
    LeavesKeys(a + c);
    forall p | p in Leaves(a + c) ensures 1 <= p.level <= 3 && !(keys[i].addr <= Start(p) && End(p) <= keys[i].End()) {
      var f :| f in Frames(a + c) && PosOf(f) == p;
      PosOfAligned(f);
      AtStart(p);
    }
  }

  /** A zone without pages can be forgotten without touching the page tables. */
  lemma ForgetPageless(keys: seq<Range>, mapped: seq<Elements>, leaves: map<Pos, Pte>, maxMapAddr: nat, i: nat)
    requires Consistent(keys, mapped, leaves, maxMapAddr) && i < |keys| && !HasPages(mapped[i])
    ensures Consistent(WithoutAt(keys, i), WithoutAt(mapped, i), leaves, maxMapAddr)
  {
    hide KeysFrom, CutElements, Leaves, AllActs, AllGood, SizeOf, HasPages;
    ZoneInside(keys, mapped, i, maxMapAddr);
    WithoutKeys(keys, i, PAGE_SIZE, maxMapAddr);
    NoPagesNoActs(keys[i].addr, mapped[i], false);
    DropEmpty(AllActs(keys[..i], mapped[..i]), AllActs(keys[i + 1..], mapped[i + 1..]));
  }
}
