/**
 The keys of the `BTreeMap<VirtRange, VirtLayout>` of a `VirtMapper`, and the two searches of
 kernel/src/mem/virt_alloc.rs among them: `find_range` and `free_space`.

 A `BTreeMap` keeps its keys sorted; they are modelled as the sequence of keys in order.
 */
module ZoneKeys {
  import opened Wrappers
  import opened Arith
  import opened AddrRange

  /** Keys in order: page aligned, not empty, without overlap, all within [lo, hi). */
  ghost predicate KeysFrom(keys: seq<Range>, lo: nat, hi: nat) {
    if keys == [] then lo <= hi
    else
      && lo <= keys[0].addr && keys[0].size > 0 && keys[0].PageAligned()
      && KeysFrom(keys[1..], keys[0].End(), hi)
  }

  lemma {:induction false} KeysBounds(keys: seq<Range>, lo: nat, hi: nat)
    requires KeysFrom(keys, lo, hi)
    ensures lo <= hi
    ensures forall i :: 0 <= i < |keys| ==>
      lo <= keys[i].addr && keys[i].End() <= hi && keys[i].size > 0 && keys[i].PageAligned()
    ensures forall i, j :: 0 <= i < j < |keys| ==> keys[i].End() <= keys[j].addr
  {
    hide Range.PageAligned;
    if keys != [] {
      KeysBounds(keys[1..], keys[0].End(), hi);
      assert forall i :: 1 <= i < |keys| ==> keys[i] == keys[1..][i - 1];
    }
  }

  /** A run of pages lies within the bounds and clear of all keys but one. */
  ghost predicate FreeBut(keys: seq<Range>, r: Range, lo: nat, hi: nat, but: Option<Range>) {
    && lo <= r.addr && r.End() <= hi
    && forall k :: k in keys && Some(k) != but ==> r.Disjoint(k)
  }

  ghost predicate Free(keys: seq<Range>, r: Range, lo: nat, hi: nat) {
    FreeBut(keys, r, lo, hi, None)
  }

  /** `find_range`: the lowest gap of the size asked for. */
  method FindRange(keys: seq<Range>, size: nat, maxMapAddr: nat) returns (r: Option<Range>)
    requires KeysFrom(keys, PAGE_SIZE, maxMapAddr)
    requires size > 0 && size % 0x1000 == 0
    ensures r.Some? ==>
      && r.value.size == size && r.value.PageAligned() && Free(keys, r.value, PAGE_SIZE, maxMapAddr)
      && forall a: nat :: a < r.value.addr ==> !Free(keys, Range(a, size), PAGE_SIZE, maxMapAddr)
    ensures r.None? ==> forall a: nat :: !Free(keys, Range(a, size), PAGE_SIZE, maxMapAddr)
  {
    KeysBounds(keys, PAGE_SIZE, maxMapAddr);
    var laddr := PAGE_SIZE;
    var found := false;
    var i := 0;
    while i < |keys| && !found
      invariant 0 <= i <= |keys| && laddr % 0x1000 == 0
      invariant laddr == if i == 0 then PAGE_SIZE else keys[i - 1].End()
      invariant laddr <= maxMapAddr
      invariant found ==> i < |keys| && laddr + size <= keys[i].addr
      invariant forall a: nat :: a < laddr ==> !Free(keys, Range(a, size), PAGE_SIZE, maxMapAddr)
      decreases |keys| - i, !found
    {
      var zone := keys[i];
      var diff := zone.addr - laddr;
      if diff >= size {
        found := true;
      } else {
        MultiplesAdd(zone.addr, zone.size, 0x1000);
        NoRoomBefore(keys, i, laddr, size, maxMapAddr);
        laddr := zone.addr + zone.size;
        i := i + 1;
      }
    }
    if !found && maxMapAddr - laddr < size {
      return None;
    }
    r := Some(Range(laddr, size));
    assert forall j :: 0 <= j < |keys| ==> r.value.Disjoint(keys[j]);
  }

  lemma NoRoomBefore(keys: seq<Range>, i: nat, laddr: nat, size: nat, maxMapAddr: nat)
    requires i < |keys| && size > 0 && keys[i].size > 0 && keys[i].addr < laddr + size
    requires forall a: nat :: a < laddr ==> !Free(keys, Range(a, size), PAGE_SIZE, maxMapAddr)
    ensures forall a: nat :: a < keys[i].End() ==> !Free(keys, Range(a, size), PAGE_SIZE, maxMapAddr)
  {
    assert keys[i] in keys;
    forall a: nat | a < keys[i].End() ensures !Free(keys, Range(a, size), PAGE_SIZE, maxMapAddr) {
      assert a >= laddr ==> !Range(a, size).Disjoint(keys[i]);
    }
  }

  /** How many keys come before a range: where it is, or would be inserted. */
  function Rank(keys: seq<Range>, r: Range): (n: nat)
    ensures n <= |keys|
  {
    if keys == [] || !keys[0].Before(r) then 0 else 1 + Rank(keys[1..], r)
  }

  lemma {:induction false} RankSplits(keys: seq<Range>, lo: nat, hi: nat, r: Range)
    requires KeysFrom(keys, lo, hi)
    ensures forall i :: 0 <= i < |keys| ==> (i < Rank(keys, r) <==> keys[i].Before(r))
  {
    if keys != [] {
      RankSplits(keys[1..], keys[0].End(), hi, r);
      KeysBounds(keys, lo, hi);
      assert forall i :: 1 <= i < |keys| ==> keys[i] == keys[1..][i - 1];
    }
  }

  /** `get`: the place of a key, if it is there. */
  function Lookup(keys: seq<Range>, r: Range): (i: Option<nat>)
    ensures i.Some? ==> i.value < |keys| && keys[i.value] == r
  {
    var k := Rank(keys, r);
    if k < |keys| && keys[k] == r then Some(k) else None
  }

  lemma LookupFinds(keys: seq<Range>, lo: nat, hi: nat, r: Range)
    requires KeysFrom(keys, lo, hi)
    ensures Lookup(keys, r).Some? <==> r in keys
  {
    RankSplits(keys, lo, hi, r);
    KeysBounds(keys, lo, hi);
    if r in keys {
      var i :| 0 <= i < |keys| && keys[i] == r;
      assert !keys[i].Before(r);
      RankIs(keys, r, i);
    }
  }

  lemma RankIs(keys: seq<Range>, r: Range, i: nat)
    requires i < |keys| && Rank(keys, r) <= i && keys[i].addr <= r.addr
    requires forall j :: 0 <= j < |keys| ==> (j < Rank(keys, r) <==> keys[j].Before(r)) && keys[j].size > 0
    requires forall j, l :: 0 <= j < l < |keys| ==> keys[j].End() <= keys[l].addr
    ensures Rank(keys, r) == i
  {
    var k := Rank(keys, r);
    assert !keys[k].Before(r);
  }

  /**
   `free_space`: the free bytes to the left and to the right of a range, or nothing if it is
   not free.  As in the source, the second test on the excluded key asks about `prev` again.
   */
  function FreeSpace(keys: seq<Range>, r: Range, exclude: Option<Range>, maxMapAddr: nat): Option<(nat, nat)> {
    var k := Rank(keys, r);
    var prev := if k > 0 then Some(keys[k - 1]) else None;
    var next := if k < |keys| then Some(keys[k]) else None;
    var prev' :=
      if exclude.Some? && prev == exclude then (if k > 1 then Some(keys[k - 2]) else None) else prev;
    var next' :=
      if exclude.Some? && prev' == exclude then (if k + 1 < |keys| then Some(keys[k + 1]) else None) else next;
    var left :=
      match prev'
      case Some(p) => if p.End() > r.addr then None else Some(r.addr - p.End())
      case None => if r.addr < PAGE_SIZE then None else Some(r.addr - PAGE_SIZE);
    var right :=
      match next'
      case Some(n) => if r.End() > n.addr then None else Some(n.addr - r.End())
      case None => if r.End() > maxMapAddr then None else Some(maxMapAddr - r.End());
    if left.Some? && right.Some? then Some((left.value, right.value)) else None
  }

  /**
   What `free_space` finds out: it gives an answer exactly when the range is free but for the
   excluded key, and that key comes before the range or does not overlap it either.
   */
  lemma FreeSpaceExact(keys: seq<Range>, r: Range, exclude: Option<Range>, maxMapAddr: nat)
    requires KeysFrom(keys, PAGE_SIZE, maxMapAddr) && r.size > 0
    requires exclude.Some? ==> exclude.value in keys
    ensures FreeSpace(keys, r, exclude, maxMapAddr).Some? <==>
      && FreeBut(keys, r, PAGE_SIZE, maxMapAddr, exclude)
      && (exclude.Some? ==> exclude.value.Before(r) || r.Disjoint(exclude.value))
  {
    hide FreeSpace, Rank, KeysFrom;
    RankSplits(keys, PAGE_SIZE, maxMapAddr, r);
    KeysBounds(keys, PAGE_SIZE, maxMapAddr);
    var k := Rank(keys, r);
    var e := -1;
    if exclude.Some? {
      e :| 0 <= e < |keys| && keys[e] == exclude.value;
      assert forall i :: 0 <= i < |keys| && i != e ==> keys[i] != exclude.value;
    }
    FreeSpaceAt(keys, r, exclude, maxMapAddr, e);
    LeftSide(keys, r, maxMapAddr, k, e);
    RightSide(keys, r, maxMapAddr, k);
    FreeButAt(keys, r, maxMapAddr, exclude, e);
  }

  /** Which neighbours `free_space` looks at, when the excluded key is number `e`. */
  lemma FreeSpaceAt(keys: seq<Range>, r: Range, exclude: Option<Range>, maxMapAddr: nat, e: int)
    requires if exclude == None then e == -1 else 0 <= e < |keys| && keys[e] == exclude.value
    requires forall i :: 0 <= i < |keys| && i != e ==> Some(keys[i]) != exclude
    ensures
      var k := Rank(keys, r);
      var j := if e >= 0 && e == k - 1 then k - 2 else k - 1;
      FreeSpace(keys, r, exclude, maxMapAddr).Some? <==>
        && (if j >= 0 then keys[j].End() <= r.addr else PAGE_SIZE <= r.addr)
        && (if k < |keys| then r.End() <= keys[k].addr else r.End() <= maxMapAddr)
  {
  }

  ghost predicate SortedApart(keys: seq<Range>, hi: nat) {
    && (forall i :: 0 <= i < |keys| ==> PAGE_SIZE <= keys[i].addr && keys[i].End() <= hi && keys[i].size > 0)
    && (forall i, j :: 0 <= i < j < |keys| ==> keys[i].End() <= keys[j].addr)
  }

  /** The nearest key on the left that is not excluded decides for all keys on the left. */
  lemma LeftSide(keys: seq<Range>, r: Range, hi: nat, k: nat, e: int)
    requires SortedApart(keys, hi) && r.size > 0 && k <= |keys| && -1 <= e < |keys|
    requires forall i :: 0 <= i < k ==> keys[i].addr <= r.addr
    ensures
      var j := if e >= 0 && e == k - 1 then k - 2 else k - 1;
      (if j >= 0 then keys[j].End() <= r.addr else PAGE_SIZE <= r.addr) <==>
        PAGE_SIZE <= r.addr && forall i :: 0 <= i < k && i != e ==> r.Disjoint(keys[i])
  {
  }

  lemma RightSide(keys: seq<Range>, r: Range, hi: nat, k: nat)
    requires SortedApart(keys, hi) && r.size > 0 && k <= |keys|
    requires forall i :: k <= i < |keys| ==> r.addr <= keys[i].addr
    ensures
      (if k < |keys| then r.End() <= keys[k].addr else r.End() <= hi) <==>
        r.End() <= hi && forall i :: k <= i < |keys| ==> r.Disjoint(keys[i])
  {
  }

  lemma FreeButAt(keys: seq<Range>, r: Range, hi: nat, but: Option<Range>, e: int)
    requires if but == None then e == -1 else 0 <= e < |keys| && keys[e] == but.value
    requires forall i :: 0 <= i < |keys| && i != e ==> Some(keys[i]) != but
    ensures FreeBut(keys, r, PAGE_SIZE, hi, but) <==>
      PAGE_SIZE <= r.addr && r.End() <= hi && forall i :: 0 <= i < |keys| && i != e ==> r.Disjoint(keys[i])
  {
  }

  /**
   A zone can never stay where it is when it shrinks or keeps its size: the test for the key
   that is to be excluded looks at the wrong neighbour.
   */
  lemma ShrinkInPlaceNeverFree(keys: seq<Range>, zone: Range, size: nat, maxMapAddr: nat)
    requires KeysFrom(keys, PAGE_SIZE, maxMapAddr) && zone in keys && 0 < size <= zone.size
    ensures FreeSpace(keys, Range(zone.addr, size), Some(zone), maxMapAddr) == None
  {
    FreeSpaceExact(keys, Range(zone.addr, size), Some(zone), maxMapAddr);
  }

  /** A zone that grows stays in place exactly when the room after it is free. */
  lemma GrowInPlaceFree(keys: seq<Range>, zone: Range, size: nat, maxMapAddr: nat)
    requires KeysFrom(keys, PAGE_SIZE, maxMapAddr) && zone in keys && size > zone.size
    ensures FreeSpace(keys, Range(zone.addr, size), Some(zone), maxMapAddr).Some? <==>
      FreeBut(keys, Range(zone.addr, size), PAGE_SIZE, maxMapAddr, Some(zone))
  {
    FreeSpaceExact(keys, Range(zone.addr, size), Some(zone), maxMapAddr);
  }

  // ---------------------------------------------------------------------------------------
  // Inserting and removing keys

  /** `insert` of a new key. */
  function Inserted(keys: seq<Range>, r: Range): (s: seq<Range>)
    ensures |s| == |keys| + 1
  {
    InsertedAt(keys, Rank(keys, r), r)
  }

  function InsertedAt<T>(s: seq<T>, k: nat, x: T): seq<T>
    requires k <= |s|
  {
    s[..k] + [x] + s[k..]
  }

  function WithoutAt<T>(s: seq<T>, i: nat): seq<T>
    requires i < |s|
  {
    s[..i] + s[i + 1..]
  }

  lemma KeysFromIndices(keys: seq<Range>, lo: nat, hi: nat)
    requires lo <= hi
    requires forall i :: 0 <= i < |keys| ==>
      lo <= keys[i].addr && keys[i].End() <= hi && keys[i].size > 0 && keys[i].PageAligned()
    requires forall i, j :: 0 <= i < j < |keys| ==> keys[i].End() <= keys[j].addr
    ensures KeysFrom(keys, lo, hi)
  {
    hide Range.PageAligned;
    if keys != [] {
      assert forall i :: 0 <= i < |keys[1..]| ==> keys[1..][i] == keys[i + 1];
      KeysFromIndices(keys[1..], keys[0].End(), hi);
    }
  }

  lemma InsertedKeys(keys: seq<Range>, r: Range, lo: nat, hi: nat)
    requires KeysFrom(keys, lo, hi) && r.size > 0 && r.PageAligned() && Free(keys, r, lo, hi)
    ensures KeysFrom(Inserted(keys, r), lo, hi) && r !in keys
    ensures forall i :: 0 <= i < Rank(keys, r) ==> keys[i].End() <= r.addr
    ensures forall i :: Rank(keys, r) <= i < |keys| ==> r.End() <= keys[i].addr
  {
    hide KeysFrom, Rank, Range.PageAligned;
    KeysBounds(keys, lo, hi);
    RankSplits(keys, lo, hi, r);
    assert forall i :: 0 <= i < |keys| ==> keys[i] in keys && r.Disjoint(keys[i]);
    KeysFromIndices(Inserted(keys, r), lo, hi);
  }

  lemma WithoutKeys(keys: seq<Range>, i: nat, lo: nat, hi: nat)
    requires KeysFrom(keys, lo, hi) && i < |keys|
    ensures KeysFrom(WithoutAt(keys, i), lo, hi)
  {
    hide KeysFrom, Range.PageAligned;
    KeysBounds(keys, lo, hi);
    KeysFromIndices(WithoutAt(keys, i), lo, hi);
  }
}
