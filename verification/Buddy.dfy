/**
 `BuddyAllocator` and `ZoneManager` of kernel/src/mem/phys_alloc.rs: physical memory in blocks
 whose sizes are powers of two.
 */
module Buddies {
  import opened Wrappers
  import opened Arith
  import opened BuddyTiles

  datatype Allocation = Allocation(addr: nat, len: nat, zindex: nat)

  class BuddyAllocator {
    var start: nat
    var metaStart: nat
    /** The lists of free blocks, by order. */
    var olist: Lists
    var maxOrder: nat
    /** The smallest block has 1 << minBits bytes. */
    var minBits: nat
    /** The count of free bytes; where `Shrink` makes it fall below zero, the source wraps around. */
    var freeSpace: int
    /** One bit for every smallest block: set at the start of a block that is handed out. */
    var bitmap: seq<bool>
    ghost var tiles: Tiles

    /** Everything but the count of free bytes. */
    ghost predicate Blocks()
      reads this
    {
      && minBits >= 12 && start % Sz(0, minBits) == 0 && start <= metaStart && maxOrder < MAX_ORDER
      && |olist| == MAX_ORDER && Inv(olist, tiles, start, metaStart, minBits)
      && (forall a :: a in tiles ==> tiles[a].order <= maxOrder)
      && BitmapRight(bitmap, tiles, start, Sz(0, minBits)) && |bitmap| * Sz(0, minBits) == metaStart - start
    }

    /** How far the count of free bytes is off. */
    ghost function CountOff(): int
      requires Blocks()
      reads this
    {
      freeSpace - FreeBytes(olist, minBits)
    }

    ghost predicate Valid()
      reads this
    {
      Blocks() && CountOff() == 0
    }

    /** No block could be larger where it starts. */
    ghost predicate Maximal()
      reads this
    {
      forall a, o {:trigger HasRoom(a, o, metaStart, minBits)} ::
        a in tiles && tiles[a].order < o < MAX_ORDER ==> !HasRoom(a, o, metaStart, minBits)
    }

    /**
     `new`.  The smallest block is a power of two of at least a page.  The bitmap lies at the end, in
     front of it the blocks.
     */
    constructor (begin: nat, end: nat, minBits: nat)
      requires 12 <= minBits <= 31 && AlignUp(begin, Pow2(minBits)) < end
      requires end - AlignUp(begin, Pow2(minBits)) < Pow2(MAX_ORDER + minBits)
      ensures Valid() && this.minBits == minBits && start == AlignUp(begin, Pow2(minBits))
      ensures start <= metaStart < end && freeSpace == metaStart - start
      ensures Maximal() && forall a :: a in tiles ==> tiles[a].free
    {
      hide Pow2, AlignUp, AlignDown, Blocks, Maximal;
      var unit := Pow2(minBits);
      var from := AlignUp(begin, unit);
      var metaSize := (end - from) / (8 * unit) + 1;
      AlignUpIs(begin, unit);
      MetaFits(from, end, unit);
      var meta := AlignDown(end - metaSize, unit);
      start, metaStart := from, meta;
      olist := seq(MAX_ORDER, _ => []);
      maxOrder := 0;
      this.minBits := minBits;
      freeSpace := meta - from;
      bitmap := seq((meta - from) / unit, _ => false);
      tiles := map[];
      WholeUnits(from, meta, unit);
      new;
      InitOrders();
    }

    /** `init_orders`: from the start on, always the largest aligned block that still fits. */
    method InitOrders()
      requires 12 <= minBits <= 31 && start % Sz(0, minBits) == 0 && metaStart % Sz(0, minBits) == 0
        && start <= metaStart
      requires metaStart - start < Pow2(MAX_ORDER + minBits) && maxOrder == 0 && tiles == map[]
      requires olist == seq(MAX_ORDER, _ => []) && |bitmap| * Sz(0, minBits) == metaStart - start
      requires forall i :: 0 <= i < |bitmap| ==> !bitmap[i]
      modifies this`olist, this`maxOrder, this`tiles
      ensures Blocks() && FreeBytes(olist, minBits) == metaStart - start
      ensures Maximal() && forall a :: a in tiles ==> tiles[a].free
    {
      hide Inv, Sz, FreeBytes, GetOrder, HasRoom;
      var a := start;
      NothingYet(start, minBits);
      while a < metaStart
        invariant start <= a <= metaStart && a % Sz(0, minBits) == 0 && maxOrder < MAX_ORDER && |olist| == MAX_ORDER
        invariant Inv(olist, tiles, start, a, minBits) && FreeBytes(olist, minBits) == a - start
        invariant forall b :: b in tiles ==> tiles[b].free && tiles[b].order <= maxOrder
        invariant Maximal()
      {
        var len := Min(AlignOf(a), Pow2(Log2(metaStart - a)));
        NextBlock(a, metaStart, minBits);
        NextIsLargest(a, metaStart, minBits);
        var order := GetOrder(len, minBits);
        var node := Node(a, len);
        AddBlock(olist, tiles, a, order, start, minBits);
        olist := olist[order := olist[order] + [node]];
        tiles := tiles[a := Tile(order, true)];
        if order > maxOrder {
          maxOrder := order;
        }
        a := a + len;
      }
    }

    /** `is_alloced` */
    function IsAlloced(addr: nat): bool
      requires start <= metaStart && |bitmap| * Sz(0, minBits) == metaStart - start
      reads this
    {
      if addr < start || addr >= metaStart then false
      else
        BitIndex(addr, start, metaStart, |bitmap|, Sz(0, minBits));
        bitmap[(addr - start) / Sz(0, minBits)]
    }

    /** `set_is_alloced` */
    method SetIsAlloced(addr: nat, alloced: bool)
      requires start <= metaStart && |bitmap| * Sz(0, minBits) == metaStart - start
      modifies this`bitmap
      ensures |bitmap| == |old(bitmap)|
      ensures
        var i := (addr - start) / Sz(0, minBits);
        if addr < start || addr >= metaStart then bitmap == old(bitmap)
        else 0 <= i < |bitmap| && bitmap == old(bitmap)[i := alloced]
    {
      if addr < start || addr >= metaStart {
        return;
      }
      BitIndex(addr, start, metaStart, |bitmap|, Sz(0, minBits));
      var i := (addr - start) / Sz(0, minBits);
      bitmap := bitmap[i := alloced];
    }

    /** `split_order` */
    method SplitOrder(order: nat) returns (ok: bool)
      requires Blocks()
      modifies this`olist, this`tiles
      ensures Blocks()
      ensures
        var r := Split(old(olist), order, maxOrder);
        && ok == r.Some?
        && (if ok then olist == r.value else olist == old(olist) && tiles == old(tiles))
      ensures SameLive(old(tiles), tiles)
      decreases MAX_ORDER - order
    {
      hide Inv, Split, HalveFirst, BitmapRight, Halved, Sz, SameLive;
      ghost var l, t := olist, tiles;
      SplitStep(l, order, maxOrder);
      SameLiveRefl(t);
      if order > maxOrder || order == 0 {
        return false;
      }
      ok := |olist[order]| != 0;
      if !ok {
        ok := SplitOrder(order + 1);
      }
      if ok {
        SplitHead(l, t, order, maxOrder, start, metaStart, minBits);
        HalveKeeps(olist, tiles, order, start, metaStart, minBits, bitmap, maxOrder);
        ghost var m := olist;
        var node := olist[order][0];
        olist := olist[order := olist[order][1..]];
        var half := node.size / 2;
        var addr := Buddy(node.addr, half);
        olist := olist[order - 1 := [Node(addr, half)] + olist[order - 1]];
        olist := olist[order - 1 := [Node(node.addr, half)] + olist[order - 1]];
        SameLiveTrans(t, tiles, Halved(tiles, node.addr, order, true, true, minBits));
        tiles := Halved(tiles, node.addr, order, true, true, minBits);
        assert olist == HalveFirst(m, order) by {
          assert [node.(size := half)] + ([Node(addr, half)] + m[order - 1])
            == [node.(size := half), Node(addr, half)] + m[order - 1];
        }
      }
    }

    /**
     `oalloc`: a block of the order asked for, cut from the first block of the smallest order from
     there on that has one; there is none exactly if all those lists are empty.
     */
    method Oalloc(order: nat) returns (out: Option<Allocation>)
      requires Blocks()
      modifies this`olist, this`tiles, this`bitmap, this`freeSpace
      ensures Blocks() && CountOff() == old(CountOff())
      ensures
        var f := First(old(olist), order, maxOrder);
        if f.None? then out.None? && olist == old(olist) && tiles == old(tiles) && bitmap == old(bitmap)
          && freeSpace == old(freeSpace)
        else
          var a := old(olist)[f.value][0].addr;
          && out == Some(Allocation(a, Sz(order, minBits), 0)) && freeSpace == old(freeSpace) - Sz(order, minBits)
          && HandedOut(old(tiles), tiles, a, order)
    {
      hide Inv, Split, First, BitmapRight, Sz, FreeBytes, SameLive, HandedOut;
      ghost var l, t := olist, tiles;
      FirstStep(l, order, maxOrder);
      if order > maxOrder {
        return None;
      }
      if |olist[order]| == 0 {
        SplitFirst(l, t, order, maxOrder, start, metaStart, minBits);
        SplitBytes(l, order + 1, maxOrder, minBits);
        var ok := SplitOrder(order + 1);
        if !ok {
          return None;
        }
      } else {
        SameLiveRefl(t);
      }
      out := TakeOut(order, t);
    }

    /** The end of `oalloc`: the first block of the list is taken. */
    method TakeOut(order: nat, ghost t: Tiles) returns (out: Option<Allocation>)
      requires Blocks() && order <= maxOrder && olist[order] != [] && SameLive(t, tiles)
      modifies this`olist, this`tiles, this`bitmap, this`freeSpace
      ensures Blocks() && CountOff() == old(CountOff())
      ensures
        var a := old(olist)[order][0].addr;
        && out == Some(Allocation(a, Sz(order, minBits), 0)) && freeSpace == old(freeSpace) - Sz(order, minBits)
        && HandedOut(t, tiles, a, order)
    {
      hide Inv, BitmapRight, Sz, FreeBytes, SameLive, HandedOut;
      TakeFirst(olist, tiles, order, start, metaStart, minBits);
      var node := olist[order][0];
      ghost var t1 := tiles;
      TakenLive(t, tiles, node.addr, order);
      MarkRight(bitmap, olist, tiles, node.addr, start, metaStart, minBits, false);
      olist := olist[order := olist[order][1..]];
      SetIsAlloced(node.addr, true);
      freeSpace := freeSpace - node.size;
      tiles := tiles[node.addr := Tile(order, false)];
      out := Some(Allocation(node.addr, node.size, 0));
    }

    /** `alloc`: the block is large enough and, but for the smallest, less than twice as large. */
    method Alloc(size: nat) returns (out: Option<Allocation>)
      requires Blocks()
      modifies this`olist, this`tiles, this`bitmap, this`freeSpace
      ensures Blocks() && CountOff() == old(CountOff())
      ensures out.None? <==> size == 0 || First(old(olist), GetOrder(size, minBits), maxOrder).None?
      ensures out.None? ==>
        olist == old(olist) && tiles == old(tiles) && bitmap == old(bitmap) && freeSpace == old(freeSpace)
      ensures out.Some? ==>
        && out.value.len >= size && (size > Sz(0, minBits) ==> out.value.len < 2 * size)
        && out.value.len == Sz(GetOrder(size, minBits), minBits) && out.value.addr % out.value.len == 0
        && start <= out.value.addr && out.value.addr + out.value.len <= metaStart
        && freeSpace == old(freeSpace) - out.value.len
        && HandedOut(old(tiles), tiles, out.value.addr, GetOrder(size, minBits))
    {
      hide Inv, First, BitmapRight, Sz, FreeBytes, GetOrder, HandedOut;
      if size == 0 {
        return None;
      }
      var order := GetOrder(size, minBits);
      GetOrderIs(size, minBits);
      out := Oalloc(order);
      if out.Some? {
        HandedOutRight(olist, old(tiles), tiles, out.value.addr, order, start, metaStart, minBits);
      }
    }

    /** `insert_node`: the test in its loop never lets a round pass, so blocks are never joined. */
    method InsertNode(node: Node, ghost order: nat)
      requires |olist| == MAX_ORDER && minBits > 0 && order < MAX_ORDER && node.size == Sz(order, minBits)
        && node.addr >= start
      modifies this`olist
      ensures olist == old(olist)[order := [node] + old(olist)[order]]
    {
      hide Sz, Buddy, GetOrder;
      OrderOf(order, minBits);
      var o := GetOrder(node.size, minBits);
      var addr2 := Buddy(node.addr, node.size);
      // the first two of the four tests, one of which always says that the loop is over
      var over := addr2 < node.addr || addr2 > start;
      assert over by {
        NeverJoined(node.addr, node.size, start);
      }
      olist := olist[o := [node] + olist[o]];
    }

    /** `dealloc`, of a block that is handed out: it goes to the head of the list of its order. */
    method Dealloc(mem: Allocation)
      requires Blocks() && Live(tiles, mem.addr) && mem.len == Sz(tiles[mem.addr].order, minBits)
      modifies this`olist, this`tiles, this`bitmap, this`freeSpace
      ensures Blocks() && CountOff() == old(CountOff())
      ensures
        var o := old(tiles)[mem.addr].order;
        && olist == old(olist)[o := [Node(mem.addr, mem.len)] + old(olist)[o]]
        && tiles == old(tiles)[mem.addr := Tile(o, true)]
        && freeSpace == old(freeSpace) + mem.len
    {
      hide BitmapRight, Sz, FreeBytes, Tiling, ListsRight;
      var addr := mem.addr;
      ghost var o := tiles[addr].order;
      LiveRight(olist, tiles, addr, start, metaStart, minBits);
      MarkRight(bitmap, olist, tiles, addr, start, metaStart, minBits, true);
      GiveBack(olist, tiles, addr, start, metaStart, minBits);
      if addr < start || addr + mem.len > metaStart {
        return;
      }
      assert IsAlloced(addr);
      SetIsAlloced(addr, false);
      var node := Node(addr, mem.len);
      freeSpace := freeSpace + node.size;
      InsertNode(node, o);
      tiles := tiles[addr := Tile(o, true)];
    }

    /**
     `orealloc` to the same or a smaller order.  The block keeps its address; its upper halves go to
     their lists.  The count of free bytes goes wrong, but for order 2 to order 1, see `ShrinkCount`;
     allocating and freeing then go on with a count that is off by as much.
     */
    method Shrink(mem: Allocation, order: nat) returns (out: Option<Allocation>)
      requires Blocks() && Live(tiles, mem.addr) && mem.len == Sz(tiles[mem.addr].order, minBits)
      requires order <= tiles[mem.addr].order
      modifies this`olist, this`tiles, this`freeSpace
      ensures Blocks()
      ensures
        var oldOrder := old(tiles)[mem.addr].order;
        && out.Some? && out.value.addr == mem.addr && out.value.len == Sz(order, minBits)
        && Live(tiles, mem.addr) && tiles[mem.addr] == Tile(order, false)
        && SameLive(old(tiles)[mem.addr := Tile(order, false)], tiles)
        && FreeBytes(olist, minBits) == FreeBytes(old(olist), minBits) + Sz(oldOrder, minBits) - Sz(order, minBits)
        && freeSpace == old(freeSpace) + (if order < oldOrder then Sz(oldOrder - order, minBits) else 0)
        && (CountOff() == old(CountOff()) <==> order == oldOrder || (oldOrder == 2 && order == 1))
    {
      hide BitmapRight, Sz, FreeBytes, Tiling, ListsRight, GetOrder, SameLive, Buddy, Halved;
      var addr := mem.addr;
      LiveRight(olist, tiles, addr, start, metaStart, minBits);
      OrderOf(tiles[addr].order, minBits);
      ghost var t := tiles;
      if order > maxOrder {
        return None;
      }
      if addr < start || addr + mem.len > metaStart {
        return None;
      }
      var oldOrder := GetOrder(mem.len, minBits);
      if order == oldOrder {
        SameLiveSelf(t, addr);
        return Some(mem);
      }
      var odiff := oldOrder - order;
      var size := Sz(oldOrder, minBits);
      SameLiveSelf(t, addr);
      while oldOrder > order
        invariant order <= oldOrder <= t[addr].order && size == Sz(oldOrder, minBits)
        invariant Blocks() && Live(tiles, addr) && tiles[addr] == Tile(oldOrder, false)
          && SameLive(t[addr := Tile(oldOrder, false)], tiles)
        invariant FreeBytes(olist, minBits) == FreeBytes(old(olist), minBits) + Sz(t[addr].order, minBits) - size
        invariant freeSpace == old(freeSpace)
      {
        ShrinkHalf(olist, tiles, addr, start, metaStart, minBits);
        ShrinkKeeps(bitmap, tiles, t, addr, start, metaStart, minBits, olist, maxOrder);
        SzHalves(oldOrder, minBits);
        ghost var o := oldOrder;
        size := size / 2;
        oldOrder := oldOrder - 1;
        var node := Node(Buddy(addr, size), size);
        olist := olist[oldOrder := [node] + olist[oldOrder]];
        tiles := Halved(tiles, addr, o, false, true, minBits);
      }
      freeSpace := freeSpace + Sz(odiff, minBits);
      ShrinkCount(t[addr].order, order, minBits);
      return Some(Allocation(addr, size, mem.zindex));
    }
  }

  /** `ZoneManager`; the count of past requests decides which zone is asked first. */
  class ZoneManager {
    var zones: seq<BuddyAllocator>
    var selnum: nat

    ghost predicate Valid()
      reads this, zones
    {
      && (forall i :: 0 <= i < |zones| ==> zones[i].Blocks())
      && (forall i, j :: 0 <= i < j < |zones| ==> zones[i] != zones[j])
    }

    /** Whether a zone has no block for a request. */
    ghost predicate Cannot(i: nat, size: nat)
      requires Valid() && i < |zones|
      reads this, zones
    {
      size == 0 || First(zones[i].olist, GetOrder(size, zones[i].minBits), zones[i].maxOrder).None?
    }

    /**
     `alloc`: every zone is asked once, round robin, until one has a block.  `asked` zones have been
     asked in vain.
     */
    method Alloc(size: nat) returns (out: Option<Allocation>, ghost asked: nat)
      requires Valid() && |zones| > 0
      modifies this`selnum, zones
      ensures Valid() && selnum == old(selnum) + 1
      ensures asked <= |zones| && (out.None? <==> asked == |zones|)
      ensures forall d {:trigger Turn(old(selnum), d, |zones|)} :: 0 <= d < asked ==>
        old(Cannot(Turn(selnum, d, |zones|), size))
      ensures out.Some? ==>
        && out.value.zindex == Turn(old(selnum), asked, |zones|)
        && HandedOut(old(zones[out.value.zindex].tiles), zones[out.value.zindex].tiles, out.value.addr,
          GetOrder(size, zones[out.value.zindex].minBits))
        && out.value.len >= size
      ensures forall i :: 0 <= i < |zones| && (out.None? || i != out.value.zindex) ==>
        zones[i].tiles == old(zones[i].tiles) && zones[i].freeSpace == old(zones[i].freeSpace)
      ensures forall i :: 0 <= i < |zones| ==> zones[i].CountOff() == old(zones[i].CountOff())
    {
      hide Inv, First, BitmapRight, Sz, FreeBytes, GetOrder, HandedOut, BuddyAllocator.Blocks;
      var start := selnum % |zones|;
      selnum := selnum + 1;
      asked := 0;
      var i := start;
      var flag := true;
      while i != start || flag
        invariant asked <= |zones| && zones == old(zones) && selnum == old(selnum) + 1 && flag == (asked == 0)
        invariant i == (if start + asked < |zones| then start + asked else start + asked - |zones|) && i < |zones|
        invariant Valid() && forall j :: 0 <= j < |zones| ==> Untouched(zones[j])
        invariant forall d {:trigger Turn(old(selnum), d, |zones|)} :: 0 <= d < asked ==>
          old(Cannot(Turn(selnum, d, |zones|), size))
        decreases |zones| - asked
      {
        TurnIs(old(selnum), asked, |zones|);
        var a := zones[i].Alloc(size);
        if a.Some? {
          return Some(a.value.(zindex := i)), asked;
        }
        flag := false;
        NextZone(i, |zones|);
        i := i + 1;
        i := i % |zones|;
        asked := asked + 1;
      }
      out := None;
    }
  }

  /** A zone that has been asked in vain is as it was. */
  twostate predicate Untouched(z: BuddyAllocator)
    reads z
  {
    && z.olist == old(z.olist) && z.tiles == old(z.tiles) && z.freeSpace == old(z.freeSpace)
    && z.maxOrder == old(z.maxOrder) && z.minBits == old(z.minBits)
  }

  lemma NextZone(i: nat, n: nat)
    requires i < n
    ensures (i + 1) % n == if i + 1 < n then i + 1 else 0
  {
    if i + 1 == n {
      ModUnique(n, n, 1, 0);
    } else {
      ModUnique(i + 1, n, 0, i + 1);
    }
  }

  lemma TurnIs(s: nat, d: nat, n: nat)
    requires n > 0 && d <= n
    ensures Turn(s, d, n) == if s % n + d < n then s % n + d else s % n + d - n
  {
    if s % n + d < n {
      ModUnique(s % n + d, n, 0, s % n + d);
    } else {
      ModUnique(s % n + d, n, 1, s % n + d - n);
    }
  }

  /** The zone that is asked after `d` others. */
  function Turn(selnum: nat, d: nat, n: nat): nat
    requires n > 0
  {
    (selnum % n + d) % n
  }

  ghost predicate Live(t: Tiles, a: int) {
    a in t && !t[a].free
  }

  /** The blocks that are handed out are the same. */
  ghost predicate SameLive(t: Tiles, t': Tiles) {
    forall a {:trigger Live(t, a)} {:trigger Live(t', a)} :: (Live(t', a) <==> Live(t, a))
      && (Live(t, a) ==> t'[a] == t[a])
  }

  /** One more block is handed out. */
  ghost predicate HandedOut(t: Tiles, t': Tiles, a: int, order: nat) {
    && !Live(t, a) && a in t' && t'[a] == Tile(order, false)
    && forall b {:trigger Live(t, b)} {:trigger Live(t', b)} :: b != a ==>
      (Live(t', b) <==> Live(t, b)) && (Live(t, b) ==> t'[b] == t[b])
  }

  ghost predicate BitmapRight(bits: seq<bool>, t: Tiles, start: nat, unit: nat) {
    forall i {:trigger bits[i]} :: 0 <= i < |bits| ==> (bits[i] <==> Live(t, start + i * unit))
  }

  lemma BitIndex(a: nat, start: nat, end: nat, n: nat, unit: nat)
    requires unit > 0 && start <= a < end && n * unit == end - start
    ensures 0 <= (a - start) / unit < n
  {
    var q := Quotient(a - start, unit);
    Fewer(q, n, unit, a - start, end - start);
  }

  lemma Quotient(d: nat, unit: nat) returns (q: nat)
    requires unit > 0
    ensures q == d / unit && q * unit <= d
  {
    q := d / unit;
    assert d == q * unit + d % unit;
  }

  lemma Fewer(p: nat, q: nat, unit: nat, x: nat, y: nat)
    requires unit > 0 && p * unit <= x < y && y == q * unit
    ensures p < q
  {
    if p >= q {
      MulMono(q, p, unit);
    }
  }

  /** Blocks start at multiples of the unit. */
  lemma BlockIndex(a: nat, start: nat, unit: nat)
    requires unit > 0 && start <= a && start % unit == 0 && a % unit == 0
    ensures start + ((a - start) / unit) * unit == a
  {
    MultiplesSubtract(a, start, unit);
  }

  /** One level of splitting. */
  lemma SplitStep(l: Lists, order: nat, max: nat)
    requires |l| == MAX_ORDER && max < MAX_ORDER
    ensures order > max || order == 0 ==> Split(l, order, max).None?
    ensures 0 < order <= max && l[order] != [] ==> Split(l, order, max) == Some(HalveFirst(l, order))
    ensures 0 < order <= max && l[order] == [] && Split(l, order + 1, max).None? ==> Split(l, order, max).None?
    ensures
      0 < order <= max && l[order] == [] && Split(l, order + 1, max).Some?
      && Split(l, order + 1, max).value[order] != [] ==>
      Split(l, order, max) == Some(HalveFirst(Split(l, order + 1, max).value, order))
  {
    hide HalveFirst;
  }

  /** Once the order above has been split, there is a block to be halved. */
  lemma SplitHead(l: Lists, t: Tiles, order: nat, max: nat, start: nat, end: nat, bits: nat)
    requires |l| == MAX_ORDER && Inv(l, t, start, end, bits) && max < MAX_ORDER && order > 0
    ensures order <= max && l[order] == [] && Split(l, order + 1, max).Some? ==>
      Split(l, order + 1, max).value[order] != []
  {
    hide Inv, Sz;
    if order <= max && l[order] == [] && Split(l, order + 1, max).Some? {
      SplitIs(l, t, order + 1, max, start, end, bits);
      DownHead(l, Split(l, order + 1, max).value, order, First(l, order + 1, max).value, bits);
    }
  }

  /** Halving a free block changes nothing in the bitmap. */
  lemma HalveKeeps(l: Lists, t: Tiles, o: nat, start: nat, end: nat, bits: nat, bitmap: seq<bool>, max: nat)
    requires |l| == MAX_ORDER && Inv(l, t, start, end, bits) && 0 < o <= max < MAX_ORDER && l[o] != []
    requires BitmapRight(bitmap, t, start, Sz(0, bits)) && forall a :: a in t ==> t[a].order <= max
    ensures
      var a, h := l[o][0].addr, l[o][0].size / 2;
      var t' := Halved(t, a, o, true, true, bits);
      && h > 0 && Buddy(a, h) == a + h
      && HalveFirst(l, o) == l[o := l[o][1..]][o - 1 := [Node(a, h), Node(a + h, h)] + l[o - 1]]
      && Inv(HalveFirst(l, o), t', start, end, bits)
      && BitmapRight(bitmap, t', start, Sz(0, bits)) && (forall b :: b in t' ==> t'[b].order <= max) && SameLive(t, t')
  {
    hide Sz, Halved, Buddy, HalveFirst, Tiling;
    var a, h := l[o][0].addr, Sz(o - 1, bits);
    assert NodeRight(l[o][0], o, t, bits);
    SzHalves(o, bits);
    HalveRight(l, t, o, start, end, bits);
    StartRight(t, a, start, end, bits);
    UpperHalf(a, h);
    TileHalved(t, a, true, true, start, end, bits);
    HalvedIs(t, a, o, true, true, bits);
    var t' := Halved(t, a, o, true, true, bits);
    assert forall b :: Live(t', b) <==> Live(t, b);
  }

  lemma SameLiveTrans(t: Tiles, t1: Tiles, t2: Tiles)
    requires SameLive(t, t1) && SameLive(t1, t2)
    ensures SameLive(t, t2)
  {
  }

  lemma SameLiveRefl(t: Tiles)
    ensures SameLive(t, t)
  {
  }

  lemma TakenLive(t: Tiles, t1: Tiles, a: int, order: nat)
    requires SameLive(t, t1) && a in t1 && t1[a].free
    ensures HandedOut(t, t1[a := Tile(order, false)], a, order)
  {
    assert !Live(t1, a);
  }

  lemma FirstStep(l: Lists, order: nat, max: nat)
    requires |l| == MAX_ORDER && max < MAX_ORDER
    ensures order > max ==> First(l, order, max).None?
    ensures order <= max && l[order] != [] ==> First(l, order, max) == Some(order)
    ensures order <= max && l[order] == [] ==> First(l, order, max) == First(l, order + 1, max)
  {
  }

  /** When the order above has been split, the list starts with the lower end of the block that was split. */
  lemma SplitFirst(l: Lists, t: Tiles, order: nat, max: nat, start: nat, end: nat, bits: nat)
    requires |l| == MAX_ORDER && Inv(l, t, start, end, bits) && order <= max < MAX_ORDER && l[order] == []
    ensures
      var r, f := Split(l, order + 1, max), First(l, order + 1, max);
      && (r.Some? <==> f.Some?)
      && (r.Some? ==> r.value[order] != [] && r.value[order][0].addr == l[f.value][0].addr)
  {
    hide Inv, Sz;
    SplitIs(l, t, order + 1, max, start, end, bits);
  }

  /** The bitmap with the bit of one block changed. */
  lemma MarkRight(bitmap: seq<bool>, l: Lists, t: Tiles, a: int, start: nat, end: nat, bits: nat, free: bool)
    requires BitmapRight(bitmap, t, start, Sz(0, bits)) && Inv(l, t, start, end, bits) && a in t
      && start % Sz(0, bits) == 0
    requires start <= end && |bitmap| * Sz(0, bits) == end - start
    ensures
      var i := (a - start) / Sz(0, bits);
      && start <= a < end && 0 <= i < |bitmap|
      && (bitmap[i] <==> Live(t, a))
      && BitmapRight(bitmap[i := !free], t[a := Tile(t[a].order, free)], start, Sz(0, bits))
  {
    hide Sz, ListsRight;
    var u := Sz(0, bits);
    assert TileRight(t, a, start, end, bits);
    UnitDivides(a, t[a].order, bits);
    BitIndex(a, start, end, |bitmap|, u);
    BlockIndex(a, start, u);
    BitsChanged(bitmap, t, a, (a - start) / u, start, u, free);
  }

  lemma BitsChanged(bitmap: seq<bool>, t: Tiles, a: int, i: int, start: nat, u: nat, free: bool)
    requires BitmapRight(bitmap, t, start, u) && a in t && 0 <= i < |bitmap| && u > 0 && start + i * u == a
    ensures bitmap[i] <==> Live(t, a)
    ensures BitmapRight(bitmap[i := !free], t[a := Tile(t[a].order, free)], start, u)
  {
    assert bitmap[i] <==> Live(t, start + i * u);
    var bitmap', t' := bitmap[i := !free], t[a := Tile(t[a].order, free)];
    forall j | 0 <= j < |bitmap'| ensures bitmap'[j] <==> Live(t', start + j * u) {
      if j != i {
        Different(i, j, u);
        assert bitmap[j] <==> Live(t, start + j * u);
      }
    }
  }

  lemma Different(i: int, j: int, u: int)
    requires i != j && u > 0
    ensures i * u != j * u
  {
    if i < j {
      MulMono(i + 1, j, u);
    } else {
      MulMono(j + 1, i, u);
    }
  }

  /** Every block starts at a multiple of the smallest block. */
  lemma UnitDivides(a: int, o: nat, bits: nat)
    requires a >= 0 && a % Sz(o, bits) == 0
    ensures a % Sz(0, bits) == 0
  {
    Pow2Add(o, bits);
    MultipleOfMultiple(a, Pow2(bits), Pow2(o));
  }

  lemma OrderOf(o: nat, bits: nat)
    requires bits > 0
    ensures GetOrder(Sz(o, bits), bits) == o
  {
    var k := o + bits;
    assert Pow2(k) == 2 * Pow2(k - 1);
    Log2UpIs(Pow2(k));
    var u := Log2Up(Pow2(k));
    if u < k {
      Pow2Mono(u, k - 1);
    } else if u > k {
      Pow2Mono(k, u - 1);
    }
  }

  /** The other half is below the block, or above the start of the memory. */
  lemma NeverJoined(addr: nat, size: nat, start: nat)
    requires size > 0 && start <= addr
    ensures Buddy(addr, size) < addr || Buddy(addr, size) > start
  {
  }

  lemma LiveRight(l: Lists, t: Tiles, a: int, start: nat, end: nat, bits: nat)
    requires Inv(l, t, start, end, bits) && a in t
    ensures start <= a && a + Sz(t[a].order, bits) <= end && a % Sz(t[a].order, bits) == 0 && t[a].order < MAX_ORDER
  {
    hide Sz;
    assert TileRight(t, a, start, end, bits);
  }

  lemma HandedOutRight(l: Lists, t: Tiles, t': Tiles, a: int, order: nat, start: nat, end: nat, bits: nat)
    requires Inv(l, t', start, end, bits) && HandedOut(t, t', a, order)
    ensures start <= a && a + Sz(order, bits) <= end && a % Sz(order, bits) == 0
  {
    hide Sz, Inv;
    LiveRight(l, t', a, start, end, bits);
  }

  lemma SameLiveSelf(t: Tiles, a: int)
    requires Live(t, a)
    ensures SameLive(t[a := Tile(t[a].order, false)], t)
  {
    assert t[a := Tile(t[a].order, false)] == t;
  }

  /** Shrinking a block by half changes nothing in the bitmap, nor in the other blocks. */
  lemma ShrinkKeeps(bitmap: seq<bool>, t: Tiles, t0: Tiles, a: int, start: nat, end: nat, bits: nat, l: Lists, max: nat)
    requires Inv(l, t, start, end, bits) && Live(t, a) && t[a].order > 0
      && SameLive(t0[a := Tile(t[a].order, false)], t)
    requires BitmapRight(bitmap, t, start, Sz(0, bits)) && forall b :: b in t ==> t[b].order <= max
    ensures
      var t' := Halved(t, a, t[a].order, false, true, bits);
      && BitmapRight(bitmap, t', start, Sz(0, bits)) && (forall b :: b in t' ==> t'[b].order <= max)
      && Live(t', a) && t'[a] == Tile(t[a].order - 1, false) && SameLive(t0[a := Tile(t[a].order - 1, false)], t')
  {
    hide Sz, Halved, ListsRight, Tiling, BitmapRight, SameLive;
    TileHalved(t, a, false, true, start, end, bits);
    ShrinkBitmap(bitmap, t, a, start, bits);
    ShrinkLive(t, t0, a, bits);
    ShrinkOrders(t, a, bits, max);
  }

  lemma ShrinkBitmap(bitmap: seq<bool>, t: Tiles, a: int, start: nat, bits: nat)
    requires Live(t, a) && t[a].order > 0 && a + Sz(t[a].order - 1, bits) !in t
    requires BitmapRight(bitmap, t, start, Sz(0, bits))
    ensures BitmapRight(bitmap, Halved(t, a, t[a].order, false, true, bits), start, Sz(0, bits))
  {
    hide Sz, Halved;
    HalvedIs(t, a, t[a].order, false, true, bits);
    var t' := Halved(t, a, t[a].order, false, true, bits);
    forall i | 0 <= i < |bitmap| ensures bitmap[i] <==> Live(t', start + i * Sz(0, bits)) {
      assert bitmap[i] <==> Live(t, start + i * Sz(0, bits));
    }
  }

  lemma ShrinkLive(t: Tiles, t0: Tiles, a: int, bits: nat)
    requires Live(t, a) && t[a].order > 0 && a + Sz(t[a].order - 1, bits) !in t
      && SameLive(t0[a := Tile(t[a].order, false)], t)
    ensures
      var t' := Halved(t, a, t[a].order, false, true, bits);
      Live(t', a) && t'[a] == Tile(t[a].order - 1, false) && SameLive(t0[a := Tile(t[a].order - 1, false)], t')
  {
    hide Sz, Halved;
    HalvedIs(t, a, t[a].order, false, true, bits);
    var t' := Halved(t, a, t[a].order, false, true, bits);
    var u, u' := t0[a := Tile(t[a].order, false)], t0[a := Tile(t[a].order - 1, false)];
    forall b ensures (Live(t', b) <==> Live(u', b)) && (Live(u', b) ==> t'[b] == u'[b]) {
      assert Live(u', b) <==> Live(u, b);
    }
  }

  lemma ShrinkOrders(t: Tiles, a: int, bits: nat, max: nat)
    requires a in t && t[a].order > 0 && forall b :: b in t ==> t[b].order <= max
    ensures var t' := Halved(t, a, t[a].order, false, true, bits); forall b :: b in t' ==> t'[b].order <= max
  {
    hide Sz, Halved;
    HalvedIs(t, a, t[a].order, false, true, bits);
  }

  // ---------------------------------------------------------------------------------------
  // What the lists and the count say

  /** All free blocks are of a lower order. */
  ghost predicate FreeBelow(t: Tiles, order: nat) {
    forall a :: a in t && t[a].free ==> t[a].order < order
  }

  /** There is no block for an order exactly if there is no free one of that order or above. */
  lemma NoneMeansNone(z: BuddyAllocator, order: nat)
    requires z.Blocks()
    ensures First(z.olist, order, z.maxOrder).None? <==> FreeBelow(z.tiles, order)
  {
    hide First, Sz, FreeBytes, BitmapRight, Tiling;
    FirstSays(z.olist, order, z.maxOrder);
    var f := First(z.olist, order, z.maxOrder);
    if f.Some? {
      var n := z.olist[f.value][0];
      assert NodeRight(n, f.value, z.tiles, z.minBits);
      var a: int := n.addr;
      assert a in z.tiles && z.tiles[a].free && z.tiles[a].order >= order;
    } else {
      var t := z.tiles;
      forall a: int | a in t && t[a].free ensures t[a].order < order {
        StartRight(t, a, z.start, z.metaStart, z.minBits);
        assert Node(a, Sz(t[a].order, z.minBits)) in z.olist[t[a].order];
      }
    }
  }

  /** An address is aligned for an order, and there is room for such a block from there on. */
  predicate HasRoom(a: int, o: nat, end: nat, bits: nat) {
    a % Sz(o, bits) == 0 && a + Sz(o, bits) <= end
  }

  /** In a new zone there is a block for an order exactly if some address of the zone has room for one. */
  lemma NewZoneServes(z: BuddyAllocator, order: nat)
    requires z.Blocks() && z.Maximal() && (forall a :: a in z.tiles ==> z.tiles[a].free) && order < MAX_ORDER
    ensures First(z.olist, order, z.maxOrder).Some?
      <==> exists x :: z.start <= x && HasRoom(x, order, z.metaStart, z.minBits)
  {
    hide First, Sz, Inv, HasRoom, BitmapRight;
    NoneMeansNone(z, order);
    if First(z.olist, order, z.maxOrder).Some? {
      var a :| a in z.tiles && z.tiles[a].order >= order;
      LiveRight(z.olist, z.tiles, a, z.start, z.metaStart, z.minBits);
      SmallerHasRoom(a, z.tiles[a].order, order, z.metaStart, z.minBits);
    }
    forall x | z.start <= x && HasRoom(x, order, z.metaStart, z.minBits) ensures !FreeBelow(z.tiles, order) {
      RoomIsFree(z, order, x);
    }
  }

  /** Where there is room for a block, there is room for a smaller one. */
  lemma SmallerHasRoom(a: nat, o: nat, p: nat, end: nat, bits: nat)
    requires a % Sz(o, bits) == 0 && a + Sz(o, bits) <= end && p <= o
    ensures HasRoom(a, p, end, bits)
  {
    Pow2Mono(p + bits, o + bits);
    Coarser(a, o, p, bits);
  }

  lemma Coarser(a: nat, o: nat, p: nat, bits: nat)
    requires a % Sz(o, bits) == 0 && p <= o
    ensures a % Sz(p, bits) == 0
  {
    Pow2Add(o - p, p + bits);
    MultipleOfMultiple(a, Pow2(p + bits), Pow2(o - p));
  }

  /** Where a new zone has room for a block of an order, it has a free block of that order or above. */
  lemma RoomIsFree(z: BuddyAllocator, order: nat, x: nat)
    requires z.Blocks() && z.Maximal() && (forall a :: a in z.tiles ==> z.tiles[a].free) && order < MAX_ORDER
    requires z.start <= x && HasRoom(x, order, z.metaStart, z.minBits)
    ensures !FreeBelow(z.tiles, order)
  {
    hide Sz, ListsRight, BitmapRight, Tiling;
    Tiled(z.tiles, z.start, z.metaStart, z.minBits, x);
    var a :| a in z.tiles && a <= x < a + Sz(z.tiles[a].order, z.minBits);
    var o := z.tiles[a].order;
    LiveRight(z.olist, z.tiles, a, z.start, z.metaStart, z.minBits);
    if o < order {
      Coarser(x, order, o, z.minBits);
      MultiplesApart(a, x, Sz(o, z.minBits));
    }
  }

  lemma FirstSays(l: Lists, order: nat, max: nat)
    requires |l| == MAX_ORDER && max < MAX_ORDER
    ensures
      var r := First(l, order, max);
      && (r.Some? ==> order <= r.value <= max && l[r.value] != [])
      && (r.None? ==> forall o :: order <= o <= max ==> l[o] == [])
  {
  }

  /**
   Shrinking a block of order `o` to order `p` frees the difference of their sizes, but counts the
   size of order `o - p`: this is right only for shrinking order 2 to order 1.
   */
  lemma ShrinkCount(o: nat, p: nat, bits: nat)
    requires p < o
    ensures Sz(o - p, bits) == Sz(o, bits) - Sz(p, bits) <==> o == 2 && p == 1
  {
    var d := o - p;
    Pow2Add(d, bits);
    Pow2Add(p, bits);
    Pow2Add(o, bits);
    Pow2Add(d, p);
    ShrinkPowers(Pow2(d), Pow2(p), Pow2(bits));
    PowerOfTwo(d);
    PowerOfTwo(p);
  }

  /** With x, y the powers: x = xy - y only for x = y = 2. */
  lemma ShrinkPowers(x: nat, y: nat, b: nat)
    requires x >= 2 && y >= 1 && b >= 1
    ensures x * b == (x * y) * b - y * b <==> x == 2 && y == 2
  {
    assert (x * y) * b - y * b == (x * y - y) * b;
    if x * b == (x * y - y) * b {
      Cancel(x, x * y - y, b);
      assert x * y - y == (x - 1) * y;
      if y == 1 {
        assert false;
      } else if y > 2 {
        MulMono(3, y, x - 1);
        assert false;
      }
    }
  }

  lemma Cancel(x: int, y: int, b: int)
    requires b >= 1 && x * b == y * b
    ensures x == y
  {
    if x != y {
      Different(x, y, b);
    }
  }

  lemma PowerOfTwo(k: nat)
    ensures Pow2(k) == 2 <==> k == 1
    ensures k > 0 ==> Pow2(k) >= 2
  {
    if k >= 2 {
      assert Pow2(k) == 2 * Pow2(k - 1) && Pow2(k - 1) == 2 * Pow2(k - 2);
    }
  }

  // ---------------------------------------------------------------------------------------
  // Setting up

  /** The bitmap has a bit for every block, and fits behind the blocks. */
  lemma MetaFits(start: nat, end: nat, unit: nat)
    requires unit > 0 && start < end && start % unit == 0
    ensures
      var metaSize := (end - start) / (8 * unit) + 1;
      && metaSize <= end - start
      && var meta := AlignDown(end - metaSize, unit);
      start <= meta && meta + metaSize <= end && meta % unit == 0 && (meta - start) / unit <= 8 * metaSize
  {
    var d := end - start;
    var q := Quotient(d, 8 * unit);
    var metaSize := q + 1;
    assert q * (8 * unit) >= q * 8 by {
      MulMono(8, 8 * unit, q);
    }
    assert metaSize <= d;
    AlignDownIs(end - metaSize, unit);
    var meta := AlignDown(end - metaSize, unit);
    if meta < start {
      MultiplesApart(meta, start, unit);
    }
    EnoughBits(meta - start, d, unit);
  }

  lemma WholeUnits(start: nat, end: nat, unit: nat)
    requires unit > 0 && start <= end && start % unit == 0 && end % unit == 0
    ensures (end - start) / unit >= 0 && ((end - start) / unit) * unit == end - start
  {
    MultiplesSubtract(end, start, unit);
    var q := Quotient(end - start, unit);
  }

  lemma EnoughBits(m: nat, d: nat, unit: nat)
    requires m <= d && unit > 0
    ensures m / unit <= 8 * (d / (8 * unit) + 1)
  {
    var q, p := d / (8 * unit), m / unit;
    assert d == q * (8 * unit) + d % (8 * unit);
    assert m == p * unit + m % unit;
    assert d < (q + 1) * (8 * unit) == (8 * (q + 1)) * unit;
    if p > 8 * (q + 1) {
      MulMono(8 * (q + 1), p, unit);
    }
  }

  lemma NothingYet(start: nat, bits: nat)
    ensures
      var l: Lists := seq(MAX_ORDER, _ => []);
      Inv(l, map[], start, start, bits) && FreeBytes(l, bits) == 0
  {
    var l: Lists := seq(MAX_ORDER, _ => []);
    EmptySum(l, MAX_ORDER, bits);
  }

  lemma {:induction false} EmptySum(l: Lists, n: nat, bits: nat)
    requires n <= |l| && forall i :: 0 <= i < |l| ==> l[i] == []
    ensures FreeSum(l, n, bits) == 0
  {
    if n > 0 {
      EmptySum(l, n - 1, bits);
    }
  }

  lemma {:induction false} AlignOfSelf(a: nat)
    requires a > 0
    ensures exists k: nat :: AlignOf(a) == Pow2(k) && a % Pow2(k) == 0
  {
    if a % 2 == 1 {
      assert AlignOf(a) == Pow2(0) && a % Pow2(0) == 0;
    } else {
      AlignOfSelf(a / 2);
      var k: nat :| AlignOf(a / 2) == Pow2(k) && (a / 2) % Pow2(k) == 0;
      HalveMultiple(a, Pow2(k));
      assert AlignOf(a) == Pow2(k + 1);
    }
  }

  /** The next block of `init_orders` is aligned to its own size, and fits. */
  lemma NextBlock(a: nat, end: nat, bits: nat)
    requires a < end && end - a < Pow2(MAX_ORDER + bits) && 12 <= bits <= 31 && a % Sz(0, bits) == 0
      && end % Sz(0, bits) == 0
    ensures
      var len := Min(AlignOf(a), Pow2(Log2(end - a)));
      var o := GetOrder(len, bits);
      && o < MAX_ORDER && len == Sz(o, bits) && a % len == 0 && a + len <= end && (a + len) % Sz(0, bits) == 0
  {
    hide Pow2, Log2, AlignOf, GetOrder;
    var d := end - a;
    MultiplesSubtract(end, a, Sz(0, bits));
    var k := BlockLog(a, d, bits);
    Log2Is(d);
    OrderOf(k - bits, bits);
    UnitOfSize(k, bits);
    MultiplesAdd(a, Pow2(k), Pow2(bits));
  }

  /** ... and no larger block would be aligned there and fit. */
  lemma NextIsLargest(a: nat, end: nat, bits: nat)
    requires a < end && end - a < Pow2(MAX_ORDER + bits) && 12 <= bits <= 31 && a % Sz(0, bits) == 0
      && end % Sz(0, bits) == 0
    ensures forall o {:trigger HasRoom(a, o, end, bits)} ::
      GetOrder(Min(AlignOf(a), Pow2(Log2(end - a))), bits) < o < MAX_ORDER ==> !HasRoom(a, o, end, bits)
  {
    hide Pow2, Log2, AlignOf, GetOrder;
    var d := end - a;
    var len := Min(AlignOf(a), Pow2(Log2(d)));
    NextBlock(a, end, bits);
    forall o | GetOrder(len, bits) < o < MAX_ORDER ensures !HasRoom(a, o, end, bits) {
      if HasRoom(a, o, end, bits) {
        AlignOfDivides(o + bits, a);
        PowerBelow(o + bits, d);
        var k := GetOrder(len, bits) + bits;
        TwicePow2(k);
        Pow2Mono(k + 1, o + bits);
      }
    }
  }

  /** The highest power of two below a number is the one of its logarithm. */
  lemma PowerBelow(k: nat, d: nat)
    requires Pow2(k) <= d
    ensures Pow2(k) <= Pow2(Log2(d))
  {
    hide Pow2, Log2;
    Log2Is(d);
    var j := Log2(d);
    if k <= j {
      Pow2Mono(k, j);
    } else {
      TwicePow2(j);
      Pow2Mono(j + 1, k);
    }
  }

  lemma UnitOfSize(k: nat, bits: nat)
    requires bits <= k
    ensures Pow2(k) % Pow2(bits) == 0 && Sz(k - bits, bits) == Pow2(k) && Sz(0, bits) == Pow2(bits)
  {
    Pow2Add(k - bits, bits);
    ModUnique(Pow2(k), Pow2(bits), Pow2(k - bits), 0);
  }

  lemma BlockLog(a: nat, d: nat, bits: nat) returns (k: nat)
    requires 0 < d < Pow2(MAX_ORDER + bits) && bits <= 31 && d % Pow2(bits) == 0 && a % Pow2(bits) == 0
    ensures Min(AlignOf(a), Pow2(Log2(d))) == Pow2(k) && bits <= k < MAX_ORDER + bits && a % Pow2(k) == 0
  {
    hide Pow2, Log2, AlignOf;
    var j := Log2(d);
    LogRange(d, bits);
    AlignOfDivides(j, a);
    if Pow2(j) <= AlignOf(a) {
      k := j;
    } else {
      k := AlignLog(a, bits, j);
    }
  }

  lemma LogRange(d: nat, bits: nat)
    requires 0 < d < Pow2(MAX_ORDER + bits) && d % Pow2(bits) == 0
    ensures bits <= Log2(d) < MAX_ORDER + bits
  {
    hide Pow2, Log2;
    var j := Log2(d);
    Log2Is(d);
    if j >= MAX_ORDER + bits {
      Pow2Mono(MAX_ORDER + bits, j);
    }
    if j < bits {
      TwicePow2(j);
      Pow2Mono(j + 1, bits);
      ModUnique(d, Pow2(bits), 0, d);
    }
  }

  lemma TwicePow2(k: nat)
    ensures Pow2(k + 1) == 2 * Pow2(k)
  {
  }

  /** The alignment of an address is a power of two, between the unit and any power it is less than. */
  lemma AlignLog(a: nat, bits: nat, j: nat) returns (k: nat)
    requires bits <= 31 && a % Pow2(bits) == 0 && AlignOf(a) < Pow2(j) && j <= 63
    ensures AlignOf(a) == Pow2(k) && a % Pow2(k) == 0 && bits <= k < j
  {
    hide Pow2, AlignOf;
    AlignOfDivides(bits, a);
    if a == 0 {
      AlignOfZero(j);
    }
    AlignOfSelf(a);
    k :| AlignOf(a) == Pow2(k) && a % Pow2(k) == 0;
    if k >= j {
      Pow2Mono(j, k);
    }
    if k < bits {
      TwicePow2(k);
      Pow2Mono(k + 1, bits);
    }
  }
}
