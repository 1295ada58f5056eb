/**
 The blocks of a buddy allocator, on values: orders and sizes, the lists of free blocks, and the
 tiling of the memory by free and live blocks.  kernel/src/mem/phys_alloc.rs.
 */
module BuddyTiles {
  import opened Wrappers
  import opened Arith

  // ---------------------------------------------------------------------------------------
  // Orders and sizes

  /** `log2`: the position of the highest bit. */
  function Log2(n: nat): nat {
    if n < 2 then 0 else 1 + Log2(n / 2)
  }

  /** `log2_up` */
  function Log2Up(n: nat): nat {
    if n == 1 then 1 else Log2(AlignUp(n, Pow2(Log2(n))))
  }

  lemma {:induction false} Log2Is(n: nat)
    requires n > 0
    ensures Pow2(Log2(n)) <= n < 2 * Pow2(Log2(n))
  {
    if n >= 2 {
      Log2Is(n / 2);
    }
  }

  lemma {:induction false} Log2Pow2(k: nat)
    ensures Log2(Pow2(k)) == k
  {
    if k > 0 {
      Log2Pow2(k - 1);
      assert Pow2(k) / 2 == Pow2(k - 1);
    }
  }

  /** Rounded up, but for 1, whose logarithm the source takes to be 1. */
  lemma Log2UpIs(n: nat)
    requires n >= 2
    ensures Log2Up(n) > 0 && Pow2(Log2Up(n) - 1) < n <= Pow2(Log2Up(n))
  {
    var f := Log2(n);
    var m := Pow2(f);
    Log2Is(n);
    if n == m {
      ModUnique(n + m - 1, m, 1, m - 1);
      Log2Pow2(f);
      assert f > 0;
      assert Pow2(f) == 2 * Pow2(f - 1);
    } else {
      ModUnique(n + m - 1, m, 2, n - m - 1);
      assert AlignUp(n, m) == 2 * m == Pow2(f + 1);
      Log2Pow2(f + 1);
    }
  }

  /** `get_order` */
  function GetOrder(size: nat, bits: nat): nat {
    if Log2Up(size) <= bits then 0 else Log2Up(size) - bits
  }

  /** `get_order_size` */
  function Sz(order: nat, bits: nat): (s: nat)
    ensures s >= 1
  {
    Pow2(order + bits)
  }

  /** The order of a size is the smallest with blocks that are large enough. */
  lemma GetOrderIs(size: nat, bits: nat)
    requires size > 0 && bits > 0
    ensures
      var o := GetOrder(size, bits);
      && size <= Sz(o, bits)
      && (size > Sz(0, bits) ==> Sz(o, bits) < 2 * size)
      && (o > 0 ==> Sz(o - 1, bits) < size)
  {
    if size > 1 {
      Log2UpIs(size);
      var k := Log2Up(size);
      if k <= bits {
        Pow2Mono(k, bits);
      }
    }
  }

  /** The other half of the block of twice the size: `addr ^ size`, for a multiple of the size. */
  function Buddy(addr: nat, size: nat): int
    requires size > 0
  {
    if (addr / size) % 2 == 0 then addr + size else addr - size
  }

  lemma UpperHalf(addr: nat, size: nat)
    requires size > 0 && addr % (2 * size) == 0
    ensures Buddy(addr, size) == addr + size && addr % size == 0 && (addr + size) % size == 0
  {
    var q := addr / (2 * size);
    assert addr == q * (2 * size) == (2 * q) * size;
    ModUnique(addr, size, 2 * q, 0);
    assert addr + size == (2 * q + 1) * size;
    ModUnique(addr + size, size, 2 * q + 1, 0);
  }

  /** A block and its buddy are each other's, and make up an aligned block of twice the size. */
  lemma BuddiesPair(addr: nat, size: nat)
    requires size > 0 && addr % size == 0
    ensures
      var b := Buddy(addr, size);
      && b >= 0 && b % size == 0 && Buddy(b, size) == addr
      && (b == addr + size || b == addr - size) && Min(addr, b) % (2 * size) == 0
  {
    hide Buddy;
    var q := addr / size;
    assert addr == q * size;
    if q % 2 == 0 {
      assert q == 2 * (q / 2);
      EvenHalf(addr, size, q / 2);
    } else {
      OddQuotient(addr, size, q);
      EvenHalf(addr - size, size, q / 2);
    }
  }

  lemma OddQuotient(addr: nat, size: nat, q: nat)
    requires q % 2 == 1 && addr == q * size
    ensures addr - size == (2 * (q / 2)) * size >= 0
  {
    assert q - 1 == 2 * (q / 2);
    assert q * size - size == (q - 1) * size;
    MulMono(0, q - 1, size);
  }

  lemma EvenHalf(addr: nat, size: nat, k: nat)
    requires size > 0 && addr == (2 * k) * size
    ensures addr % (2 * size) == 0 && addr % size == 0 && (addr + size) % size == 0
    ensures Buddy(addr, size) == addr + size && Buddy(addr + size, size) == addr
  {
    assert addr == k * (2 * size);
    ModUnique(addr, 2 * size, k, 0);
    ModUnique(addr, size, 2 * k, 0);
    assert addr + size == (2 * k + 1) * size;
    ModUnique(addr + size, size, 2 * k + 1, 0);
  }

  // ---------------------------------------------------------------------------------------
  // Lists and tiles

  /** A free block, as it lies in a list. */
  datatype Node = Node(addr: nat, size: nat)

  /** A block: free, or handed out. */
  datatype Tile = Tile(order: nat, free: bool)

  type Tiles = map<int, Tile>
  type Lists = seq<seq<Node>>

  const MAX_ORDER: nat := 32

  ghost predicate TileRight(t: Tiles, a: int, start: nat, end: nat, bits: nat)
    requires a in t
  {
    var s := Sz(t[a].order, bits);
    && start <= a && a % s == 0 && a + s <= end && (a + s == end || a + s in t)
  }

  /** The blocks cover the memory from `start` to `end` without a gap and without overlapping. */
  ghost predicate Tiling(t: Tiles, start: nat, end: nat, bits: nat) {
    && (start < end ==> start in t)
    && (forall a {:trigger t[a]} :: a in t ==> TileRight(t, a, start, end, bits))
    && (forall a, b {:trigger t[a], t[b]} :: a in t && b in t && a < b ==> a + Sz(t[a].order, bits) <= b)
  }

  ghost predicate NodeRight(n: Node, o: nat, t: Tiles, bits: nat) {
    n.size == Sz(o, bits) && n.addr in t && t[n.addr] == Tile(o, true)
  }

  /** Every free block is in the list of its order, once. */
  ghost predicate ListsRight(l: Lists, t: Tiles, bits: nat) {
    && |l| == MAX_ORDER
    && (forall o, i {:trigger l[o][i]} :: 0 <= o < MAX_ORDER && 0 <= i < |l[o]| ==> NodeRight(l[o][i], o, t, bits))
    && (forall o, i, j {:trigger l[o][i], l[o][j]} :: 0 <= o < MAX_ORDER && 0 <= i < j < |l[o]| ==>
      l[o][i].addr != l[o][j].addr)
    && (forall a {:trigger t[a]} :: a in t ==>
      t[a].order < MAX_ORDER && (t[a].free ==> Node(a, Sz(t[a].order, bits)) in l[t[a].order]))
  }

  ghost predicate Inv(l: Lists, t: Tiles, start: nat, end: nat, bits: nat) {
    Tiling(t, start, end, bits) && ListsRight(l, t, bits)
  }

  /** Every address belongs to just one block. */
  lemma {:induction false} Tiled(t: Tiles, start: nat, end: nat, bits: nat, x: nat)
    requires Tiling(t, start, end, bits) && start <= x < end
    ensures exists a :: a in t && a <= x < a + Sz(t[a].order, bits)
    ensures forall a, b ::
      a in t && b in t && a <= x < a + Sz(t[a].order, bits) && b <= x < b + Sz(t[b].order, bits) ==> a == b
  {
    hide Sz;
    var a := start;
    while a + Sz(t[a].order, bits) <= x
      invariant a in t && a <= x
      decreases x - a
    {
      assert TileRight(t, a, start, end, bits);
      a := a + Sz(t[a].order, bits);
    }
  }

  // ---------------------------------------------------------------------------------------
  // Halving a block

  /** The lists after the first block of order `o` has been halved, as `split_order` does it. */
  function HalveFirst(l: Lists, o: nat): Lists
    requires |l| == MAX_ORDER && 0 < o < MAX_ORDER && l[o] != []
  {
    var n := l[o][0];
    var half := n.size / 2;
    var addr := if half > 0 then Buddy(n.addr, half) else 0;
    l[o := l[o][1..]][o - 1 := [Node(n.addr, half), Node(if addr >= 0 then addr else 0, half)] + l[o - 1]]
  }

  /** The block at `a`, of order `o`, halved. */
  function Halved(t: Tiles, a: int, o: nat, free: bool, free': bool, bits: nat): Tiles
    requires o > 0
  {
    t[a := Tile(o - 1, free)][a + Sz(o - 1, bits) := Tile(o - 1, free')]
  }

  /** Halving a block keeps the tiling. */
  lemma TileHalved(t: Tiles, a: int, free: bool, free': bool, start: nat, end: nat, bits: nat)
    requires Tiling(t, start, end, bits) && a in t && t[a].order > 0
    ensures Tiling(Halved(t, a, t[a].order, free, free', bits), start, end, bits)
    ensures a + Sz(t[a].order - 1, bits) !in t
  {
    hide Sz, Halved, TileRight;
    var o := t[a].order;
    NothingInside(t, a, bits);
    var t' := Halved(t, a, o, free, free', bits);
    HalvedIs(t, a, o, free, free', bits);
    forall b | b in t' ensures TileRight(t', b, start, end, bits) {
      assert TileRight(t, a, start, end, bits);
      assert b in t ==> TileRight(t, b, start, end, bits);
      HalfRight(t, a, free, free', start, end, bits, b);
    }
    forall b, c | b in t' && c in t' && b < c ensures b + Sz(t'[b].order, bits) <= c {
      HalvesApart(t, a, free, free', b, c, bits);
    }
  }

  /** No block starts in the middle of another one. */
  lemma NothingInside(t: Tiles, a: int, bits: nat)
    requires forall x, y {:trigger t[x], t[y]} :: x in t && y in t && x < y ==> x + Sz(t[x].order, bits) <= y
    requires a in t && t[a].order > 0
    ensures a + Sz(t[a].order - 1, bits) !in t
  {
    hide Sz;
    SzHalves(t[a].order, bits);
  }

  lemma HalvedIs(t: Tiles, a: int, o: nat, free: bool, free': bool, bits: nat)
    requires o > 0 && a in t
    ensures
      var t' := Halved(t, a, o, free, free', bits);
      && a in t' && a + Sz(o - 1, bits) in t' && t'[a] == Tile(o - 1, free)
        && t'[a + Sz(o - 1, bits)] == Tile(o - 1, free')
      && (forall b {:trigger t'[b]} {:trigger b in t'} :: b != a && b != a + Sz(o - 1, bits) ==>
        (b in t' <==> b in t) && (b in t ==> t'[b] == t[b]))
  {
  }

  lemma HalfRight(t: Tiles, a: int, free: bool, free': bool, start: nat, end: nat, bits: nat, b: int)
    requires a in t && t[a].order > 0 && a + Sz(t[a].order - 1, bits) !in t
    requires TileRight(t, a, start, end, bits) && (b in t ==> TileRight(t, b, start, end, bits))
    requires b in Halved(t, a, t[a].order, free, free', bits)
    ensures TileRight(Halved(t, a, t[a].order, free, free', bits), b, start, end, bits)
  {
    hide Sz, Halved;
    var o := t[a].order;
    var h := Sz(o - 1, bits);
    SzHalves(o, bits);
    UpperHalf(a, h);
    HalvedIs(t, a, o, free, free', bits);
  }

  lemma HalvesApart(t: Tiles, a: int, free: bool, free': bool, b: int, c: int, bits: nat)
    requires forall x, y {:trigger t[x], t[y]} :: x in t && y in t && x < y ==> x + Sz(t[x].order, bits) <= y
    requires a in t && t[a].order > 0
    requires
      var t' := Halved(t, a, t[a].order, free, free', bits);
      b in t' && c in t' && b < c
    ensures b + Sz(Halved(t, a, t[a].order, free, free', bits)[b].order, bits) <= c
  {
    hide Sz, Halved;
    var o := t[a].order;
    var h := Sz(o - 1, bits);
    SzHalves(o, bits);
    HalvedIs(t, a, o, free, free', bits);
    if b != a && b != a + h {
      assert t[b].order >= 0 && t[a].order >= 0;
    }
    if c != a && c != a + h {
      assert t[c].order >= 0 && t[a].order >= 0;
    }
  }

  lemma SzHalves(o: nat, bits: nat)
    requires o > 0
    ensures Sz(o, bits) == 2 * Sz(o - 1, bits)
  {
  }

  /** Halving the first block of a list keeps the lists right. */
  lemma HalveRight(l: Lists, t: Tiles, o: nat, start: nat, end: nat, bits: nat)
    requires Inv(l, t, start, end, bits) && 0 < o < MAX_ORDER && l[o] != []
    ensures
      var a, h := l[o][0].addr, Sz(o - 1, bits);
      && a in t && t[a] == Tile(o, true)
      && HalveFirst(l, o) == l[o := l[o][1..]][o - 1 := [Node(a, h), Node(a + h, h)] + l[o - 1]]
      && Inv(HalveFirst(l, o), Halved(t, a, o, true, true, bits), start, end, bits)
  {
    hide Sz, Halved, Buddy, Tiling;
    var n := l[o][0];
    var a, h := n.addr, Sz(o - 1, bits);
    assert NodeRight(n, o, t, bits);
    SzHalves(o, bits);
    TileHalved(t, a, true, true, start, end, bits);
    StartRight(t, a, start, end, bits);
    UpperHalf(a, h);
    HalvedLists(l, t, o, bits);
  }

  lemma StartRight(t: Tiles, a: int, start: nat, end: nat, bits: nat)
    requires Tiling(t, start, end, bits) && a in t
    ensures a >= start && a % Sz(t[a].order, bits) == 0
  {
    hide Sz;
    assert TileRight(t, a, start, end, bits);
  }

  lemma HalvedLists(l: Lists, t: Tiles, o: nat, bits: nat)
    requires ListsRight(l, t, bits) && 0 < o < MAX_ORDER && l[o] != [] && l[o][0].addr + Sz(o - 1, bits) !in t
    ensures
      var a, h := l[o][0].addr, Sz(o - 1, bits);
      ListsRight(l[o := l[o][1..]][o - 1 := [Node(a, h), Node(a + h, h)] + l[o - 1]], Halved(t, a, o, true, true, bits),
        bits)
  {
    hide Sz, Halved;
    var a, h := l[o][0].addr, Sz(o - 1, bits);
    assert NodeRight(l[o][0], o, t, bits);
    var t' := Halved(t, a, o, true, true, bits);
    HalvedIs(t, a, o, true, true, bits);
    var l' := l[o := l[o][1..]][o - 1 := [Node(a, h), Node(a + h, h)] + l[o - 1]];
  }

  // ---------------------------------------------------------------------------------------
  // Splitting from above

  /** `split_order`: what it makes of the lists, if it succeeds. */
  function Split(l: Lists, order: nat, max: nat): (r: Option<Lists>)
    requires |l| == MAX_ORDER && max < MAX_ORDER
    ensures r.Some? ==> |r.value| == MAX_ORDER
    decreases MAX_ORDER - order
  {
    if order > max || order == 0 then None
    else if l[order] != [] then Some(HalveFirst(l, order))
    else
      match Split(l, order + 1, max)
      case None => None
      case Some(m) => if m[order] != [] then Some(HalveFirst(m, order)) else None
  }

  /** The smallest order from `order` on with a free block. */
  function First(l: Lists, order: nat, max: nat): (r: Option<nat>)
    requires |l| == MAX_ORDER && max < MAX_ORDER
    ensures r.Some? ==> order <= r.value <= max && l[r.value] != [] && forall o :: order <= o < r.value ==> l[o] == []
    ensures r.None? ==> forall o :: order <= o <= max ==> l[o] == []
    decreases MAX_ORDER - order
  {
    if order > max then None else if l[order] != [] then Some(order) else First(l, order + 1, max)
  }

  /**
   Splitting succeeds exactly if there is a free block of the order or above.  The first block of
   the smallest such order has been halved over and over: its lower part is at the head of the
   list one below, and its upper halves are in the lists above.
   */
  ghost predicate SplitDown(l: Lists, m: Lists, order: nat, o: nat, bits: nat)
    requires |l| == |m| == MAX_ORDER && 0 < order <= o < MAX_ORDER && l[o] != []
  {
    var a := l[o][0].addr;
    && (forall j :: o < j < MAX_ORDER ==> m[j] == l[j])
    && m[o] == l[o][1..]
    && (forall j :: order <= j < o ==> m[j] == [Node(a + Sz(j, bits), Sz(j, bits))])
    && m[order - 1] == [Node(a, Sz(order - 1, bits)), Node(a + Sz(order - 1, bits), Sz(order - 1, bits))] + l[order - 1]
    && (forall j :: 0 <= j < order - 1 ==> m[j] == l[j])
  }

  lemma {:induction false} SplitIs(l: Lists, t: Tiles, order: nat, max: nat, start: nat, end: nat, bits: nat)
    requires |l| == MAX_ORDER && Inv(l, t, start, end, bits) && max < MAX_ORDER && order > 0
    ensures
      var f := First(l, order, max);
      && (Split(l, order, max).Some? <==> f.Some?)
      && (f.Some? ==> SplitDown(l, Split(l, order, max).value, order, f.value, bits))
    decreases MAX_ORDER - order
  {
    hide Sz, Inv, HalveFirst, SplitDown, Halved;
    if order <= max {
      if l[order] != [] {
        HalveRight(l, t, order, start, end, bits);
        DownFirst(l, order, bits);
      } else {
        SplitIs(l, t, order + 1, max, start, end, bits);
        SplitInv(l, t, order + 1, max, start, end, bits);
        if Split(l, order + 1, max).Some? {
          var m := Split(l, order + 1, max).value;
          var o := First(l, order, max).value;
          DownHead(l, m, order, o, bits);
          HalveRight(m, SplitTiles(l, t, order + 1, max, bits), order, start, end, bits);
          DownStep(l, m, order, o, bits);
        }
      }
    }
  }

  lemma DownFirst(l: Lists, o: nat, bits: nat)
    requires |l| == MAX_ORDER && 0 < o < MAX_ORDER && l[o] != []
    requires
      var a, h := l[o][0].addr, Sz(o - 1, bits);
      HalveFirst(l, o) == l[o := l[o][1..]][o - 1 := [Node(a, h), Node(a + h, h)] + l[o - 1]]
    ensures SplitDown(l, HalveFirst(l, o), o, o, bits)
  {
    hide Sz, HalveFirst;
  }

  lemma DownHead(l: Lists, m: Lists, order: nat, o: nat, bits: nat)
    requires |l| == |m| == MAX_ORDER && 0 < order < o < MAX_ORDER && l[o] != [] && l[order] == []
    requires SplitDown(l, m, order + 1, o, bits)
    ensures m[order] != [] && m[order][0].addr == l[o][0].addr
  {
    hide Sz;
  }

  lemma DownStep(l: Lists, m: Lists, order: nat, o: nat, bits: nat)
    requires |l| == |m| == MAX_ORDER && 0 < order < o < MAX_ORDER && l[o] != [] && l[order] == [] && m[order] != []
    requires SplitDown(l, m, order + 1, o, bits)
    requires
      var a, h := m[order][0].addr, Sz(order - 1, bits);
      HalveFirst(m, order) == m[order := m[order][1..]][order - 1 := [Node(a, h), Node(a + h, h)] + m[order - 1]]
    ensures SplitDown(l, HalveFirst(m, order), order, o, bits)
  {
    hide Sz, HalveFirst;
    assert [Node(m[order][0].addr, Sz(order, bits)), m[order][1]][1..] == [m[order][1]];
  }

  /** What splitting makes of the tiles. */
  ghost function SplitTiles(l: Lists, t: Tiles, order: nat, max: nat, bits: nat): Tiles
    requires |l| == MAX_ORDER && max < MAX_ORDER
    decreases MAX_ORDER - order
  {
    if order > max || order == 0 then t
    else if l[order] != [] then Halved(t, l[order][0].addr, order, true, true, bits)
    else
      var t' := SplitTiles(l, t, order + 1, max, bits);
      match Split(l, order + 1, max)
      case None => t
      case Some(m) => if m[order] != [] then Halved(t', m[order][0].addr, order, true, true, bits) else t
  }

  lemma {:induction false} SplitInv(l: Lists, t: Tiles, order: nat, max: nat, start: nat, end: nat, bits: nat)
    requires |l| == MAX_ORDER && Inv(l, t, start, end, bits) && max < MAX_ORDER
    ensures Split(l, order, max).Some? ==> Inv(Split(l, order, max).value, SplitTiles(l, t, order, max, bits), start,
      end, bits)
    decreases MAX_ORDER - order
  {
    hide Sz, Inv, HalveFirst, Halved;
    if 0 < order <= max {
      if l[order] != [] {
        HalveRight(l, t, order, start, end, bits);
      } else {
        SplitInv(l, t, order + 1, max, start, end, bits);
        if Split(l, order + 1, max).Some? {
          var m := Split(l, order + 1, max).value;
          if m[order] != [] {
            HalveRight(m, SplitTiles(l, t, order + 1, max, bits), order, start, end, bits);
          }
        }
      }
    }
  }

  // ---------------------------------------------------------------------------------------
  // The free bytes

  /** The bytes of the blocks in the first `n` lists. */
  function FreeSum(l: Lists, n: nat, bits: nat): nat
    requires n <= |l|
  {
    if n == 0 then 0 else FreeSum(l, n - 1, bits) + |l[n - 1]| * Sz(n - 1, bits)
  }

  function FreeBytes(l: Lists, bits: nat): nat {
    FreeSum(l, |l|, bits)
  }

  lemma {:induction false} SumChange(l: Lists, n: nat, o: nat, s: seq<Node>, bits: nat)
    requires n <= |l| && o < |l|
    ensures FreeSum(l[o := s], n, bits) == FreeSum(l, n, bits) + (if o < n then (|s| - |l[o]|) * Sz(o, bits) else 0)
  {
    hide Sz;
    if n > 0 {
      SumChange(l, n - 1, o, s, bits);
      if o == n - 1 {
        assert |s| * Sz(o, bits) == |l[o]| * Sz(o, bits) + (|s| - |l[o]|) * Sz(o, bits);
      }
    }
  }

  lemma FreeBytesChange(l: Lists, o: nat, s: seq<Node>, bits: nat)
    requires o < |l|
    ensures FreeBytes(l[o := s], bits) == FreeBytes(l, bits) + (|s| - |l[o]|) * Sz(o, bits)
  {
    SumChange(l, |l|, o, s, bits);
  }

  /** Halving a free block neither adds nor loses bytes. */
  lemma HalveBytes(l: Lists, o: nat, bits: nat)
    requires |l| == MAX_ORDER && 0 < o < MAX_ORDER && l[o] != []
    ensures FreeBytes(HalveFirst(l, o), bits) == FreeBytes(l, bits)
  {
    hide Sz, Buddy, FreeBytes;
    SzHalves(o, bits);
    var m := l[o := l[o][1..]];
    FreeBytesChange(l, o, l[o][1..], bits);
    FreeBytesChange(m, o - 1, HalveFirst(l, o)[o - 1], bits);
    assert (|l[o][1..]| - |l[o]|) * Sz(o, bits) == 0 - Sz(o, bits);
    assert (|HalveFirst(l, o)[o - 1]| - |m[o - 1]|) * Sz(o - 1, bits) == 2 * Sz(o - 1, bits);
  }

  lemma {:induction false} SplitBytes(l: Lists, order: nat, max: nat, bits: nat)
    requires |l| == MAX_ORDER && max < MAX_ORDER
    ensures Split(l, order, max).Some? ==> FreeBytes(Split(l, order, max).value, bits) == FreeBytes(l, bits)
    decreases MAX_ORDER - order
  {
    hide Sz, HalveFirst, FreeBytes;
    if 0 < order <= max {
      if l[order] != [] {
        HalveBytes(l, order, bits);
      } else {
        SplitBytes(l, order + 1, max, bits);
        if Split(l, order + 1, max).Some? && Split(l, order + 1, max).value[order] != [] {
          HalveBytes(Split(l, order + 1, max).value, order, bits);
        }
      }
    }
  }

  // ---------------------------------------------------------------------------------------
  // Handing a block out, and taking it back

  lemma Retiled(t: Tiles, a: int, free: bool, start: nat, end: nat, bits: nat)
    requires Tiling(t, start, end, bits) && a in t
    ensures Tiling(t[a := Tile(t[a].order, free)], start, end, bits)
  {
    hide Sz, TileRight;
    var t' := t[a := Tile(t[a].order, free)];
    assert forall b {:trigger t'[b]} :: b in t' <==> b in t;
    assert forall b {:trigger t'[b]} :: b in t ==> t'[b].order == t[b].order;
    forall b | b in t' ensures TileRight(t', b, start, end, bits) {
      assert TileRight(t, b, start, end, bits);
      RetiledRight(t, t', b, start, end, bits);
    }
  }

  lemma RetiledRight(t: Tiles, t': Tiles, b: int, start: nat, end: nat, bits: nat)
    requires b in t && TileRight(t, b, start, end, bits) && t'.Keys == t.Keys && t'[b].order == t[b].order
    ensures TileRight(t', b, start, end, bits)
  {
    hide Sz;
  }

  lemma TakeFirst(l: Lists, t: Tiles, o: nat, start: nat, end: nat, bits: nat)
    requires Inv(l, t, start, end, bits) && o < MAX_ORDER && l[o] != []
    ensures
      var n := l[o][0];
      && n.size == Sz(o, bits) && n.addr in t && t[n.addr] == Tile(o, true)
      && Inv(l[o := l[o][1..]], t[n.addr := Tile(o, false)], start, end, bits)
      && FreeBytes(l[o := l[o][1..]], bits) == FreeBytes(l, bits) - n.size
  {
    hide Sz, Tiling, FreeBytes;
    var n := l[o][0];
    assert NodeRight(n, o, t, bits);
    Retiled(t, n.addr, false, start, end, bits);
    FreeBytesChange(l, o, l[o][1..], bits);
    assert (|l[o][1..]| - |l[o]|) * Sz(o, bits) == 0 - Sz(o, bits);
  }

  lemma GiveBack(l: Lists, t: Tiles, a: nat, start: nat, end: nat, bits: nat)
    requires Inv(l, t, start, end, bits) && a in t && !t[a].free
    ensures
      var o := t[a].order;
      && o < MAX_ORDER
      && Inv(l[o := [Node(a, Sz(o, bits))] + l[o]], t[a := Tile(o, true)], start, end, bits)
      && FreeBytes(l[o := [Node(a, Sz(o, bits))] + l[o]], bits) == FreeBytes(l, bits) + Sz(o, bits)
  {
    hide Sz, Tiling, FreeBytes;
    var o := t[a].order;
    Retiled(t, a, true, start, end, bits);
    FreeBytesChange(l, o, [Node(a, Sz(o, bits))] + l[o], bits);
    assert (|[Node(a, Sz(o, bits))] + l[o]| - |l[o]|) * Sz(o, bits) == Sz(o, bits);
  }

  /** The upper half of a live block is given back, as the shrink branch of `orealloc` does. */
  lemma ShrinkHalf(l: Lists, t: Tiles, a: nat, start: nat, end: nat, bits: nat)
    requires Inv(l, t, start, end, bits) && a in t && !t[a].free && t[a].order > 0
    ensures
      var o := t[a].order;
      var h := Sz(o - 1, bits);
      var l' := l[o - 1 := [Node(a + h, h)] + l[o - 1]];
      && o < MAX_ORDER && Buddy(a, h) == a + h
      && Inv(l', Halved(t, a, o, false, true, bits), start, end, bits)
      && FreeBytes(l', bits) == FreeBytes(l, bits) + h
  {
    hide Sz, Tiling, FreeBytes, Halved, Buddy;
    var o := t[a].order;
    var h := Sz(o - 1, bits);
    SzHalves(o, bits);
    StartRight(t, a, start, end, bits);
    UpperHalf(a, h);
    TileHalved(t, a, false, true, start, end, bits);
    HalvedIs(t, a, o, false, true, bits);
    FreeBytesChange(l, o - 1, [Node(a + h, h)] + l[o - 1], bits);
    assert (|[Node(a + h, h)] + l[o - 1]| - |l[o - 1]|) * h == h;
  }

  /** A block is added at the end of the tiles, as `init_orders` does it. */
  lemma AddBlock(l: Lists, t: Tiles, a: nat, o: nat, start: nat, bits: nat)
    requires |l| == MAX_ORDER && Inv(l, t, start, a, bits) && start <= a && o < MAX_ORDER && a % Sz(o, bits) == 0
    ensures
      var s := Sz(o, bits);
      var l' := l[o := l[o] + [Node(a, s)]];
      && Inv(l', t[a := Tile(o, true)], start, a + s, bits)
      && FreeBytes(l', bits) == FreeBytes(l, bits) + s
  {
    hide Sz, FreeBytes, Tiling, ListsRight;
    var s := Sz(o, bits);
    AddTile(t, a, o, start, bits);
    AddNode(l, t, a, o, bits);
    FreeBytesChange(l, o, l[o] + [Node(a, s)], bits);
    assert (|l[o] + [Node(a, s)]| - |l[o]|) * s == s;
  }

  lemma AddTile(t: Tiles, a: nat, o: nat, start: nat, bits: nat)
    requires Tiling(t, start, a, bits) && start <= a && a % Sz(o, bits) == 0
    ensures Tiling(t[a := Tile(o, true)], start, a + Sz(o, bits), bits) && a !in t
  {
    hide Sz;
    var t' := t[a := Tile(o, true)];
    assert a in t ==> TileRight(t, a, start, a, bits);
    forall b | b in t' ensures TileRight(t', b, start, a + Sz(o, bits), bits) {
      assert b != a ==> TileRight(t, b, start, a, bits);
    }
    forall b, c | b in t' && c in t' && b < c ensures b + Sz(t'[b].order, bits) <= c {
      assert b in t ==> TileRight(t, b, start, a, bits);
      assert c in t ==> TileRight(t, c, start, a, bits);
    }
  }

  lemma AddNode(l: Lists, t: Tiles, a: nat, o: nat, bits: nat)
    requires ListsRight(l, t, bits) && o < MAX_ORDER && a !in t
    ensures ListsRight(l[o := l[o] + [Node(a, Sz(o, bits))]], t[a := Tile(o, true)], bits)
  {
    hide Sz;
  }
}
