/**
 Page sizes, frames and address ranges: kernel/src/mem/mod.rs.

 The source generates the same code twice, for physical and for virtual addresses; the
 model has one `Range` and one `Frame`.  Addresses are byte addresses.
 */
module AddrRange {
  import opened Wrappers
  import opened Arith

  const PAGE_SIZE: nat := 0x1000

  datatype PageSize = K4 | M2 | G1 {
    function Bytes(): (n: nat)
      ensures n >= 0x1000
    {
      match this
      case K4 => 0x1000
      case M2 => 0x20_0000
      case G1 => 0x4000_0000
    }

    /** The derived `Ord` of the enumeration. */
    predicate AtMost(other: PageSize) {
      Bytes() <= other.Bytes()
    }
  }

  function MinSize(a: PageSize, b: PageSize): PageSize {
    if a.AtMost(b) then a else b
  }

  /** `align_down_to_page_size` */
  function AlignDownToPageSize(n: nat): nat {
    if n >= G1.Bytes() then G1.Bytes()
    else if n >= M2.Bytes() then M2.Bytes()
    else if n >= K4.Bytes() then K4.Bytes()
    else 0
  }

  /** `PageSize::try_from_usize` */
  function TryFromUsize(n: nat): Option<PageSize> {
    if n == 0x1000 then Some(K4)
    else if n == 0x20_0000 then Some(M2)
    else if n == 0x4000_0000 then Some(G1)
    else None
  }

  /** `PhysFrame` and `VirtFrame`: a page of one of the three sizes. */
  datatype Frame = Frame(start: nat, size: PageSize) {
    function End(): nat {
      start + size.Bytes()
    }
  }

  /** `PhysRange` and `VirtRange`. */
  datatype Range = Range(addr: nat, size: nat) {
    function End(): nat {
      addr + size
    }

    predicate Contains(a: nat) {
      addr <= a < addr + size
    }

    predicate PageAligned() {
      addr % 0x1000 == 0 && size % 0x1000 == 0
    }

    predicate Disjoint(other: Range) {
      End() <= other.addr || other.End() <= addr
    }

    /** The derived `Ord`: by address, then by size. */
    predicate Before(other: Range) {
      addr < other.addr || (addr == other.addr && size < other.size)
    }

    /** `aligned`, that is `new_aligned(self.addr, self.size)` */
    function Aligned(): Range {
      var addr2 := AlignUp(addr + size, 0x1000);
      AlignUpIs(addr + size, 0x1000);
      Range(AlignDown(addr, 0x1000), AlignUp(addr2 - addr, 0x1000))
    }

    /** `get_take_size` */
    function GetTakeSize(): Option<PageSize> {
      TryFromUsize(Min(AlignDownToPageSize(size), AlignDownToPageSize(AlignOf(addr))))
    }

    /** `take`: cuts a frame off the front; gives the frame and what is left of the range. */
    function Take(s: PageSize): Option<(Frame, Range)> {
      match GetTakeSize()
      case None => None
      case Some(takeSize) =>
        if !s.AtMost(takeSize) || s.Bytes() > size then None
        else Some((Frame(AlignDown(addr, s.Bytes()), s), Range(addr + s.Bytes(), size - s.Bytes())))
    }
  }

  /** A frame of size `s` may start at `a`, and `n` bytes are enough for it. */
  predicate Fits(a: nat, n: nat, s: PageSize) {
    a % s.Bytes() == 0 && s.Bytes() <= n
  }

  lemma PageSizesAsPowers()
    ensures K4.Bytes() == Pow2(12) && M2.Bytes() == Pow2(21) && G1.Bytes() == Pow2(30)
  {
  }

  lemma AlignOfPageSize(a: nat, s: PageSize)
    ensures s.Bytes() <= AlignOf(a) <==> a % s.Bytes() == 0
  {
    PageSizesAsPowers();
    AlignOfDivides(match s case K4 => 12 case M2 => 21 case G1 => 30, a);
  }

  /**
   `get_take_size` gives the largest page size that fits at the start of the range, and
   gives nothing exactly when not even a small page fits.
   */
  lemma GetTakeSizeIsLargest(r: Range)
    ensures r.GetTakeSize() == None <==> !Fits(r.addr, r.size, K4)
    ensures forall s: PageSize :: r.GetTakeSize().Some? ==>
      (Fits(r.addr, r.size, s) <==> s.AtMost(r.GetTakeSize().value))
  {
    AlignOfPageSize(r.addr, K4);
    AlignOfPageSize(r.addr, M2);
    AlignOfPageSize(r.addr, G1);
  }

  /** Taking a page size that fits gives the frame at the front and keeps the rest. */
  lemma TakeFits(r: Range, s: PageSize)
    ensures r.Take(s).Some? <==> Fits(r.addr, r.size, s)
    ensures Fits(r.addr, r.size, s) ==>
      r.Take(s) == Some((Frame(r.addr, s), Range(r.addr + s.Bytes(), r.size - s.Bytes())))
  {
    GetTakeSizeIsLargest(r);
    FitsAtMost(r, s);
  }

  lemma FitsAtMost(r: Range, s: PageSize)
    ensures Fits(r.addr, r.size, s) ==> Fits(r.addr, r.size, K4) && AlignDown(r.addr, s.Bytes()) == r.addr
  {
    if Fits(r.addr, r.size, s) {
      match s {
        case K4 =>
        case M2 => MultipleOfMultiple(r.addr, 0x1000, 0x200);
        case G1 => MultipleOfMultiple(r.addr, 0x1000, 0x4_0000);
      }
    }
  }

  /** `aligned` gives the smallest page-aligned range that covers the given one. */
  lemma AlignedIsSmallestCover(r: Range)
    ensures r.Aligned().PageAligned()
    ensures r.Aligned().addr <= r.addr && r.End() <= r.Aligned().End()
    ensures r.addr < r.Aligned().addr + 0x1000 && r.Aligned().End() < r.End() + 0x1000
    ensures r.PageAligned() ==> r.Aligned() == r
  {
    AlignedCover(r.addr, r.size, 0x1000);
  }

  lemma AlignedCover(addr: nat, size: nat, p: nat)
    requires p > 0
    ensures var up, down := AlignUp(addr + size, p), AlignDown(addr, p);
      && up >= addr
      && AlignUp(up - addr, p) == up - down
      && (up - down) % p == 0 && down % p == 0
      && addr - p < down <= addr && addr + size <= up < addr + size + p
      && (addr % p == 0 && size % p == 0 ==> down == addr && up == addr + size)
  {
    var up, down := AlignUp(addr + size, p), AlignDown(addr, p);
    AlignUpIs(addr + size, p);
    AlignDownIs(addr, p);
    AlignUpIs(up - addr, p);
    MultiplesSubtract(up, down, p);
    MultiplesApart(up - down, AlignUp(up - addr, p), p);
    if addr % p == 0 && size % p == 0 {
      MultiplesAdd(addr, size, p);
      MultiplesApart(addr, down, p);
      MultiplesApart(addr + size, up, p);
    }
  }
}
