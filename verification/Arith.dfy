/**
 Powers of two and the alignment helpers of libutil/src/misc.rs.

 `usize` values are modelled as `nat`.  The bit tricks of the source are stated
 arithmetically: `addr & !(align - 1)` is the largest multiple of `align` that is at most
 `addr`, provided `align` is a power of two, as the source demands.
 */
module Arith {

  function Min(a: nat, b: nat): nat {
    if a <= b then a else b
  }

  function Max(a: nat, b: nat): nat {
    if a >= b then a else b
  }

  function Pow2(k: nat): (p: nat)
    ensures p >= 1
  {
    if k == 0 then 1 else 2 * Pow2(k - 1)
  }

  /** `align_down` */
  function AlignDown(addr: nat, align: nat): (r: nat)
    requires align > 0
  {
    addr - addr % align
  }

  /** `align_up` */
  function AlignUp(addr: nat, align: nat): (r: nat)
    requires align > 0
  {
    AlignDown(addr + align - 1, align)
  }

  /**
   The natural alignment of an address: the value of its lowest set bit, and 1 << 63 for
   address zero.
   */
  function AlignOf(addr: nat): (r: nat)
    ensures r >= 1
  {
    if addr == 0 then Pow2(63)
    else if addr % 2 == 1 then 1
    else 2 * AlignOf(addr / 2)
  }

  lemma {:induction false} DoubleMod(b: nat, m: nat)
    requires m > 0
    ensures (2 * b) % (2 * m) == 2 * (b % m)
  {
    var q, r := b / m, b % m;
    assert b == q * m + r;
    assert 2 * b == q * (2 * m) + 2 * r;
    ModUnique(2 * b, 2 * m, q, 2 * r);
  }

  /** Division with remainder is unique. */
  lemma ModUnique(a: int, m: int, q: int, r: int)
    requires m > 0 && 0 <= r < m && a == q * m + r
    ensures a / m == q && a % m == r
  {
    var q', r' := a / m, a % m;
    assert (q - q') * m == r' - r;
    if q > q' {
      MulMono(1, q - q', m);
    } else if q < q' {
      MulMono(q - q', -1, m);
    }
  }

  lemma MulMono(a: int, b: int, m: int)
    requires a <= b && m >= 0
    ensures a * m <= b * m
  {
    assert (b - a) * m >= 0;
  }

  /** The natural alignment is exactly the largest power of two that divides the address. */
  lemma {:induction false} AlignOfDivides(k: nat, addr: nat)
    requires k <= 63
    ensures Pow2(k) <= AlignOf(addr) <==> addr % Pow2(k) == 0
  {
    if addr == 0 {
      AlignOfZero(k);
    } else if k == 0 {
      assert Pow2(k) == 1;
    } else {
      HalveMultiple(addr, Pow2(k - 1));
      if addr % 2 == 0 {
        AlignOfDivides(k - 1, addr / 2);
      }
    }
  }

  lemma AlignOfZero(k: nat)
    requires k <= 63
    ensures Pow2(k) <= AlignOf(0) && 0 % Pow2(k) == 0
  {
    Pow2Mono(k, 63);
    ModUnique(0, Pow2(k), 0, 0);
  }

  lemma HalveMultiple(addr: nat, m: nat)
    requires m > 0
    ensures addr % 2 == 0 ==> (addr % (2 * m) == 0 <==> (addr / 2) % m == 0)
    ensures addr % 2 == 1 ==> addr % (2 * m) != 0
  {
    if addr % 2 == 1 {
      OddNotMultiple(addr, m);
    } else {
      var b := addr / 2;
      DoubleMod(b, m);
      assert addr == 2 * b;
    }
  }

  lemma OddNotMultiple(a: nat, m: nat)
    requires a % 2 == 1 && m > 0
    ensures a % (2 * m) != 0
  {
    var q, r := a / (2 * m), a % (2 * m);
    assert a == q * (2 * m) + r;
    assert q * (2 * m) == 2 * (q * m);
  }

  lemma {:induction false} Pow2Mono(a: nat, b: nat)
    requires a <= b
    ensures Pow2(a) <= Pow2(b)
    decreases b
  {
    if a < b {
      Pow2Mono(a, b - 1);
    }
  }

  lemma {:induction false} Pow2Add(a: nat, b: nat)
    ensures Pow2(a + b) == Pow2(a) * Pow2(b)
  {
    if a != 0 {
      Pow2Add(a - 1, b);
      assert Pow2(a) * Pow2(b) == 2 * (Pow2(a - 1) * Pow2(b));
    }
  }

  /** A multiple of a multiple is a multiple. */
  lemma MultipleOfMultiple(a: nat, m: nat, k: nat)
    requires m > 0 && k > 0 && a % (k * m) == 0
    ensures a % m == 0
  {
    var q := a / (k * m);
    assert a == q * (k * m) == (q * k) * m;
    ModUnique(a, m, q * k, 0);
  }

  /** Two multiples less than one step apart are equal. */
  lemma MultiplesApart(a: nat, b: nat, m: nat)
    requires m > 0 && a % m == 0 && b % m == 0
    requires a - m < b < a + m
    ensures a == b
  {
    var p, q := a / m, b / m;
    assert a == p * m && b == q * m;
    if p < q {
      MulMono(p + 1, q, m);
    } else if q < p {
      MulMono(q + 1, p, m);
    }
  }

  lemma MultiplesSubtract(a: nat, b: nat, m: nat)
    requires m > 0 && a % m == 0 && b % m == 0 && b <= a
    ensures (a - b) % m == 0
  {
    var p, q := a / m, b / m;
    assert a - b == (p - q) * m;
    ModUnique(a - b, m, p - q, 0);
  }

  lemma MultiplesAdd(a: nat, b: nat, m: nat)
    requires m > 0 && a % m == 0 && b % m == 0
    ensures (a + b) % m == 0
  {
    var p, q := a / m, b / m;
    assert a + b == (p + q) * m;
    ModUnique(a + b, m, p + q, 0);
  }

  /** `align_down` gives the largest multiple not above the address. */
  lemma AlignDownIs(addr: nat, align: nat)
    requires align > 0
    ensures AlignDown(addr, align) % align == 0
    ensures addr - align < AlignDown(addr, align) <= addr
  {
    var q, r := addr / align, addr % align;
    assert addr == q * align + r;
    ModUnique(addr - r, align, q, 0);
  }

  /** `align_up` gives the smallest multiple not below the address. */
  lemma AlignUpIs(addr: nat, align: nat)
    requires align > 0
    ensures AlignUp(addr, align) % align == 0
    ensures addr <= AlignUp(addr, align) < addr + align
  {
    AlignDownIs(addr + align - 1, align);
  }

  lemma DivDiv(a: nat, m: nat, n: nat)
    requires m > 0 && n > 0
    ensures m * n > 0 && (a / m) / n == a / (m * n)
  {
    var b := a / m;
    var c := b / n;
    assert m * n > 0;
    assert a == b * m + a % m && b == c * n + b % n;
    assert (b % n) * m <= (n - 1) * m by { MulMono(b % n, n - 1, m); }
    assert a == c * (m * n) + ((b % n) * m + a % m) by {
      assert b * m == (c * n) * m + (b % n) * m;
      assert (c * n) * m == c * (m * n);
    }
    assert (n - 1) * m == m * n - m;
    ModUnique(a, m * n, c, (b % n) * m + a % m);
  }

  /** An address lies in the aligned block of size `m` that its quotient names. */
  lemma DivBlock(a: nat, m: nat)
    requires m > 0
    ensures (a / m) * m <= a < (a / m + 1) * m
  {
    assert a == (a / m) * m + a % m;
    assert (a / m + 1) * m == (a / m) * m + m;
  }

  /** ... and in no other. */
  lemma BlockDiv(a: nat, q: nat, m: nat)
    requires m > 0 && q * m <= a < (q + 1) * m
    ensures a / m == q
  {
    assert (q + 1) * m == q * m + m;
    ModUnique(a, m, q, a - q * m);
  }

  /** Counting on, modulo a number. */
  lemma ModNext(n: nat, m: nat)
    requires m > 0
    ensures (n + 1) % m == if n % m + 1 < m then n % m + 1 else 0
  {
    var q, r := n / m, n % m;
    assert n == q * m + r;
    if r + 1 < m {
      ModUnique(n + 1, m, q, r + 1);
    } else {
      assert n + 1 == (q + 1) * m;
      ModUnique(n + 1, m, q + 1, 0);
    }
  }
}
