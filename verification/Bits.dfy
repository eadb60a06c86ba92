/** 32-bit unsigned arithmetic as the C code sees it, and the two alignment macros of bl2/src/flash_map.c. */
module Bits {

  const TWO32: int := 0x1_0000_0000

  /** uint32_t. An assignment to a `u32` is an obligation that nothing wrapped; a wrap is written `Wrap`. */
  type u32 = x: int | 0 <= x < 0x1_0000_0000

  function Wrap(x: int): u32 {
    x % TWO32
  }

  lemma WrapId(x: int)
    requires 0 <= x < TWO32
    ensures Wrap(x) == x
  {
  }

  lemma WrapLess(x: nat)
    requires TWO32 <= x < 2 * TWO32
    ensures Wrap(x) == x - TWO32
  {
  }

  /** Conversion of a uint32_t result to the int32_t the driver functions return. */
  function AsInt32(x: u32): int {
    if x < 0x8000_0000 then x else x - TWO32
  }

  /** Bitwise AND, one binary digit at a time. */
  function And(x: nat, y: nat): nat
    decreases x
  {
    if x == 0 || y == 0 then 0
    else (if x % 2 == 1 && y % 2 == 1 then 1 else 0) + 2 * And(x / 2, y / 2)
  }

  lemma AndBound(x: nat, y: nat)
    ensures And(x, y) <= x && And(x, y) <= y
    decreases x
  {
    if x != 0 && y != 0 {
      AndBound(x / 2, y / 2);
    }
  }

  /** `~x` on a uint32_t. */
  function Not(x: u32): u32 {
    0xFFFF_FFFF - x
  }

  /** The macro FLOOR_ALIGN: value & ~(alignment - 1). */
  function FloorAlign(value: u32, alignment: u32): u32 {
    AndBound(value, Not(Wrap(alignment - 1)));
    And(value, Not(Wrap(alignment - 1)))
  }

  /** The macro CEILING_ALIGN: (value + (alignment - 1)) & ~(alignment - 1). */
  function CeilingAlign(value: u32, alignment: u32): u32 {
    FloorAlign(Wrap(value + Wrap(alignment - 1)), alignment)
  }

  predicate IsPow2(n: nat) {
    n == 1 || (n > 1 && n % 2 == 0 && IsPow2(n / 2))
  }

  /** The arithmetic meaning of the two macros. */
  function FloorTo(x: nat, n: nat): nat
    requires n > 0
  {
    x / n * n
  }

  function CeilTo(x: nat, n: nat): nat
    requires n > 0
  {
    (x + n - 1) / n * n
  }

  lemma FloorToFacts(x: nat, n: nat)
    requires n > 0
    ensures FloorTo(x, n) <= x < FloorTo(x, n) + n
    ensures FloorTo(x, n) == x - x % n
    ensures FloorTo(x, n) % n == 0
  {
    var q := x / n;
    assert x == q * n + x % n;
    MultipleMod(q, n);
  }

  lemma CeilToFacts(x: nat, n: nat)
    requires n > 0
    ensures x <= CeilTo(x, n) < x + n
    ensures CeilTo(x, n) % n == 0
  {
    FloorToFacts(x + n - 1, n);
  }

  lemma MultipleMod(q: int, n: nat)
    requires n > 0
    ensures (q * n) % n == 0
  {
    var m := q * n;
    assert m == (m / n) * n + m % n;
    assert (q - m / n) * n == m % n;
    MultipleInRange(q - m / n, n);
  }

  lemma MultipleInRange(q: int, n: nat)
    requires n > 0 && 0 <= q * n < n
    ensures q == 0
  {
  }

  /** Sums and differences of multiples are multiples. */
  lemma ModAdd(x: int, y: int, n: nat)
    requires n > 0 && x % n == 0 && y % n == 0
    ensures (x + y) % n == 0 && (x - y) % n == 0
  {
    var p, q := x / n, y / n;
    assert x == p * n && y == q * n;
    assert x + y == (p + q) * n && x - y == (p - q) * n;
    MultipleMod(p + q, n);
    MultipleMod(p - q, n);
  }

  lemma ModSum(x: nat, y: nat, n: nat)
    requires n > 0 && y % n == 0
    ensures (x + y) % n == x % n
  {
    hide FloorTo;
    FloorToFacts(x, n);
    FloorToFacts(x + y, n);
    ModAdd(FloorTo(x, n), y, n);
    MultipleUnique(FloorTo(x + y, n), FloorTo(x, n) + y, n);
  }

  lemma FloorMono(x: nat, y: nat, n: nat)
    requires n > 0 && x <= y
    ensures FloorTo(x, n) <= FloorTo(y, n)
  {
    FloorToFacts(x, n);
    FloorToFacts(y, n);
    if FloorTo(x, n) > FloorTo(y, n) {
      ModAdd(FloorTo(x, n), FloorTo(y, n), n);
      MultipleMod(0, n);
      MultipleUnique(FloorTo(x, n) - FloorTo(y, n), 0, n);
    }
  }

  lemma CeilMono(x: nat, y: nat, n: nat)
    requires n > 0 && x <= y
    ensures CeilTo(x, n) <= CeilTo(y, n)
  {
    FloorMono(x + n - 1, y + n - 1, n);
  }

  /** Divisibility is transitive. */
  lemma ModDivides(x: int, n: nat, d: nat)
    requires d > 0 && n > 0 && x % n == 0 && n % d == 0
    ensures x % d == 0
  {
    var p, q := x / n, n / d;
    assert x == p * n && n == q * d;
    assert x == (p * q) * d by {
      assert p * (q * d) == (p * q) * d;
    }
    MultipleMod(p * q, d);
  }

  /** A multiple is determined by any point less than one step above it. */
  lemma MultipleUnique(x: int, y: int, n: nat)
    requires n > 0 && x % n == 0 && y % n == 0 && x - y < n && y - x < n
    ensures x == y
  {
    var p, q := x / n, y / n;
    assert x == p * n && y == q * n;
    assert x - y == (p - q) * n;
    if x >= y {
      MultipleInRange(p - q, n);
    } else {
      assert y - x == (q - p) * n;
      MultipleInRange(q - p, n);
    }
  }

  lemma MultipleGap(x: nat, y: nat, n: nat)
    requires n > 0 && x % n == 0 && y % n == 0 && x < y
    ensures x + n <= y
  {
    if y - x < n {
      MultipleUnique(y, x, n);
    }
  }

  lemma {:induction false} Pow2Divides(p: nat, q: nat)
    requires IsPow2(p) && IsPow2(q) && p <= q
    ensures q % p == 0
    decreases q
  {
    if p != q && p != 1 {
      Pow2Divides(p / 2, q / 2);
      var h, k := p / 2, (q / 2) / (p / 2);
      assert q / 2 == k * h && p == 2 * h;
      assert q == k * p by {
        assert 2 * (k * h) == k * (2 * h);
      }
      MultipleMod(k, p);
    }
  }

  lemma Pow2Double(n: nat)
    requires IsPow2(n)
    ensures IsPow2(2 * n)
  {
    assert 2 * n / 2 == n;
  }

  lemma Pow2Times16(n: nat)
    requires IsPow2(n)
    ensures IsPow2(16 * n)
  {
    hide IsPow2;
    Pow2Double(n);
    Pow2Double(2 * n);
    Pow2Double(4 * n);
    Pow2Double(8 * n);
  }

  lemma Pow2One()
    ensures IsPow2(1)
  {
  }

  lemma TwoPow32(w: nat)
    requires w == TWO32
    ensures IsPow2(w)
  {
    hide IsPow2;
    Pow2One();
    Pow2Times16(0x1);
    Pow2Times16(0x10);
    Pow2Times16(0x100);
    Pow2Times16(0x1000);
    Pow2Times16(0x1_0000);
    Pow2Times16(0x10_0000);
    Pow2Times16(0x100_0000);
    Pow2Times16(0x1000_0000);
  }

  /** An AND with all-ones below `w` keeps a value below `w`. */
  lemma {:induction false} AndOnes(v: nat, w: nat)
    requires IsPow2(w) && v < w
    ensures And(v, w - 1) == v
    decreases w
  {
    if w > 1 && v > 0 {
      AndOnes(v / 2, w / 2);
      assert (w - 1) / 2 == w / 2 - 1;
    }
  }

  /** An AND with the complement of `a - 1` clears exactly the part of `v` below `a`. */
  lemma {:induction false} AndHighMask(v: nat, a: nat, w: nat)
    requires IsPow2(a) && IsPow2(w) && a <= w && v < w
    ensures And(v, w - a) == FloorTo(v, a)
    decreases w
  {
    if a == 1 {
      AndOnes(v, w);
    } else {
      AndHighMask(v / 2, a / 2, w / 2);
      assert (w - a) / 2 == w / 2 - a / 2;
      HalfFloor(v, a);
    }
  }

  lemma HalfFloor(v: nat, a: nat)
    requires a > 0 && a % 2 == 0
    ensures FloorTo(v, a) == 2 * FloorTo(v / 2, a / 2)
  {
    var h := a / 2;
    var x, y := FloorTo(v, a), 2 * FloorTo(v / 2, h);
    FloorToFacts(v, a);
    FloorToFacts(v / 2, h);
    var q := v / 2 / h;
    assert y == q * a by {
      assert 2 * (q * h) == q * (2 * h);
    }
    MultipleMod(q, a);
    MultipleUnique(x, y, a);
  }

  /** For every power-of-two alignment the mask of FLOOR_ALIGN rounds down to a multiple. */
  lemma FloorAlignRoundsDown(value: u32, alignment: u32)
    requires IsPow2(alignment)
    ensures FloorAlign(value, alignment) == FloorTo(value, alignment)
  {
    hide And, FloorTo;
    var mask := Not(Wrap(alignment - 1));
    assert mask == 0x1_0000_0000 - alignment;
    var w := mask + alignment;
    TwoPow32(w);
    AndHighMask(value, alignment, w);
  }

  /** CEILING_ALIGN rounds up to a multiple exactly when the rounded value still fits in 32 bits;
      otherwise the sum wraps and the macro yields 0. */
  lemma CeilingAlignRoundsUp(value: u32, alignment: u32)
    requires IsPow2(alignment)
    ensures CeilingAlign(value, alignment) == if CeilTo(value, alignment) < TWO32 then CeilTo(value, alignment) else 0
  {
    hide FloorAlign, IsPow2, FloorTo, Wrap;
    CeilBelow(value, alignment);
    CeilSum(value, alignment);
    var s := Wrap(value + Wrap(alignment - 1));
    FloorAlignRoundsDown(s, alignment);
    if value + alignment - 1 >= TWO32 {
      FloorOfSmall(s, alignment);
    }
  }

  lemma CeilSum(value: u32, alignment: u32)
    requires IsPow2(alignment)
    ensures alignment > 0 && CeilTo(value, alignment) == FloorTo(value + alignment - 1, alignment)
    ensures Wrap(value + Wrap(alignment - 1)) ==
      if value + alignment - 1 < TWO32 then value + alignment - 1 else value + alignment - 1 - TWO32
  {
    hide Wrap;
    SumWraps(value, alignment);
  }

  lemma SumWraps(value: u32, alignment: u32)
    requires alignment > 0
    ensures Wrap(value + Wrap(alignment - 1)) ==
      if value + alignment - 1 < TWO32 then value + alignment - 1 else value + alignment - 1 - TWO32
  {
    hide Wrap;
    WrapId(alignment - 1);
    var sum := value + alignment - 1;
    if sum < TWO32 {
      WrapId(sum);
    } else {
      WrapLess(sum);
    }
  }

  lemma FloorOfSmall(x: nat, n: nat)
    requires x < n
    ensures FloorTo(x, n) == 0
  {
    FloorToFacts(x, n);
    MultipleMod(0, n);
    MultipleUnique(FloorTo(x, n), 0, n);
  }

  /** Rounding up stays below 2^32 exactly when the sum inside the macro does. */
  lemma CeilBelow(value: u32, alignment: u32)
    requires IsPow2(alignment)
    ensures CeilTo(value, alignment) < TWO32 <==> value + alignment - 1 < TWO32
  {
    var w: nat := TWO32;
    TwoPow32(w);
    Pow2Divides(alignment, w);
    CeilToFacts(value, alignment);
    var s := value + alignment - 1;
    FloorToFacts(s, alignment);
    if s >= TWO32 && CeilTo(value, alignment) < TWO32 {
      MultipleUnique(CeilTo(value, alignment), TWO32, alignment);
    }
  }
}
