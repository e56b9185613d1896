// Minimum, maximum, division by a positive variable and 64-bit saturating
// arithmetic, used by several models.
module Arith {

  function Min(a: int, b: int): int { if a <= b then a else b }

  function Max(a: int, b: int): int { if a >= b then a else b }

  lemma MulMono(d: nat, a: int, b: int)
    requires a <= b
    ensures d * a <= d * b
  {
    assert d * (b - a) >= 0;
  }

  // Quotient and remainder are the only pair with this shape.
  lemma DivModUnique(x: int, d: nat, q: int, r: nat)
    requires r < d && x == d * q + r
    ensures x / d == q && x % d == r
  {
    var q', r' := x / d, x % d;
    assert d * (q - q') == r' - r;
    if q' < q { MulMono(d, 1, q - q'); }
    if q < q' { MulMono(d, q - q', -1); }
  }

  lemma DivModShift(x: int, d: nat, k: int)
    requires d > 0
    ensures (x + d * k) / d == x / d + k && (x + d * k) % d == x % d
  {
    assert x + d * k == d * (x / d + k) + x % d;
    DivModUnique(x + d * k, d, x / d + k, x % d);
  }

  // The rounded-up quotient.
  lemma DivideUp(x: nat, d: nat)
    requires d > 0
    ensures (x + d - 1) / d == if x % d > 0 then x / d + 1 else x / d
  {
    var q, r := x / d, x % d;
    if r > 0 {
      assert x + d - 1 == d * (q + 1) + (r - 1);
      DivModUnique(x + d - 1, d, q + 1, r - 1);
    } else {
      DivModUnique(x + d - 1, d, q, d - 1);
    }
  }

  // Numbers less than d apart have different remainders.
  lemma ModDistinct(x: int, y: int, d: nat)
    requires x < y < x + d
    ensures x % d != y % d
  {
    var q, r := x / d, x % d;
    if r + (y - x) < d {
      DivModUnique(y, d, q, r + (y - x));
    } else {
      assert y == d * (q + 1) + (r + (y - x) - d);
      DivModUnique(y, d, q + 1, r + (y - x) - d);
    }
  }

  // 64-bit saturating arithmetic, common/utility.h.
  const MAX_U64: nat := 0xffff_ffff_ffff_ffff

  function SatAdd(x: nat, y: nat): nat { if x + y > MAX_U64 then MAX_U64 else x + y }

  function SatSub(x: nat, y: nat): nat { if x < y then 0 else x - y }
}
