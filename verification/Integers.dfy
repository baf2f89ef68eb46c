/**
 Machine integers of the original program written out over unbounded `int`, and the
 few facts about division and remainder that the other modules need.
 */
module Integers {
  const TWO_31: nat := 0x8000_0000
  const TWO_32: nat := 0x1_0000_0000
  const TWO_63: nat := 0x8000_0000_0000_0000
  const TWO_64: nat := 0x1_0000_0000_0000_0000

  // Unsigned arithmetic wraps.
  function U64(x: int): (r: nat)
    ensures r < TWO_64
    ensures 0 <= x < TWO_64 ==> r == x
    ensures 0 <= x ==> r <= x
  {
    x % TWO_64
  }

  function U32(x: int): (r: nat)
    ensures r < TWO_32
    ensures 0 <= x < TWO_32 ==> r == x
  {
    x % TWO_32
  }

  // The reinterpretation of an unsigned value as a signed one of the same width.
  function S64(x: nat): (r: int)
    requires x < TWO_64
    ensures -(TWO_63 as int) <= r < TWO_63
    ensures r == x || r == x - TWO_64
  {
    if x < TWO_63 then x else x - TWO_64
  }

  // A signed 32-bit result that wraps on overflow.
  function S32(x: int): (r: int)
    ensures -(TWO_31 as int) <= r < TWO_31
    ensures -(TWO_31 as int) <= x < TWO_31 ==> r == x
  {
    var u := x % TWO_32;
    if u < TWO_31 then u else u - TWO_32
  }

  function Abs(x: int): nat {
    if x < 0 then -x else x
  }

  function Min(a: int, b: int): int {
    if a < b then a else b
  }

  function Max(a: int, b: int): int {
    if a < b then b else a
  }

  // Division and remainder by a positive divisor.
  function Quot(a: nat, b: nat): nat
    requires 0 < b
  {
    QuotRem(a, b);
    a / b
  }

  function Rem(a: nat, b: nat): (r: nat)
    requires 0 < b
    ensures r < b
  {
    a % b
  }

  lemma QuotRem(a: int, b: int)
    requires 0 < b
    ensures a == (a / b) * b + a % b && 0 <= a % b < b
    ensures 0 <= a ==> 0 <= a / b
  {
  }

  lemma MultipleBounds(k: int, b: int)
    requires 0 < b
    ensures 1 <= k ==> b <= k * b
    ensures k <= -1 ==> k * b <= -b
  {
    assert k * b == b + (k - 1) * b;
    assert k * b == -b + (k + 1) * b;
  }

  lemma OneMore(n: int, b: int)
    ensures (n + 1) * b == n * b + b
  {
  }

  lemma QuotientUnique(a: nat, b: nat, q: nat, r: nat)
    requires a == q * b + r && r < b
    ensures Quot(a, b) == q && Rem(a, b) == r
  {
    QuotRem(a, b);
    var k := a / b - q;
    assert k * b == (a / b) * b - q * b;
    MultipleBounds(k, b);
  }

  lemma QuotientBounds(a: nat, b: nat)
    requires 0 < b
    ensures a == Quot(a, b) * b + Rem(a, b)
  {
    QuotRem(a, b);
  }

  lemma QuotientAtMost(a: nat, b: nat, q: nat)
    requires 0 < b && a < q * b + b
    ensures Quot(a, b) <= q
  {
    QuotientBounds(a, b);
    var k := Quot(a, b) - q;
    assert k * b == Quot(a, b) * b - q * b;
    MultipleBounds(k, b);
  }

  lemma QuotientMonotone(a: nat, c: nat, b: nat)
    requires 0 < b && a <= c
    ensures Quot(a, b) <= Quot(c, b)
  {
    QuotientBounds(c, b);
    QuotientAtMost(a, b, Quot(c, b));
  }

  // Dividing in two stages: the remainder of the first stage carries into the second.
  lemma QuotientCarries(a: nat, d: nat, b: nat)
    requires 0 < b
    ensures Quot(a + d, b) == Quot(a, b) + Quot(Rem(a, b) + d, b)
    ensures Rem(a + d, b) == Rem(Rem(a, b) + d, b)
  {
    QuotientBounds(a, b);
    QuotientBounds(Rem(a, b) + d, b);
    var q, p, r := Quot(a, b), Quot(Rem(a, b) + d, b), Rem(Rem(a, b) + d, b);
    assert (q + p) * b == q * b + p * b;
    QuotientUnique(a + d, b, q + p, r);
  }

  lemma U64Adds(x: int, y: int)
    ensures U64(U64(x) + y) == U64(x + y)
  {
  }

  lemma U32Adds(x: int, y: int)
    ensures U32(U32(x) + y) == U32(x + y)
  {
  }
}
