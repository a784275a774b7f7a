/**
 * The unsigned bit arithmetic the hash index relies on: a mask by a power of
 * two less one, and a right shift, written bit by bit and related to
 * remainder and quotient.
 */
module Bits {

  function Pow2(k: nat): (p: nat)
    ensures p >= 1
  {
    if k == 0 then 1 else 2 * Pow2(k - 1)
  }

  lemma Pow2Of5()
    ensures Pow2(5) == 32
  {
    assert Pow2(3) == 8;
  }

  // Bitwise conjunction of two unsigned numbers.
  function And(a: nat, b: nat): nat {
    if a == 0 || b == 0 then 0
    else 2 * And(a / 2, b / 2) + (if a % 2 == 1 && b % 2 == 1 then 1 else 0)
  }

  // a >> k
  function Shr(a: nat, k: nat): nat {
    if k == 0 then a else Shr(a / 2, k - 1)
  }

  lemma HalveDivMod(a: nat, p: nat)
    requires p >= 1
    ensures a % (2 * p) == 2 * ((a / 2) % p) + a % 2
    ensures a / (2 * p) == (a / 2) / p
  {
    var h := a / 2;
    var q, r := h / p, h % p;
    assert h == q * p + r;
    assert a == q * (2 * p) + (2 * r + a % 2);
    QuotientUnique(a, 2 * p, q, 2 * r + a % 2);
  }

  lemma SmallMultiple(x: int, d: int)
    requires d >= 1
    ensures x >= 1 ==> x * d >= d
    ensures x <= -1 ==> x * d <= -d
  {
    if x >= 1 {
      assert (x - 1) * d >= 0;
    } else if x <= -1 {
      assert (-1 - x) * d >= 0;
    }
  }

  lemma QuotientUnique(a: nat, d: nat, q: int, r: int)
    requires d >= 1 && a == q * d + r && 0 <= r < d
    ensures a / d == q && a % d == r
  {
    var q' := a / d;
    assert (q - q') * d == q * d - q' * d;
    SmallMultiple(q - q', d);
  }

  // hashv & (num_buckets - 1) is the remainder when num_buckets is 2^k.
  lemma {:induction false} MaskIsMod(a: nat, k: nat)
    ensures And(a, Pow2(k) - 1) == a % Pow2(k)
  {
    if k > 0 {
      MaskIsMod(a / 2, k - 1);
      HalveDivMod(a, Pow2(k - 1));
      assert (Pow2(k) - 1) / 2 == Pow2(k - 1) - 1;
      assert (Pow2(k) - 1) % 2 == 1;
    }
  }

  lemma {:induction false} ShiftIsDiv(a: nat, k: nat)
    ensures Shr(a, k) == a / Pow2(k)
  {
    if k > 0 {
      ShiftIsDiv(a / 2, k - 1);
      HalveDivMod(a, Pow2(k - 1));
    }
  }

  lemma ShiftByOne(a: nat)
    ensures Shr(a, 1) == a / 2
  {
    ShiftIsDiv(a, 1);
    assert Pow2(1) == 2;
  }

  function CeilDiv(n: nat, d: nat): nat
    requires d >= 1
  {
    if n % d == 0 then n / d else n / d + 1
  }

  // CeilDiv(n, d) is the least c with n <= c * d.
  lemma CeilDivIsLeast(n: nat, d: nat)
    requires d >= 1
    ensures n <= CeilDiv(n, d) * d
    ensures forall c: nat :: n <= c * d ==> CeilDiv(n, d) <= c
  {
    var q, r := n / d, n % d;
    var top := CeilDiv(n, d);
    assert n == q * d + r;
    assert (q + 1) * d == q * d + d;
    forall c: nat | n <= c * d
      ensures top <= c
    {
      if c < q {
        assert (c + 1) * d == c * d + d;
        MultiplyMonotone(c + 1, q, d);
        assert false;
      } else if c == q && r > 0 {
        assert false;
      }
    }
  }

  lemma MultiplyMonotone(a: int, b: int, d: nat)
    requires a <= b
    ensures a * d <= b * d
  {
    assert (b - a) * d >= 0;
    assert (b - a) * d == b * d - a * d;
  }
}
