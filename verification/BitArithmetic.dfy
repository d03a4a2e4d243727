/** Unsigned shift and mask, as uthash uses them on its power-of-two table size. */
module BitArithmetic {

  function Pow2(n: nat): (p: nat)
    ensures p >= 1
  {
    if n == 0 then 1 else 2 * Pow2(n - 1)
  }

  /** x >> n */
  function ShiftRight(x: nat, n: nat): nat {
    if n == 0 then x else ShiftRight(x / 2, n - 1)
  }

  /** x & y */
  function BitAnd(x: nat, y: nat): (r: nat)
    decreases x
  {
    if x == 0 || y == 0 then 0
    else 2 * BitAnd(x / 2, y / 2) + (if x % 2 == 1 && y % 2 == 1 then 1 else 0)
  }

  lemma {:induction false} DivTwice(x: nat, p: nat)
    requires p >= 1
    ensures x / (2 * p) == x / 2 / p
    ensures x % (2 * p) == 2 * (x / 2 % p) + x % 2
  {
    var q, r := x / 2 / p, x / 2 % p;
    assert x == 2 * (q * p + r) + x % 2;
    assert x == q * (2 * p) + (2 * r + x % 2) by {
      assert 2 * (q * p) == q * (2 * p);
    }
    DivisionUnique(x, 2 * p, q, 2 * r + x % 2);
  }

  lemma DivisionUnique(x: nat, d: nat, q: nat, r: nat)
    requires d > 0 && r < d
    requires x == q * d + r
    ensures x / d == q && x % d == r
  {
    var k, m := x / d, x % d;
    DivisionIdentity(x, d);
    if k < q {
      MulMonotone(k + 1, q, d);
    } else if q < k {
      MulMonotone(q + 1, k, d);
    }
  }

  lemma DivisionIdentity(x: nat, d: nat)
    requires d > 0
    ensures x == x / d * d + x % d
    ensures x % d < d
  {
  }

  lemma MulMonotone(a: nat, b: nat, d: nat)
    requires a <= b
    ensures a * d <= b * d
    ensures (a + 1) * d == a * d + d
  {
  }

  /** Shifting right by n divides by 2^n. */
  lemma {:induction false} ShiftIsDivision(x: nat, n: nat)
    ensures ShiftRight(x, n) == x / Pow2(n)
  {
    if n > 0 {
      ShiftIsDivision(x / 2, n - 1);
      DivTwice(x, Pow2(n - 1));
    }
  }

  lemma ModTwice(x: nat, p: nat, q: nat)
    requires p >= 1 && q == 2 * p
    ensures x % q == 2 * (x / 2 % p) + x % 2
  {
    DivTwice(x, p);
  }

  lemma MaskTwice(x: nat, p: nat, q: nat)
    requires p >= 1 && q == 2 * p
    ensures BitAnd(x, q - 1) == 2 * BitAnd(x / 2, p - 1) + x % 2
  {
    assert (q - 1) / 2 == p - 1 && (q - 1) % 2 == 1;
  }

  /** Masking with 2^n - 1 takes the remainder modulo 2^n. */
  lemma {:induction false} MaskIsRemainder(x: nat, n: nat)
    ensures BitAnd(x, Pow2(n) - 1) == x % Pow2(n)
    decreases n
  {
    if n > 0 {
      MaskIsRemainder(x / 2, n - 1);
      MaskTwice(x, Pow2(n - 1), Pow2(n));
      ModTwice(x, Pow2(n - 1), Pow2(n));
    }
  }

  /** m / d rounded up. */
  function CeilDiv(m: nat, d: nat): nat
    requires d > 0
  {
    (m + d - 1) / d
  }

  /** Shift-and-mask computes the ceiling: the rounded-up quotient is the least
      chain length that lets d chains hold m items. */
  lemma ShiftMaskIsCeiling(m: nat, n: nat)
    ensures ShiftRight(m, n) + (if BitAnd(m, Pow2(n) - 1) != 0 then 1 else 0) == CeilDiv(m, Pow2(n))
  {
    var d := Pow2(n);
    ShiftIsDivision(m, n);
    MaskIsRemainder(m, n);
    var q, r := m / d, m % d;
    DivisionIdentity(m, d);
    MulMonotone(q, q, d);
    if r == 0 {
      DivisionUnique(m + d - 1, d, q, d - 1);
    } else {
      DivisionUnique(m + d - 1, d, q + 1, r - 1);
    }
  }

  lemma CeilDivIsLeast(m: nat, d: nat, c: nat)
    requires d > 0
    ensures CeilDiv(m, d) <= c <==> m <= c * d
  {
    var q, r := (m + d - 1) / d, (m + d - 1) % d;
    assert m + d - 1 == q * d + r;
    if q <= c {
      assert q * d <= c * d;
    } else {
      assert (q - 1) * d >= c * d;
      assert (q - 1) * d == q * d - d;
    }
  }

  /** Doubling the modulus sends a residue class b to b or to b + p. */
  lemma HalvesOfResidue(x: nat, p: nat)
    requires p > 0
    ensures x % (2 * p) == x % p || x % (2 * p) == x % p + p
    ensures x % (2 * p) % p == x % p
  {
    var q, r := x / p, x % p;
    assert x == q * p + r;
    var h, o := q / 2, q % 2;
    assert q * p == h * (2 * p) + o * p;
    assert x == h * (2 * p) + (o * p + r);
    if o == 1 {
      DivisionUnique(x, 2 * p, h, p + r);
      DivisionUnique(p + r, p, 1, r);
    } else {
      DivisionUnique(x, 2 * p, h, r);
      DivisionUnique(r, p, 0, r);
    }
  }
}
