/** Number facts shared by the models: residues of ring tickets, powers of two and bit masks. */
module Arith {

  lemma DivMod(a: int, m: int)
    requires m > 0
    ensures a == (a / m) * m + a % m && 0 <= a % m < m
  {
  }

  lemma MultipleAtLeast(x: int, m: int)
    requires x >= 1 && m > 0
    ensures x * m >= m
  {
  }

  lemma PositiveMultiple(x: int, m: int)
    requires m > 0 && x * m > 0
    ensures x * m >= m
  {
    if x > 0 {
      MultipleAtLeast(x, m);
    }
  }

  lemma Distribute(x: int, y: int, m: int)
    ensures (x - y) * m == x * m - y * m
    ensures (x + y) * m == x * m + y * m
  {
  }

  lemma UniqueQuotient(m: int, q: int, r: int, q': int, r': int)
    requires m > 0 && 0 <= r < m && 0 <= r' < m && q * m + r == q' * m + r'
    ensures q == q' && r == r'
  {
    Distribute(q, q', m);
    Distribute(q', q, m);
    if q > q' {
      MultipleAtLeast(q - q', m);
    } else if q < q' {
      MultipleAtLeast(q' - q, m);
    }
  }

  lemma UniqueRemainder(a: int, m: int, q: int, r: int)
    requires m > 0 && 0 <= r < m && a == q * m + r
    ensures a / m == q && a % m == r
  {
    DivMod(a, m);
    UniqueQuotient(m, q, r, a / m, a % m);
  }

  /** Two different numbers with the same residue are at least one modulus apart. */
  lemma SameResidueApart(a: nat, b: nat, m: nat)
    requires m > 0 && a < b && a % m == b % m
    ensures a + m <= b
  {
    DivMod(a, m);
    DivMod(b, m);
    Distribute(b / m, a / m, m);
    PositiveMultiple(b / m - a / m, m);
  }

  lemma AddModulus(a: nat, m: nat)
    requires m > 0
    ensures (a + m) % m == a % m
  {
    DivMod(a, m);
    Distribute(a / m, 1, m);
    UniqueRemainder(a + m, m, a / m + 1, a % m);
  }

  /** Consecutive numbers never share a residue once the modulus is at least two. */
  lemma ConsecutiveResiduesDiffer(a: nat, m: nat)
    requires m >= 2
    ensures a % m != (a + 1) % m
  {
    if a % m == (a + 1) % m {
      SameResidueApart(a, a + 1, m);
    }
  }

  function Pow2(k: nat): (p: nat)
    ensures p >= 1
  {
    if k == 0 then 1 else 2 * Pow2(k - 1)
  }

  lemma Pow2Monotone(i: nat, j: nat)
    requires i <= j
    ensures Pow2(i) <= Pow2(j)
  {
    if i < j {
      Pow2Monotone(i, j - 1);
    }
  }

  /** Bitwise conjunction of two naturals, bit by bit. */
  function BitAnd(a: nat, b: nat): nat {
    if a == 0 || b == 0 then 0
    else (if a % 2 == 1 && b % 2 == 1 then 1 else 0) + 2 * BitAnd(a / 2, b / 2)
  }

  lemma DoubledResidue(a: nat, half: nat)
    requires half > 0
    ensures a % (2 * half) == 2 * (a / 2 % half) + a % 2
  {
    var b := a / 2;
    DivMod(b, half);
    var q, r := b / half, b % half;
    assert q * (2 * half) == 2 * (q * half);
    UniqueRemainder(a, 2 * half, q, 2 * r + a % 2);
  }

  lemma {:induction false} MaskOneBit(a: nat, half: nat)
    requires half > 0
    ensures BitAnd(a, 2 * half - 1) == a % 2 + 2 * BitAnd(a / 2, half - 1)
  {
    assert (2 * half - 1) / 2 == half - 1 && (2 * half - 1) % 2 == 1;
  }

  /** Masking with `2^k - 1` is reduction modulo `2^k`. */
  lemma {:induction false} MaskIsModulo(position: nat, k: nat)
    ensures BitAnd(position, Pow2(k) - 1) == position % Pow2(k)
  {
    if k > 0 {
      var half := Pow2(k - 1);
      MaskOneBit(position, half);
      MaskIsModulo(position / 2, k - 1);
      DoubledResidue(position, half);
      assert Pow2(k) == 2 * half;
    }
  }
}
