/** Powers of two, and quotients and remainders for a divisor that is not a constant. */
module Arith {
  function Pow2(n: nat): (p: nat)
    ensures p > 0
  {
    if n == 0 then 1 else 2 * Pow2(n - 1)
  }

  lemma Pow2Values()
    ensures Pow2(1) == 2 && Pow2(2) == 4 && Pow2(3) == 8 && Pow2(4) == 16
    ensures Pow2(5) == 32 && Pow2(6) == 64 && Pow2(7) == 128 && Pow2(8) == 256
    ensures Pow2(9) == 0x200 && Pow2(10) == 0x400 && Pow2(11) == 0x800 && Pow2(12) == 0x1000
    ensures Pow2(13) == 0x2000 && Pow2(14) == 0x4000 && Pow2(15) == 0x8000 && Pow2(16) == 0x1_0000
    ensures Pow2(17) == 0x2_0000 && Pow2(18) == 0x4_0000 && Pow2(19) == 0x8_0000 && Pow2(20) == 0x10_0000
    ensures Pow2(21) == 0x20_0000 && Pow2(22) == 0x40_0000 && Pow2(23) == 0x80_0000 && Pow2(24) == 0x100_0000
    ensures Pow2(31) == 0x8000_0000 && Pow2(32) == 0x1_0000_0000
  {
    assert Pow2(8) == 256;
    assert Pow2(16) == 0x1_0000;
    assert Pow2(24) == 0x100_0000;
  }

  lemma Pow2Add(a: nat, b: nat)
    ensures Pow2(a + b) == Pow2(a) * Pow2(b)
  {
    if a == 0 {
    } else {
      Pow2Add(a - 1, b);
      assert Pow2(a + b) == 2 * Pow2(a - 1 + b);
      assert 2 * (Pow2(a - 1) * Pow2(b)) == (2 * Pow2(a - 1)) * Pow2(b);
    }
  }

  lemma {:induction false} MoreBy(q: nat, q': nat, a: nat)
    requires q < q'
    ensures q * a + a <= q' * a
    decreases q'
  {
    assert q' * a == (q' - 1) * a + a;
    if q < q' - 1 { MoreBy(q, q' - 1, a); }
  }

  /** Quotient and remainder are unique. */
  lemma Quotient(x: nat, a: nat, q: nat, r: nat)
    requires a > 0 && x == q * a + r && r < a
    ensures x / a == q && x % a == r
  {
    var q', r' := x / a, x % a;
    assert x == q' * a + r';
    if q' < q { MoreBy(q', q, a); } else if q' > q { MoreBy(q, q', a); }
  }

  /** Stepping through the slots of a ring of n. */
  lemma NextMod(m: nat, n: nat)
    requires n > 0
    ensures (m + 1) % n == if m % n + 1 < n then m % n + 1 else 0
  {
    var q := m / n;
    assert m == q * n + m % n;
    if m % n + 1 < n {
      Quotient(m + 1, n, q, m % n + 1);
    } else {
      assert (q + 1) * n == q * n + n;
      Quotient(m + 1, n, q + 1, 0);
    }
  }

  lemma ModDiffer(k: nat, m: nat, n: nat)
    requires n > 0 && 0 < m - k < n
    ensures k % n != m % n
  {
    var q := k / n;
    assert k == q * n + k % n;
    if k % n + (m - k) < n {
      Quotient(m, n, q, k % n + (m - k));
    } else {
      assert (q + 1) * n == q * n + n;
      Quotient(m, n, q + 1, k % n + (m - k) - n);
    }
  }

  lemma SameMod(k: nat, m: nat, n: nat)
    requires n > 0 && m == k + n
    ensures k % n == m % n
  {
    var q := k / n;
    assert k == q * n + k % n && (q + 1) * n == q * n + n;
    Quotient(m, n, q + 1, k % n);
  }

  lemma Parts(x: nat, n: nat)
    requires n > 0
    ensures x == x / n * n + x % n && x % n < n
  {
  }

  /** Taking the remainder of a part first does not change the remainder of a sum. */
  lemma ModPlus(x: nat, y: nat, n: nat)
    requires n > 0
    ensures (x % n + y) % n == (x + y) % n
  {
    var q, z := x / n, x % n + y;
    var q' := z / n;
    Parts(x, n);
    Parts(z, n);
    assert (q + q') * n == q * n + q' * n;
    Quotient(x + y, n, q + q', z % n);
  }
}
