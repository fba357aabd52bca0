/** Bytes, and numbers stored least significant byte first. */
module Octets {
  type Byte = x: nat | x < 256

  /** Four bytes, least significant first. */
  function Le32(n: nat): (r: seq<Byte>)
    ensures |r| == 4
  {
    [n % 0x100, n / 0x100 % 0x100, n / 0x1_0000 % 0x100, n / 0x100_0000 % 0x100]
  }

  function FromLe32(a: Byte, b: Byte, c: Byte, d: Byte): nat { a + b * 0x100 + c * 0x1_0000 + d * 0x100_0000 }

  lemma DivideAgain(n: nat, d: nat)
    requires d == 0x100 || d == 0x1_0000
    ensures n / d / 0x100 == n / (d * 0x100)
  {
  }

  lemma Le32RoundTrip(n: nat)
    requires n < 0x1_0000_0000
    ensures var b := Le32(n); FromLe32(b[0], b[1], b[2], b[3]) == n
  {
    var q1 := n / 0x100;
    var q2 := q1 / 0x100;
    var q3 := q2 / 0x100;
    DivideAgain(n, 0x100);
    DivideAgain(n, 0x1_0000);
    assert n == n % 0x100 + 0x100 * q1 && q1 == q1 % 0x100 + 0x100 * q2 && q2 == q2 % 0x100 + 0x100 * q3;
    assert q3 % 0x100 == q3;
  }

  lemma LeastFirst()
    ensures Le32(0x0403_0201) == [1, 2, 3, 4] && Le16(0x0201) == [1, 2]
  {
  }

  /** Two bytes, least significant first. */
  function Le16(n: nat): (r: seq<Byte>)
    ensures |r| == 2
  {
    [n % 0x100, n / 0x100 % 0x100]
  }
}
