/** Euclidean division by the constant powers of two the byte codecs use. */
module Arith {

  /** Division undoes `q * d + r` for a remainder below `d`. */
  lemma DivMod(q: int, r: int, d: int)
    requires d == 4 || d == 16 || d == 64 || d == 4096 || d == 262144
    requires 0 <= r < d
    ensures (q * d + r) / d == q && (q * d + r) % d == r
  {
    if d == 4 {
      assert q * d + r == q * 4 + r;
    } else if d == 16 {
      assert q * d + r == q * 16 + r;
    } else if d == 64 {
      assert q * d + r == q * 64 + r;
    } else if d == 4096 {
      assert q * d + r == q * 4096 + r;
    } else {
      assert q * d + r == q * 262144 + r;
    }
  }

  /** A positive multiple of four other than four itself is at least eight. */
  lemma MultipleOfFour(n: int)
    requires n % 4 == 0 && n > 0 && n != 4
    ensures n >= 8
  {
    var q := n / 4;
    assert n == 4 * q;
  }

  /** Adding four keeps a multiple of four a multiple of four. */
  lemma AddFour(n: int)
    requires n % 4 == 0
    ensures (n + 4) % 4 == 0
  {
    var q := n / 4;
    assert n + 4 == 4 * (q + 1);
  }
}
