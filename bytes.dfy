/** Unsigned bytes and the shift arithmetic the editor builds them with. */
module Bytes {

  /** An `unsigned char`. */
  type uint8 = x: int | 0 <= x < 256

  /** 2^n, the value of `1 << n`. */
  function Pow2(n: nat): (r: nat)
    ensures r >= 1
  {
    if n == 0 then 1 else 2 * Pow2(n - 1)
  }

  /** `v >> n` on an unsigned value: n halvings. */
  function Shr(v: nat, n: nat): nat
  {
    if n == 0 then v else Shr(v / 2, n - 1)
  }

  /** Bit `b` of `v` is set: `(v & (1 << b)) != 0`. */
  predicate BitSet(v: nat, b: nat)
  {
    Shr(v, b) % 2 == 1
  }

  /** One more shift is one more halving of the shifted value. */
  lemma {:induction false} ShrSucc(v: nat, n: nat)
    ensures Shr(v, n + 1) == Shr(v, n) / 2
  {
    if n > 0 {
      ShrSucc(v / 2, n - 1);
    }
  }

  /** Shifting a value narrower than n bits right by n bits leaves nothing. */
  lemma {:induction false} ShrNarrow(v: nat, n: nat)
    requires v < Pow2(n)
    ensures Shr(v, n) == 0
  {
    if n > 0 {
      ShrNarrow(v / 2, n - 1);
    }
  }

  /** The powers the byte code uses: a byte has 8 bits, a bit string 7 of them before the last. */
  lemma Pow2Byte()
    ensures Pow2(6) == 64 && Pow2(7) == 128 && Pow2(8) == 256
  {
    assert Pow2(1) == 2;
    assert Pow2(2) == 4;
    assert Pow2(3) == 8;
    assert Pow2(4) == 16;
    assert Pow2(5) == 32;
  }

  /** 2^n grows with n. */
  lemma {:induction false} Pow2Monotone(m: nat, n: nat)
    requires m <= n
    ensures Pow2(m) <= Pow2(n)
  {
    if m < n {
      Pow2Monotone(m, n - 1);
    }
  }

  /** One more row of width w is w more bytes. */
  lemma MulSucc(y: nat, w: nat)
    ensures (y + 1) * w == y * w + w
  {
  }

  /** Fewer rows of the same width hold fewer bytes. */
  lemma MulMono(a: nat, b: nat, w: nat)
    requires a <= b
    ensures a * w <= b * w
  {
  }

  /** A cell of a row that fits on the page lies inside the page. */
  lemma RowsFit(y: nat, x: nat, rows: nat, w: nat)
    requires y < rows && x < w
    ensures y * w + x < rows * w
  {
    MulSucc(y, w);
    MulMono(y + 1, rows, w);
  }
}
