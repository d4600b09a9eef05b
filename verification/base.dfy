/** Shared vocabulary of the decoder model: bytes, optional values, powers of two
    and binary digits. */
module Base {

  /** An unsigned char of the C source. */
  type byte = x: int | 0 <= x < 256

  /** A value that may be missing; `None` stands for the C functions' "return 0" failure. */
  datatype Option<+T> = None | Some(value: T)

  function Pow2(n: nat): (r: nat)
    ensures r >= 1
  {
    if n == 0 then 1 else 2 * Pow2(n - 1)
  }

  /** The powers of two that the bit-field widths of DEFLATE need. */
  lemma Pow2Values()
    ensures Pow2(0) == 1 && Pow2(1) == 2 && Pow2(2) == 4 && Pow2(3) == 8 && Pow2(4) == 16
    ensures Pow2(5) == 32 && Pow2(6) == 64 && Pow2(7) == 128 && Pow2(8) == 256
    ensures Pow2(9) == 512 && Pow2(10) == 1024 && Pow2(11) == 2048 && Pow2(12) == 4096
    ensures Pow2(13) == 8192
  {
    assert Pow2(4) == 16;
    assert Pow2(8) == 256;
    assert Pow2(12) == 4096;
    assert Pow2(13) == 8192;
  }

  function Min(a: int, b: int): int {
    if a <= b then a else b
  }

  /** A single bit, as `gz_nextbit` returns it. */
  type bit = x: nat | x < 2

  /** Binary digit `k` of `v`: the C test `v & (1 << k)` read as 0 or 1. */
  function Digit(v: nat, k: nat): bit
  {
    if k == 0 then v % 2 else Digit(v / 2, k - 1)
  }

  lemma {:induction false} Pow2Add(a: nat, b: nat)
    ensures Pow2(a + b) == Pow2(a) * Pow2(b)
  {
    if a > 0 {
      Pow2Add(a - 1, b);
      var p, q := Pow2(a - 1), Pow2(b);
      assert Pow2(a + b) == 2 * Pow2(a - 1 + b);
      assert 2 * (p * q) == (2 * p) * q;
    }
  }

  lemma Pow2Monotone(a: nat, b: nat)
    requires a <= b
    ensures Pow2(a) <= Pow2(b)
  {
    if a < b {
      Pow2Monotone(a, b - 1);
    }
  }

  /** Digit 0 of `b + 2v` is `b`; every higher digit is a digit of `v`. */
  lemma DigitOfShifted(b: nat, v: nat, k: nat)
    requires b < 2
    ensures Digit(b + 2 * v, 0) == b
    ensures k > 0 ==> Digit(b + 2 * v, k) == Digit(v, k - 1)
  {
    assert (b + 2 * v) / 2 == v;
  }

  /** Two numbers below `2^n` with the same first `n` binary digits are equal. */
  lemma {:induction false} DigitsDetermine(a: nat, b: nat, n: nat)
    requires a < Pow2(n) && b < Pow2(n)
    requires forall k :: 0 <= k < n ==> Digit(a, k) == Digit(b, k)
    ensures a == b
  {
    if n > 0 {
      DigitOfShifted(a % 2, a / 2, 0);
      DigitOfShifted(b % 2, b / 2, 0);
      assert a == a % 2 + 2 * (a / 2);
      assert b == b % 2 + 2 * (b / 2);
      forall k | 0 <= k < n - 1
        ensures Digit(a / 2, k) == Digit(b / 2, k)
      {
        DigitOfShifted(a % 2, a / 2, k + 1);
        DigitOfShifted(b % 2, b / 2, k + 1);
        assert Digit(a, k + 1) == Digit(b, k + 1);
      }
      DigitsDetermine(a / 2, b / 2, n - 1);
      assert Digit(a, 0) == a % 2;
      assert Digit(b, 0) == b % 2;
    }
  }

  /** Adding a multiple of `2^n` leaves the low `n` digits alone. */
  lemma {:induction false} DigitsBelowUnchanged(v: nat, m: nat, n: nat, k: nat)
    requires k < n
    ensures Digit(v + m * Pow2(n), k) == Digit(v, k)
    decreases k
  {
    var t := m * Pow2(n - 1);
    assert m * Pow2(n) == 2 * t;
    assert (v + 2 * t) / 2 == v / 2 + t;
    if k > 0 {
      DigitsBelowUnchanged(v / 2, m, n - 1, k - 1);
    }
  }

  /** Above the low `n` digits, `a + b * 2^n` has the digits of `b`. */
  lemma {:induction false} DigitsAboveShift(a: nat, b: nat, n: nat, k: nat)
    requires a < Pow2(n) && n <= k
    ensures Digit(a + b * Pow2(n), k) == Digit(b, k - n)
    decreases n
  {
    if n > 0 {
      var t := a / 2 + b * Pow2(n - 1);
      assert b * Pow2(n) == 2 * (b * Pow2(n - 1));
      assert a + b * Pow2(n) == a % 2 + 2 * t;
      DigitOfShifted(a % 2, t, k);
      DigitsAboveShift(a / 2, b, n - 1, k - 1);
    }
  }
}
