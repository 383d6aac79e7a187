/** Fixed-width integer arithmetic of the Windows C++ program: `unsigned` and
    `DWORD` are 32-bit and wrap around, `int` division truncates toward zero. */
module NativeInt {

  const TwoTo32: int := 0x1_0000_0000
  const TwoTo31: int := 0x8000_0000

  /** `unsigned` / `DWORD` */
  type U32 = n: int | 0 <= n < 0x1_0000_0000

  /** `int` */
  type I32 = n: int | -0x8000_0000 <= n < 0x8000_0000

  /** `a + b` on `unsigned`: wraps modulo 2^32. */
  function AddU32(a: U32, b: U32): (r: U32)
    ensures a + b < TwoTo32 ==> r == a + b
    ensures a + b >= TwoTo32 ==> r == a + b - TwoTo32 && r < a
  {
    if a + b < TwoTo32 then a + b else a + b - TwoTo32
  }

  /** `a * b` on `unsigned`: wraps modulo 2^32. */
  function MulU32(a: U32, b: U32): (r: U32)
    ensures a * b < TwoTo32 ==> r == a * b
    ensures (r - a * b) % TwoTo32 == 0
  {
    var p := a * b;
    if p < TwoTo32 then p else
      assert p == p / TwoTo32 * TwoTo32 + p % TwoTo32;
      p % TwoTo32
  }

  /** `(int)d` for a `DWORD` d: two's-complement reinterpretation. */
  function Int32Of(d: U32): (r: I32)
    ensures d < TwoTo31 ==> r == d
    ensures d >= TwoTo31 ==> r < 0 && r + TwoTo32 == d
  {
    if d < TwoTo31 then d else d - TwoTo32
  }

  /** `-v` on `int`: the two's-complement negation, the one `int` that adds
      to v to a multiple of 2^32; it is -v whenever -v is an `int`. */
  function NegI32(v: I32): (r: I32)
    ensures (r + v) % TwoTo32 == 0
    ensures -(v as int) < TwoTo31 ==> r == -(v as int)
  {
    if v == -TwoTo31 then v else -v
  }

  /** `(DWORD)v` for any integer v, in particular a `size_t` difference:
      keeps the low 32 bits. */
  function TruncU32(v: int): (r: U32)
    ensures 0 <= v < TwoTo32 ==> r == v
    ensures (r - v) % TwoTo32 == 0
  {
    v % TwoTo32
  }

  /** C++ `a / b` on `int` with b > 0: the quotient truncated toward zero
      (Dafny's own `/` is Euclidean and rounds negative quotients down). */
  function DivTrunc(a: int, b: int): (q: int)
    requires b > 0
    ensures a >= 0 ==> 0 <= q && q * b <= a < (q + 1) * b
    ensures a < 0 ==> q <= 0 && (q - 1) * b < a <= q * b
  {
    if a >= 0 then
      DivBounds(a, b);
      a / b
    else
      DivBounds(-a, b);
      assert (-((-a) / b) - 1) * b == -(((-a) / b + 1) * b);
      -((-a) / b)
  }

  /** Euclidean division of a natural number brackets it between two
      consecutive multiples of the divisor. */
  lemma DivBounds(n: nat, b: int)
    requires b > 0
    ensures 0 <= n / b && n / b * b <= n < (n / b + 1) * b
  {
    assert n == n / b * b + n % b;
    assert (n / b + 1) * b == n / b * b + b;
  }

  /** Truncating division is monotone in the dividend. */
  lemma {:induction false} DivTruncMonotone(a1: int, a2: int, b: int)
    requires b > 0 && a1 <= a2
    ensures DivTrunc(a1, b) <= DivTrunc(a2, b)
  {
    var q1, q2 := DivTrunc(a1, b), DivTrunc(a2, b);
    if a1 >= 0 {
      LessTimes(q1, q2 + 1, b);
    } else if a2 < 0 {
      LessTimes(q1 - 1, q2, b);
    }
  }

  /** Cancelling a positive factor from a strict inequality. */
  lemma LessTimes(x: int, y: int, b: int)
    requires b > 0 && x * b < y * b
    ensures x < y
  {
    assert y * b - x * b == (y - x) * b;
  }
}
