/** Integer conventions and the failure type shared by the whole decoder model.

    The decoder works on JavaScript numbers that are forced into 32 bits with
    `| 0`, `<<`, `>>` and `>>>`.  Every such value is kept here as its 32-bit
    pattern, an integer in [0, 2^32); `Signed` recovers the int32 a pattern
    stands for when the source compares it as a signed number.
 */
module Base {

  const TWO32: int := 0x1_0000_0000
  const TWO31: int := 0x8000_0000

  type Byte = x: int | 0 <= x < 256

  /** A 32-bit pattern (the value of a JavaScript int32 or uint32 read unsigned) */
  type U32 = x: int | 0 <= x < 0x1_0000_0000

  /** `x | 0`: keep the low 32 bits of an exact integer result */
  function Wrap(x: int): U32 {
    x % TWO32
  }

  /** The int32 that a 32-bit pattern denotes (JavaScript's ToInt32) */
  function Signed(x: U32): (r: int)
    ensures -TWO31 <= r < TWO31
    ensures Wrap(r) == x
    ensures r < 0 <==> x >= TWO31
  {
    if x < TWO31 then x else x - TWO32
  }

  function Pow2(n: nat): (r: nat)
    ensures r >= 1
  {
    if n == 0 then 1 else 2 * Pow2(n - 1)
  }

  lemma Pow2Add(a: nat, b: nat)
    ensures Pow2(a + b) == Pow2(a) * Pow2(b)
  {
    if a > 0 {
      Pow2Add(a - 1, b);
    }
  }

  lemma Pow2Monotone(a: nat, b: nat)
    requires a <= b
    ensures Pow2(a) <= Pow2(b)
  {
    if a < b {
      Pow2Monotone(a, b - 1);
    }
  }

  lemma Pow2Values()
    ensures Pow2(1) == 2 && Pow2(2) == 4 && Pow2(3) == 8 && Pow2(4) == 16 && Pow2(5) == 32
    ensures Pow2(6) == 64 && Pow2(7) == 128 && Pow2(8) == 256
    ensures Pow2(16) == 0x1_0000 && Pow2(32) == TWO32
  {
    assert Pow2(1) == 2 && Pow2(2) == 4 && Pow2(3) == 8 && Pow2(4) == 16;
    assert Pow2(5) == 32 && Pow2(6) == 64 && Pow2(7) == 128;
    Pow2Add(4, 4);
    Pow2Add(8, 8);
    Pow2Add(16, 16);
  }

  /** Multiplication by a natural number is monotone */
  lemma MulLe(a: int, b: int, c: nat)
    requires a <= b
    ensures a * c <= b * c
  {
    if c > 0 {
      MulLe(a, b, c - 1);
    }
  }

  /** `x / 2^(j+1)` is `x / 2^j` halved */
  lemma DivStep(x: nat, j: nat)
    ensures x / Pow2(j + 1) == (x / Pow2(j)) / 2
  {
    var p := Pow2(j);
    var q, r := x / p, x % p;
    var q2, r2 := q / 2, q % 2;
    assert x == q2 * (2 * p) + (r2 * p + r);
    assert 0 <= r2 * p + r < 2 * p;
    DivUnique(x, 2 * p, q2, r2 * p + r);
  }

  lemma DivUnique(x: int, d: int, q: int, r: int)
    requires d > 0 && 0 <= r < d && x == q * d + r
    ensures x / d == q && x % d == r
  {
    var q0 := x / d;
    if q0 < q {
      MulLe(q0 + 1, q, d);
    } else if q0 > q {
      MulLe(q + 1, q0, d);
    }
  }

  /** `x mod 2^j` is `x mod 2^(j+1)` reduced once more */
  lemma ModStep(x: nat, j: nat)
    ensures (x % Pow2(j + 1)) % Pow2(j) == x % Pow2(j)
  {
    var p := Pow2(j);
    var q, r := x / (2 * p), x % (2 * p);
    var q2, r2 := r / p, r % p;
    assert x == (2 * q + q2) * p + r2;
    DivUnique(x, p, 2 * q + q2, r2);
  }

  datatype Option<T> = None | Some(value: T)

  /** The distinct failures the decoder reports (the source throws an Error
      carrying one of these messages, or returns LZMA_RES_ERROR) */
  datatype Error =
    | UnexpectedEndOfFile      // InputStream.readByte past the end
    | IncorrectProperties      // properties byte >= 225
    | DecodingError            // the main loop returned LZMA_RES_ERROR
    | NotComplete              // the main loop returned LZMA_RES_NOT_COMPLETE
    | EndMarkerBeforeSize      // marker found but the output length differs from the declared size
    | InternalError            // any other loop result

  /** Failure-compatible result, so that `:-` propagates a thrown error */
  datatype Result<T> = Ok(value: T) | Err(error: Error) {

    predicate IsFailure() {
      Err?
    }

    function PropagateFailure<U>(): Result<U>
      requires Err?
    {
      Err(error)
    }

    function Extract(): T
      requires Ok?
    {
      value
    }
  }
}
