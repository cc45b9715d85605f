/** Shared building blocks: an Option and a Result for the error paths that the
    C++ code signals by exceptions, and C++ integer division, which truncates
    toward zero where Dafny's `/` and `%` are Euclidean. */
module Base {

  datatype Option<+T> = None | Some(value: T)

  datatype Result<+T, +E> = Ok(value: T) | Err(error: E)

  function Abs(x: int): nat
  {
    if x < 0 then -x else x
  }

  /** C++ `a / b` on integers: the quotient truncated toward zero. */
  function TruncDiv(a: int, b: int): (q: int)
    requires b != 0
    ensures Abs(q) * Abs(b) <= Abs(a) < (Abs(q) + 1) * Abs(b)
    ensures q != 0 ==> (q < 0 <==> (a < 0) != (b < 0))
  {
    var m := Abs(a) / Abs(b);
    DivBounds(Abs(a), Abs(b));
    if (a < 0) != (b < 0) then -m else m
  }

  lemma DivBounds(n: nat, d: nat)
    requires d > 0
    ensures (n / d) * d <= n < (n / d + 1) * d
  {
    assert n == (n / d) * d + n % d;
  }

  /** C++ `a % b` on integers: the remainder has the sign of `a`. */
  function TruncRem(a: int, b: int): (r: int)
    requires b != 0
    ensures a == TruncDiv(a, b) * b + r
    ensures Abs(r) < Abs(b)
    ensures r != 0 ==> (r < 0 <==> a < 0)
  {
    TruncRemBounds(a, b);
    a - TruncDiv(a, b) * b
  }

  lemma TruncRemBounds(a: int, b: int)
    requires b != 0
    ensures Abs(a - TruncDiv(a, b) * b) < Abs(b)
    ensures a - TruncDiv(a, b) * b != 0 ==> (a - TruncDiv(a, b) * b < 0 <==> a < 0)
  {
    var q := TruncDiv(a, b);
    TruncProduct(a, b, q);
    assert (Abs(q) + 1) * Abs(b) == Abs(q) * Abs(b) + Abs(b);
  }

  lemma TruncProduct(a: int, b: int, q: int)
    requires b != 0 && q == TruncDiv(a, b)
    ensures Abs(a - q * b) == Abs(a) - Abs(q) * Abs(b)
    ensures a != 0 && a - q * b != 0 ==> ((a - q * b < 0) <==> a < 0)
  {
    var m := Abs(a) / Abs(b);
    if q != 0 {
      if (a < 0) != (b < 0) {
        assert q == -m;
      } else {
        assert q == m;
      }
      assert q * b == (if a < 0 then -(m * Abs(b)) else m * Abs(b));
    }
  }

  /** Conversion of a wider integer to a 32-bit C++ `int`: the one value in
      `[-2^31, 2^31)` that agrees with `x` modulo 2^32 (the two's-complement
      wrap-around of the compilers the program targets). A value that already
      fits is kept. */
  function Int32Of(x: int): (n: int)
    ensures -0x8000_0000 <= n < 0x8000_0000
    ensures (n - x) % 0x1_0000_0000 == 0
    ensures -0x8000_0000 <= x < 0x8000_0000 ==> n == x
  {
    var shifted := x + 0x8000_0000;
    assert shifted == 0x1_0000_0000 * (shifted / 0x1_0000_0000) + shifted % 0x1_0000_0000;
    shifted % 0x1_0000_0000 - 0x8000_0000
  }

  /** On non-negative operands the C++ operators agree with Dafny's. */
  lemma TruncMatchesEuclid(a: int, b: int)
    requires a >= 0 && b > 0
    ensures TruncDiv(a, b) == a / b && TruncRem(a, b) == a % b
  {
  }

  /** Sequence concatenation regroups; stated once so that proofs about logs
      need not rediscover it. */
  lemma ConcatAssoc<T>(a: seq<T>, b: seq<T>, c: seq<T>)
    ensures (a + b) + c == a + (b + c)
  {
  }
}
