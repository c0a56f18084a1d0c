/** 64-bit signed arithmetic, written out. */
module Int64 {
  const INT64_MAX := 0x7FFF_FFFF_FFFF_FFFF
  const INT64_MIN := -0x8000_0000_0000_0000
  const TWO_64 := 0x1_0000_0000_0000_0000

  predicate InInt64(x: int) {
    INT64_MIN <= x <= INT64_MAX
  }

  /** Two's-complement wrap-around. */
  function Wrap64(x: int): (r: int)
    ensures InInt64(r) && (InInt64(x) ==> r == x) && (r - x) % TWO_64 == 0
  {
    (x - INT64_MIN) % TWO_64 + INT64_MIN
  }

  /** Only what a factor is modulo 2^64 matters. */
  lemma WrapFactor(a: int, b: int)
    ensures Wrap64(Wrap64(a) * b) == Wrap64(a * b)
  {
    var q := (a - INT64_MIN) / TWO_64;
    assert a == Wrap64(a) + q * TWO_64;
    assert a * b == Wrap64(a) * b + q * b * TWO_64;
    WrapTurns(Wrap64(a) * b, q * b);
  }

  lemma WrapTurns(x: int, n: int)
    ensures Wrap64(x + n * TWO_64) == Wrap64(x)
  {
  }

  /** __builtin_mul_overflow, negated. */
  function MulOk(a: int, b: int): (r: (bool, int))
    ensures r.0 <==> InInt64(a * b)
    ensures r.0 ==> r.1 == a * b
  {
    (InInt64(a * b), Wrap64(a * b))
  }

  /** __builtin_add_overflow, negated. */
  function AddOk(a: int, b: int): (r: (bool, int))
    ensures r.0 <==> InInt64(a + b)
    ensures r.0 ==> r.1 == a + b
  {
    (InInt64(a + b), Wrap64(a + b))
  }

  /** C++ integer division truncates toward zero. */
  function TruncDiv(a: int, b: int): (q: int)
    requires b > 0
    ensures a >= 0 ==> q * b <= a < (q + 1) * b
    ensures a <= 0 ==> (q - 1) * b < a <= q * b
  {
    if a >= 0 then a / b else -((-a) / b)
  }
}
