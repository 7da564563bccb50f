/** Shared value types: optional values, results with an error case, and bytes. */
module Prelude {

  datatype Option<+T> = None | Some(value: T)

  datatype Result<+T, +E> = Ok(value: T) | Err(error: E)

  type Byte = b: int | 0 <= b < 256

  type Buffer = seq<Byte>

  function Min(a: int, b: int): int {
    if a < b then a else b
  }

  function Max(a: int, b: int): int {
    if a > b then a else b
  }
}

/** Facts of nonlinear arithmetic, each stated once. */
module Arithmetic {

  lemma MulMono(a: int, b: int, k: int)
    requires a <= b && k >= 0
    ensures a * k <= b * k
  {
  }

  lemma MulStrict(a: int, b: int, k: int)
    requires a < b && k > 0
    ensures a * k + k <= b * k
  {
    MulMono(a + 1, b, k);
    assert (a + 1) * k == a * k + k;
  }

  lemma MulDistrib(a: int, b: int, k: int)
    ensures (a + b) * k == a * k + b * k
    ensures (a - b) * k == a * k - b * k
  {
  }

  lemma DivModUnique(a: int, d: int, q: int, r: int)
    requires d > 0 && 0 <= r < d && a == q * d + r
    ensures a / d == q && a % d == r
  {
    var q', r' := a / d, a % d;
    assert a == q' * d + r';
    if q' < q {
      MulStrict(q', q, d);
    } else if q < q' {
      MulStrict(q, q', d);
    }
  }

  lemma QuotientBounds(a: int, d: int, least: int, most: int)
    requires d > 0 && d * least <= a <= d * most
    ensures least <= a / d <= most
  {
    var q := a / d;
    assert a == q * d + a % d;
    if q < least {
      MulStrict(q, least, d);
    } else if most < q {
      MulStrict(most, q, d);
    }
  }
}
