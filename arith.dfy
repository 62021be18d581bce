/**
  Integer arithmetic shared by the bin and shard computations: minimum and
  maximum, products, and the floor and ceiling of a quotient by a positive
  divisor (Python's `math.floor(x / d)`, `x // d` and `math.ceil(x / d)`).
  Products and quotients are defined by repeated addition so that the
  solver's reasoning about them stays linear; `MulIsProduct` ties `Mul` to
  `*`.
 */
module Arith {

  function Max(a: int, b: int): int
  {
    if a >= b then a else b
  }

  function Min(a: int, b: int): int
  {
    if a <= b then a else b
  }

  /** `k * d`. */
  function Mul(k: int, d: int): int
    decreases if k < 0 then -k else k
  {
    if k == 0 then 0 else if k > 0 then Mul(k - 1, d) + d else Mul(k + 1, d) - d
  }

  lemma {:induction false} MulIsProduct(k: int, d: int)
    ensures Mul(k, d) == k * d
    decreases if k < 0 then -k else k
  {
    if k > 0 {
      MulIsProduct(k - 1, d);
    } else if k < 0 {
      MulIsProduct(k + 1, d);
    }
  }

  lemma {:induction false} MulStep(k: int, d: int)
    ensures Mul(k + 1, d) == Mul(k, d) + d
    decreases if k < 0 then -k else k
  {
    if k < -1 {
      MulStep(k + 1, d);
    }
  }

  /** Multiplying by a positive `d` keeps order, with a gap of at least `d`. */
  lemma {:induction false} MulMono(a: int, b: int, d: int)
    requires a < b && d > 0
    ensures Mul(a, d) + d <= Mul(b, d)
    decreases b - a
  {
    MulStep(a, d);
    if a + 1 < b {
      MulMono(a + 1, b, d);
    }
  }

  /** `math.floor(x / d)` (and `x // d`). */
  function FloorDiv(x: int, d: int): (q: int)
    requires d > 0
    ensures Mul(q, d) <= x < Mul(q, d) + d
    ensures x >= 0 ==> q >= 0
    decreases if x < 0 then d - x else x
  {
    if x < 0 then
      var q := FloorDiv(x + d, d);
      MulStep(q - 1, d);
      q - 1
    else if x < d then 0
    else
      var q := FloorDiv(x - d, d);
      MulStep(q, d);
      q + 1
  }

  /** `math.ceil(x / d)`. */
  function CeilDiv(x: int, d: int): (q: int)
    requires d > 0
    ensures Mul(q, d) - d < x <= Mul(q, d)
  {
    var f := FloorDiv(-x, d);
    MulNeg(f, d);
    -f
  }

  lemma {:induction false} MulNeg(k: int, d: int)
    ensures Mul(-k, d) == -Mul(k, d)
    decreases if k < 0 then -k else k
  {
    if k > 0 {
      MulNeg(k - 1, d);
      MulStep(-k, d);
    } else if k < 0 {
      MulNeg(k + 1, d);
      MulStep(-k - 1, d);
    }
  }

  /** The floor of a quotient is the unique `q` with `q*d <= x < q*d + d`. */
  lemma FloorDivUnique(x: int, d: int, q: int)
    requires d > 0 && Mul(q, d) <= x < Mul(q, d) + d
    ensures FloorDiv(x, d) == q
  {
    var f := FloorDiv(x, d);
    if f < q {
      MulMono(f, q, d);
    } else if f > q {
      MulMono(q, f, d);
    }
  }

  /** The ceiling of a quotient is the unique `q` with `q*d - d < x <= q*d`. */
  lemma CeilDivUnique(x: int, d: int, q: int)
    requires d > 0 && Mul(q, d) - d < x <= Mul(q, d)
    ensures CeilDiv(x, d) == q
  {
    var c := CeilDiv(x, d);
    if c < q {
      MulMono(c, q, d);
    } else if c > q {
      MulMono(q, c, d);
    }
  }
}
