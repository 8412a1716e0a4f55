/** The growth factor of a dynamic array, kept as an exact ratio `num / den`
    instead of a floating-point number. */
module Growth {

  type Positive = n: int | n > 0 witness 1

  datatype Factor = Factor(num: int, den: Positive)

  /** The factor 1.0. */
  const One := Factor(1, 1)

  /** The default factor 2.0 of `empty` and `from_list`. */
  const Default := Factor(2, 1)

  /** `f > g` as rationals. */
  predicate Greater(f: Factor, g: Factor) {
    f.num * g.den > g.num * f.den
  }

  /** A factor as the constructor leaves it: exactly `One`, or strictly above 1. */
  predicate Normal(f: Factor) {
    f == One || f.num > f.den
  }

  /** `max(1.0, growth_factor)`: keeps `f` only when it exceeds 1.0. */
  function Clamp(f: Factor): (r: Factor)
    ensures Normal(r) && !Greater(One, r)
    ensures Normal(f) ==> r == f
    ensures Greater(f, One) ==> r == f
    ensures !Greater(f, One) ==> r == One
  {
    if Greater(f, One) then f else One
  }

  /** `max(f, g)` as Python computes it: `g` only when it is strictly larger. */
  function Max(f: Factor, g: Factor): (r: Factor)
    ensures r == f || r == g
    ensures !Greater(f, r) && !Greater(g, r)
    ensures Normal(f) && Normal(g) ==> Normal(r)
  {
    if Greater(g, f) then g else f
  }

  /** `int(n * f)`: the product rounded toward zero, which is the floor here.
      Since `n * num / den == n + n * (num - den) / den` and `n` is whole, the
      floor is `n` plus the floor of the excess; `ScaleIsFloor` proves the two agree. */
  function Scale(n: nat, f: Factor): (r: nat)
    requires Normal(f)
    ensures r >= n
  {
    assert n * (f.num - f.den) >= 0;
    n + (n * (f.num - f.den)) / f.den
  }

  /** `Scale` is the floor of the exact product `n * num / den`. */
  lemma ScaleIsFloor(n: nat, f: Factor)
    requires Normal(f)
    ensures Scale(n, f) == (n * f.num) / f.den
  {
    var excess := n * (f.num - f.den);
    var q, rem := excess / f.den, excess % f.den;
    assert excess == q * f.den + rem;
    assert n * f.num == n * f.den + excess;
    assert n * f.num == (n + q) * f.den + rem;
    DivUnique(n * f.num, f.den, n + q, rem);
  }

  /** Euclidean division has exactly one quotient for a remainder in `[0, d)`. */
  lemma DivUnique(a: int, d: int, q: int, rem: int)
    requires d > 0 && 0 <= rem < d && a == q * d + rem
    ensures a / d == q
  {
    var q' := a / d;
    assert a == q' * d + a % d;
    if q' < q {
      MulMonotone(q' + 1, q, d);
    } else if q' > q {
      MulMonotone(q + 1, q', d);
    }
  }

  lemma MulMonotone(x: int, y: int, d: nat)
    requires x <= y
    ensures x * d <= y * d
  {
    assert y * d - x * d == (y - x) * d;
  }

  /** Growth by exactly one slot per overflow when the factor is 1.0. */
  lemma ScaleByOne(n: nat)
    ensures Scale(n, One) == n
  {
  }

  /** Doubling under the default factor. */
  lemma ScaleByDefault(n: nat)
    ensures Scale(n, Default) == 2 * n
  {
  }
}
