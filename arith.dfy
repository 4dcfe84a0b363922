/** Index arithmetic shared by the padder and the macroblock packer: unique
    division, bounds of row/column addressing, and the product of a
    dimension vector. */
module Arith {

  /** Division and remainder by a positive divisor are fixed by any
      decomposition x == q*d + r with 0 <= r < d. */
  lemma DivModOf(q: int, r: int, d: int)
    requires d > 0 && 0 <= r < d
    ensures (q * d + r) / d == q
    ensures (q * d + r) % d == r
  {
    var x := q * d + r;
    var q', r' := x / d, x % d;
    assert x == q' * d + r';
    assert (q' - q) * d == r - r';
    if q' > q {
      MulAtLeast(q' - q, d);
    } else if q' < q {
      MulAtLeast(q - q', d);
    }
  }

  lemma MulAtLeast(a: int, d: int)
    requires a >= 1 && d > 0
    ensures a * d >= d
  {
    assert a * d == (a - 1) * d + d;
    MulNonNegative(a - 1, d);
  }

  lemma MulNonNegative(a: int, b: int)
    requires a >= 0 && b >= 0
    ensures a * b >= 0
  {
  }

  lemma MulMonotone(a: int, a': int, b: int)
    requires a <= a' && b >= 0
    ensures a * b <= a' * b
  {
    assert a' * b - a * b == (a' - a) * b;
    MulNonNegative(a' - a, b);
  }

  /** Line `a` of `len` elements, position `b` within it, lies inside a
      buffer of `lines` such lines. */
  lemma CellInBounds(a: int, b: int, lines: int, len: int)
    requires 0 <= a < lines && 0 <= b < len
    ensures 0 <= a * len + b < lines * len
  {
    MulNonNegative(a, len);
    MulMonotone(a + 1, lines, len);
    assert (a + 1) * len == a * len + len;
  }

  /** A flat index below lines*len splits into a line below `lines`. */
  lemma LineBelow(x: int, lines: int, len: int)
    requires len > 0 && 0 <= x < lines * len
    ensures 0 <= x / len < lines
    ensures 0 <= x % len < len
  {
    var q := x / len;
    assert x == q * len + x % len;
    if q < 0 {
      MulMonotone(q, -1, len);
    }
    if q >= lines {
      MulMonotone(lines, q, len);
    }
  }

  /** Product of the entries of an R `dim` attribute: the number of elements. */
  function Product(dims: seq<nat>): nat
  {
    if dims == [] then 1 else dims[0] * Product(dims[1..])
  }

  lemma Product3(dims: seq<nat>)
    requires |dims| == 3
    ensures Product(dims) == dims[0] * (dims[1] * dims[2])
  {
    assert dims[1..][1..] == [dims[2]];
    assert dims[1..][1..][1..] == [];
    assert Product(dims[1..][1..]) == dims[2];
    assert Product(dims[1..]) == dims[1] * dims[2];
  }
}
