/** Small facts of non-linear integer arithmetic that the solver does not find on its own. */
module Arith {

  /** Multiplying by a natural number is monotonic. */
  lemma MulMono(a: int, c: int, m: nat)
    requires a <= c
    ensures a * m <= c * m
  {
    assert c * m - a * m == (c - a) * m;
  }

  /** Euclidean division splits a natural number into quotient and remainder. */
  lemma DivMod(v: nat, b: nat)
    requires b > 0
    ensures (v / b) * b + v % b == v
    ensures 0 <= v / b && v % b < b
  {
  }

  /** Dividing a positive number by a base of at least two makes it smaller. */
  lemma DivShrinks(v: nat, b: nat)
    requires v > 0 && b >= 2
    ensures v / b < v
  {
    DivMod(v, b);
    if v / b > 0 {
      MulMono(2, b, v / b);
    }
  }

  /**
    Appending a digit `d` to a numeral made of a prefix of value `x` followed by a part of
    value `y` and weight `p`: the prefix's weight grows from `p` to `q == b * p`.
  */
  lemma ShiftDigit(whole: int, x: int, p: int, y: int, b: int, d: int, part: int, q: int)
    requires whole == (x * p + y) * b + d
    requires part == y * b + d && q == b * p
    ensures whole == x * q + part
  {
    assert (x * p + y) * b == x * p * b + y * b;
    assert x * p * b == x * (b * p);
  }

  /** Regrouping a product of three factors. */
  lemma MulRotate(b: int, x: int, y: int)
    ensures b * (x * y) == x * (b * y)
  {
  }

  /** A quotient by `b` stays below `q` when the dividend stays below `b * q`. */
  lemma DivBelow(v: nat, b: nat, q: nat)
    requires b > 0 && v < b * q
    ensures v / b < q
  {
    assert (v / b) * b <= v;
    if v / b >= q {
      MulMono(q, v / b, b);
      assert false;
    }
  }

  /** Euclidean division recovers quotient and remainder from `h * b + d` with `0 <= d < b`. */
  lemma DivModUnique(h: nat, d: nat, b: nat)
    requires d < b
    ensures (h * b + d) / b == h
    ensures (h * b + d) % b == d
  {
    var v := h * b + d;
    var q, r := v / b, v % b;
    assert v == q * b + r;
    if q < h {
      MulMono(q + 1, h, b);
      assert false;
    } else if q > h {
      MulMono(h + 1, q, b);
      assert false;
    }
  }

  /**
    `n` copies of `w` added up: the offset of row `n` in a table of rows of width `w`.
    The generic contracts state offsets with `Times` rather than `n * w`: the solver
    follows it by unfolding one row at a time, where a product would need non-linear
    reasoning.  TimesIsMul turns it into the product for the concrete widths 9 and 3.
  */
  function Times(n: nat, w: nat): (r: nat)
    ensures w > 0 && n > 0 ==> r >= w
  {
    if n == 0 then 0 else Times(n - 1, w) + w
  }

  /** Repeated addition is multiplication. */
  lemma {:induction false} TimesIsMul(n: nat, w: nat)
    ensures Times(n, w) == n * w
  {
    if n > 0 {
      TimesIsMul(n - 1, w);
      assert (n - 1) * w + w == n * w;
    }
  }

  /** Position `j` of a table of `n` rows of width `w` is column `j % w` of row `j / w`. */
  lemma RowColumn(j: nat, w: nat, n: nat)
    requires w > 0 && j < n * w
    ensures j / w < n && j % w < w
    ensures j == Times(j / w, w) + j % w
  {
    DivMod(j, w);
    TimesIsMul(j / w, w);
    assert n * w == w * n;
    DivBelow(j, w, n);
  }
}
