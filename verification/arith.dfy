/**
  Mixed-radix arithmetic facts used by the index computations: a pair
  (hi, lo) with lo < base packed as hi * base + lo can be unpacked again
  with / and %, and the packed value stays below n * base when hi < n.
 */
module Arith {

  /** Unsigned integer division, as the source's unsigned int arithmetic does it. */
  function Quot(a: nat, b: nat): nat
    requires b > 0
  {
    a / b
  }

  lemma MulMono(a: int, b: int, c: nat)
    requires a <= b
    ensures a * c <= b * c
  {
  }

  /** Quotient and remainder are unique. */
  lemma DivModUnique(x: int, base: int, q: int, r: int)
    requires 0 <= r < base
    requires x == q * base + r
    ensures x / base == q
    ensures x % base == r
  {
    var q' := x / base;
    if q' > q {
      MulMono(q + 1, q', base);
    } else if q' < q {
      MulMono(q' + 1, q, base);
    }
  }

  lemma PackBound(hi: nat, lo: nat, base: nat, n: nat)
    requires lo < base
    requires hi < n
    ensures hi * base + lo < n * base
  {
    MulMono(hi + 1, n, base);
  }

  lemma UnpackBound(x: nat, base: nat, n: nat)
    requires 0 < base
    requires x < n * base
    ensures x / base < n
  {
    var q := x / base;
    if q >= n {
      MulMono(n, q, base);
    }
  }
}
