/**
 Numbers in 32 bits; quotients and remainders of natural numbers and numbers in mixed radix, by
 repeated addition and subtraction: proofs meet multiplication and division only where a lemma brings them in.
 */
module Arith {
  const TWO_32: nat := 0x1_0000_0000

  // A number kept in 32 bits.
  function U32(x: int): nat { x % TWO_32 }

  // A number in mixed radix: quotient q, radix d and digit r.
  function Mix(q: nat, d: nat, r: nat): nat {
    if q == 0 then r else d + Mix(q - 1, d, r)
  }

  // The parts of a number.
  function Quo(x: nat, d: nat): nat
    requires d > 0
  {
    if x < d then 0 else 1 + Quo(x - d, d)
  }

  function Rem(x: nat, d: nat): nat
    requires d > 0
  {
    if x < d then x else Rem(x - d, d)
  }

  lemma {:induction false} MixIs(q: nat, d: nat, r: nat)
    ensures Mix(q, d, r) == q * d + r
  {
    if q > 0 {
      MixIs(q - 1, d, r);
      Distribute(q - 1, 1, d);
    }
  }

  lemma {:induction false} PartsMix(x: nat, d: nat)
    requires d > 0
    ensures Mix(Quo(x, d), d, Rem(x, d)) == x && Rem(x, d) < d
    ensures Quo(x, d) * d + Rem(x, d) == x
  {
    if x >= d {
      PartsMix(x - d, d);
    }
    MixIs(Quo(x, d), d, Rem(x, d));
  }

  lemma PartsAre(x: nat, d: nat)
    requires d > 0
    ensures Quo(x, d) == x / d && Rem(x, d) == x % d
  {
    PartsMix(x, d);
    SameParts(x / d, x % d, Quo(x, d), Rem(x, d), d);
  }

  // Quotient and digit are determined by the number they make.
  lemma SameParts(q: nat, r: nat, q': nat, r': nat, d: nat)
    requires r < d && r' < d && q * d + r == q' * d + r'
    ensures q == q' && r == r'
  {
    if q' < q {
      MulMono(q' + 1, q, d);
      Distribute(q', 1, d);
    } else if q < q' {
      MulMono(q + 1, q', d);
      Distribute(q, 1, d);
    }
  }

  lemma MulMono(a: int, b: int, n: nat)
    requires a <= b
    ensures a * n <= b * n
  {
  }

  lemma Distribute(a: int, b: int, n: int)
    ensures (a + b) * n == a * n + b * n
  {
  }

  /** The parts of a number in mixed radix are those it was made of. */
  lemma MixParts(q: nat, d: nat, r: nat)
    requires r < d
    ensures Quo(Mix(q, d, r), d) == q && Rem(Mix(q, d, r), d) == r
  {
    MixIs(q, d, r);
    PartsMix(Mix(q, d, r), d);
    SameParts(q, r, Quo(Mix(q, d, r), d), Rem(Mix(q, d, r), d), d);
  }

  // A digit below the radix, added to a number below the bound, stays below the product.
  lemma MixBound(q: nat, d: nat, r: nat, a: nat)
    requires q < a && r < d
    ensures Mix(q, d, r) < a * d
  {
    MixIs(q, d, r);
    MulMono(q + 1, a, d);
    Distribute(q, 1, d);
  }

  lemma QuoBound(x: nat, d: nat, a: nat)
    requires d > 0 && x < a * d
    ensures Quo(x, d) < a
  {
    PartsMix(x, d);
    if Quo(x, d) >= a {
      MulMono(a, Quo(x, d), d);
    }
  }

  lemma Associate(a: int, b: int, c: int)
    ensures a * b * c == a * (b * c)
  {
  }

  lemma MixMix(q: nat, b: nat, r: nat, a: nat, t: nat)
    ensures Mix(Mix(q, b, r), a, t) == Mix(q, b * a, Mix(r, a, t))
  {
    hide Mix;
    MixIs(q, b, r);
    MixIs(Mix(q, b, r), a, t);
    MixIs(r, a, t);
    MixIs(q, b * a, Mix(r, a, t));
    Distribute(q * b, r, a);
    Associate(q, b, a);
  }

  lemma ProductPositive(a: nat, b: nat)
    requires 0 < a && 0 < b
    ensures a * b > 0
  {
    MulMono(1, b, a);
  }

  /** Dividing twice is dividing by the product. */
  lemma QuoQuo(k: nat, a: nat, b: nat)
    requires 0 < a && 0 < b
    ensures b * a > 0 && Quo(Quo(k, a), b) == Quo(k, b * a)
  {
    hide Mix, Quo, Rem;
    var q, r, t := Quo(Quo(k, a), b), Rem(Quo(k, a), b), Rem(k, a);
    ProductPositive(b, a);
    PartsMix(k, a);
    PartsMix(Quo(k, a), b);
    MixMix(q, b, r, a, t);
    MixBound(r, a, t, b);
    MixParts(q, b * a, Mix(r, a, t));
  }

  lemma Commute(a: int, b: int)
    ensures a * b == b * a
  {
  }

  /** A quotient from below and from above. */
  lemma QuoBetween(n: nat, x: nat, q: int)
    requires 0 < x
    ensures q * x <= n ==> q <= Quo(n, x)
    ensures n < (q + 1) * x ==> Quo(n, x) <= q
  {
    var d := Quo(n, x);
    PartsMix(n, x);
    if q > d {
      MulMono(d + 1, q, x);
      Distribute(d, 1, x);
    } else if d > q {
      MulMono(q + 1, d, x);
    }
  }
}
