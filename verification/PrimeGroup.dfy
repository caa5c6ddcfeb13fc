/** A cyclic group with a generator, and the x-only projection of its points, as secp256k1 provides them. */
module PrimeGroup {
  /** `x` and `odd` stand for a point's coordinate and the parity of its other one; both are meaningless at `zero`. */
  datatype Curve<!P> = Curve(add: (P, P) -> P, neg: P -> P, zero: P, g: P, order: nat, x: P -> nat, odd: P -> bool)

  /** The group laws, the exact order of the generator, and that opposite points share `x` and differ in parity. */
  ghost predicate Laws<P(!new)>(c: Curve<P>) {
    && (forall p, q, r :: c.add(c.add(p, q), r) == c.add(p, c.add(q, r)))
    && (forall p, q :: c.add(p, q) == c.add(q, p))
    && (forall p :: c.add(p, c.zero) == p)
    && (forall p :: c.add(p, c.neg(p)) == c.zero)
    && c.order > 2
    && Mul(c, c.order, c.g) == c.zero
    && (forall k: nat | 0 < k < c.order :: Mul(c, k, c.g) != c.zero)
    && (forall p, q | p != c.zero && q != c.zero :: c.x(p) == c.x(q) <==> p == q || p == c.neg(q))
    && (forall p | p != c.zero :: c.odd(c.neg(p)) != c.odd(p))
  }

  ghost function Mul<P>(c: Curve<P>, k: nat, p: P): P {
    if k == 0 then c.zero else c.add(p, Mul(c, k - 1, p))
  }

  lemma Associates<P(!new)>(c: Curve<P>, p: P, q: P, r: P)
    requires Laws(c)
    ensures c.add(c.add(p, q), r) == c.add(p, c.add(q, r))
  {
  }

  lemma Commutes<P(!new)>(c: Curve<P>, p: P, q: P)
    requires Laws(c)
    ensures c.add(p, q) == c.add(q, p)
  {
  }

  lemma Zero<P(!new)>(c: Curve<P>, p: P)
    requires Laws(c)
    ensures c.add(p, c.zero) == p && c.add(c.zero, p) == p
  {
    Commutes(c, p, c.zero);
  }

  lemma Inverse<P(!new)>(c: Curve<P>, p: P)
    requires Laws(c)
    ensures c.add(p, c.neg(p)) == c.zero
  {
  }

  lemma Order<P(!new)>(c: Curve<P>)
    requires Laws(c)
    ensures c.order > 2 && Mul(c, c.order, c.g) == c.zero
  {
  }

  lemma NotZero<P(!new)>(c: Curve<P>, k: nat)
    requires Laws(c) && 0 < k < c.order
    ensures Mul(c, k, c.g) != c.zero
  {
  }

  /** The other point with a given sum of zero is the negative. */
  lemma NegUnique<P(!new)>(c: Curve<P>, p: P, q: P)
    requires Laws(c) && c.add(p, q) == c.zero
    ensures q == c.neg(p)
  {
    hide Laws;
    Zero(c, q);
    Inverse(c, p);
    Commutes(c, c.neg(p), p);
    Associates(c, c.neg(p), p, q);
    Zero(c, c.neg(p));
  }

  lemma NegNotZero<P(!new)>(c: Curve<P>, p: P)
    requires Laws(c) && p != c.zero
    ensures c.neg(p) != c.zero
  {
    hide Laws;
    Inverse(c, p);
    Zero(c, p);
  }

  lemma Opposite<P(!new)>(c: Curve<P>, p: P)
    requires Laws(c) && p != c.zero
    ensures c.x(c.neg(p)) == c.x(p) && c.odd(c.neg(p)) != c.odd(p)
  {
    NegNotZero(c, p);
    assert c.x(c.neg(p)) == c.x(p) <==> c.neg(p) == p || c.neg(p) == c.neg(p);
  }

  lemma {:induction false} MulSum<P(!new)>(c: Curve<P>, a: nat, b: nat, p: P)
    requires Laws(c)
    ensures Mul(c, a + b, p) == c.add(Mul(c, a, p), Mul(c, b, p))
  {
    hide Laws;
    if a == 0 {
      Zero(c, Mul(c, b, p));
    } else {
      MulSum(c, a - 1, b, p);
      Associates(c, p, Mul(c, a - 1, p), Mul(c, b, p));
    }
  }

  lemma {:induction false} MulMod<P(!new)>(c: Curve<P>, k: nat)
    requires Laws(c) && c.order > 0
    ensures Mul(c, k % c.order, c.g) == Mul(c, k, c.g)
  {
    hide Laws, Mul;
    if k >= c.order {
      var rest := k - c.order;
      MulMod(c, rest);
      ModDrops(k, c.order);
      MulSum(c, c.order, rest, c.g);
      Order(c);
      Zero(c, Mul(c, rest, c.g));
    }
  }

  lemma {:induction false} ModDrops(k: nat, n: nat)
    requires n > 0 && k >= n
    ensures k % n == (k - n) % n
  {
    var q, r := (k - n) / n, (k - n) % n;
    assert k - n == n * q + r;
    assert n * (q + 1) == n * q + n;
    ModIs(k, n, q + 1, r);
  }

  lemma {:induction false} ModIs(k: nat, n: nat, q: int, r: nat)
    requires r < n && k == n * q + r
    ensures k % n == r
  {
    var d := k / n - q;
    assert n * (k / n) + k % n == n * q + r;
    assert n * d == r - k % n by {
      Distributes(n, k / n, q);
    }
    OnlyZeroMultiple(n, d);
  }

  lemma Distributes(n: int, a: int, b: int)
    ensures n * (a - b) == n * a - n * b
  {
  }

  lemma AtLeast(n: nat, d: int)
    requires d >= 1
    ensures n * d >= n
  {
  }

  lemma NegProduct(n: int, d: int)
    ensures n * -d == -(n * d)
  {
  }

  lemma OnlyZeroMultiple(n: int, d: int)
    requires 0 < n && -n < n * d < n
    ensures n * d == 0
  {
    NegProduct(n, d);
    if d >= 1 {
      AtLeast(n, d);
    } else if d <= -1 {
      AtLeast(n, -d);
    }
  }

  lemma MulNeg<P(!new)>(c: Curve<P>, k: nat)
    requires Laws(c) && k <= c.order
    ensures Mul(c, c.order - k, c.g) == c.neg(Mul(c, k, c.g))
  {
    hide Laws, Mul;
    MulSum(c, k, c.order - k, c.g);
    Order(c);
    NegUnique(c, Mul(c, k, c.g), Mul(c, c.order - k, c.g));
  }

  lemma {:induction false} MulTimes<P(!new)>(c: Curve<P>, e: nat, d: nat)
    requires Laws(c)
    ensures Mul(c, e * d, c.g) == Mul(c, e, Mul(c, d, c.g))
  {
    hide Laws;
    if e > 0 {
      MulTimes(c, e - 1, d);
      assert e * d == d + (e - 1) * d;
      MulSum(c, d, (e - 1) * d, c.g);
    }
  }

  /** The even point of the pair that `p` belongs to. */
  ghost function Even<P>(c: Curve<P>, p: P): P {
    if c.odd(p) then c.neg(p) else p
  }

  lemma EvenIs<P(!new)>(c: Curve<P>, p: P)
    requires Laws(c) && p != c.zero
    ensures Even(c, p) != c.zero && !c.odd(Even(c, p)) && c.x(Even(c, p)) == c.x(p)
  {
    NegNotZero(c, p);
    Opposite(c, p);
  }

  /** The scalar whose point is even: `d`, or its negative. */
  ghost function EvenScalar<P>(c: Curve<P>, d: nat): nat
    requires d <= c.order
  {
    if c.odd(Mul(c, d, c.g)) then c.order - d else d
  }

  lemma EvenScalarIs<P(!new)>(c: Curve<P>, d: nat)
    requires Laws(c) && 0 < d < c.order
    ensures 0 < EvenScalar(c, d) < c.order && Mul(c, EvenScalar(c, d), c.g) == Even(c, Mul(c, d, c.g))
  {
    hide Laws, Mul;
    MulNeg(c, d);
  }

  /** `d` and its negative have the same even scalar. */
  lemma EvenScalarOfNegative<P(!new)>(c: Curve<P>, d: nat)
    requires Laws(c) && 0 < d < c.order
    ensures EvenScalar(c, c.order - d) == EvenScalar(c, d)
  {
    hide Laws, Mul;
    MulNeg(c, d);
    NotZero(c, d);
    Opposite(c, Mul(c, d, c.g));
  }

  // ----- the laws can be met

  type Residue = k: nat | k < 5

  function AddFive(p: Residue, q: Residue): Residue {
    if p as int + q < 5 then p as int + q else p as int + q - 5
  }

  function NegFive(p: Residue): Residue {
    if p == 0 then 0 else 5 - p
  }

  const FIVE: Curve<Residue> := Curve(AddFive, NegFive, 0, 1, 5, p => if p <= 2 then p else 5 - p, p => p % 2 == 1)

  lemma {:induction false} MulInFive(k: nat)
    requires k <= 5
    ensures Mul(FIVE, k, 1) == k % 5
  {
    if k > 0 {
      MulInFive(k - 1);
    }
  }

  /** The laws are not contradictory: the residues modulo five satisfy them. */
  lemma {:induction false} LawsHaveModel()
    ensures Laws(FIVE)
  {
    hide Mul;
    MulInFive(5);
    forall k: nat | 0 < k < 5 ensures Mul(FIVE, k, 1) != 0 {
      MulInFive(k);
    }
    assert forall p, q, r :: FIVE.add(FIVE.add(p, q), r) == FIVE.add(p, FIVE.add(q, r));
    assert forall p, q | p != 0 && q != 0 :: FIVE.x(p) == FIVE.x(q) <==> p == q || p == FIVE.neg(q);
  }
}
