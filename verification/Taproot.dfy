/**
 Taproot key-path signing (crates/avault-core/src/signing.rs) over an abstract group: the tweak of BIP 341 and the
 signatures of BIP 340. Keys, tweaks and digests are the numbers their 32 big-endian bytes stand for.
 */
module Taproot {
  import opened PrimeGroup
  import opened Wrappers

  datatype SignError = InvalidKey | TweakOutOfRange | ZeroSecret | InfinityOutput | SigningFailed | BadOutputKey | BadSignature

  datatype Material = Material(tweakedSecret: nat, outputX: nat)

  datatype Signature = Signature(r: nat, s: nat)

  /** The hashes: of the tweak, of BIP 340's nonce, and of its challenge. */
  datatype Hashes = Hashes(tweak: nat -> nat, nonce: (nat, nat, nat, nat) -> nat, challenge: (nat, nat, nat) -> nat)

  // ----- the code

  ghost function ParsePrivateScalar<P>(c: Curve<P>, key: nat): Result<nat, SignError> {
    if key >= c.order || key == 0 then Err(InvalidKey) else Ok(key)
  }

  /** The scalars add; the output point is computed apart, from the public point and the tweak. */
  ghost function MaterialWithTweak<P>(c: Curve<P>, secret: nat, internal: P, tweak: nat): Result<Material, SignError>
    requires c.order > 0
  {
    if tweak >= c.order then Err(TweakOutOfRange)
    else
      var tweaked := (secret + tweak) % c.order;
      if tweaked == 0 then Err(ZeroSecret)
      else
        var output := c.add(internal, Mul(c, tweak, c.g));
        if output == c.zero then Err(InfinityOutput) else Ok(Material(tweaked, c.x(output)))
  }

  ghost function KeypathMaterial<P>(c: Curve<P>, h: Hashes, key: nat): Result<Material, SignError>
    requires c.order > 0
  {
    match ParsePrivateScalar(c, key)
    case Err(e) => Err(e)
    case Ok(d) =>
      var normalized := if c.odd(Mul(c, d, c.g)) then c.order - d else d;
      var internal := Mul(c, normalized, c.g);
      MaterialWithTweak(c, normalized, internal, h.tweak(c.x(internal)))
  }

  /** BIP 340's nonce, before its point is made even. */
  ghost function NonceOf<P>(c: Curve<P>, h: Hashes, key: nat, digest: nat, aux: nat): nat
    requires 0 < key < c.order
  {
    h.nonce(EvenScalar(c, key), aux, c.x(Mul(c, key, c.g)), digest) % c.order
  }

  /** BIP 340, "Default Signing". */
  ghost function SignSchnorr<P>(c: Curve<P>, h: Hashes, key: nat, digest: nat, aux: nat): Result<Signature, SignError> {
    match ParsePrivateScalar(c, key)
    case Err(e) => Err(e)
    case Ok(d') =>
      var d := EvenScalar(c, d');
      var px := c.x(Mul(c, d', c.g));
      var k' := NonceOf(c, h, d', digest, aux);
      if k' == 0 then Err(SigningFailed)
      else
        var k := EvenScalar(c, k');
        var rx := c.x(Mul(c, k', c.g));
        var e := h.challenge(rx, px, digest) % c.order;
        Ok(Signature(rx, (k + e * d) % c.order))
  }

  /** `p` is the even point with coordinate `x`, BIP 340's lift_x. */
  ghost predicate Lifts<P>(c: Curve<P>, x: nat, p: P) {
    p != c.zero && !c.odd(p) && c.x(p) == x
  }

  /** BIP 340, "Verification", for a key that lifts to `p`. */
  ghost predicate VerifiesAt<P>(c: Curve<P>, h: Hashes, p: P, digest: nat, sig: Signature)
    requires c.order > 0
  {
    var e := h.challenge(sig.r, c.x(p), digest) % c.order;
    var r := c.add(Mul(c, sig.s, c.g), c.neg(Mul(c, e, p)));
    sig.s < c.order && r != c.zero && !c.odd(r) && c.x(r) == sig.r
  }

  ghost predicate Verifies<P(!new)>(c: Curve<P>, h: Hashes, x: nat, digest: nat, sig: Signature)
    requires c.order > 0
  {
    exists p :: Lifts(c, x, p) && VerifiesAt(c, h, p, digest, sig)
  }

  ghost function SignKeypath<P(!new)>(c: Curve<P>, h: Hashes, key: nat, digest: nat, aux: nat): Result<Signature, SignError>
    requires c.order > 0
  {
    match KeypathMaterial(c, h, key)
    case Err(e) => Err(e)
    case Ok(material) =>
      match SignSchnorr(c, h, material.tweakedSecret, digest, aux)
      case Err(e) => Err(e)
      case Ok(sig) =>
        if !exists p :: Lifts(c, material.outputX, p) then Err(BadOutputKey)
        else if !Verifies(c, h, material.outputX, digest, sig) then Err(BadSignature)
        else Ok(sig)
  }

  // ----- the tweak

  /** The two computations agree: the output point is the point of the tweaked secret. */
  lemma {:induction false} TweakAgrees<P(!new)>(c: Curve<P>, secret: nat, tweak: nat)
    requires Laws(c) && c.order > 0
    ensures c.add(Mul(c, secret, c.g), Mul(c, tweak, c.g)) == Mul(c, (secret + tweak) % c.order, c.g)
  {
    hide Laws, Mul;
    MulSum(c, secret, tweak, c.g);
    MulMod(c, secret + tweak);
  }

  /** What BIP 341 asks of a key and its tweak: the internal key is the even point of the key's pair. */
  ghost predicate OutputOf<P>(c: Curve<P>, h: Hashes, key: nat, q: P) {
    var internal := Even(c, Mul(c, key, c.g));
    q == c.add(internal, Mul(c, h.tweak(c.x(internal)), c.g))
  }

  /**
   The material exists exactly for a key in range with a tweak in range and a nonzero sum. Then `output_x` is the
   coordinate of BIP 341's output point, and of the tweaked secret's, whichever parity the key's own point has.
   */
  lemma {:induction false} MaterialExactly<P(!new)>(c: Curve<P>, h: Hashes, key: nat)
    requires Laws(c) && c.order > 0
    ensures var r := KeypathMaterial(c, h, key);
            if !(0 < key < c.order) then r == Err(InvalidKey)
            else
              var d := EvenScalar(c, key);
              var t := h.tweak(c.x(Mul(c, key, c.g)));
              if t >= c.order then r == Err(TweakOutOfRange)
              else if d + t == c.order then r == Err(ZeroSecret)
              else
                && r.Ok? && 0 < r.value.tweakedSecret < c.order
                && OutputOf(c, h, key, Mul(c, r.value.tweakedSecret, c.g))
                && r.value.outputX == c.x(Mul(c, r.value.tweakedSecret, c.g))
  {
    hide Laws, Mul;
    if 0 < key < c.order {
      var p := Mul(c, key, c.g);
      var d := EvenScalar(c, key);
      NotZero(c, key);
      EvenIs(c, p);
      EvenScalarIs(c, key);
      var t := h.tweak(c.x(Mul(c, d, c.g)));
      if t < c.order {
        TweakAgrees(c, d, t);
        SumZero(d, t, c.order);
        if (d + t) % c.order != 0 {
          NotZero(c, (d + t) % c.order);
        }
      }
    }
  }

  lemma SumZero(d: nat, t: nat, n: nat)
    requires 0 < d < n && t < n
    ensures (d + t) % n == 0 <==> d + t == n
  {
    if d + t >= n {
      ModDrops(d + t, n);
    }
  }

  /** The point at infinity is never reached: the earlier check for a zero sum already excludes it. */
  lemma NeverInfinity<P(!new)>(c: Curve<P>, h: Hashes, key: nat)
    requires Laws(c) && c.order > 0
    ensures KeypathMaterial(c, h, key) != Err(InfinityOutput)
  {
    hide Laws, Mul, KeypathMaterial, OutputOf;
    MaterialExactly(c, h, key);
  }

  /** A key and its negative give the same material. */
  lemma NegativeSameMaterial<P(!new)>(c: Curve<P>, h: Hashes, key: nat)
    requires Laws(c) && 0 < key < c.order
    ensures KeypathMaterial(c, h, c.order - key) == KeypathMaterial(c, h, key)
  {
    hide Laws, Mul;
    EvenScalarOfNegative(c, key);
  }

  // ----- the signature

  /** With `d` and `k` the even scalars, subtracting the challenge times the key leaves the nonce point. */
  lemma {:induction false} EquationHolds<P(!new)>(c: Curve<P>, k: nat, e: nat, d: nat)
    requires Laws(c) && c.order > 0
    ensures c.add(Mul(c, (k + e * d) % c.order, c.g), c.neg(Mul(c, e, Mul(c, d, c.g)))) == Mul(c, k, c.g)
  {
    hide Laws, Mul;
    var r, ep := Mul(c, k, c.g), Mul(c, e, Mul(c, d, c.g));
    MulMod(c, k + e * d);
    MulSum(c, k, e * d, c.g);
    MulTimes(c, e, d);
    Associates(c, r, ep, c.neg(ep));
    Inverse(c, ep);
    Zero(c, r);
  }

  /** A signature made with a key verifies under the x-only key of its point. */
  lemma SignatureVerifies<P(!new)>(c: Curve<P>, h: Hashes, key: nat, digest: nat, aux: nat)
    requires Laws(c) && 0 < key < c.order && SignSchnorr(c, h, key, digest, aux).Ok?
    ensures Verifies(c, h, c.x(Mul(c, key, c.g)), digest, SignSchnorr(c, h, key, digest, aux).value)
  {
    hide Laws, Mul;
    var sig := SignSchnorr(c, h, key, digest, aux).value;
    var d, px := EvenScalar(c, key), c.x(Mul(c, key, c.g));
    var k' := NonceOf(c, h, key, digest, aux);
    var k := EvenScalar(c, k');
    var p := Mul(c, d, c.g);
    NotZero(c, key);
    EvenScalarIs(c, key);
    EvenIs(c, Mul(c, key, c.g));
    NotZero(c, k');
    EvenScalarIs(c, k');
    EvenIs(c, Mul(c, k', c.g));
    var e := h.challenge(sig.r, px, digest) % c.order;
    EquationHolds(c, k, e, d);
    assert Lifts(c, px, p) && VerifiesAt(c, h, p, digest, sig);
  }

  /**
   Key-path signing succeeds exactly when there is material and the nonce is not zero. The self-check never fails,
   and what comes back verifies under the Taproot output key.
   */
  lemma {:induction false} KeypathSignsExactly<P(!new)>(c: Curve<P>, h: Hashes, key: nat, digest: nat, aux: nat)
    requires Laws(c) && c.order > 0
    ensures var material, r := KeypathMaterial(c, h, key), SignKeypath(c, h, key, digest, aux);
            if material.Err? then r == Err(material.error)
            else
              && 0 < material.value.tweakedSecret < c.order
              && if NonceOf(c, h, material.value.tweakedSecret, digest, aux) == 0 then r == Err(SigningFailed)
                 else r.Ok? && Verifies(c, h, material.value.outputX, digest, r.value)
  {
    hide Laws, Mul, KeypathMaterial, OutputOf, Verifies;
    MaterialExactly(c, h, key);
    var material := KeypathMaterial(c, h, key);
    if material.Ok? && SignSchnorr(c, h, material.value.tweakedSecret, digest, aux).Ok? {
      SignatureVerifies(c, h, material.value.tweakedSecret, digest, aux);
      VerifiedLifts(c, h, material.value.outputX, digest, SignSchnorr(c, h, material.value.tweakedSecret, digest, aux).value);
    }
  }

  lemma VerifiedLifts<P(!new)>(c: Curve<P>, h: Hashes, x: nat, digest: nat, sig: Signature)
    requires c.order > 0 && Verifies(c, h, x, digest, sig)
    ensures exists p :: Lifts(c, x, p)
  {
    var p :| Lifts(c, x, p) && VerifiesAt(c, h, p, digest, sig);
  }
}
