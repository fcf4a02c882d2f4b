/**
 * Toy Schnorr proof of knowledge of a discrete logarithm, made non-interactive by the
 * Fiat-Shamir transform. The group is the multiplicative group modulo the Mersenne
 * prime 2^31 - 1 with generator 5. SHA-256 is not modelled: the caller supplies
 * `DigestInt`, the function from a UTF-8 string to the integer value of its hex digest.
 */
module ToyZkp {
  import opened ModArith

  /** Group modulus, 2^31 - 1. */
  const P: nat := 2147483647
  /** Group generator. */
  const G: nat := 5

  datatype ZKProof = ZKProof(commitment: nat, response: nat)

  /** `int(sha256(s.encode()).hexdigest(), 16)`, left uninterpreted. */
  type DigestInt = string -> nat

  /** Fermat's little theorem for the fixed group, taken as a hypothesis where needed. */
  ghost predicate FermatHolds()
  {
    ModPow(G, P - 1, P) == 1
  }

  function DigitChar(d: nat): char
    requires d < 10
  {
    "0123456789"[d]
  }

  /** Decimal rendering of a natural number, as an f-string interpolation prints it. */
  function Decimal(n: nat): string
  {
    if n < 10 then [DigitChar(n)] else Decimal(n / 10) + [DigitChar(n % 10)]
  }

  /**
   * A fresh secret: `randbelow(p - 2) + 1`, where `draw` is the value randbelow returned.
   * Secrets, like the prover's nonces, lie in [1, p - 2].
   */
  function MakeSecret(draw: nat): (secret: nat)
    requires draw < P - 2
    ensures 1 <= secret <= P - 2
  {
    draw + 1
  }

  /** The public value g^secret mod p; always a residue modulo p. */
  function PublicFromSecret(secret: nat): (public: nat)
    ensures public < P
    ensures public == Pow(G, secret) % P
  {
    ModPow(G, secret, P)
  }

  /** The string hashed for the challenge: "commitment|public|context". */
  function ChallengeMaterial(commitment: nat, public: nat, context: string): string
  {
    Decimal(commitment) + "|" + Decimal(public) + "|" + context
  }

  /** Fiat-Shamir challenge: the digest of the material reduced modulo p - 1. */
  function Challenge(digest: DigestInt, commitment: nat, public: nat, context: string): (c: nat)
    ensures c < P - 1
  {
    digest(ChallengeMaterial(commitment, public, context)) % (P - 1)
  }

  /**
   * Honest prover. `r` is the nonce `randbelow(p - 2) + 1` the prover draws.
   * The commitment is a residue modulo p and the response a residue modulo p - 1.
   */
  function ProveKnowledge(digest: DigestInt, secret: nat, context: string, r: nat): (proof: ZKProof)
    requires 1 <= r <= P - 2
    ensures proof.commitment < P
    ensures proof.response < P - 1
  {
    var t := ModPow(G, r, P);
    var y := PublicFromSecret(secret);
    var c := Challenge(digest, t, y, context);
    ZKProof(t, (r + c * secret) % (P - 1))
  }

  /** Verifier: recomputes the challenge and checks g^s == t * y^c (mod p). */
  function VerifyKnowledge(digest: DigestInt, public: nat, proof: ZKProof, context: string): bool
  {
    var c := Challenge(digest, proof.commitment, public, context);
    ModPow(G, proof.response, P) == (proof.commitment * ModPow(public, c, P)) % P
  }

  /** (g^x mod p)^c = g^(x*c) (mod p). */
  lemma {:induction false} ModPowOfModPow(g: nat, x: nat, c: nat, p: nat)
    requires p >= 1
    ensures ModPow(ModPow(g, x, p), c, p) == Pow(g, x * c) % p
  {
    PowModBase(Pow(g, x), c, p);
    PowMul(g, x, c);
  }

  /** g^a * g^b = g^(a+b) (mod p). */
  lemma {:induction false} ModPowProduct(g: nat, a: nat, b: nat, p: nat)
    requires p >= 1
    ensures (ModPow(g, a, p) * (Pow(g, b) % p)) % p == Pow(g, a + b) % p
  {
    ModMul(Pow(g, a), Pow(g, b), p);
    ModUnique(Pow(g, a) % p, p, 0, Pow(g, a) % p);
    ModUnique(Pow(g, b) % p, p, 0, Pow(g, b) % p);
    PowAdd(g, a, b);
  }

  /** Exponents may be reduced modulo p - 1 when g^(p-1) = 1 (mod p). */
  lemma {:induction false} FermatReduce(g: nat, p: nat, e: nat)
    requires p >= 2
    requires ModPow(g, p - 1, p) == 1
    ensures Pow(g, e) % p == ModPow(g, e % (p - 1), p)
  {
    var s := e % (p - 1);
    var q := e / (p - 1);
    var k := (p - 1) * q;
    DivMod(e, p - 1);
    MulComm(q, p - 1);
    assert e == k + s;
    var gp := Pow(g, p - 1);
    var big := Pow(gp, q);
    var gs := Pow(g, s);
    PowMul(g, p - 1, q);
    PowAdd(g, k, s);
    assert Pow(g, e) == big * gs;
    assert gp % p == 1;
    PowModBase(gp, q, p);
    PowOne(q);
    assert Pow(gp % p, q) == 1;
    ModUnique(1, p, 0, 1);
    assert big % p == 1;
    ModMulLeft(big, gs, p);
  }

  /**
   * The algebra behind completeness, for any modulus p >= 2 and base g with
   * g^(p-1) = 1 (mod p): g^((r + c*x) mod (p-1)) = g^r * (g^x)^c (mod p).
   */
  lemma {:induction false} SchnorrIdentity(g: nat, p: nat, x: nat, r: nat, c: nat)
    requires p >= 2
    requires ModPow(g, p - 1, p) == 1
    ensures ModPow(g, (r + c * x) % (p - 1), p) == (ModPow(g, r, p) * ModPow(ModPow(g, x, p), c, p)) % p
  {
    var xc: nat := x * c;
    var e: nat := r + c * x;
    MulComm(x, c);
    ModPowOfModPow(g, x, c, p);
    ModPowProduct(g, r, xc, p);
    FermatReduce(g, p, e);
  }

  /**
   * Completeness: an honest proof for the secret behind a public value verifies
   * under the same context, whatever the secret, nonce, context and digest.
   */
  lemma {:induction false} Completeness(digest: DigestInt, secret: nat, context: string, r: nat)
    requires 1 <= r <= P - 2
    requires FermatHolds()
    ensures VerifyKnowledge(digest, PublicFromSecret(secret), ProveKnowledge(digest, secret, context, r), context)
  {
    var proof := ProveKnowledge(digest, secret, context, r);
    var y := PublicFromSecret(secret);
    var c := Challenge(digest, proof.commitment, y, context);
    assert proof.response == (r + c * secret) % (P - 1);
    SchnorrIdentity(G, P, secret, r, c);
  }
}
