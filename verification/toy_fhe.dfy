/**
 * The toy additively homomorphic scheme used when no production backend is available,
 * and the backend-selecting tally layer in front of it. Randomness (`randbits`,
 * `randbelow`) is passed in as the value the generator returned.
 */
module ToyFhe {
  import opened ModArith

  datatype PublicKey = PublicKey(n: nat)
  datatype PrivateKey = PrivateKey(n: nat)

  /** Bit width `keygen` uses when called without an argument. */
  const DefaultModulusBits: nat := 31

  function Pow2(k: nat): (r: nat)
    ensures r >= 1
  {
    if k == 0 then 1 else 2 * Pow2(k - 1)
  }

  /**
   * `n = randbits(bits) | 1`, shared by both keys. Setting the low bit makes n odd and
   * keeps the higher bits of the draw, so n stays below 2^bits when bits >= 1;
   * n = 1 is possible.
   */
  function Keygen(bits: nat, draw: nat): (keys: (PublicKey, PrivateKey))
    requires draw < Pow2(bits)
    ensures keys.0.n == keys.1.n
    ensures keys.0.n % 2 == 1 && keys.0.n / 2 == draw / 2
    ensures bits >= 1 ==> keys.0.n < Pow2(bits)
  {
    var n := if draw % 2 == 0 then draw + 1 else draw;
    SetLowBit(bits, draw);
    (PublicKey(n), PrivateKey(n))
  }

  /** `draw | 1` is odd, keeps the bits above the lowest, and stays below 2^bits when bits >= 1. */
  lemma {:induction false} SetLowBit(bits: nat, draw: nat)
    requires draw < Pow2(bits)
    ensures var n := if draw % 2 == 0 then draw + 1 else draw;
      n % 2 == 1 && n / 2 == draw / 2 && (bits >= 1 ==> n < Pow2(bits))
  {
    var q := draw / 2;
    DivMod(draw, 2);
    if draw % 2 == 0 {
      ModUnique(draw + 1, 2, q, 1);
      if bits >= 1 {
        assert Pow2(bits) == 2 * Pow2(bits - 1);
        assert q < Pow2(bits - 1);
      }
    }
  }

  lemma {:induction false} SquarePositive(n: nat)
    requires n >= 1
    ensures n * n >= 1
  {
    MulAtLeast(n, n);
  }

  /**
   * `(value + r*n) mod n^2` with the nonce r in [0, n). The ciphertext is a residue
   * modulo n^2 congruent to the plaintext modulo n.
   */
  function Encrypt(value: int, pk: PublicKey, r: nat): (c: int)
    requires pk.n >= 1 && r < pk.n
    ensures 0 <= c < pk.n * pk.n
    ensures c % pk.n == value % pk.n
  {
    var n := pk.n;
    SquarePositive(n);
    ModOfMultipleModulus(value + r * n, n, n);
    ModAddMultiple(value, r, n);
    (value + r * n) % (n * n)
  }

  /** Homomorphic addition: a residue modulo n^2 congruent to c1 + c2 modulo n. */
  function Add(c1: int, c2: int, pk: PublicKey): (c: int)
    requires pk.n >= 1
    ensures 0 <= c < pk.n * pk.n
    ensures c % pk.n == (c1 + c2) % pk.n
  {
    SquarePositive(pk.n);
    ModOfMultipleModulus(c1 + c2, pk.n, pk.n);
    (c1 + c2) % (pk.n * pk.n)
  }

  /** Decryption `c mod n`: always in [0, n), so a key with n = 1 decrypts everything to 0. */
  function Decrypt(c: int, sk: PrivateKey): (v: int)
    requires sk.n >= 1
    ensures 0 <= v < sk.n
  {
    c % sk.n
  }

  /** Correctness: decryption recovers the plaintext modulo n, for every nonce. */
  lemma {:induction false} DecryptEncrypt(value: int, pk: PublicKey, sk: PrivateKey, r: nat)
    requires pk.n >= 1 && sk.n == pk.n && r < pk.n
    ensures Decrypt(Encrypt(value, pk, r), sk) == value % pk.n
  {
  }

  /** Homomorphism: decrypting a sum is adding the decryptions modulo n. */
  lemma {:induction false} AddHomomorphic(c1: int, c2: int, pk: PublicKey, sk: PrivateKey)
    requires pk.n >= 1 && sk.n == pk.n
    ensures Decrypt(Add(c1, c2, pk), sk) == (Decrypt(c1, sk) + Decrypt(c2, sk)) % pk.n
  {
    ModAdd(c1, c2, pk.n);
  }

  function Sum(vs: seq<int>): int
  {
    if |vs| == 0 then 0 else Sum(vs[..|vs| - 1]) + vs[|vs| - 1]
  }

  /** Encrypts each plaintext with its own nonce. */
  function EncryptEach(vs: seq<int>, rs: seq<nat>, pk: PublicKey): (cs: seq<int>)
    requires pk.n >= 1 && |rs| == |vs|
    requires forall i :: 0 <= i < |rs| ==> rs[i] < pk.n
    ensures |cs| == |vs|
    ensures forall i :: 0 <= i < |cs| ==> cs[i] == Encrypt(vs[i], pk, rs[i])
  {
    seq(|vs|, i requires 0 <= i < |vs| => Encrypt(vs[i], pk, rs[i]))
  }

  /**
   * Running tally as the orchestrator builds it: the first ciphertext as is, each later
   * one folded in with `Add`.
   */
  function Accumulate(cs: seq<int>, pk: PublicKey): int
    requires pk.n >= 1 && |cs| >= 1
  {
    if |cs| == 1 then cs[0] else Add(Accumulate(cs[..|cs| - 1], pk), cs[|cs| - 1], pk)
  }

  /** Folding encryptions of v1..vk decrypts to (v1 + ... + vk) mod n. */
  lemma {:induction false} DecryptAccumulated(vs: seq<int>, rs: seq<nat>, pk: PublicKey, sk: PrivateKey)
    requires pk.n >= 1 && sk.n == pk.n && |vs| >= 1 && |rs| == |vs|
    requires forall i :: 0 <= i < |rs| ==> rs[i] < pk.n
    ensures Decrypt(Accumulate(EncryptEach(vs, rs, pk), pk), sk) == Sum(vs) % pk.n
  {
    var cs := EncryptEach(vs, rs, pk);
    var k := |vs| - 1;
    if k == 0 {
      assert vs == [vs[0]];
      DecryptEncrypt(vs[0], pk, sk, rs[0]);
    } else {
      var front := vs[..k];
      assert EncryptEach(front, rs[..k], pk) == cs[..k];
      DecryptAccumulated(front, rs[..k], pk, sk);
      AddHomomorphic(Accumulate(cs[..k], pk), cs[k], pk, sk);
      DecryptEncrypt(vs[k], pk, sk, rs[k]);
      ModAdd(Sum(front), vs[k], pk.n);
    }
  }

  function Ones(k: nat): (vs: seq<int>)
    ensures |vs| == k
    ensures forall i :: 0 <= i < k ==> vs[i] == 1
  {
    seq(k, _ => 1)
  }

  lemma {:induction false} SumOnes(k: nat)
    ensures Sum(Ones(k)) == k
  {
    if k > 0 {
      assert Ones(k)[..k - 1] == Ones(k - 1);
      SumOnes(k - 1);
    }
  }

  /** k >= 1 homomorphically added encryptions of 1 decrypt to k mod n. */
  lemma {:induction false} CountOfOnes(k: nat, rs: seq<nat>, pk: PublicKey, sk: PrivateKey)
    requires pk.n >= 1 && sk.n == pk.n && k >= 1 && |rs| == k
    requires forall i :: 0 <= i < |rs| ==> rs[i] < pk.n
    ensures Decrypt(Accumulate(EncryptEach(Ones(k), rs, pk), pk), sk) == k % pk.n
  {
    DecryptAccumulated(Ones(k), rs, pk, sk);
    SumOnes(k);
  }

  /**
   * Backend-agnostic tally layer: the production lattice backend when its library
   * loads, the toy scheme (with a fresh key pair) otherwise.
   */
  datatype HomomorphicTally = ToyBackend(pk: PublicKey, sk: PrivateKey) | SealBfvBackend

  /** The identifier recorded alongside every tally and ledger payload. */
  function BackendName(t: HomomorphicTally): string
  {
    if t.ToyBackend? then "toy-fhe" else "seal-bfv-tenseal"
  }

  /** Key material as `keygen` produces it: one modulus n >= 1 shared by both keys. */
  predicate ToyKeyed(t: HomomorphicTally)
  {
    t.ToyBackend? && t.pk.n >= 1 && t.sk.n == t.pk.n
  }

  /**
   * Construction: the production backend is chosen exactly when its library is
   * available; otherwise a toy key pair of the default width is generated from `draw`.
   */
  function NewHomomorphicTally(sealAvailable: bool, draw: nat): (t: HomomorphicTally)
    requires draw < Pow2(DefaultModulusBits)
    ensures t.SealBfvBackend? <==> sealAvailable
    ensures BackendName(t) == (if sealAvailable then "seal-bfv-tenseal" else "toy-fhe")
    ensures !sealAvailable ==> ToyKeyed(t) && t.pk.n % 2 == 1 && t.pk.n < Pow2(DefaultModulusBits)
  {
    if sealAvailable then SealBfvBackend
    else
      var keys := Keygen(DefaultModulusBits, draw);
      ToyBackend(keys.0, keys.1)
  }

  /** `encrypt_scalar` on the toy backend: the toy encryption under the stored public key. */
  function EncryptScalar(t: HomomorphicTally, value: int, r: nat): (c: int)
    requires ToyKeyed(t) && r < t.pk.n
    ensures 0 <= c < t.pk.n * t.pk.n
    ensures c % t.pk.n == value % t.pk.n
  {
    Encrypt(value, t.pk, r)
  }

  /** `add` on the toy backend. */
  function AddScalar(t: HomomorphicTally, c1: int, c2: int): (c: int)
    requires ToyKeyed(t)
    ensures 0 <= c < t.pk.n * t.pk.n
    ensures c % t.pk.n == (c1 + c2) % t.pk.n
  {
    Add(c1, c2, t.pk)
  }

  /** `decrypt_scalar` on the toy backend: the toy decryption under the stored private key. */
  function DecryptScalar(t: HomomorphicTally, c: int): (v: int)
    requires ToyKeyed(t)
    ensures 0 <= v < t.pk.n
    ensures v == c % t.pk.n
  {
    Decrypt(c, t.sk)
  }

  /**
   * The capability contract on the toy backend: adding two encryptions and decrypting
   * gives the sum of the plaintexts modulo n.
   */
  lemma {:induction false} TallyAdditive(t: HomomorphicTally, a: int, b: int, ra: nat, rb: nat)
    requires ToyKeyed(t) && ra < t.pk.n && rb < t.pk.n
    ensures DecryptScalar(t, AddScalar(t, EncryptScalar(t, a, ra), EncryptScalar(t, b, rb))) == (a + b) % t.pk.n
  {
    var n := t.pk.n;
    var ca := EncryptScalar(t, a, ra);
    var cb := EncryptScalar(t, b, rb);
    ModAdd(ca, cb, n);
    ModAdd(a, b, n);
  }
}
