# E-voting integrity and tally engine in Dafny

A model of the vote-integrity and tally engine of a research e-voting pipeline, with proofs. The engine has four parts:

- **The ledger** (`Ledger`, `blockchain.py`). It is a hash-linked, proof-of-work chain of blocks. It starts from a genesis block and appends blocks by a nonce search. It re-validates the links, the recomputed hashes and the work-factor prefix.
- **The authorization proof** (`ToyZkp`, the `ToyZKP` class). It is a Schnorr proof of knowledge of a discrete logarithm, made non-interactive by Fiat-Shamir, modulo p = 2^31 - 1 with g = 5.
- **The toy homomorphic scheme** (`ToyFhe`, the `ToyFHE` class and the toy branch of `HomomorphicTally`). It encrypts as `(v + r*n) mod n^2`, adds as `(c1 + c2) mod n^2` and decrypts as `c mod n`.
- **The orchestrator** (`Pipeline`, `EVotingPipeline`). It covers enrollment state, nullifier derivation, `cast_vote` with its guards, and `decrypt_results`, modelled as pure functions over one immutable state record.

Some things the Python code takes from outside the core become parameters:

- **Hashes.** The three SHA-256 uses become the fields of an `Oracles` value: the block hash over the canonical JSON of the block fields, the Fiat-Shamir digest, and the nullifier digest. Where tamper detection needs the block hash to separate two field sets, the lemma takes as a hypothesis that the hash does not collide on those two (`Ledger.CollisionFree`); no global injectivity is assumed.
- **Randomness and the clock.** The values that `secrets.randbelow`, `randbits` and `token_hex` return, and `time.time()`, are passed in as arguments.
- **Signature and KEM outputs.** The hex outputs of the Dilithium signature and the Kyber encapsulation are passed in as strings (`CastEntropy`).

`blockchain.py`'s mining loop is unbounded. Here it searches nonces below a caller-chosen ceiling and reports `MiningExhausted` when none works. `Ledger.AddBlockSucceeds` shows that a ceiling above any working nonce never fails.

Where the intended behaviour and the code disagree, the model follows the code:

- **Homomorphic addition is modulo n.** The intended property is `decrypt(add(encrypt(a), encrypt(b))) == a + b`. The code gives that sum modulo n, and n = 1 is possible, because `randbits(31) | 1` may be 1. `ToyFhe.TallyAdditive` and the results lemmas therefore speak of counts modulo n.
- **Failures after the tally update.** The intent is that every cast failure happens before any tally, ledger or nullifier state changes. The code updates the encrypted tally (lines 67-72) before it appends the block (line 90). So a failure during the append, which here can only be the bounded search running out, leaves the tally changed. `Pipeline.CastVote` states exactly that.
- **A missing secret.** A voter with a template but no secret passes the nullifier check and then fails on the secret lookup (line 58). This is modelled as `NotEnrolled`, after the double-vote check.

## Model

| member | source | states |
|---|---|---|
| Ledger.HashIgnoresStoredHash | evoting_system/blockchain.py:22-31 | Two blocks that agree on index, previous hash, timestamp, payload and nonce have the same recomputed hash, whatever their stored hash. |
| Ledger.ComputeHash | evoting_system/blockchain.py:22-31 | The digest of the five hashed fields (index, previous hash, timestamp, payload, nonce), never the stored hash. `Ledger.HashIgnoresStoredHash` states the consequence. |
| Ledger.NewChain | evoting_system/blockchain.py:35-38 | A new ledger has exactly one block: index 0, previous hash of 64 zeros, the genesis payload, nonce 0, a hash equal to its recomputation. It validates for any prefix. |
| Ledger.SingleBlockValid | evoting_system/blockchain.py:49-50 | Any one-block ledger validates, because checking starts at index 1 and genesis is never checked. |
| Ledger.FindNonce | evoting_system/blockchain.py:43-45 | The search returns the least nonce in the range whose hash meets the prefix. When it returns nothing, no nonce in the range meets it. |
| Ledger.AddBlock | evoting_system/blockchain.py:40-47 | On success the ledger grows by exactly one block and earlier blocks are unchanged. The new block has the old length as index, links to the old tip's hash and carries the payload. Its stored hash equals its recomputation and starts with the prefix, found with the least working nonce. Failure means no nonce below the ceiling works. |
| Ledger.AddBlockSucceeds | evoting_system/blockchain.py:43-45 | If some nonce below the ceiling meets the work factor, appending cannot fail. |
| Ledger.AddBlockPreservesValidity | evoting_system/blockchain.py:40-59 | If the ledger validated before an append, it validates after it. |
| Ledger.ExtendValid | evoting_system/blockchain.py:50-58 | Appending a block that passes the three checks against the tip keeps a valid ledger valid. |
| Ledger.ValidateChain | evoting_system/blockchain.py:49-59 | Returns true exactly when every block after genesis passes three checks: it links to its predecessor's hash, its stored hash equals its recomputation, and that hash starts with the prefix. It always returns. |
| Ledger.StaleHashDetected | evoting_system/blockchain.py:55-56 | Changing a non-genesis block's hashed fields without updating its stored hash makes validation fail, provided the hash does not collide on the old and new fields. |
| Ledger.RewrittenBlockBreaksLink | evoting_system/blockchain.py:53-54 | Rewriting any non-tip block's fields and recomputing its hash breaks the successor's link, so validation fails, provided the hash does not collide on the old and new fields. |
| Ledger.TamperAttackDetected | attacks/simulate_attacks.py:25-31 | The tamper attack is detected: it changes the payload of a block after genesis and before the tip and recomputes the hash. The only hypothesis on the hash is no collision between the original and the rewritten fields. |
| Ledger.NodeCompromiseDetected | attacks/simulate_attacks.py:77-88 | The node-compromise attack is detected: it rewrites the payload of such a block and re-mines it from nonce 0. The only hypothesis on the hash is no collision between the original fields and the re-mined ones. |
| Ledger.RewrittenTipValidIffMeetsPrefix | evoting_system/blockchain.py:53-58 | Rewriting the tip with a recomputed hash goes undetected exactly when the new hash meets the prefix. A tamper on a three-block ledger hits the tip and is caught only by the prefix check. |
| Ledger.AppendAllPreservesValidity | evoting_system/blockchain.py:40-47 | Any sequence of successful appends keeps a valid ledger valid. |
| Ledger.RemineSuffixRestoresValidity | evoting_system/blockchain.py:40-59 | Dropping the blocks from position i on and re-appending any payloads by mining yields a valid ledger. This is why detection relies on the untouched successors. |
| Ledger.ReplayUndetectedByValidation | attacks/simulate_attacks.py:18-22 | Appending a copy of the tip's payload keeps the ledger structurally valid. If the tip is a vote, the ledger then holds a repeated nullifier. |
| ToyZkp.MakeSecret | evoting_system/crypto_primitives.py:21-22 | A secret drawn as `randbelow(p-2) + 1` lies in [1, p-2]. |
| ToyZkp.PublicFromSecret | evoting_system/crypto_primitives.py:25-26 | The public value is g^secret mod p, a residue below p. |
| ToyZkp.Challenge | evoting_system/crypto_primitives.py:29-32 | The challenge always lies in [0, p-1). |
| ToyZkp.ProveKnowledge | evoting_system/crypto_primitives.py:35-41 | For a nonce in [1, p-2], the commitment is below p and the response below p-1. |
| ToyZkp.VerifyKnowledge | evoting_system/crypto_primitives.py:43-48 | Accepts exactly when g^s ≡ t·y^c (mod p), with c recomputed from t, y and the context. `ToyZkp.Completeness` shows every honest proof is accepted. |
| ToyZkp.SchnorrIdentity | evoting_system/crypto_primitives.py:40-47 | For any modulus with g^(p-1) = 1, g raised to `(r + c*x) mod (p-1)` equals `g^r * (g^x)^c` modulo p. This is the equation the verifier checks. |
| ToyZkp.Completeness | evoting_system/crypto_primitives.py:35-48 | Given Fermat's little theorem, an honest proof for the secret behind a public value verifies under the same context. This holds for every secret, nonce, context and digest function. |
| ToyFhe.Keygen | evoting_system/crypto_primitives.py:65-67 | Both keys hold the same n. That n is odd (so at least 1), keeps the draw's upper bits, and stays below 2^bits when bits >= 1. |
| ToyFhe.Encrypt | evoting_system/crypto_primitives.py:70-72 | A ciphertext lies in [0, n^2) and is congruent to the plaintext modulo n. |
| ToyFhe.Add | evoting_system/crypto_primitives.py:75-76 | A sum ciphertext lies in [0, n^2) and is congruent to c1 + c2 modulo n. |
| ToyFhe.Decrypt | evoting_system/crypto_primitives.py:79-80 | Decryption lies in [0, n). |
| ToyFhe.DecryptEncrypt | evoting_system/crypto_primitives.py:70-80 | Decrypting an encryption gives the plaintext modulo n, for every nonce in [0, n). |
| ToyFhe.AddHomomorphic | evoting_system/crypto_primitives.py:75-80 | Decrypting a homomorphic sum gives the sum of the decryptions modulo n. |
| ToyFhe.DecryptAccumulated | evoting_system/crypto_primitives.py:70-80 | Folding the encryptions of v1..vk with `add` decrypts to (v1 + ... + vk) mod n. |
| ToyFhe.CountOfOnes | evoting_system/crypto_primitives.py:70-80 | k >= 1 accumulated encryptions of 1 decrypt to k mod n. |
| ToyFhe.NewHomomorphicTally | evoting_system/crypto_primitives.py:89-104 | The production backend is chosen exactly when its library is available, and the backend name follows. Otherwise the tally holds a toy key pair of the default 31-bit width with an odd shared n. |
| ToyFhe.EncryptScalar | evoting_system/crypto_primitives.py:106-109 | On the toy backend, a scalar encryption lies in [0, n^2) and is congruent to the value modulo n. |
| ToyFhe.AddScalar | evoting_system/crypto_primitives.py:111-114 | On the toy backend, a sum lies in [0, n^2) and is congruent to c1 + c2 modulo n. |
| ToyFhe.DecryptScalar | evoting_system/crypto_primitives.py:116-119 | On the toy backend, decryption with the private key gives the ciphertext modulo the shared n, a value in [0, n). |
| ToyFhe.TallyAdditive | evoting_system/crypto_primitives.py:106-119 | On the toy backend, adding two scalar encryptions and decrypting gives the sum of the plaintexts modulo n. |
| Pipeline.NewPipeline | evoting_system/pipeline.py:26-37 | A fresh pipeline has a genesis-only ledger with the default work factor and the toy backend. Its registries, tally and nullifier cache are empty, and it satisfies the orchestrator invariant. |
| Pipeline.Enroll | evoting_system/pipeline.py:43-44 | Enrolling a voter sets its template id and a secret in [1, p-2] and leaves the other voters' entries and everything else unchanged. |
| Pipeline.EnrollVoters | evoting_system/pipeline.py:39-44 | After enrolling a list, the enrolled voters are the earlier ones plus every listed voter, both for templates and for secrets. A voter not in the list keeps its template id and secret. The ledger, tally, cache, election id and keys are unchanged. |
| Pipeline.EnrollVotersTemplates | evoting_system/pipeline.py:40-43 | A voter's template id is the one from its last record in the list: later records override earlier ones. |
| Pipeline.EnrollVotersSecrets | evoting_system/pipeline.py:40-44 | Every listed voter ends with a secret in [1, p-2]. |
| Pipeline.EnrollVotersPreservesInv | evoting_system/pipeline.py:39-44 | Enrollment keeps the orchestrator invariant. |
| Pipeline.BuildNullifier | evoting_system/pipeline.py:46-48 | The nullifier is the digest of the election id, the voter id and the voter's template id, joined by a separator bar, and needs the voter to be enrolled. Its properties are the two lemmas below. |
| Pipeline.NullifierDeterministic | evoting_system/pipeline.py:46-48 | The nullifier depends only on the election id, the voter id and that voter's template id. |
| Pipeline.NullifierMaterialSeparatesVoters | evoting_system/pipeline.py:46-48 | In one election, two different voter ids that contain no separator bar never share nullifier material, whatever their template ids. |
| Pipeline.TallyWithVote | evoting_system/pipeline.py:67-72 | Only the voted candidate's ciphertext changes, and it gains an entry if it had none. Its decryption becomes 1 mod n on the first vote and goes up by one modulo n afterwards. |
| Pipeline.CastVote | evoting_system/pipeline.py:50-98 | An unenrolled voter gets `NotEnrolled` and a used nullifier gets `DoubleVote`, both with the state unchanged; every guard failure leaves the state unchanged. A success appends exactly one block that links to the old tip and meets the work factor. That block carries this election, voter, candidate, nullifier, template id, nonce, backend name and a proof that verifies under the cast's context. The nullifier is marked used only then, and the receipt names the block's hash and a valid proof. |
| Pipeline.CastVotePreservesInv | evoting_system/pipeline.py:67-91 | Any cast other than a mining failure keeps the invariant. The invariant: the ledger is valid, every block after genesis is a vote, and the cache equals the ledger's nullifiers with none repeated. The tally has keys exactly for the voted candidates, each decrypting to its vote count mod n. |
| Pipeline.AppendVoteKeepsInv | evoting_system/pipeline.py:67-91 | Appending a linked vote block with an unused nullifier, marking that nullifier and counting the vote keeps the invariant. |
| Pipeline.SecondCastRejected | evoting_system/pipeline.py:54-56 | After a voter's successful cast and any run of further casts by anyone, another cast by that voter, for any candidate, fails with `DoubleVote` on the same nullifier and changes nothing. |
| Pipeline.CastAllKeepsIdentity | evoting_system/pipeline.py:50-91 | A run of casts never changes the election id or the template ids and never removes a used nullifier. |
| Pipeline.CastNeverRejectsProof | evoting_system/pipeline.py:58-65 | Given Fermat's little theorem, the proof-rejected error never occurs. |
| Pipeline.EligibleCastOnlyFailsInMining | evoting_system/pipeline.py:50-65 | Given Fermat's little theorem, a voter with a template, a secret and an unused nullifier passes every guard. |
| Pipeline.CastSucceedsIffEligible | evoting_system/pipeline.py:50-91 | With a working nonce below the ceiling, a cast succeeds exactly when the voter has a template and a secret and its nullifier is unused. |
| Pipeline.DecryptResults | evoting_system/pipeline.py:100-101 | The results have one entry per candidate with a ciphertext, each a residue modulo n. |
| Pipeline.RunResultsMatchLedger | evoting_system/pipeline.py:100-101 | After any run of casts from an invariant state without mining failures, the results' keys are exactly the candidates with a vote block. Each maps to its number of vote blocks mod n. |
| Pipeline.RunReceipts | evoting_system/pipeline.py:90-98 | Over any run, the ledger grows by exactly the number of successful casts. Every receipt reports a valid proof and a nullifier unused before the run and used after it. No two receipts share a nullifier. |
| Pipeline.RunPreservesInv | evoting_system/pipeline.py:67-91 | A run of casts without mining failures keeps the invariant. |
| Pipeline.EligibleRunSucceeds | evoting_system/pipeline.py:50-91 | Given Fermat's little theorem, a run of enrolled voters with pairwise distinct unused nullifiers and no mining failure succeeds at every cast. It appends one vote per request, in order, for the requested candidate. |
| Pipeline.ThreeVoterLedger | evoting_system/system.py:36-46 | Starting with A, B and C enrolled and nothing cast, casting A→Alice, B→Bob, C→Alice succeeds three times. The ledger is then genesis plus those three votes in order. |
| Pipeline.ThreeVoterElection | evoting_system/system.py:36-54 | After that election the ledger validates, no nullifier repeats, and the results are exactly {Alice: 2 mod n, Bob: 1 mod n}. |

## Left out

- The SEAL/TenSEAL BFV backend (crypto_primitives.py:92-102) is a foreign library. Only its selection and backend name are modelled; the orchestrator is modelled on the toy backend only.
- Dilithium signatures and Kyber encapsulation are external post-quantum collaborators. `cast_vote` only embeds their hex output, which arrives as opaque strings.
- SHA-256, SHA3 and the canonical JSON encoding are uninterpreted function parameters. `secrets` and `time.time()` are caller-supplied values. The float timestamp is a `real`, which the model only copies and compares.
- `validate_unique_nullifiers` is called by the scripts and the attack harness, but `blockchain.py` does not define it. No contract is attributed to it. Nullifier uniqueness is stated only as the ghost predicate `Ledger.NullifiersUnique`.
- Biometric feature extraction and cancellable templates (`biometric.py`) are an external source of template ids; only the template id is kept. Dataset discovery (`dataset.py`) is filesystem globbing, so `Pipeline.EnrollVoters` takes the list of records as an argument.
- The scripts, `system.py`'s reporting and the attack harness's randomness and reports are left out. The attacks appear only as the ledger and orchestrator lemmas above.
- Ledger.AddBlock: the nonce search is bounded by a caller-chosen ceiling and can report `MiningExhausted`, which the unbounded loop in `blockchain.py` never does. `Ledger.AddBlockSucceeds` covers the case that loop always reaches.
- Pipeline.CastVote: a mining failure exists only because of that bound. The model keeps the order of `pipeline.py`, so such a failure leaves the tally updated but the ledger and cache unchanged.
- ToyZkp.Completeness: Fermat's little theorem for g = 5, p = 2^31 - 1 is the hypothesis `ToyZkp.FermatHolds` rather than a proof, because evaluating 5^(p-1) mod p symbolically is beyond the solver. The same hypothesis appears in `Pipeline.CastNeverRejectsProof`, `Pipeline.CastSucceedsIffEligible`, `Pipeline.EligibleRunSucceeds` and the election lemmas.
- Context binding is not modelled: a proof made for one context should not verify under another. It would need assumptions about the hash that the Python code does not make.
- Pipeline.ThreeVoterElection: the results are stated modulo n, as the code computes them. They equal {Alice: 2, Bob: 1} whenever n >= 3.
- Pipeline.CastSucceedsIffEligible: the "succeeds" direction assumes a working nonce below the ceiling, because the bounded search may otherwise run out.
- Secrets and exponents are naturals. The Python code never produces negative ones, so Python's negative-exponent `pow` is not modelled.
- `add_block` on an empty ledger cannot happen, because the constructor always creates genesis. `Ledger.AddBlock` therefore requires a non-empty ledger.
