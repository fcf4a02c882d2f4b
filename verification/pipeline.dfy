/**
 * The voting orchestrator: enrollment state, nullifier derivation, `cast_vote` and
 * `decrypt_results`, over one immutable state record. Hash primitives are the caller's
 * `Oracles`; per-cast randomness, the clock, the outputs of the signature and
 * key-encapsulation collaborators and the mining ceiling arrive in `CastEntropy`.
 * Only the toy homomorphic backend is modelled.
 */
module Pipeline {
  import opened Wrappers
  import opened Payloads
  import opened Ledger
  import ToyZkp
  import ToyFhe
  import ModArith

  /** Block hash, Fiat-Shamir digest and nullifier digest (all SHA-256 in the system). */
  datatype Oracles = Oracles(block: BlockHasher, challenge: ToyZkp.DigestInt, nullifier: string -> Digest)

  /**
   * Orchestrator state. `templates` maps a voter id to the template id of its cancellable
   * biometric template (the only part of the template the core reads).
   */
  datatype EVotingPipeline = EVotingPipeline(
    electionId: string,
    chain: VoteChain,
    tallyCrypto: ToyFhe.HomomorphicTally,
    templates: map<string, string>,
    secretRegistry: map<string, nat>,
    encryptedTally: map<string, int>,
    usedNullifiers: set<Digest>)

  datatype CastVoteReceipt = CastVoteReceipt(voterId: string, candidate: string, blockHash: Digest, zkpValid: bool, nullifier: Digest)

  /**
   * `NotEnrolled` is the KeyError for a voter without template or secret, `DoubleVote`
   * and `ProofInvalid` the two RuntimeErrors; `MiningExhausted` exists only because
   * mining is bounded here.
   */
  datatype CastError = NotEnrolled(voterId: string) | DoubleVote(nullifier: Digest) | ProofInvalid | MiningExhausted

  /**
   * What one cast takes from outside the core: `token_hex(8)`, the prover's nonce, the
   * encryption nonce, `time.time()`, the hex signature and KEM ciphertext, and the
   * mining ceiling.
   */
  datatype CastEntropy = CastEntropy(castNonce: string, proofNonce: nat, voteNonce: nat, timestamp: real,
                                     signature: string, kemCiphertext: string, miningCeiling: nat)

  datatype CastRequest = CastRequest(voterId: string, candidate: string, entropy: CastEntropy)

  /** The state is usable: the ledger has its genesis block and the toy backend holds a key pair. */
  predicate Wf(s: EVotingPipeline)
  {
    |s.chain.blocks| >= 1 && ToyFhe.ToyKeyed(s.tallyCrypto)
  }

  /** The ranges the random sources guarantee: prover nonce in [1, p-2], encryption nonce in [0, n). */
  predicate EntropyFits(s: EVotingPipeline, e: CastEntropy)
  {
    && 1 <= e.proofNonce <= ToyZkp.P - 2
    && s.tallyCrypto.ToyBackend? && e.voteNonce < s.tallyCrypto.pk.n
  }

  // ---------------------------------------------------------------------------
  // Audit views of the ledger
  // ---------------------------------------------------------------------------

  predicate IsVoteFor(b: Block, candidate: string)
  {
    b.payload.Vote? && b.payload.candidate == candidate
  }

  /** Number of vote blocks for a candidate. */
  function VoteCount(bs: seq<Block>, candidate: string): nat
  {
    if |bs| == 0 then 0
    else VoteCount(bs[..|bs| - 1], candidate) + (if IsVoteFor(bs[|bs| - 1], candidate) then 1 else 0)
  }

  /** Candidates named by at least one vote block. */
  function ChainCandidates(bs: seq<Block>): set<string>
  {
    set i | 0 <= i < |bs| && bs[i].payload.Vote? :: bs[i].payload.candidate
  }

  /** Nullifiers carried by vote blocks. */
  function ChainNullifiers(bs: seq<Block>): set<Digest>
  {
    set i | 0 <= i < |bs| && bs[i].payload.Vote? :: bs[i].payload.nullifier
  }

  lemma {:induction false} VoteCountAppend(bs: seq<Block>, b: Block, candidate: string)
    ensures VoteCount(bs + [b], candidate) == VoteCount(bs, candidate) + (if IsVoteFor(b, candidate) then 1 else 0)
  {
    assert (bs + [b])[..|bs|] == bs;
  }

  lemma {:induction false} AbsentCandidateHasNoVotes(bs: seq<Block>, candidate: string)
    requires candidate !in ChainCandidates(bs)
    ensures VoteCount(bs, candidate) == 0
  {
    if |bs| > 0 {
      var front := bs[..|bs| - 1];
      assert ChainCandidates(front) <= ChainCandidates(bs) by {
        forall x | x in ChainCandidates(front) ensures x in ChainCandidates(bs) {
          var i :| 0 <= i < |front| && front[i].payload.Vote? && front[i].payload.candidate == x;
          assert bs[i] == front[i];
        }
      }
      AbsentCandidateHasNoVotes(front, candidate);
      var last := bs[|bs| - 1];
      assert last.payload.Vote? ==> last.payload.candidate in ChainCandidates(bs);
    }
  }

  lemma {:induction false} AppendVoteViews(bs: seq<Block>, b: Block)
    requires b.payload.Vote?
    ensures ChainCandidates(bs + [b]) == ChainCandidates(bs) + {b.payload.candidate}
    ensures ChainNullifiers(bs + [b]) == ChainNullifiers(bs) + {b.payload.nullifier}
  {
    var bs' := bs + [b];
    assert bs'[|bs|] == b;
    forall x | x in ChainCandidates(bs') ensures x in ChainCandidates(bs) + {b.payload.candidate} {
      var i :| 0 <= i < |bs'| && bs'[i].payload.Vote? && bs'[i].payload.candidate == x;
      if i < |bs| {
        assert bs[i] == bs'[i];
      }
    }
    forall x | x in ChainCandidates(bs) ensures x in ChainCandidates(bs') {
      var i :| 0 <= i < |bs| && bs[i].payload.Vote? && bs[i].payload.candidate == x;
      assert bs'[i] == bs[i];
    }
    forall x | x in ChainNullifiers(bs') ensures x in ChainNullifiers(bs) + {b.payload.nullifier} {
      var i :| 0 <= i < |bs'| && bs'[i].payload.Vote? && bs'[i].payload.nullifier == x;
      if i < |bs| {
        assert bs[i] == bs'[i];
      }
    }
    forall x | x in ChainNullifiers(bs) ensures x in ChainNullifiers(bs') {
      var i :| 0 <= i < |bs| && bs[i].payload.Vote? && bs[i].payload.nullifier == x;
      assert bs'[i] == bs[i];
    }
  }

  // ---------------------------------------------------------------------------
  // Orchestrator invariant
  // ---------------------------------------------------------------------------

  /**
   * What holds of a pipeline whose ledger only ever grew through `CastVote`: the ledger
   * is valid, every block after genesis is a vote, the used-nullifier cache equals the
   * nullifiers on the ledger and none repeats, the tally has a ciphertext exactly for
   * each candidate with a vote, and each decrypts to that candidate's vote count mod n.
   */
  ghost predicate Inv(o: Oracles, s: EVotingPipeline)
  {
    var bs := s.chain.blocks;
    && Wf(s)
    && Valid(o.block, s.chain)
    && bs[0].payload == Genesis
    && (forall i :: 1 <= i < |bs| ==> bs[i].payload.Vote?)
    && s.usedNullifiers == ChainNullifiers(bs)
    && NullifiersUnique(bs)
    && s.encryptedTally.Keys == ChainCandidates(bs)
    && (forall c :: c in s.encryptedTally ==>
          ToyFhe.DecryptScalar(s.tallyCrypto, s.encryptedTally[c]) == VoteCount(bs, c) % s.tallyCrypto.pk.n)
  }

  // ---------------------------------------------------------------------------
  // Construction and enrollment
  // ---------------------------------------------------------------------------

  /**
   * A fresh pipeline on the toy backend: a genesis-only ledger with the default work
   * factor, a new key pair from `keyDraw`, and empty registries, tally and cache.
   */
  function NewPipeline(o: Oracles, electionId: string, timestamp: real, keyDraw: nat): (s: EVotingPipeline)
    requires keyDraw < ToyFhe.Pow2(ToyFhe.DefaultModulusBits)
    ensures s.electionId == electionId && s.chain.difficultyPrefix == DefaultDifficulty
    ensures |s.chain.blocks| == 1 && ToyFhe.BackendName(s.tallyCrypto) == "toy-fhe"
    ensures s.templates == map[] && s.secretRegistry == map[] && s.encryptedTally == map[] && s.usedNullifiers == {}
    ensures Inv(o, s)
  {
    var chain := NewChain(o.block, DefaultDifficulty, timestamp);
    EVotingPipeline(electionId, chain, ToyFhe.NewHomomorphicTally(false, keyDraw), map[], map[], map[], {})
  }

  /**
   * Enrolls one voter: stores the template id from the external enrollment source and a
   * fresh secret in [1, p-2]; nothing else changes.
   */
  function Enroll(s: EVotingPipeline, voterId: string, templateId: string, secretDraw: nat): (s': EVotingPipeline)
    requires secretDraw < ToyZkp.P - 2
    ensures s'.templates == s.templates[voterId := templateId]
    ensures voterId in s'.secretRegistry && 1 <= s'.secretRegistry[voterId] <= ToyZkp.P - 2
    ensures s'.secretRegistry == s.secretRegistry[voterId := s'.secretRegistry[voterId]]
    ensures s'.chain == s.chain && s'.encryptedTally == s.encryptedTally && s'.usedNullifiers == s.usedNullifiers
    ensures s'.electionId == s.electionId && s'.tallyCrypto == s.tallyCrypto
  {
    s.(templates := s.templates[voterId := templateId],
       secretRegistry := s.secretRegistry[voterId := ToyZkp.MakeSecret(secretDraw)])
  }

  /** Enrollment does not touch the ledger, tally or cache, so it keeps the invariant. */
  lemma {:induction false} EnrollPreservesInv(o: Oracles, s: EVotingPipeline, voterId: string, templateId: string, secretDraw: nat)
    requires Inv(o, s) && secretDraw < ToyZkp.P - 2
    ensures Inv(o, Enroll(s, voterId, templateId, secretDraw))
  {
  }

  /** One record from the enrollment source: voter id, template id and the draw for its secret. */
  datatype Enrollment = Enrollment(voterId: string, templateId: string, secretDraw: nat)

  predicate DrawsFit(es: seq<Enrollment>)
  {
    forall i :: 0 <= i < |es| ==> es[i].secretDraw < ToyZkp.P - 2
  }

  function EnrolledIds(es: seq<Enrollment>): set<string>
  {
    set i | 0 <= i < |es| :: es[i].voterId
  }

  /**
   * `enroll_voters`: enrolls each record in order, so a later record for the same voter
   * overrides an earlier one. Every listed voter ends up with a template and a secret,
   * the last record for a voter decides its template id, and nothing else changes.
   */
  function EnrollVoters(s: EVotingPipeline, es: seq<Enrollment>): (s': EVotingPipeline)
    requires DrawsFit(es)
    ensures s'.templates.Keys == s.templates.Keys + EnrolledIds(es)
    ensures s'.secretRegistry.Keys == s.secretRegistry.Keys + EnrolledIds(es)
    ensures forall v :: v in s.templates && v !in EnrolledIds(es) ==> s'.templates[v] == s.templates[v]
    ensures forall v :: v in s.secretRegistry && v !in EnrolledIds(es) ==> s'.secretRegistry[v] == s.secretRegistry[v]
    ensures s'.chain == s.chain && s'.encryptedTally == s.encryptedTally && s'.usedNullifiers == s.usedNullifiers
    ensures s'.electionId == s.electionId && s'.tallyCrypto == s.tallyCrypto
    decreases |es|
  {
    if |es| == 0 then s
    else
      var front := es[..|es| - 1];
      var last := es[|es| - 1];
      assert DrawsFit(front) by {
        forall i | 0 <= i < |front| ensures front[i].secretDraw < ToyZkp.P - 2 {
          assert front[i] == es[i];
        }
      }
      var mid := EnrollVoters(s, front);
      EnrolledIdsSnoc(es);
      Enroll(mid, last.voterId, last.templateId, last.secretDraw)
  }

  lemma {:induction false} EnrolledIdsSnoc(es: seq<Enrollment>)
    requires |es| >= 1
    ensures EnrolledIds(es) == EnrolledIds(es[..|es| - 1]) + {es[|es| - 1].voterId}
  {
    var front := es[..|es| - 1];
    forall v | v in EnrolledIds(es) ensures v in EnrolledIds(front) + {es[|es| - 1].voterId} {
      var i :| 0 <= i < |es| && es[i].voterId == v;
      if i < |front| {
        assert front[i] == es[i];
      }
    }
    forall v | v in EnrolledIds(front) ensures v in EnrolledIds(es) {
      var i :| 0 <= i < |front| && front[i].voterId == v;
      assert es[i] == front[i];
    }
  }

  /** Record `i` is the last one for its voter. */
  predicate LastRecordFor(es: seq<Enrollment>, i: int)
    requires 0 <= i < |es|
  {
    forall j :: i < j < |es| ==> es[j].voterId != es[i].voterId
  }

  /** One step of `enroll_voters`: the run over `es` is the run over its front, then `Enroll` of its last record. */
  lemma {:induction false} EnrollVotersSnoc(s: EVotingPipeline, es: seq<Enrollment>)
    requires |es| >= 1 && DrawsFit(es)
    ensures DrawsFit(es[..|es| - 1])
    ensures var last := es[|es| - 1];
      EnrollVoters(s, es) == Enroll(EnrollVoters(s, es[..|es| - 1]), last.voterId, last.templateId, last.secretDraw)
  {
    var front := es[..|es| - 1];
    assert forall i :: 0 <= i < |front| ==> front[i] == es[i];
  }

  /** After `enroll_voters`, the last record for a voter decides its template id. */
  lemma {:induction false} EnrollVotersTemplates(s: EVotingPipeline, es: seq<Enrollment>)
    requires DrawsFit(es)
    ensures forall i :: 0 <= i < |es| && LastRecordFor(es, i) ==>
      EnrollVoters(s, es).templates[es[i].voterId] == es[i].templateId
  {
    forall i | 0 <= i < |es| && LastRecordFor(es, i)
      ensures EnrollVoters(s, es).templates[es[i].voterId] == es[i].templateId
    {
      EnrollVotersTemplateAt(s, es, i);
    }
  }

  lemma {:induction false} EnrollVotersTemplateAt(s: EVotingPipeline, es: seq<Enrollment>, i: nat)
    requires DrawsFit(es) && i < |es| && LastRecordFor(es, i)
    ensures EnrollVoters(s, es).templates[es[i].voterId] == es[i].templateId
    decreases |es|
  {
    var front := es[..|es| - 1];
    var last := es[|es| - 1];
    EnrollVotersSnoc(s, es);
    var t' := EnrollVoters(s, es).templates;
    assert t' == EnrollVoters(s, front).templates[last.voterId := last.templateId];
    if i < |front| {
      LastRecordForFront(es, i);
      EnrollVotersTemplateAt(s, front, i);
    }
  }

  /** Dropping a later record keeps record `i` the last one for its voter. */
  lemma {:induction false} LastRecordForFront(es: seq<Enrollment>, i: nat)
    requires i < |es| - 1 && LastRecordFor(es, i)
    ensures LastRecordFor(es[..|es| - 1], i)
    ensures es[..|es| - 1][i] == es[i] && es[|es| - 1].voterId != es[i].voterId
  {
    var front := es[..|es| - 1];
    forall j | i < j < |front| ensures front[j].voterId != front[i].voterId {
      assert front[j] == es[j];
    }
  }

  /** After `enroll_voters`, every listed voter's secret lies in [1, p-2]. */
  lemma {:induction false} EnrollVotersSecrets(s: EVotingPipeline, es: seq<Enrollment>)
    requires DrawsFit(es)
    ensures forall i :: 0 <= i < |es| ==> 1 <= EnrollVoters(s, es).secretRegistry[es[i].voterId] <= ToyZkp.P - 2
  {
    forall i | 0 <= i < |es| ensures 1 <= EnrollVoters(s, es).secretRegistry[es[i].voterId] <= ToyZkp.P - 2 {
      EnrollVotersSecretAt(s, es, i);
    }
  }

  lemma {:induction false} EnrollVotersSecretAt(s: EVotingPipeline, es: seq<Enrollment>, i: nat)
    requires DrawsFit(es) && i < |es|
    ensures 1 <= EnrollVoters(s, es).secretRegistry[es[i].voterId] <= ToyZkp.P - 2
    decreases |es|
  {
    var front := es[..|es| - 1];
    var last := es[|es| - 1];
    EnrollVotersSnoc(s, es);
    var r' := EnrollVoters(s, es).secretRegistry;
    assert r' == EnrollVoters(s, front).secretRegistry[last.voterId := ToyZkp.MakeSecret(last.secretDraw)];
    if i < |front| && es[i].voterId != last.voterId {
      assert front[i] == es[i];
      EnrollVotersSecretAt(s, front, i);
    }
  }

  /** Enrolling a whole list keeps the invariant. */
  lemma {:induction false} EnrollVotersPreservesInv(o: Oracles, s: EVotingPipeline, es: seq<Enrollment>)
    requires Inv(o, s) && DrawsFit(es)
    ensures Inv(o, EnrollVoters(s, es))
  {
    var s' := EnrollVoters(s, es);
    assert s'.chain == s.chain && s'.encryptedTally == s.encryptedTally && s'.usedNullifiers == s.usedNullifiers;
    assert s'.tallyCrypto == s.tallyCrypto;
  }

  // ---------------------------------------------------------------------------
  // Casting
  // ---------------------------------------------------------------------------

  /** The string hashed into a nullifier: "election|voter|template". */
  function NullifierMaterial(electionId: string, voterId: string, templateId: string): string
  {
    electionId + "|" + voterId + "|" + templateId
  }

  /** `_build_nullifier`: reads the voter's template id, so the voter must be enrolled. */
  function BuildNullifier(o: Oracles, s: EVotingPipeline, voterId: string): Digest
    requires voterId in s.templates
  {
    o.nullifier(NullifierMaterial(s.electionId, voterId, s.templates[voterId]))
  }

  /**
   * Within one election the hashed material tells voters apart: when no voter id
   * contains the separator '|', two different voters never share nullifier material,
   * whatever their template ids.
   */
  lemma {:induction false} NullifierMaterialSeparatesVoters(electionId: string, v1: string, t1: string, v2: string, t2: string)
    requires '|' !in v1 && '|' !in v2 && v1 != v2
    ensures NullifierMaterial(electionId, v1, t1) != NullifierMaterial(electionId, v2, t2)
  {
    var m1 := NullifierMaterial(electionId, v1, t1);
    var m2 := NullifierMaterial(electionId, v2, t2);
    var k := |electionId| + 1;
    assert m1 == (electionId + "|") + (v1 + "|" + t1);
    assert m2 == (electionId + "|") + (v2 + "|" + t2);
    if |v1| < |v2| {
      assert m1[k + |v1|] == '|' && m2[k + |v1|] == v2[|v1|];
    } else if |v2| < |v1| {
      assert m2[k + |v2|] == '|' && m1[k + |v2|] == v1[|v2|];
    } else {
      assert exists i :: 0 <= i < |v1| && v1[i] != v2[i];
      var i :| 0 <= i < |v1| && v1[i] != v2[i];
      assert m1[k + i] == v1[i] && m2[k + i] == v2[i];
    }
  }

  /**
   * The nullifier depends on the election id, the voter id and that voter's template id
   * only: two states that agree on those give the same nullifier, whatever else differs.
   */
  lemma {:induction false} NullifierDeterministic(o: Oracles, s1: EVotingPipeline, s2: EVotingPipeline, voterId: string)
    requires voterId in s1.templates && voterId in s2.templates
    requires s1.electionId == s2.electionId && s1.templates[voterId] == s2.templates[voterId]
    ensures BuildNullifier(o, s1, voterId) == BuildNullifier(o, s2, voterId)
  {
  }

  /** The proof context "election:voter:candidate:nullifier:nonce". */
  function ProofContext(electionId: string, voterId: string, candidate: string, nullifier: Digest, castNonce: string): string
  {
    electionId + ":" + voterId + ":" + candidate + ":" + nullifier + ":" + castNonce
  }

  /**
   * The tally after one more vote for `candidate`: a fresh encryption of 1 on the first
   * vote, the homomorphic sum with it afterwards. Only that candidate's entry changes,
   * and its decryption goes up by one modulo n.
   */
  function TallyWithVote(s: EVotingPipeline, candidate: string, voteNonce: nat): (t: map<string, int>)
    requires ToyFhe.ToyKeyed(s.tallyCrypto) && voteNonce < s.tallyCrypto.pk.n
    ensures t.Keys == s.encryptedTally.Keys + {candidate}
    ensures forall c :: c in s.encryptedTally && c != candidate ==> t[c] == s.encryptedTally[c]
    ensures candidate in s.encryptedTally ==>
      ToyFhe.DecryptScalar(s.tallyCrypto, t[candidate])
        == (ToyFhe.DecryptScalar(s.tallyCrypto, s.encryptedTally[candidate]) + 1) % s.tallyCrypto.pk.n
    ensures candidate !in s.encryptedTally ==>
      ToyFhe.DecryptScalar(s.tallyCrypto, t[candidate]) == 1 % s.tallyCrypto.pk.n
  {
    var n := s.tallyCrypto.pk.n;
    var encryptedVote := ToyFhe.EncryptScalar(s.tallyCrypto, 1, voteNonce);
    if candidate in s.encryptedTally then
      var prior := s.encryptedTally[candidate];
      var sum := ToyFhe.AddScalar(s.tallyCrypto, prior, encryptedVote);
      IncrementedResidue(prior, encryptedVote, n);
      s.encryptedTally[candidate := sum]
    else
      s.encryptedTally[candidate := encryptedVote]
  }

  /** The vote payload assembled for the ledger. */
  function VotePayload(s: EVotingPipeline, voterId: string, candidate: string, nullifier: Digest,
                       proof: ToyZkp.ZKProof, e: CastEntropy): Payload
    requires voterId in s.templates
  {
    Vote(s.electionId, voterId, candidate, nullifier, e.castNonce, proof, s.templates[voterId],
         ToyFhe.BackendName(s.tallyCrypto), e.signature, e.kemCiphertext)
  }

  /** Whether the honest proof built during this cast verifies. */
  function CastProofVerifies(o: Oracles, s: EVotingPipeline, voterId: string, candidate: string, e: CastEntropy): bool
    requires voterId in s.templates && voterId in s.secretRegistry && 1 <= e.proofNonce <= ToyZkp.P - 2
  {
    var secret := s.secretRegistry[voterId];
    var ctx := ProofContext(s.electionId, voterId, candidate, BuildNullifier(o, s, voterId), e.castNonce);
    ToyZkp.VerifyKnowledge(o.challenge, ToyZkp.PublicFromSecret(secret),
                           ToyZkp.ProveKnowledge(o.challenge, secret, ctx, e.proofNonce), ctx)
  }

  /** Adding a ciphertext of 1 raises the residue modulo n by one. */
  lemma {:induction false} IncrementedResidue(prior: int, one: int, n: int)
    requires n >= 1 && one % n == 1 % n
    ensures (prior + one) % n == (prior % n + 1) % n
  {
    ModArith.ModAdd(prior, one, n);
    ModArith.ModAdd(prior, 1, n);
    ModArith.ModIncrement(prior, n);
  }

  /** The payload a cast that passes its guards appends, with the honest proof it builds. */
  function CastPayload(o: Oracles, s: EVotingPipeline, voterId: string, candidate: string, e: CastEntropy): Payload
    requires voterId in s.templates && voterId in s.secretRegistry && 1 <= e.proofNonce <= ToyZkp.P - 2
  {
    var nullifier := BuildNullifier(o, s, voterId);
    var ctx := ProofContext(s.electionId, voterId, candidate, nullifier, e.castNonce);
    var proof := ToyZkp.ProveKnowledge(o.challenge, s.secretRegistry[voterId], ctx, e.proofNonce);
    VotePayload(s, voterId, candidate, nullifier, proof, e)
  }

  /**
   * `cast_vote`. Returns the state after the call and either a receipt or the error.
   * The guards (not enrolled, nullifier used, no secret, proof rejected) leave the state
   * untouched. Past them, the tally is updated, then the block appended, then the
   * nullifier marked used, in that order: a mining failure (possible only because the
   * search is bounded here) leaves the tally updated but the ledger and cache as they
   * were. A success appends exactly one block carrying this vote and returns a receipt
   * naming it.
   */
  function CastVote(o: Oracles, s: EVotingPipeline, voterId: string, candidate: string, e: CastEntropy)
    : (out: (EVotingPipeline, Result<CastVoteReceipt, CastError>))
    requires Wf(s) && EntropyFits(s, e)
    ensures voterId !in s.templates ==> out == (s, Failure(NotEnrolled(voterId)))
    ensures voterId in s.templates && BuildNullifier(o, s, voterId) in s.usedNullifiers ==>
      out == (s, Failure(DoubleVote(BuildNullifier(o, s, voterId))))
    ensures out.1.Failure? && out.1.error != CastError.MiningExhausted ==> out.0 == s
    ensures out.1 == Failure(CastError.MiningExhausted) ==>
      && voterId in s.templates && voterId in s.secretRegistry
      && out.0 == s.(encryptedTally := TallyWithVote(s, candidate, e.voteNonce))
    ensures out.0.electionId == s.electionId && out.0.tallyCrypto == s.tallyCrypto
    ensures out.0.templates == s.templates && out.0.secretRegistry == s.secretRegistry
    ensures out.0.chain.difficultyPrefix == s.chain.difficultyPrefix
    ensures out.0.usedNullifiers >= s.usedNullifiers && |out.0.chain.blocks| >= |s.chain.blocks|
    ensures out.1.Success? ==>
      var (s', rc) := (out.0, out.1.value);
      && voterId in s.templates && voterId in s.secretRegistry
      && rc.voterId == voterId && rc.candidate == candidate && rc.zkpValid
      && rc.nullifier == BuildNullifier(o, s, voterId) && rc.nullifier !in s.usedNullifiers
      && s'.usedNullifiers == s.usedNullifiers + {rc.nullifier}
      && |s'.chain.blocks| == |s.chain.blocks| + 1
      && s'.chain.blocks[..|s.chain.blocks|] == s.chain.blocks
      && Tip(s'.chain).hash == rc.blockHash
      && Tip(s'.chain).hash == ComputeHash(o.block, Tip(s'.chain))
      && Tip(s'.chain).previousHash == Tip(s.chain).hash
      && s.chain.difficultyPrefix <= Tip(s'.chain).hash
      && Tip(s'.chain).payload.Vote?
      && Tip(s'.chain).payload.electionId == s.electionId
      && Tip(s'.chain).payload.voterId == voterId
      && Tip(s'.chain).payload.candidate == candidate
      && Tip(s'.chain).payload.nullifier == rc.nullifier
      && Tip(s'.chain).payload.templateId == s.templates[voterId]
      && Tip(s'.chain).payload.castNonce == e.castNonce
      && Tip(s'.chain).payload.heBackend == "toy-fhe"
      && ToyZkp.VerifyKnowledge(o.challenge, ToyZkp.PublicFromSecret(s.secretRegistry[voterId]),
                                Tip(s'.chain).payload.zkp,
                                ProofContext(s.electionId, voterId, candidate, rc.nullifier, e.castNonce))
      && s'.encryptedTally == TallyWithVote(s, candidate, e.voteNonce)
  {
    if voterId !in s.templates then (s, Failure(NotEnrolled(voterId)))
    else
      var nullifier := BuildNullifier(o, s, voterId);
      if nullifier in s.usedNullifiers then (s, Failure(DoubleVote(nullifier)))
      else if voterId !in s.secretRegistry then (s, Failure(NotEnrolled(voterId)))
      else
        var secret := s.secretRegistry[voterId];
        var public := ToyZkp.PublicFromSecret(secret);
        var ctx := ProofContext(s.electionId, voterId, candidate, nullifier, e.castNonce);
        var proof := ToyZkp.ProveKnowledge(o.challenge, secret, ctx, e.proofNonce);
        var zkpValid := ToyZkp.VerifyKnowledge(o.challenge, public, proof, ctx);
        if !zkpValid then (s, Failure(ProofInvalid))
        else
          // Step 4: tally update.
          var s1 := s.(encryptedTally := TallyWithVote(s, candidate, e.voteNonce));
          // Step 5: append.
          var payload := VotePayload(s, voterId, candidate, nullifier, proof, e);
          match AddBlock(o.block, s1.chain, payload, e.timestamp, e.miningCeiling)
          case Failure(_) => (s1, Failure(CastError.MiningExhausted))
          case Success((chain', block)) =>
            // Step 6: mark the nullifier used.
            var s2 := s1.(chain := chain');
            var s3 := s2.(usedNullifiers := s2.usedNullifiers + {nullifier});
            (s3, Success(CastVoteReceipt(voterId, candidate, block.hash, zkpValid, nullifier)))
  }

  /** `cast_vote` only ever appends through `CastVote` outcomes other than a mining failure, and those keep `Inv`. */
  lemma {:induction false} CastVotePreservesInv(o: Oracles, s: EVotingPipeline, voterId: string, candidate: string, e: CastEntropy)
    requires Inv(o, s) && EntropyFits(s, e)
    ensures var out := CastVote(o, s, voterId, candidate, e);
      out.1 != Failure(CastError.MiningExhausted) ==> Inv(o, out.0)
  {
    var out := CastVote(o, s, voterId, candidate, e);
    if out.1.Success? {
      var s' := out.0;
      var b := Tip(s'.chain);
      assert s'.chain.blocks == s.chain.blocks + [b];
      assert s'.chain == s.chain.(blocks := s.chain.blocks + [b]);
      AppendVoteKeepsInv(o, s, s', b, candidate, e.voteNonce);
    }
  }

  /**
   * The success branch of `cast_vote` on its own: appending a linked vote block whose
   * nullifier is unused, marking that nullifier and counting the vote keeps `Inv`.
   */
  lemma {:induction false} AppendVoteKeepsInv(o: Oracles, s: EVotingPipeline, s': EVotingPipeline, b: Block, candidate: string, voteNonce: nat)
    requires Inv(o, s) && voteNonce < s.tallyCrypto.pk.n
    requires Linked(o.block, s.chain.difficultyPrefix, Tip(s.chain), b)
    requires b.payload.Vote? && b.payload.candidate == candidate && b.payload.nullifier !in s.usedNullifiers
    requires s'.chain == s.chain.(blocks := s.chain.blocks + [b]) && s'.tallyCrypto == s.tallyCrypto
    requires s'.usedNullifiers == s.usedNullifiers + {b.payload.nullifier}
    requires s'.encryptedTally == TallyWithVote(s, candidate, voteNonce)
    ensures Inv(o, s')
  {
    var bs := s.chain.blocks;
    ExtendValid(o.block, s.chain, b);
    AppendVoteViews(bs, b);
    AppendKeepsNullifiersUnique(bs, b, s.usedNullifiers);
    TallyInvAfterVote(s, bs, b, candidate, voteNonce);
    var bs' := s'.chain.blocks;
    assert bs' == bs + [b];
    assert bs'[0] == bs[0];
    assert forall i :: 1 <= i < |bs'| ==> bs'[i].payload.Vote? by {
      assert forall i :: 1 <= i < |bs| ==> bs'[i] == bs[i];
    }
    assert s'.usedNullifiers == ChainNullifiers(bs');
    assert s'.encryptedTally.Keys == ChainCandidates(bs');
  }

  /** A vote whose nullifier is not among the ledger's keeps the ledger's nullifiers unique. */
  lemma {:induction false} AppendKeepsNullifiersUnique(bs: seq<Block>, b: Block, used: set<Digest>)
    requires NullifiersUnique(bs) && used == ChainNullifiers(bs)
    requires b.payload.Vote? && b.payload.nullifier !in used
    ensures NullifiersUnique(bs + [b])
  {
    var bs' := bs + [b];
    forall i, j | 0 <= i < j < |bs'| && bs'[i].payload.Vote? && bs'[j].payload.Vote?
      ensures bs'[i].payload.nullifier != bs'[j].payload.nullifier
    {
      assert bs'[i] == bs[i];
      if j == |bs| {
        assert bs[i].payload.nullifier in ChainNullifiers(bs);
      } else {
        assert bs'[j] == bs[j];
      }
    }
  }

  /** After one more vote block for `candidate`, the updated tally still decrypts to the vote counts. */
  lemma {:induction false} TallyInvAfterVote(s: EVotingPipeline, bs: seq<Block>, b: Block, candidate: string, voteNonce: nat)
    requires ToyFhe.ToyKeyed(s.tallyCrypto) && voteNonce < s.tallyCrypto.pk.n
    requires s.encryptedTally.Keys == ChainCandidates(bs)
    requires forall c :: c in s.encryptedTally ==>
      ToyFhe.DecryptScalar(s.tallyCrypto, s.encryptedTally[c]) == VoteCount(bs, c) % s.tallyCrypto.pk.n
    requires b.payload.Vote? && b.payload.candidate == candidate
    ensures var t := TallyWithVote(s, candidate, voteNonce);
      forall c :: c in t ==> ToyFhe.DecryptScalar(s.tallyCrypto, t[c]) == VoteCount(bs + [b], c) % s.tallyCrypto.pk.n
  {
    var t := TallyWithVote(s, candidate, voteNonce);
    var n := s.tallyCrypto.pk.n;
    forall c | c in t
      ensures ToyFhe.DecryptScalar(s.tallyCrypto, t[c]) == VoteCount(bs + [b], c) % n
    {
      VoteCountAppend(bs, b, c);
      if c == candidate {
        if candidate in s.encryptedTally {
          ModArith.ModIncrement(VoteCount(bs, c), n);
        } else {
          AbsentCandidateHasNoVotes(bs, c);
        }
      }
    }
  }

  /**
   * Double voting: once a voter's cast succeeded, any later cast by that voter in the
   * same pipeline, for any candidate and after any run of other casts, fails with the
   * double-vote error and changes nothing.
   */
  lemma {:induction false} SecondCastRejected(o: Oracles, s: EVotingPipeline, voterId: string, c1: string, e1: CastEntropy,
                           reqs: seq<CastRequest>, c2: string, e2: CastEntropy)
    requires Wf(s) && EntropyFits(s, e1) && EntropyFits(s, e2)
    requires forall i :: 0 <= i < |reqs| ==> EntropyFits(s, reqs[i].entropy)
    ensures Wf(CastVote(o, s, voterId, c1, e1).0)
    ensures forall i :: 0 <= i < |reqs| ==> EntropyFits(CastVote(o, s, voterId, c1, e1).0, reqs[i].entropy)
    ensures var s2 := CastAll(o, CastVote(o, s, voterId, c1, e1).0, reqs).0;
      Wf(s2) && EntropyFits(s2, e2) &&
      (CastVote(o, s, voterId, c1, e1).1.Success? ==>
         CastVote(o, s2, voterId, c2, e2) == (s2, Failure(DoubleVote(BuildNullifier(o, s, voterId)))))
  {
    var s1 := CastVote(o, s, voterId, c1, e1).0;
    assert forall i :: 0 <= i < |reqs| ==> EntropyFits(s1, reqs[i].entropy);
    CastAllKeepsIdentity(o, s1, reqs);
    var s2 := CastAll(o, s1, reqs).0;
    if CastVote(o, s, voterId, c1, e1).1.Success? {
      NullifierDeterministic(o, s, s2, voterId);
    }
  }

  /**
   * A run of casts keeps the election id and the template ids, and never forgets a
   * used nullifier.
   */
  lemma {:induction false} CastAllKeepsIdentity(o: Oracles, s: EVotingPipeline, reqs: seq<CastRequest>)
    requires Wf(s) && forall i :: 0 <= i < |reqs| ==> EntropyFits(s, reqs[i].entropy)
    ensures var s' := CastAll(o, s, reqs).0;
      s'.electionId == s.electionId && s'.templates == s.templates && s'.usedNullifiers >= s.usedNullifiers
    decreases |reqs|
  {
    if |reqs| > 0 {
      var first, out := CastAllCons(o, s, reqs);
      CastAllKeepsIdentity(o, first, reqs[1..]);
    }
  }

  /**
   * Honest proofs always verify (given Fermat's little theorem for the group), so the
   * proof-rejected error never occurs.
   */
  lemma {:induction false} CastNeverRejectsProof(o: Oracles, s: EVotingPipeline, voterId: string, candidate: string, e: CastEntropy)
    requires Wf(s) && EntropyFits(s, e) && ToyZkp.FermatHolds()
    ensures CastVote(o, s, voterId, candidate, e).1 != Failure(ProofInvalid)
  {
    if voterId in s.templates && voterId in s.secretRegistry {
      var secret := s.secretRegistry[voterId];
      var ctx := ProofContext(s.electionId, voterId, candidate, BuildNullifier(o, s, voterId), e.castNonce);
      ToyZkp.Completeness(o.challenge, secret, ctx, e.proofNonce);
    }
  }

  /**
   * A cast succeeds exactly when the voter has a template and a secret and its
   * nullifier is unused, given Fermat's little theorem and a nonce below the ceiling
   * that meets the work factor for the block the cast would mine.
   */
  lemma {:induction false} CastSucceedsIffEligible(o: Oracles, s: EVotingPipeline, voterId: string, candidate: string, e: CastEntropy, k: nat)
    requires Wf(s) && EntropyFits(s, e) && ToyZkp.FermatHolds()
    requires voterId in s.templates && voterId in s.secretRegistry ==>
      k < e.miningCeiling &&
      MeetsDifficulty(o.block, s.chain.difficultyPrefix,
                      NextHeader(s.chain, CastPayload(o, s, voterId, candidate, e), e.timestamp), k)
    ensures CastVote(o, s, voterId, candidate, e).1.Success? <==>
      (voterId in s.templates && voterId in s.secretRegistry && BuildNullifier(o, s, voterId) !in s.usedNullifiers)
  {
    CastNeverRejectsProof(o, s, voterId, candidate, e);
    if voterId in s.templates && voterId in s.secretRegistry && BuildNullifier(o, s, voterId) !in s.usedNullifiers {
      var s1 := s.(encryptedTally := TallyWithVote(s, candidate, e.voteNonce));
      AddBlockSucceeds(o.block, s1.chain, CastPayload(o, s, voterId, candidate, e), e.timestamp, e.miningCeiling, k);
    }
  }

  // ---------------------------------------------------------------------------
  // Results
  // ---------------------------------------------------------------------------

  /** `decrypt_results`: every candidate with a ciphertext, mapped to its decryption. */
  function DecryptResults(s: EVotingPipeline): (r: map<string, int>)
    requires ToyFhe.ToyKeyed(s.tallyCrypto)
    ensures r.Keys == s.encryptedTally.Keys
    ensures forall c :: c in r ==> 0 <= r[c] < s.tallyCrypto.pk.n
  {
    map c | c in s.encryptedTally :: ToyFhe.DecryptScalar(s.tallyCrypto, s.encryptedTally[c])
  }

  // ---------------------------------------------------------------------------
  // Runs of casts
  // ---------------------------------------------------------------------------

  /** Casts the requests in order, carrying each resulting state into the next cast. */
  function CastAll(o: Oracles, s: EVotingPipeline, reqs: seq<CastRequest>)
    : (r: (EVotingPipeline, seq<Result<CastVoteReceipt, CastError>>))
    requires Wf(s) && forall i :: 0 <= i < |reqs| ==> EntropyFits(s, reqs[i].entropy)
    ensures |r.1| == |reqs| && Wf(r.0) && r.0.tallyCrypto == s.tallyCrypto
    decreases |reqs|
  {
    if |reqs| == 0 then (s, [])
    else
      var first := CastVote(o, s, reqs[0].voterId, reqs[0].candidate, reqs[0].entropy);
      EntropyFitsTail(s, first.0, reqs);
      var rest := CastAll(o, first.0, reqs[1..]);
      (rest.0, [first.1] + rest.1)
  }

  /** The entropy ranges depend only on the key, which a cast never changes. */
  lemma {:induction false} EntropyFitsTail(s: EVotingPipeline, s': EVotingPipeline, reqs: seq<CastRequest>)
    requires |reqs| >= 1 && s'.tallyCrypto == s.tallyCrypto
    requires forall i :: 0 <= i < |reqs| ==> EntropyFits(s, reqs[i].entropy)
    ensures forall i :: 0 <= i < |reqs[1..]| ==> EntropyFits(s', reqs[1..][i].entropy)
  {
    forall i | 0 <= i < |reqs[1..]| ensures EntropyFits(s', reqs[1..][i].entropy) {
      assert reqs[1..][i] == reqs[i + 1];
    }
  }

  function Successes(outs: seq<Result<CastVoteReceipt, CastError>>): nat
  {
    if |outs| == 0 then 0 else (if outs[0].Success? then 1 else 0) + Successes(outs[1..])
  }

  /**
   * Over any run: the ledger grows by exactly one block per successful cast, every
   * receipt reports a valid proof, no receipt's nullifier was used before the run, all
   * are used after it, and no two receipts share a nullifier.
   */
  lemma {:induction false} RunReceipts(o: Oracles, s: EVotingPipeline, reqs: seq<CastRequest>)
    requires Wf(s) && forall i :: 0 <= i < |reqs| ==> EntropyFits(s, reqs[i].entropy)
    ensures var (s', outs) := CastAll(o, s, reqs);
      && |s'.chain.blocks| == |s.chain.blocks| + Successes(outs)
      && s'.usedNullifiers >= s.usedNullifiers
      && (forall i :: 0 <= i < |outs| && outs[i].Success? ==>
            outs[i].value.zkpValid && outs[i].value.nullifier !in s.usedNullifiers
            && outs[i].value.nullifier in s'.usedNullifiers)
      && (forall i, j :: 0 <= i < j < |outs| && outs[i].Success? && outs[j].Success? ==>
            outs[i].value.nullifier != outs[j].value.nullifier)
    decreases |reqs|
  {
    if |reqs| > 0 {
      var first := CastVote(o, s, reqs[0].voterId, reqs[0].candidate, reqs[0].entropy);
      RunReceipts(o, first.0, reqs[1..]);
      var (s', outs) := CastAll(o, s, reqs);
      var rest := CastAll(o, first.0, reqs[1..]);
      assert outs == [first.1] + rest.1;
      assert Successes(outs) == (if first.1.Success? then 1 else 0) + Successes(rest.1);
      forall i, j | 0 <= i < j < |outs| && outs[i].Success? && outs[j].Success?
        ensures outs[i].value.nullifier != outs[j].value.nullifier
      {
        assert outs[j] == rest.1[j - 1];
        if i > 0 {
          assert outs[i] == rest.1[i - 1];
        }
      }
      forall i | 0 <= i < |outs| && outs[i].Success?
        ensures outs[i].value.zkpValid && outs[i].value.nullifier !in s.usedNullifiers
        ensures outs[i].value.nullifier in s'.usedNullifiers
      {
        if i > 0 {
          assert outs[i] == rest.1[i - 1];
        }
      }
    }
  }

  /** A run in which mining never runs out keeps the invariant. */
  lemma {:induction false} RunPreservesInv(o: Oracles, s: EVotingPipeline, reqs: seq<CastRequest>)
    requires Inv(o, s) && forall i :: 0 <= i < |reqs| ==> EntropyFits(s, reqs[i].entropy)
    requires forall i :: 0 <= i < |reqs| ==> CastAll(o, s, reqs).1[i] != Failure(CastError.MiningExhausted)
    ensures Inv(o, CastAll(o, s, reqs).0)
    decreases |reqs|
  {
    if |reqs| > 0 {
      var first := CastVote(o, s, reqs[0].voterId, reqs[0].candidate, reqs[0].entropy);
      var rest := CastAll(o, first.0, reqs[1..]);
      assert CastAll(o, s, reqs).1 == [first.1] + rest.1;
      NoMiningFailureSplit(CastAll(o, s, reqs).1, first.1, rest.1);
      CastVotePreservesInv(o, s, reqs[0].voterId, reqs[0].candidate, reqs[0].entropy);
      RunPreservesInv(o, first.0, reqs[1..]);
    }
  }

  /**
   * `decrypt_results` after any run from an invariant state in which mining never ran
   * out: the keys are exactly the candidates with a vote block, each mapped to its
   * number of vote blocks modulo n.
   */
  lemma {:induction false} RunResultsMatchLedger(o: Oracles, s: EVotingPipeline, reqs: seq<CastRequest>)
    requires Inv(o, s) && forall i :: 0 <= i < |reqs| ==> EntropyFits(s, reqs[i].entropy)
    requires forall i :: 0 <= i < |reqs| ==> CastAll(o, s, reqs).1[i] != Failure(CastError.MiningExhausted)
    ensures var s' := CastAll(o, s, reqs).0;
      DecryptResults(s') ==
        map c | c in ChainCandidates(s'.chain.blocks) :: VoteCount(s'.chain.blocks, c) % s'.tallyCrypto.pk.n
  {
    RunPreservesInv(o, s, reqs);
  }

  // ---------------------------------------------------------------------------
  // The three-voter election
  // ---------------------------------------------------------------------------

  /**
   * An eligible voter (template, secret, unused nullifier) is never turned away by a
   * guard: given Fermat's little theorem, the cast either succeeds or runs out of mining
   * budget.
   */
  lemma {:induction false} EligibleCastOnlyFailsInMining(o: Oracles, s: EVotingPipeline, voterId: string, candidate: string, e: CastEntropy)
    requires Wf(s) && EntropyFits(s, e) && ToyZkp.FermatHolds()
    requires voterId in s.templates && voterId in s.secretRegistry && BuildNullifier(o, s, voterId) !in s.usedNullifiers
    ensures var out := CastVote(o, s, voterId, candidate, e);
      out.1.Success? || out.1 == Failure(CastError.MiningExhausted)
  {
    CastNeverRejectsProof(o, s, voterId, candidate, e);
  }

  /** A successful cast extends the ledger by its tip, a vote for the candidate. */
  lemma {:induction false} SuccessAppendsVote(o: Oracles, s: EVotingPipeline, voterId: string, candidate: string, e: CastEntropy)
    requires Wf(s) && EntropyFits(s, e) && CastVote(o, s, voterId, candidate, e).1.Success?
    ensures var s' := CastVote(o, s, voterId, candidate, e).0;
      s'.chain.blocks == s.chain.blocks + [Tip(s'.chain)] && IsVoteFor(Tip(s'.chain), candidate)
  {
    var s' := CastVote(o, s, voterId, candidate, e).0;
    assert s'.chain.blocks == s'.chain.blocks[..|s.chain.blocks|] + [Tip(s'.chain)];
  }

  /** One eligible cast whose mining does not run out, as the example needs it. */
  lemma {:induction false} EligibleStep(o: Oracles, s: EVotingPipeline, voterId: string, candidate: string, e: CastEntropy)
    requires Wf(s) && EntropyFits(s, e) && ToyZkp.FermatHolds()
    requires voterId in s.templates && voterId in s.secretRegistry && BuildNullifier(o, s, voterId) !in s.usedNullifiers
    requires CastVote(o, s, voterId, candidate, e).1 != Failure(CastError.MiningExhausted)
    ensures var s' := CastVote(o, s, voterId, candidate, e).0;
      && CastVote(o, s, voterId, candidate, e).1.Success?
      && s'.chain.blocks == s.chain.blocks + [Tip(s'.chain)] && IsVoteFor(Tip(s'.chain), candidate)
      && s'.templates == s.templates && s'.secretRegistry == s.secretRegistry && s'.electionId == s.electionId
      && s'.usedNullifiers == s.usedNullifiers + {BuildNullifier(o, s, voterId)}
  {
    EligibleCastOnlyFailsInMining(o, s, voterId, candidate, e);
    SuccessAppendsVote(o, s, voterId, candidate, e);
  }

  /**
   * Every request in the run comes from an enrolled voter with a secret, and the voters'
   * nullifiers are pairwise distinct and unused.
   */
  predicate EligibleRun(o: Oracles, s: EVotingPipeline, reqs: seq<CastRequest>)
  {
    && (forall i :: 0 <= i < |reqs| ==> reqs[i].voterId in s.templates && reqs[i].voterId in s.secretRegistry)
    && (forall i :: 0 <= i < |reqs| ==> BuildNullifier(o, s, reqs[i].voterId) !in s.usedNullifiers)
    && (forall i, j :: 0 <= i < j < |reqs| ==>
          BuildNullifier(o, s, reqs[i].voterId) != BuildNullifier(o, s, reqs[j].voterId))
  }

  /**
   * A run of eligible voters in which mining never runs out succeeds at every cast and
   * appends one vote per request, in request order, for the requested candidate.
   */
  lemma {:induction false} EligibleRunSucceeds(o: Oracles, s: EVotingPipeline, reqs: seq<CastRequest>)
    requires Wf(s) && ToyZkp.FermatHolds() && forall i :: 0 <= i < |reqs| ==> EntropyFits(s, reqs[i].entropy)
    requires EligibleRun(o, s, reqs)
    requires forall i :: 0 <= i < |reqs| ==> CastAll(o, s, reqs).1[i] != Failure(CastError.MiningExhausted)
    ensures AllSucceeded(CastAll(o, s, reqs).1)
    ensures VotesFrom(CastAll(o, s, reqs).0.chain.blocks, |s.chain.blocks|, reqs)
    ensures CastAll(o, s, reqs).0.chain.blocks[..|s.chain.blocks|] == s.chain.blocks
    decreases |reqs|
  {
    if |reqs| > 0 {
      var first := EligibleRunStep(o, s, reqs);
      var tail := reqs[1..];
      EligibleRunSucceeds(o, first, tail);
      var rest := CastAll(o, first, tail);
      RunOutcomesCons(CastAll(o, s, reqs).1, rest.1);
      var fin := CastAll(o, s, reqs).0.chain.blocks;
      assert fin == rest.0.chain.blocks;
      VotesAfterCons(s.chain.blocks, first.chain.blocks, fin, reqs);
    }
  }

  /** Every outcome of a run is a success. */
  predicate AllSucceeded(outs: seq<Result<CastVoteReceipt, CastError>>)
  {
    forall i :: 0 <= i < |outs| ==> outs[i].Success?
  }

  /** From position `k` on, `bs` holds exactly one vote per request, for its candidate, in order. */
  predicate VotesFrom(bs: seq<Block>, k: nat, reqs: seq<CastRequest>)
  {
    |bs| == k + |reqs| && forall i :: 0 <= i < |reqs| ==> IsVoteFor(bs[k + i], reqs[i].candidate)
  }

  /**
   * The first cast of an eligible run succeeds and appends its vote, and the rest of the
   * run from the resulting state is again an eligible run without mining failures.
   */
  lemma {:induction false} EligibleRunStep(o: Oracles, s: EVotingPipeline, reqs: seq<CastRequest>) returns (first: EVotingPipeline)
    requires |reqs| >= 1
    requires Wf(s) && ToyZkp.FermatHolds() && forall i :: 0 <= i < |reqs| ==> EntropyFits(s, reqs[i].entropy)
    requires EligibleRun(o, s, reqs)
    requires forall i :: 0 <= i < |reqs| ==> CastAll(o, s, reqs).1[i] != Failure(CastError.MiningExhausted)
    ensures first == CastVote(o, s, reqs[0].voterId, reqs[0].candidate, reqs[0].entropy).0
    ensures Wf(first) && forall i :: 0 <= i < |reqs[1..]| ==> EntropyFits(first, reqs[1..][i].entropy)
    ensures EligibleRun(o, first, reqs[1..])
    ensures forall i :: 0 <= i < |reqs[1..]| ==> CastAll(o, first, reqs[1..]).1[i] != Failure(CastError.MiningExhausted)
    ensures CastAll(o, s, reqs).0 == CastAll(o, first, reqs[1..]).0
    ensures CastAll(o, s, reqs).1 == [CastVote(o, s, reqs[0].voterId, reqs[0].candidate, reqs[0].entropy).1]
                                     + CastAll(o, first, reqs[1..]).1
    ensures CastVote(o, s, reqs[0].voterId, reqs[0].candidate, reqs[0].entropy).1.Success?
    ensures |first.chain.blocks| == |s.chain.blocks| + 1 && first.chain.blocks[..|s.chain.blocks|] == s.chain.blocks
    ensures IsVoteFor(first.chain.blocks[|s.chain.blocks|], reqs[0].candidate)
  {
    var r := reqs[0];
    var out;
    first, out := CastAllCons(o, s, reqs);
    NoMiningFailureSplit(CastAll(o, s, reqs).1, out, CastAll(o, first, reqs[1..]).1);
    assert out == CastVote(o, s, r.voterId, r.candidate, r.entropy).1;
    EligibleStep(o, s, r.voterId, r.candidate, r.entropy);
    EligibleRunTail(o, s, first, reqs);
  }

  /** Outcome bookkeeping: no mining failure in a run means none in its first cast or in the rest. */
  lemma {:induction false} NoMiningFailureSplit(outs: seq<Result<CastVoteReceipt, CastError>>, out: Result<CastVoteReceipt, CastError>,
                             rest: seq<Result<CastVoteReceipt, CastError>>)
    requires outs == [out] + rest
    requires forall i :: 0 <= i < |outs| ==> outs[i] != Failure(CastError.MiningExhausted)
    ensures out != Failure(CastError.MiningExhausted)
    ensures forall i :: 0 <= i < |rest| ==> rest[i] != Failure(CastError.MiningExhausted)
  {
    assert outs[0] == out;
    forall i | 0 <= i < |rest| ensures rest[i] != Failure(CastError.MiningExhausted) {
      assert rest[i] == outs[i + 1];
    }
  }

  /** Outcome bookkeeping for `EligibleRunSucceeds`. */
  lemma {:induction false} RunOutcomesCons(outs: seq<Result<CastVoteReceipt, CastError>>, rest: seq<Result<CastVoteReceipt, CastError>>)
    requires |outs| == |rest| + 1 && outs[0].Success? && outs[1..] == rest
    requires AllSucceeded(rest)
    ensures AllSucceeded(outs)
  {
    forall i | 0 <= i < |outs| ensures outs[i].Success? {
      if i > 0 {
        assert outs[i] == rest[i - 1];
      }
    }
  }

  /** Unfolds `CastAll` once: the first cast, then the run of the rest from its state. */
  lemma {:induction false} CastAllCons(o: Oracles, s: EVotingPipeline, reqs: seq<CastRequest>)
    returns (first: EVotingPipeline, out: Result<CastVoteReceipt, CastError>)
    requires |reqs| >= 1 && Wf(s) && forall i :: 0 <= i < |reqs| ==> EntropyFits(s, reqs[i].entropy)
    ensures (first, out) == CastVote(o, s, reqs[0].voterId, reqs[0].candidate, reqs[0].entropy)
    ensures Wf(first) && forall i :: 0 <= i < |reqs[1..]| ==> EntropyFits(first, reqs[1..][i].entropy)
    ensures CastAll(o, s, reqs).0 == CastAll(o, first, reqs[1..]).0
    ensures CastAll(o, s, reqs).1 == [out] + CastAll(o, first, reqs[1..]).1
  {
    var r := CastVote(o, s, reqs[0].voterId, reqs[0].candidate, reqs[0].entropy);
    first, out := r.0, r.1;
    EntropyFitsTail(s, first, reqs);
  }

  /** Sequence bookkeeping for `EligibleRunSucceeds`: one vote, then the votes of the rest. */
  lemma {:induction false} VotesAfterCons(bs: seq<Block>, bs1: seq<Block>, bs': seq<Block>, reqs: seq<CastRequest>)
    requires |reqs| >= 1 && |bs1| == |bs| + 1 && bs1[..|bs|] == bs && IsVoteFor(bs1[|bs|], reqs[0].candidate)
    requires VotesFrom(bs', |bs1|, reqs[1..]) && bs'[..|bs1|] == bs1
    ensures VotesFrom(bs', |bs|, reqs) && bs'[..|bs|] == bs
  {
    assert bs'[..|bs|] == bs'[..|bs1|][..|bs|];
    forall i | 0 <= i < |reqs| ensures IsVoteFor(bs'[|bs| + i], reqs[i].candidate) {
      if i == 0 {
        assert bs'[|bs|] == bs'[..|bs1|][|bs|];
      } else {
        assert reqs[1..][i - 1] == reqs[i];
        assert |bs1| + (i - 1) == |bs| + i;
      }
    }
  }

  /** After the first eligible cast of a run, the rest of the run is still eligible. */
  lemma {:induction false} EligibleRunTail(o: Oracles, s: EVotingPipeline, s': EVotingPipeline, reqs: seq<CastRequest>)
    requires |reqs| >= 1 && EligibleRun(o, s, reqs)
    requires s'.templates == s.templates && s'.secretRegistry == s.secretRegistry && s'.electionId == s.electionId
    requires s'.usedNullifiers == s.usedNullifiers + {BuildNullifier(o, s, reqs[0].voterId)}
    ensures EligibleRun(o, s', reqs[1..])
  {
    var tail := reqs[1..];
    forall i | 0 <= i < |tail| ensures tail[i] == reqs[i + 1] && tail[i].voterId in s'.templates {
    }
    forall i | 0 <= i < |tail|
      ensures BuildNullifier(o, s', tail[i].voterId) == BuildNullifier(o, s, reqs[i + 1].voterId)
    {
      NullifierDeterministic(o, s, s', tail[i].voterId);
    }
  }

  /** The ballots of the example: A for "Alice", B for "Bob", C for "Alice". */
  function Ballots(e1: CastEntropy, e2: CastEntropy, e3: CastEntropy): seq<CastRequest>
  {
    [CastRequest("A", "Alice", e1), CastRequest("B", "Bob", e2), CastRequest("C", "Alice", e3)]
  }

  /** A fresh pipeline with A, B and C enrolled in that order. */
  function ElectionStart(o: Oracles, electionId: string, timestamp: real, keyDraw: nat,
                         a: Enrollment, b: Enrollment, c: Enrollment): EVotingPipeline
    requires keyDraw < ToyFhe.Pow2(ToyFhe.DefaultModulusBits)
    requires a.secretDraw < ToyZkp.P - 2 && b.secretDraw < ToyZkp.P - 2 && c.secretDraw < ToyZkp.P - 2
  {
    var s0 := NewPipeline(o, electionId, timestamp, keyDraw);
    var s1 := Enroll(s0, "A", a.templateId, a.secretDraw);
    var s2 := Enroll(s1, "B", b.templateId, b.secretDraw);
    Enroll(s2, "C", c.templateId, c.secretDraw)
  }

  /** A, B and C are enrolled, none has voted, and the ledger holds only genesis. */
  predicate ReadyForElection(s: EVotingPipeline)
  {
    && |s.chain.blocks| == 1 && s.usedNullifiers == {}
    && "A" in s.templates && "A" in s.secretRegistry
    && "B" in s.templates && "B" in s.secretRegistry
    && "C" in s.templates && "C" in s.secretRegistry
  }

  /** The three voters' nullifiers differ (they would under an injective nullifier hash). */
  predicate DistinctNullifiers(o: Oracles, s: EVotingPipeline)
    requires "A" in s.templates && "B" in s.templates && "C" in s.templates
  {
    var a := BuildNullifier(o, s, "A");
    var b := BuildNullifier(o, s, "B");
    var c := BuildNullifier(o, s, "C");
    a != b && a != c && b != c
  }

  /** Enrolling A, B and C into a fresh pipeline gives an invariant state ready for the election. */
  lemma {:induction false} ElectionStartReady(o: Oracles, electionId: string, timestamp: real, keyDraw: nat,
                           a: Enrollment, b: Enrollment, c: Enrollment)
    requires keyDraw < ToyFhe.Pow2(ToyFhe.DefaultModulusBits)
    requires a.secretDraw < ToyZkp.P - 2 && b.secretDraw < ToyZkp.P - 2 && c.secretDraw < ToyZkp.P - 2
    ensures var s := ElectionStart(o, electionId, timestamp, keyDraw, a, b, c);
      && Inv(o, s) && ReadyForElection(s) && s.electionId == electionId
      && s.templates == map["A" := a.templateId, "B" := b.templateId, "C" := c.templateId]
  {
    var s0 := NewPipeline(o, electionId, timestamp, keyDraw);
    var s1 := Enroll(s0, "A", a.templateId, a.secretDraw);
    var s2 := Enroll(s1, "B", b.templateId, b.secretDraw);
    EnrollPreservesInv(o, s0, "A", a.templateId, a.secretDraw);
    EnrollPreservesInv(o, s1, "B", b.templateId, b.secretDraw);
    EnrollPreservesInv(o, s2, "C", c.templateId, c.secretDraw);
  }

  /**
   * From a state with A, B and C enrolled and nothing cast, cast A for "Alice", B for
   * "Bob", C for "Alice". Given Fermat's little theorem, distinct nullifiers and mining
   * that never runs out, all three casts succeed and the ledger is genesis followed by
   * the three votes in ballot order.
   */
  lemma {:induction false} ThreeVoterLedger(o: Oracles, s: EVotingPipeline, e1: CastEntropy, e2: CastEntropy, e3: CastEntropy)
    requires Inv(o, s) && ReadyForElection(s) && DistinctNullifiers(o, s) && ToyZkp.FermatHolds()
    requires EntropyFits(s, e1) && EntropyFits(s, e2) && EntropyFits(s, e3)
    requires forall i :: 0 <= i < 3 ==> CastAll(o, s, Ballots(e1, e2, e3)).1[i] != Failure(CastError.MiningExhausted)
    ensures var (s', outs) := CastAll(o, s, Ballots(e1, e2, e3));
      && AllSucceeded(outs) && |s'.chain.blocks| == 4 && s'.chain.blocks[0] == s.chain.blocks[0]
      && IsVoteFor(s'.chain.blocks[1], "Alice") && IsVoteFor(s'.chain.blocks[2], "Bob")
      && IsVoteFor(s'.chain.blocks[3], "Alice")
  {
    var reqs := Ballots(e1, e2, e3);
    assert EligibleRun(o, s, reqs);
    EligibleRunSucceeds(o, s, reqs);
    var bs' := CastAll(o, s, reqs).0.chain.blocks;
    assert VotesFrom(bs', 1, reqs);
    assert IsVoteFor(bs'[1 + 0], reqs[0].candidate);
    assert IsVoteFor(bs'[1 + 1], reqs[1].candidate);
    assert IsVoteFor(bs'[1 + 2], reqs[2].candidate);
    assert bs'[0] == bs'[..1][0];
  }

  /**
   * The same election, read through the results: the ledger still validates, no
   * nullifier repeats, and the results are Alice 2 and Bob 1 (modulo n).
   */
  lemma {:induction false} ThreeVoterElection(o: Oracles, s: EVotingPipeline, e1: CastEntropy, e2: CastEntropy, e3: CastEntropy)
    requires Inv(o, s) && ReadyForElection(s) && DistinctNullifiers(o, s) && ToyZkp.FermatHolds()
    requires EntropyFits(s, e1) && EntropyFits(s, e2) && EntropyFits(s, e3)
    requires forall i :: 0 <= i < 3 ==> CastAll(o, s, Ballots(e1, e2, e3)).1[i] != Failure(CastError.MiningExhausted)
    ensures var s' := CastAll(o, s, Ballots(e1, e2, e3)).0;
      && Valid(o.block, s'.chain) && NullifiersUnique(s'.chain.blocks)
      && DecryptResults(s') == map["Alice" := 2 % s'.tallyCrypto.pk.n, "Bob" := 1 % s'.tallyCrypto.pk.n]
  {
    var reqs := Ballots(e1, e2, e3);
    ThreeVoterLedger(o, s, e1, e2, e3);
    RunPreservesInv(o, s, reqs);
    RunResultsMatchLedger(o, s, reqs);
    var s' := CastAll(o, s, reqs).0;
    ThreeVoteCounts(s'.chain.blocks, s'.tallyCrypto.pk.n);
  }

  /**
   * Vote counts and candidates of genesis followed by votes for "Alice", "Bob", "Alice",
   * and the results map they give modulo n.
   */
  lemma {:induction false} ThreeVoteCounts(bs: seq<Block>, n: int)
    requires |bs| == 4 && bs[0].payload == Genesis && n >= 1
    requires IsVoteFor(bs[1], "Alice") && IsVoteFor(bs[2], "Bob") && IsVoteFor(bs[3], "Alice")
    ensures ChainCandidates(bs) == {"Alice", "Bob"}
    ensures VoteCount(bs, "Alice") == 2 && VoteCount(bs, "Bob") == 1
    ensures (map c | c in ChainCandidates(bs) :: VoteCount(bs, c) % n) == map["Alice" := 2 % n, "Bob" := 1 % n]
  {
    ThreeVoteTallies(bs);
    TwoCandidateResults(bs, n);
  }

  /** Results map of a ledger whose only candidates are "Alice" with 2 votes and "Bob" with 1. */
  lemma {:induction false} TwoCandidateResults(bs: seq<Block>, n: int)
    requires n >= 1 && ChainCandidates(bs) == {"Alice", "Bob"}
    requires VoteCount(bs, "Alice") == 2 && VoteCount(bs, "Bob") == 1
    ensures (map c | c in ChainCandidates(bs) :: VoteCount(bs, c) % n) == map["Alice" := 2 % n, "Bob" := 1 % n]
  {
    var m := map c | c in ChainCandidates(bs) :: VoteCount(bs, c) % n;
    assert m.Keys == {"Alice", "Bob"};
    assert m["Alice"] == 2 % n && m["Bob"] == 1 % n;
  }

  /** Candidates and counts of genesis followed by votes for "Alice", "Bob", "Alice". */
  lemma {:induction false} ThreeVoteTallies(bs: seq<Block>)
    requires |bs| == 4 && bs[0].payload == Genesis
    requires IsVoteFor(bs[1], "Alice") && IsVoteFor(bs[2], "Bob") && IsVoteFor(bs[3], "Alice")
    ensures ChainCandidates(bs) == {"Alice", "Bob"}
    ensures VoteCount(bs, "Alice") == 2 && VoteCount(bs, "Bob") == 1
  {
    var g, b1, b2, b3 := [bs[0]], bs[1], bs[2], bs[3];
    var p1 := g + [b1];
    var p2 := p1 + [b2];
    assert bs == p2 + [b3];
    GenesisViews(bs[0]);
    AppendVoteViews(g, b1);
    AppendVoteViews(p1, b2);
    AppendVoteViews(p2, b3);
    VoteCountAppend(g, b1, "Alice");
    VoteCountAppend(p1, b2, "Alice");
    VoteCountAppend(p2, b3, "Alice");
    VoteCountAppend(g, b1, "Bob");
    VoteCountAppend(p1, b2, "Bob");
    VoteCountAppend(p2, b3, "Bob");
  }

  /** A ledger holding only genesis names no candidate and counts no vote. */
  lemma {:induction false} GenesisViews(b0: Block)
    requires b0.payload == Genesis
    ensures ChainCandidates([b0]) == {}
    ensures forall c :: VoteCount([b0], c) == 0
  {
    assert [b0][..0] == [];
  }
}
