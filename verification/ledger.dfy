/**
 * The hash-linked, proof-of-work ledger. SHA-256 over the canonical JSON encoding of a
 * block's fields is the caller-supplied `BlockHasher`; the wall-clock timestamp is an
 * opaque value passed in; mining searches nonces from 0 up to a caller-chosen ceiling.
 */
module Ledger {
  import opened Wrappers
  import opened Payloads

  /** A hex digest. */
  type Digest = string

  /** The fields a block's hash covers: everything except the stored hash itself. */
  datatype Header = Header(index: nat, previousHash: Digest, timestamp: real, payload: Payload, nonce: nat)

  /** `sha256(json.dumps(fields, sort_keys=True)).hexdigest()`, left uninterpreted. */
  type BlockHasher = Header -> Digest

  datatype Block = Block(index: nat, previousHash: Digest, timestamp: real, payload: Payload, nonce: nat, hash: Digest)

  /** The ledger: its work-factor prefix and its blocks, genesis first. */
  datatype VoteChain = VoteChain(difficultyPrefix: string, blocks: seq<Block>)

  datatype LedgerError = MiningExhausted

  /** The `previous_hash` of the genesis block: 64 zero characters. */
  const ZeroHash: Digest := "0000000000000000000000000000000000000000000000000000000000000000"

  /** Work factor used when none is given. */
  const DefaultDifficulty: string := "000"

  function HeaderOf(b: Block): Header
  {
    Header(b.index, b.previousHash, b.timestamp, b.payload, b.nonce)
  }

  /** `compute_hash`: the digest of the hashed fields, recomputed on demand. */
  function ComputeHash(h: BlockHasher, b: Block): Digest
  {
    h(HeaderOf(b))
  }

  /** A block whose stored hash is its recomputed hash. */
  function Sealed(h: BlockHasher, hd: Header): (b: Block)
    ensures HeaderOf(b) == hd && b.hash == ComputeHash(h, b)
  {
    Block(hd.index, hd.previousHash, hd.timestamp, hd.payload, hd.nonce, h(hd))
  }

  /** The hasher does not collide on these two field sets. */
  predicate CollisionFree(h: BlockHasher, x: Header, y: Header)
  {
    x != y ==> h(x) != h(y)
  }

  /** The three checks applied to every non-genesis block, in the order they are made. */
  predicate Linked(h: BlockHasher, prefix: string, prev: Block, curr: Block)
  {
    && curr.previousHash == prev.hash
    && ComputeHash(h, curr) == curr.hash
    && prefix <= curr.hash
  }

  /** Structural validity: every block after genesis passes the three checks; genesis is never checked. */
  predicate Valid(h: BlockHasher, c: VoteChain)
  {
    forall i :: 1 <= i < |c.blocks| ==> Linked(h, c.difficultyPrefix, c.blocks[i - 1], c.blocks[i])
  }

  function Tip(c: VoteChain): Block
    requires |c.blocks| >= 1
  {
    c.blocks[|c.blocks| - 1]
  }

  /**
   * A new ledger holding only the genesis block: index 0, the zero previous hash, the
   * genesis payload, nonce 0 and its (unmined) hash. It validates whatever the prefix.
   */
  function NewChain(h: BlockHasher, prefix: string, timestamp: real): (c: VoteChain)
    ensures c.difficultyPrefix == prefix && |c.blocks| == 1
    ensures c.blocks[0].index == 0 && c.blocks[0].previousHash == ZeroHash && |ZeroHash| == 64
    ensures c.blocks[0].payload == Genesis && c.blocks[0].nonce == 0 && c.blocks[0].timestamp == timestamp
    ensures c.blocks[0].hash == ComputeHash(h, c.blocks[0])
    ensures Valid(h, c)
  {
    VoteChain(prefix, [Sealed(h, Header(0, ZeroHash, timestamp, Genesis, 0))])
  }

  /** Genesis is never checked, so any one-block ledger validates. */
  lemma {:induction false} SingleBlockValid(h: BlockHasher, c: VoteChain)
    requires |c.blocks| == 1
    ensures Valid(h, c)
  {
  }

  /** The hash covers the five header fields only: two blocks agreeing on them hash alike. */
  lemma {:induction false} HashIgnoresStoredHash(h: BlockHasher, b1: Block, b2: Block)
    requires b1.index == b2.index && b1.previousHash == b2.previousHash && b1.timestamp == b2.timestamp
    requires b1.payload == b2.payload && b1.nonce == b2.nonce
    ensures ComputeHash(h, b1) == ComputeHash(h, b2)
  {
  }

  /** The proof-of-work condition for the header with nonce k. */
  predicate MeetsDifficulty(h: BlockHasher, prefix: string, hd: Header, k: nat)
  {
    prefix <= h(hd.(nonce := k))
  }

  /**
   * The mining loop: the least nonce in [from, ceiling) whose digest starts with the
   * prefix, or None when every nonce in that range misses it.
   */
  function FindNonce(h: BlockHasher, prefix: string, hd: Header, from: nat, ceiling: nat): (r: Option<nat>)
    decreases ceiling - from
    ensures r.Some? ==> from <= r.value < ceiling && MeetsDifficulty(h, prefix, hd, r.value)
    ensures r.Some? ==> forall k :: from <= k < r.value ==> !MeetsDifficulty(h, prefix, hd, k)
    ensures r.None? ==> forall k :: from <= k < ceiling ==> !MeetsDifficulty(h, prefix, hd, k)
  {
    if from >= ceiling then None
    else if MeetsDifficulty(h, prefix, hd, from) then Some(from)
    else FindNonce(h, prefix, hd, from + 1, ceiling)
  }

  /** The header `add_block` starts mining from: next index, tip's hash, nonce 0. */
  function NextHeader(c: VoteChain, payload: Payload, timestamp: real): Header
    requires |c.blocks| >= 1
  {
    Header(|c.blocks|, Tip(c).hash, timestamp, payload, 0)
  }

  /**
   * `add_block`: mines a block on top of the tip and appends it. On success the ledger
   * grows by exactly that block, which links to the old tip, carries the payload, has a
   * correctly recomputed hash meeting the work factor, and used the least such nonce.
   * Failure (only possible because of the ceiling) means no nonce below it works.
   */
  function AddBlock(h: BlockHasher, c: VoteChain, payload: Payload, timestamp: real, ceiling: nat)
    : (r: Result<(VoteChain, Block), LedgerError>)
    requires |c.blocks| >= 1
    ensures r.Success? ==>
      var (c', b) := r.value;
      && c'.difficultyPrefix == c.difficultyPrefix
      && c'.blocks == c.blocks + [b]
      && b.index == |c.blocks| && b.previousHash == Tip(c).hash
      && b.timestamp == timestamp && b.payload == payload
      && b.hash == ComputeHash(h, b) && c.difficultyPrefix <= b.hash
      && b.nonce < ceiling
      && forall k :: 0 <= k < b.nonce ==> !MeetsDifficulty(h, c.difficultyPrefix, NextHeader(c, payload, timestamp), k)
    ensures r.Failure? ==>
      forall k :: 0 <= k < ceiling ==> !MeetsDifficulty(h, c.difficultyPrefix, NextHeader(c, payload, timestamp), k)
  {
    var hd := NextHeader(c, payload, timestamp);
    match FindNonce(h, c.difficultyPrefix, hd, 0, ceiling)
    case None => Failure(MiningExhausted)
    case Some(k) =>
      var b := Sealed(h, hd.(nonce := k));
      Success((c.(blocks := c.blocks + [b]), b))
  }

  /** With a nonce below the ceiling that meets the work factor, mining cannot run out. */
  lemma {:induction false} AddBlockSucceeds(h: BlockHasher, c: VoteChain, payload: Payload, timestamp: real, ceiling: nat, k: nat)
    requires |c.blocks| >= 1 && k < ceiling
    requires MeetsDifficulty(h, c.difficultyPrefix, NextHeader(c, payload, timestamp), k)
    ensures AddBlock(h, c, payload, timestamp, ceiling).Success?
  {
  }

  /** A block that passes the three checks against the tip extends a valid ledger to a valid one. */
  lemma {:induction false} ExtendValid(h: BlockHasher, c: VoteChain, b: Block)
    requires |c.blocks| >= 1 && Valid(h, c) && Linked(h, c.difficultyPrefix, Tip(c), b)
    ensures Valid(h, c.(blocks := c.blocks + [b]))
  {
    var c' := c.(blocks := c.blocks + [b]);
    forall i | 1 <= i < |c'.blocks|
      ensures Linked(h, c'.difficultyPrefix, c'.blocks[i - 1], c'.blocks[i])
    {
      if i < |c.blocks| {
        assert c'.blocks[i - 1] == c.blocks[i - 1] && c'.blocks[i] == c.blocks[i];
      } else {
        assert c'.blocks[i - 1] == Tip(c) && c'.blocks[i] == b;
      }
    }
  }

  /** Appending by `add_block` keeps a valid ledger valid. */
  lemma {:induction false} AddBlockPreservesValidity(h: BlockHasher, c: VoteChain, payload: Payload, timestamp: real, ceiling: nat)
    requires |c.blocks| >= 1 && Valid(h, c)
    ensures AddBlock(h, c, payload, timestamp, ceiling).Success? ==>
      Valid(h, AddBlock(h, c, payload, timestamp, ceiling).value.0)
  {
    var r := AddBlock(h, c, payload, timestamp, ceiling);
    if r.Success? {
      ExtendValid(h, c, r.value.1);
    }
  }

  /**
   * `validate_chain`: walks the blocks after genesis and answers false at the first
   * failed check, true when all pass; it never fails otherwise.
   */
  method ValidateChain(h: BlockHasher, c: VoteChain) returns (ok: bool)
    ensures ok <==> Valid(h, c)
  {
    var i := 1;
    while i < |c.blocks|
      invariant 1 <= i
      invariant forall j :: 1 <= j < i && j < |c.blocks| ==> Linked(h, c.difficultyPrefix, c.blocks[j - 1], c.blocks[j])
    {
      var curr := c.blocks[i];
      var prev := c.blocks[i - 1];
      if curr.previousHash != prev.hash {
        return false;
      }
      if ComputeHash(h, curr) != curr.hash {
        return false;
      }
      if !(c.difficultyPrefix <= curr.hash) {
        return false;
      }
      i := i + 1;
    }
    return true;
  }

  function ReplaceBlock(c: VoteChain, i: nat, b: Block): (c': VoteChain)
    requires i < |c.blocks|
    ensures c'.difficultyPrefix == c.difficultyPrefix && |c'.blocks| == |c.blocks| && c'.blocks[i] == b
    ensures forall j :: 0 <= j < |c.blocks| && j != i ==> c'.blocks[j] == c.blocks[j]
  {
    c.(blocks := c.blocks[i := b])
  }

  /**
   * Tampering without recomputing the hash: a block after genesis whose hashed fields
   * changed but whose stored hash did not fails its own recomputation check.
   */
  lemma {:induction false} StaleHashDetected(h: BlockHasher, c: VoteChain, i: nat, b: Block)
    requires Valid(h, c) && 1 <= i < |c.blocks|
    requires HeaderOf(b) != HeaderOf(c.blocks[i]) && b.hash == c.blocks[i].hash
    requires CollisionFree(h, HeaderOf(b), HeaderOf(c.blocks[i]))
    ensures !Valid(h, ReplaceBlock(c, i, b))
  {
    var c' := ReplaceBlock(c, i, b);
    assert Linked(h, c.difficultyPrefix, c.blocks[i - 1], c.blocks[i]);
    assert !Linked(h, c'.difficultyPrefix, c'.blocks[i - 1], c'.blocks[i]);
  }

  /**
   * Tampering and then recomputing (or re-mining) the hash: any block before the tip,
   * genesis included, whose hashed fields changed breaks its successor's link.
   */
  lemma {:induction false} RewrittenBlockBreaksLink(h: BlockHasher, c: VoteChain, i: nat, b: Block)
    requires Valid(h, c) && i + 1 < |c.blocks|
    requires HeaderOf(b) != HeaderOf(c.blocks[i]) && b.hash == ComputeHash(h, b)
    requires CollisionFree(h, HeaderOf(b), HeaderOf(c.blocks[i]))
    requires i >= 1 || c.blocks[0].hash == ComputeHash(h, c.blocks[0])
    ensures !Valid(h, ReplaceBlock(c, i, b))
  {
    var c' := ReplaceBlock(c, i, b);
    if i >= 1 {
      assert Linked(h, c.difficultyPrefix, c.blocks[i - 1], c.blocks[i]);
    }
    assert Linked(h, c.difficultyPrefix, c.blocks[i], c.blocks[i + 1]);
    assert !Linked(h, c'.difficultyPrefix, c'.blocks[i], c'.blocks[i + 1]);
  }

  /** The attacker's edit: new payload, hash recomputed, nonce kept. */
  function RewritePayload(h: BlockHasher, b: Block, payload: Payload): (b': Block)
    ensures b'.payload == payload && b'.hash == ComputeHash(h, b')
  {
    Sealed(h, HeaderOf(b).(payload := payload))
  }

  /** The compromised node's edit: new payload, then mined again from nonce 0. */
  function RewriteAndRemine(h: BlockHasher, prefix: string, b: Block, payload: Payload, ceiling: nat): (r: Option<Block>)
    ensures r.Some? ==> r.value.payload == payload && r.value.hash == ComputeHash(h, r.value) && prefix <= r.value.hash
  {
    var hd := HeaderOf(b).(payload := payload, nonce := 0);
    match FindNonce(h, prefix, hd, 0, ceiling)
    case None => None
    case Some(k) => Some(Sealed(h, hd.(nonce := k)))
  }

  /**
   * The tamper attack on a block after genesis and before the tip, with its hash
   * recomputed, is detected.
   */
  lemma {:induction false} TamperAttackDetected(h: BlockHasher, c: VoteChain, i: nat, payload: Payload)
    requires Valid(h, c) && 1 <= i && i + 1 < |c.blocks|
    requires payload != c.blocks[i].payload
    requires CollisionFree(h, HeaderOf(c.blocks[i]).(payload := payload), HeaderOf(c.blocks[i]))
    ensures !Valid(h, ReplaceBlock(c, i, RewritePayload(h, c.blocks[i], payload)))
  {
    RewrittenBlockBreaksLink(h, c, i, RewritePayload(h, c.blocks[i], payload));
  }

  /** The node-compromise attack (rewrite and re-mine one block before the tip) is detected. */
  lemma {:induction false} NodeCompromiseDetected(h: BlockHasher, c: VoteChain, i: nat, payload: Payload, ceiling: nat)
    requires Valid(h, c) && 1 <= i && i + 1 < |c.blocks|
    requires payload != c.blocks[i].payload
    requires var r := RewriteAndRemine(h, c.difficultyPrefix, c.blocks[i], payload, ceiling);
      r.Some? ==> CollisionFree(h, HeaderOf(r.value), HeaderOf(c.blocks[i]))
    ensures var r := RewriteAndRemine(h, c.difficultyPrefix, c.blocks[i], payload, ceiling);
      r.Some? ==> !Valid(h, ReplaceBlock(c, i, r.value))
  {
    var r := RewriteAndRemine(h, c.difficultyPrefix, c.blocks[i], payload, ceiling);
    if r.Some? {
      RewrittenBlockBreaksLink(h, c, i, r.value);
    }
  }

  /**
   * Rewriting the tip with a recomputed hash goes undetected exactly when the new hash
   * happens to meet the work factor; re-mining the tip therefore always goes undetected.
   */
  lemma {:induction false} RewrittenTipValidIffMeetsPrefix(h: BlockHasher, c: VoteChain, b: Block)
    requires Valid(h, c) && |c.blocks| >= 2
    requires b.previousHash == Tip(c).previousHash && b.hash == ComputeHash(h, b)
    ensures Valid(h, ReplaceBlock(c, |c.blocks| - 1, b)) <==> c.difficultyPrefix <= b.hash
  {
    var n := |c.blocks|;
    var c' := ReplaceBlock(c, n - 1, b);
    if c.difficultyPrefix <= b.hash {
      forall i | 1 <= i < n
        ensures Linked(h, c'.difficultyPrefix, c'.blocks[i - 1], c'.blocks[i])
      {
        if i < n - 1 {
          assert c'.blocks[i - 1] == c.blocks[i - 1] && c'.blocks[i] == c.blocks[i];
        } else {
          assert Linked(h, c.difficultyPrefix, c.blocks[i - 1], c.blocks[i]);
        }
      }
    } else {
      assert !Linked(h, c'.difficultyPrefix, c'.blocks[n - 2], c'.blocks[n - 1]);
    }
  }

  /** Appends payloads one `add_block` at a time, stopping at the first mining failure. */
  function AppendAll(h: BlockHasher, c: VoteChain, entries: seq<(Payload, real)>, ceiling: nat)
    : (r: Result<VoteChain, LedgerError>)
    requires |c.blocks| >= 1
    ensures r.Success? ==> |r.value.blocks| == |c.blocks| + |entries| && r.value.blocks[..|c.blocks|] == c.blocks
    decreases |entries|
  {
    if |entries| == 0 then Success(c)
    else match AddBlock(h, c, entries[0].0, entries[0].1, ceiling)
      case Failure(e) => Failure(e)
      case Success((c', _)) => AppendAll(h, c', entries[1..], ceiling)
  }

  /** Any prefix of a valid ledger that keeps genesis is valid. */
  lemma {:induction false} TruncatePreservesValidity(h: BlockHasher, c: VoteChain, k: nat)
    requires Valid(h, c) && 1 <= k <= |c.blocks|
    ensures Valid(h, c.(blocks := c.blocks[..k]))
  {
  }

  /**
   * Re-mining a block and every successor in order restores validity: dropping the
   * blocks from position i on and appending (possibly altered) payloads again by
   * `add_block` yields a valid ledger.
   */
  lemma {:induction false} RemineSuffixRestoresValidity(h: BlockHasher, c: VoteChain, i: nat, entries: seq<(Payload, real)>, ceiling: nat)
    requires Valid(h, c) && 1 <= i <= |c.blocks|
    ensures var r := AppendAll(h, c.(blocks := c.blocks[..i]), entries, ceiling);
      r.Success? ==> Valid(h, r.value)
  {
    TruncatePreservesValidity(h, c, i);
    AppendAllPreservesValidity(h, c.(blocks := c.blocks[..i]), entries, ceiling);
  }

  lemma {:induction false} AppendAllPreservesValidity(h: BlockHasher, c: VoteChain, entries: seq<(Payload, real)>, ceiling: nat)
    requires |c.blocks| >= 1 && Valid(h, c)
    ensures var r := AppendAll(h, c, entries, ceiling); r.Success? ==> Valid(h, r.value)
    decreases |entries|
  {
    if |entries| > 0 {
      AddBlockPreservesValidity(h, c, entries[0].0, entries[0].1, ceiling);
      var r := AddBlock(h, c, entries[0].0, entries[0].1, ceiling);
      if r.Success? {
        AppendAllPreservesValidity(h, r.value.0, entries[1..], ceiling);
      }
    }
  }

  /** No two vote payloads on the ledger carry the same nullifier (the audit-time uniqueness property). */
  ghost predicate NullifiersUnique(bs: seq<Block>)
  {
    forall i, j :: 0 <= i < j < |bs| && bs[i].payload.Vote? && bs[j].payload.Vote? ==>
      bs[i].payload.nullifier != bs[j].payload.nullifier
  }

  /**
   * Replay: `add_block` places no constraint on the payload, so appending a copy of the
   * tip's payload keeps the ledger structurally valid, while a copied vote duplicates
   * its nullifier.
   */
  lemma {:induction false} ReplayUndetectedByValidation(h: BlockHasher, c: VoteChain, timestamp: real, ceiling: nat)
    requires |c.blocks| >= 1 && Valid(h, c)
    ensures var r := AddBlock(h, c, Tip(c).payload, timestamp, ceiling);
      r.Success? ==> Valid(h, r.value.0) && (Tip(c).payload.Vote? ==> !NullifiersUnique(r.value.0.blocks))
  {
    AddBlockPreservesValidity(h, c, Tip(c).payload, timestamp, ceiling);
    var r := AddBlock(h, c, Tip(c).payload, timestamp, ceiling);
    if r.Success? && Tip(c).payload.Vote? {
      var bs := r.value.0.blocks;
      var n := |c.blocks|;
      assert bs[n - 1] == Tip(c) && bs[n].payload == Tip(c).payload;
    }
  }
}
