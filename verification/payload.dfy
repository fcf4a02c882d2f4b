/** The block payloads the ledger stores: the genesis marker and the vote record. */
module Payloads {
  import ToyZkp

  /**
   * `Genesis` is the `{"genesis": True}` payload of block 0. `Vote` carries the fields
   * the orchestrator serialises for every cast: election, voter, candidate, nullifier,
   * per-cast nonce, proof, template id, tally backend, and the hex-encoded signature and
   * key-encapsulation ciphertext produced by the external post-quantum collaborators.
   */
  datatype Payload =
    | Genesis
    | Vote(electionId: string, voterId: string, candidate: string, nullifier: string,
           castNonce: string, zkp: ToyZkp.ZKProof, templateId: string, heBackend: string,
           signature: string, kemCiphertext: string)
}
