/** Machine words, byte strings, and the errors of `src/error.rs`. */
module Words {

  const U32_LIMIT: nat := 0x1_0000_0000
  const U64_LIMIT: nat := 0x1_0000_0000_0000_0000

  type U32 = x: nat | x < U32_LIMIT witness 0
  type U64 = x: nat | x < U64_LIMIT witness 0
  type Byte = x: nat | x < 256 witness 0
  type Bytes = seq<Byte>

  datatype Option<+T> = None | Some(value: T)

  datatype Error =
    | EmptyContributions
    | InsufficientContributions(got: nat, need: nat)
    | DuplicateIndex(index: U32)
    | InvalidCommitment
    | InvalidResponse
    | InvalidIndex
    | UnexpectedDealer(dealer: U32)
    | ThresholdMismatch(expected: nat, actual: nat)
    | MessageMismatch
    | UnexpectedCommitment
    | SessionMismatch
    | InvalidProofOfKnowledge(dealer: U32)
    | InvalidSubShare(dealer: U32)
    | DkgAborted(qualified: nat, need: nat)
    | SealedOpenFailed(dealer: U32)
    | UnknownParticipant(participant: U32)
    | UnknownQuorumMember(holder: U32)
    | EchoMismatch
    | PrecommitMismatch(holder: U32)
    | SessionSpent
    | InvalidComplaint

  datatype Result<+T> = Ok(value: T) | Err(error: Error) {
    predicate IsFailure() { Err? }

    function PropagateFailure<U>(): Result<U>
      requires Err?
    {
      Err(error)
    }

    function Extract(): T
      requires Ok?
    {
      value
    }
  }
}
