/** Failure-carrying results, with the error cases the modelled code returns. */
module Outcomes {

  datatype Option<+T> = None | Some(value: T)

  datatype KmsError =
    | PointAtInfinity
    | InvalidPublicKey
    | CryptoError(reason: string)
    | BitProofFailed(index: nat)  // the CryptoError naming a rejected bit
    | DeserializationError(reason: string)
    | InvalidAmount(reason: string)

  datatype Result<+T> = Ok(value: T) | Err(error: KmsError) {
    predicate IsFailure() {
      Err?
    }

    function PropagateFailure<U>(): Result<U>
      requires Err?
    {
      Err(error)
    }

    function Extract(): T
      requires Ok?
    {
      value
    }
  }
}
