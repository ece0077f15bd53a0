/** The failures the provider can throw, and a failure-compatible result type.
    Each constructor names one `throw` (or one rejected promise) of the
    TypeScript sources; the orchestrator propagates them unchanged. */
module Results {

  datatype Error =
    /** `BigInt(text)` of a string that is not an integer literal. */
    | SyntaxError
    /** `BigInt(undefined)`, e.g. a missing gas limit or gas price. */
    | TypeError
    /** A `Buffer` read past the end or a 32-bit write of a value out of range. */
    | RangeError
    /** `BigInt` division by zero. */
    | DivisionByZero
    /** `UInt128ToLeBytes`: "u128 ... too small" / "u128 ... too large". */
    | U128TooSmall
    | U128TooLarge
    /** `normalizeHexValue`: "invalid hexlify value type". */
    | InvalidHexValue
    /** `normalizeEthTransaction`: "missing From in Transaction!". */
    | MissingFrom
    /** `formalizeEthToAddress`: "invalid ETH to_address length". */
    | InvalidToAddressLength(length: nat)
    /** `allTypeEthAddressTo*`: "Invalid eth address length". */
    | InvalidEthAddressLength(byteLength: nat)
    /** A JSON-RPC transport or server error for the named method. */
    | RpcError(rpcMethod: string)
    /** A JSON-RPC call whose result must not be empty came back null. */
    | NoResult(rpcMethod: string)
    /** Reverse lookup: the queried eth address does not re-derive the short address. */
    | AddressMismatch
    /** `buildProcess` precondition failures and dispatch failure. */
    | SendWithoutFrom
    | SendWithoutSigningMethod
    | EstimateGasWithoutMethod
    | UnknownProcessType
    /** The type checks of the three wrappers around `buildProcess`. */
    | NonStringSendResult
    | NonStringCallResult
    | StringEstimateGasResult
    | InvalidRawL2Transaction

  datatype Option<+T> = None | Some(value: T)

  datatype Result<+T> = Ok(value: T) | Err(error: Error) {
    predicate IsFailure() {
      Err?
    }

    function PropagateFailure<U>(): Result<U>
      requires Err?
    {
      Err(error)
    }

    function Extract(): T
      requires Ok?
    {
      value
    }
  }
}
