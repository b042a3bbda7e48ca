/** Option and Result: the values the row's helpers return instead of throwing. */
module Wrappers {

  datatype Option<+T> = None | Some(value: T)

  /** Every failure in the row is caught and only logged; the kind says which step threw. */
  datatype Failure =
    | InvalidDecimal      // parseEther rejected its argument (unparsable text, a boolean, or undefined)
    | InvalidInteger      // BigNumber.from inside formatUnits rejected the returned value's text
    | MissingDescriptor   // outputs[index] is undefined, so reading its type throws a TypeError
    | CallFailed          // the contract call itself threw or rejected

  datatype Result<+T> = Ok(value: T) | Err(failure: Failure)
}
