/**
 * Failure outcomes of the loader.  Every ASSERT and every `throw` of the
 * original aborts the whole load at once (utility.hpp:48); here each of
 * them becomes a `Fail(e)` value that the caller propagates with `:-`.  The
 * error carries only a tag naming the message, never the formatted text.
 */
module Errors {

  datatype Error =
    // stream
    | RefillFailed              // "Could not refill ... buffer."
    | StringBufferTooSmall      // "String buffer too small."
    // file prefix
    | NotFromMW1                // "Fast file is not from MW1."
    | NotAFastFile              // "File is not a Fast File."
    | CorruptedFastFile         // "Corrupted Fast File data."
    // header and sections
    | FileSizeOutOfBounds
    | DataSizeOutOfBounds
    | InvalidSectionCombination
    | InternalError             // "Internal error (...)": a count or handle check
    | BadOptimization           // a tag slot that is neither MISSING nor FOLLOWING
    | AssetAddressingError      // a top-level asset handle that is neither MISSING nor FOLLOWING
    | InvalidAssetType
    | UnsupportedAssetType(name: string, assetType: int)
    | DidNotReadAllData         // bytes used differ from the declared data size
    // address codec
    | UnsupportedGroup
    | AddressNotInFastFile
    | CorruptedPointer
    | InvalidAddress
    | UnsupportedAddress
    // arena
    | InvalidAlignment
    | InvalidAllocationSize
    | BeyondMemoryBoundary
    | InvalidParameter
    | SingleAllocationTooLarge
    | MaxStringSizeOutOfRange
    | UncheckedWrite            // the model's explicit bounds error where the original writes unchecked
    | UncheckedRead             // the model's explicit bounds error where the original reads unchecked
    | OutOfMemory
    // asset decoders
    | CorruptedData
    | StringtableSizeOutOfBounds
    | NotYetImplemented
    // command-line helpers
    | InvalidHexadecimalCharacter
    | InvalidDecimalCharacter

  /**
   * A value or the error that aborted the computation.  Methods return it as
   * their first out-parameter (`Result<()>` when they compute nothing), so
   * that callers write `var v :- M(...);` exactly where the original lets an
   * exception propagate.
   */
  datatype Result<+T> = Ok(value: T) | Fail(error: Error) {
    predicate IsFailure() { Fail? }

    function PropagateFailure<U>(): Result<U>
      requires Fail?
    {
      Fail(error)
    }

    function Extract(): T
      requires Ok?
    {
      value
    }
  }

  /** An optional value: a C pointer that may be null. */
  datatype Option<+T> = None | Some(value: T)

  /** The verdict of a check that computes nothing. */
  datatype Outcome = Pass | Failed(error: Error) {
    predicate IsFailure() { Failed? }

    function PropagateFailure<U>(): Result<U>
      requires Failed?
    {
      Fail(error)
    }
  }

  /** The ASSERT guard: passes when `condition` holds, fails with `e` otherwise. */
  function Check(condition: bool, e: Error): (r: Outcome)
    ensures r.Pass? <==> condition
    ensures r.Failed? ==> r.error == e
  {
    if condition then Pass else Failed(e)
  }
}
