// The failure kinds the store reports where the C++ code leaves a
// "TODO: throw" or would run into undefined behaviour.

module Errors {

  datatype Error =
    | CorruptStore      // an attached region stores a different block size
    | OutOfBounds       // a block id at or beyond the block count
    | PayloadTooLarge   // a Block::set of more bytes than the payload holds
    | InvalidArgument   // a record header whose size runs past its block

  datatype Result<T> = Success(value: T) | Failure(error: Error)

  datatype Outcome = Pass | Fail(error: Error)
}
