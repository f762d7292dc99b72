/** Failure-compatible result type shared by every codec module.

    Each `Error` constructor stands for one way the Python tool stops with an
    exception; none of them is recoverable, so the model simply propagates it. */
module Outcome {

  datatype Error =
    | ConfigOrder(line: nat)       // a directive out of order, or a file line before any directive
    | MalformedLine(line: nat)     // a file line that does not split into exactly `name.ext`
    | MissingFile(path: string)    // the stage directory has no such file
    | Unencodable(name: string)    // the name has no EUC-JP encoding
    | EmptyExtension(name: string) // `ext[0]` of an empty extension
    | FieldOverflow                // a value does not fit the fixed-width field it is packed into
    | NotAscii                     // a stage name that is not ASCII (pack or unpack)
    | Truncated                    // a fixed-width field read past the end of the container
    | CorruptEntry                 // an entry record with an unknown section or extension tag
    | CorruptHeader                // a stage-table size that is not a multiple of 12
    | LookupFailure(key: string)   // no dictionary entry for a checksum-and-extension key
    | MissingNextEntry             // a cache entry that is the last record of its stage
    | BadReadLength                // a read of fewer than -1 bytes, which the file object refuses
    | NegativeSeek                 // a payload offset before the start of the container

  datatype Option<+T> = None | Some(value: T)

  datatype Result<+T> = Ok(value: T) | Fail(error: Error) {

    predicate IsFailure() {
      Fail?
    }

    function PropagateFailure<U>(): Result<U>
      requires Fail?
    {
      Fail(error)
    }

    function Extract(): T
      requires Ok?
    {
      value
    }
  }
}
