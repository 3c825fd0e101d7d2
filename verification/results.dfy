/** Failure-compatible result type of the reader, and the errors the reader raises.
    Each error corresponds to one `raise` of lz4tools/lz4file2.py. */
module Results {

  /** Why a read failed. */
  datatype Error =
    | FileTruncated          // short magic number or short skippable size field
    | FrameTruncated         // frame descriptor window too short
    | UnsupportedVersion     // FLG version bits are not 01
    | InvalidBlockSize       // BD block-size code outside 4..7
    | LegacyFrame            // legacy magic number: not supported
    | NotAFrame              // unknown magic number
    | BlockTruncated         // short block-size prefix or short block
    | ChecksumTruncated      // short content checksum after the end mark
    | UnexpectedOutput       // the decompressor produced bytes where none may appear

  datatype Option<+T> = None | Some(value: T)

  datatype Result<+T> = Ok(value: T) | Err(error: Error) {

    predicate IsFailure() {
      Err?
    }

    function PropagateFailure<U>(): Result<U>
      requires Err?
    {
      Err(error)
    }

    function Extract(): T
      requires Ok?
    {
      value
    }
  }
}
