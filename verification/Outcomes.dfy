/** The adapter's error vocabulary and the result types that stand for its exceptions. */
module Outcomes {

  datatype Option<+T> = None | Some(value: T) {
    function GetOr(other: T): T {
      if Some? then value else other
    }
  }

  /** The codes an adapter error can carry (include/libpkgbuild-exec/error.h). */
  datatype ErrorCode =
    | InvalidSession
    | SourceMaterialMismatch
    | PackageInputMismatch
    | UnsafePathLayout
    | ResourcePreparationFailed
    | SourceStagingFailed
    | IdentityDerivationFailed
    | BackendContractViolation
    | PayloadInspectionFailed
    | ArtifactEncodingFailed
    | ArtifactPublicationFailed
    | ArtifactVerificationFailed
    | ArtifactCleanupFailed
    | InconsistentResult
    | CorruptEncoding
    | AuthorityMismatch

  /** A value, or the code of the error that was thrown instead. */
  datatype Result<+T> = Ok(value: T) | Err(code: ErrorCode) {
    predicate IsFailure() {
      Err?
    }

    function PropagateFailure<U>(): Result<U>
      requires Err?
    {
      Err(code)
    }

    function Extract(): T
      requires Ok?
    {
      value
    }
  }

  /** A byte of a file, an archive or a durable record. */
  type Byte = x: int | 0 <= x < 256

  type Bytes = seq<Byte>

  /** Blocks of bytes one after another. */
  function Concat(chunks: seq<Bytes>): Bytes {
    if chunks == [] then [] else Concat(chunks[..|chunks| - 1]) + chunks[|chunks| - 1]
  }
}
