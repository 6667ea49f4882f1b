/**
 * Retained build-execution results and when one is consistent
 * (src/result_codec.cpp:405-492, src/result_identity.cpp:55-78).
 */
module BuildResults {
  import opened Outcomes
  import opened Wire
  import opened RecordFormat

  datatype BuildRequest = BuildRequest(identity: Text, details: Bytes)

  datatype ExecutionRequest = ExecutionRequest(identity: Text, isBuild: bool, details: Bytes)

  datatype Backend = Backend(identity: Text, details: Bytes)

  datatype Execution = Execution(
    request: ExecutionRequest,
    backend: Backend,
    identity: Text,
    succeeded: bool,
    diagnostic: Text,
    details: Bytes)

  datatype Build =
    | Succeeded(request: BuildRequest, payload: seq<Entry>, artifact: SealedArtifact, evidence: Text)
    | Failed(request: BuildRequest, evidence: Text, failure: Text)
  {
    function Payload(): Option<seq<Entry>> {
      if Succeeded? then Some(payload) else None
    }

    function Artifact(): Option<SealedArtifact> {
      if Succeeded? then Some(artifact) else None
    }
  }

  /** The image authority is a build and the receipt of its archive's inspection. */
  datatype Authority = Authority(build: Build, receipt: Receipt)

  datatype BuildExecutionResult = BuildExecutionResult(
    execution: Execution,
    build: Build,
    sealing: Option<SealingKind>,
    diagnostic: Text,
    authority: Option<Authority>)

  datatype ExecutionDecoding = DecodedExecution(execution: Execution) | OtherAuthority | InvalidExecution

  /** The libraries the codec calls; `Lawful` says what is assumed of them. */
  datatype Library = Library(
    formats: Formats,
    sha: Bytes -> Text,
    seal: seq<Entry> -> Option<seq<Entry>>,
    executionLimit: nat,
    encodeExecution: Execution -> Bytes,
    decodeExecution: (Bytes, ExecutionRequest, Backend) -> ExecutionDecoding,
    executionEvidence: Text -> Text,
    executionFailure: Text -> Text,
    sealingFailure: (Text, SealingKind) -> Text,
    buildIdentity: Build -> Text)
  {
    ghost predicate Lawful() {
      && SealNormalizes()
      && ExecutionRoundTrips()
    }

    /** `payload_manifest::seal` keeps its own output, and only entries it was given. */
    ghost predicate SealNormalizes() {
      && (forall es :: seal(es).Some? ==> seal(seal(es).value) == seal(es))
      && (forall es :: seal(es).Some? ==> |seal(es).value| <= |es|)
      && (forall es, e :: seal(es).Some? && e in seal(es).value ==> e in es)
    }

    /** The embedded codec decodes what it encoded, under the execution's own authorities. */
    ghost predicate ExecutionRoundTrips() {
      && (forall x :: |encodeExecution(x)| <= executionLimit ==>
            decodeExecution(encodeExecution(x), x.request, x.backend) == DecodedExecution(x))
      && (forall b, q, k :: decodeExecution(b, q, k).DecodedExecution? ==>
            decodeExecution(b, q, k).execution.request == q && decodeExecution(b, q, k).execution.backend == k)
    }

    /** No two builds share an identity. */
    ghost predicate BuildsAreIdentified() {
      forall a, b :: buildIdentity(a) == buildIdentity(b) ==> a == b
    }
  }

  /** "v1:sha256:", in front of the digest. */
  function ArchiveDigest(digest: Text): Text {
    [118, 49, 58, 115, 104, 97, 50, 53, 54, 58] + digest
  }

  /** `require_receipt_binding`. */
  predicate ReceiptBinds(payload: seq<Entry>, artifact: SealedArtifact, receipt: Receipt) {
    receipt.archive == ArchiveDigest(artifact.digest) && receipt.entryCount == |payload|
  }

  /** `expected_build_result`: the build that the retained evidence determines. */
  function ExpectedBuild(
      lib: Library, execution: Execution, request: BuildRequest, sealing: Option<SealingKind>,
      payload: Option<seq<Entry>>, artifact: Option<SealedArtifact>): Result<Build>
  {
    var evidence := lib.executionEvidence(execution.identity);
    if !execution.succeeded then
      if sealing.Some? || payload.Some? || artifact.Some? then
        Err(InconsistentResult)
      else
        Ok(Failed(request, evidence, lib.executionFailure(execution.identity)))
    else if sealing.Some? then
      if payload.Some? || artifact.Some? then
        Err(InconsistentResult)
      else
        Ok(Failed(request, evidence, lib.sealingFailure(execution.identity, sealing.value)))
    else if payload.None? || artifact.None? then
      Err(InconsistentResult)
    else
      Ok(Succeeded(request, payload.value, artifact.value, evidence))
  }

  /** The part of `validate_result` that depends on how far the execution got. */
  predicate ShapeValid(lib: Library, r: BuildExecutionResult) {
    if !r.execution.succeeded then
      r.sealing.None? && r.authority.None? && r.diagnostic == r.execution.diagnostic
    else if r.sealing.Some? then
      r.authority.None?
    else
      && r.diagnostic == []
      && r.build.Succeeded?
      && r.authority.Some?
      && ReceiptBinds(r.build.payload, r.build.artifact, r.authority.value.receipt)
      && lib.buildIdentity(r.authority.value.build) == lib.buildIdentity(r.build)
  }

  /** `validate_result`; every violation is `inconsistent_result`. */
  predicate ValidResult(lib: Library, r: BuildExecutionResult) {
    && r.execution.request.isBuild
    && (r.execution.succeeded && r.sealing.None? <==> r.build.Succeeded?)
    && ShapeValid(lib, r)
    && var expected :=
         ExpectedBuild(lib, r.execution, r.build.request, r.sealing, r.build.Payload(), r.build.Artifact());
       expected.Ok? && lib.buildIdentity(expected.value) == lib.buildIdentity(r.build)
  }
}
