/**
 * Running and sealing one build, and why the codec accepts every result it returns
 * (src/executor.cpp:1658-1758, 1806-1831).  What the libraries, the backend and the file system
 * do at each step is a parameter.
 */
module ExecutorAgreement {
  import opened Outcomes
  import opened Wire
  import opened RecordFormat
  import opened BuildResults
  import opened ResultCodec
  import opened RecordLayout
  import opened DurableCodec

  /** A step that returned, threw one of the adapter's errors, or threw something else. */
  datatype Trial<+T> = Worked(value: T) | Threw(code: ErrorCode, what: Text) | ThrewForeign(what: Text) {
    function Status(): Trial<()> {
      match this
      case Worked(_) => Worked(())
      case Threw(code, what) => Threw(code, what)
      case ThrewForeign(what) => ThrewForeign(what)
    }
  }

  datatype Session = Session(request: BuildRequest, execution: ExecutionRequest, compression: Byte)

  /** A sealed manifest and the stamp of the output root it was read from. */
  datatype Inspection = Inspection(manifest: seq<Entry>, root: nat)

  /** What every step of one run does, should the run reach it. */
  datatype World = World(
    capabilities: Trial<Backend>,
    prepared: Trial<()>,
    executed: Trial<Execution>,
    inspected: Trial<Inspection>,
    created: Trial<()>,
    encoded: Trial<()>,
    reinspected: Trial<Inspection>,
    hashed: Trial<(Text, u64)>,
    published: Trial<()>,
    before: Trial<nat>,
    image: Trial<Receipt>,
    after: Trial<nat>,
    bound: Trial<()>,
    artifactMade: Trial<()>,
    admitted: (Build, Receipt) -> Trial<Authority>,
    rolledBack: Trial<()>,
    finallyPublished: Trial<()>)
  {
    /** The request sealed for a build has a build's purpose; `admit` hands back its build, bound to the receipt. */
    ghost predicate Contracts(session: Session) {
      && session.execution.isBuild
      && forall b, x :: admitted(b, x).Worked? ==>
           && admitted(b, x).value == Authority(b, x)
           && (b.Succeeded? ==> ReceiptBinds(b.payload, b.artifact, x))
    }
  }

  /** `failure_kind`. */
  function FailureKind(code: ErrorCode): Option<SealingKind> {
    match code
    case PayloadInspectionFailed => Some(PayloadInspection)
    case ArtifactEncodingFailed => Some(ArtifactEncoding)
    case ArtifactPublicationFailed => Some(ArtifactPublication)
    case ArtifactVerificationFailed => Some(ArtifactVerification)
    case ArtifactCleanupFailed => Some(ArtifactCleanup)
    case _ => None
  }

  function SealingFailed(
      lib: Library, session: Session, x: Execution, kind: SealingKind, what: Text): BuildExecutionResult
  {
    BuildExecutionResult(
      x, Failed(session.request, lib.executionEvidence(x.identity), lib.sealingFailure(x.identity, kind)), Some(kind),
      what, None)
  }

  /** `r` ends with the error of the step that failed. */
  ghost predicate Fails<T, U>(failed: Trial<T>, r: Trial<U>) {
    && (failed.Threw? ==> r == Threw(failed.code, failed.what))
    && (failed.ThrewForeign? ==> r == ThrewForeign(failed.what))
  }

  /** The steps between the inspection of the output and the publication at the private path. */
  method SealPrivately(w: World) returns (r: Trial<(seq<Entry>, Text, u64)>)
    ensures r.Worked? ==>
      && w.inspected.Worked? && w.reinspected.Worked? && w.hashed.Worked?
      && w.inspected.value == w.reinspected.value
      && r.value == (w.inspected.value.manifest, w.hashed.value.0, w.hashed.value.1)
    ensures r.Worked? <==> SealsPrivately(w)
    ensures !w.inspected.Worked? ==> Fails(w.inspected, r)
    ensures w.inspected.Worked? && !w.created.Worked? ==> Fails(w.created, r)
    ensures w.inspected.Worked? && w.created.Worked? && !w.encoded.Worked? ==> Fails(w.encoded, r)
    ensures w.inspected.Worked? && w.created.Worked? && w.encoded.Worked? ==>
      && (!w.reinspected.Worked? ==> Fails(w.reinspected, r))
      && (w.reinspected.Worked? ==>
            && (w.inspected.value != w.reinspected.value ==> r.Threw? && r.code == ArtifactEncodingFailed)
            && (w.inspected.value == w.reinspected.value && !w.hashed.Worked? ==> Fails(w.hashed, r))
            && (w.inspected.value == w.reinspected.value && w.hashed.Worked? && !w.published.Worked? ==>
                  Fails(w.published, r)))
  {
    if !w.inspected.Worked? {
      return Refail(w.inspected.Status());
    }
    if !w.created.Worked? {
      return Refail(w.created);
    }
    if !w.encoded.Worked? {
      return Refail(w.encoded);
    }
    if !w.reinspected.Worked? {
      return Refail(w.reinspected.Status());
    }
    if
      || w.inspected.value.root != w.reinspected.value.root
      || w.inspected.value.manifest != w.reinspected.value.manifest
    {
      return Threw(ArtifactEncodingFailed, []);
    }
    if !w.hashed.Worked? {
      return Refail(w.hashed.Status());
    }
    if !w.published.Worked? {
      return Refail(w.published);
    }
    r := Worked((w.inspected.value.manifest, w.hashed.value.0, w.hashed.value.1));
  }

  /** Every step up to the private publication works, and the payload is the same before and after encoding. */
  predicate SealsPrivately(w: World) {
    && w.inspected.Worked? && w.created.Worked? && w.encoded.Worked? && w.reinspected.Worked?
    && w.inspected.value == w.reinspected.value
    && w.hashed.Worked? && w.published.Worked?
  }

  /** The same failure, of a step that was to return something else. */
  function Refail<T>(failed: Trial<()>): Trial<T>
    requires !failed.Worked?
  {
    match failed
    case Threw(code, what) => Threw(code, what)
    case ThrewForeign(what) => ThrewForeign(what)
  }

  /** The archive's stamp is the same before and after its inspection, and the image authority admits it. */
  predicate Verifies(
      lib: Library, session: Session, w: World, x: Execution, manifest: seq<Entry>, digest: Text, size: u64)
  {
    && w.before.Worked? && w.image.Worked? && w.after.Worked? && w.before.value == w.after.value
    && w.bound.Worked? && w.artifactMade.Worked?
    && w.admitted(
         Succeeded(session.request, manifest, SealedArtifact(lib.formats.packageTar, session.compression, size, digest),
                   lib.executionEvidence(x.identity)), w.image.value).Worked?
  }

  /** The inner `try`: verify the private archive independently and admit it. */
  method VerifySealed(
      lib: Library, session: Session, w: World, x: Execution, manifest: seq<Entry>, digest: Text, size: u64)
    returns (r: Trial<BuildExecutionResult>)
    requires w.Contracts(session) && x.succeeded && x.request == session.execution
    ensures r.Worked? ==>
      && ValidResult(lib, r.value)
      && r.value.execution == x
      && r.value.build == Succeeded(session.request, manifest,
           SealedArtifact(lib.formats.packageTar, session.compression, size, digest), lib.executionEvidence(x.identity))
      && r.value.sealing.None?
    ensures r.Worked? <==> Verifies(lib, session, w, x, manifest, digest, size)
    ensures r.Worked? ==> r.value.authority == Some(Authority(r.value.build, w.image.value)) && r.value.diagnostic == []
    ensures !w.before.Worked? ==> Fails(w.before, r)
    ensures w.before.Worked? && !w.image.Worked? ==> Fails(w.image, r)
    ensures w.before.Worked? && w.image.Worked? && !w.after.Worked? ==> Fails(w.after, r)
    ensures w.before.Worked? && w.image.Worked? && w.after.Worked? ==>
      && (w.before.value != w.after.value ==> r.Threw? && r.code == ArtifactVerificationFailed)
      && (w.before.value == w.after.value && !w.bound.Worked? ==> Fails(w.bound, r))
      && (w.before.value == w.after.value && w.bound.Worked? && !w.artifactMade.Worked? ==> Fails(w.artifactMade, r))
      && (w.before.value == w.after.value && w.bound.Worked? && w.artifactMade.Worked? ==>
            Fails(w.admitted(
                    Succeeded(session.request, manifest,
                      SealedArtifact(lib.formats.packageTar, session.compression, size, digest),
                      lib.executionEvidence(x.identity)), w.image.value), r))
  {
    if !w.before.Worked? {
      return Refail(w.before.Status());
    }
    if !w.image.Worked? {
      return Refail(w.image.Status());
    }
    if !w.after.Worked? {
      return Refail(w.after.Status());
    }
    if w.before.value != w.after.value {
      return Threw(ArtifactVerificationFailed, []);
    }
    if !w.bound.Worked? {
      return Refail(w.bound);
    }
    if !w.artifactMade.Worked? {
      return Refail(w.artifactMade);
    }
    var artifact := SealedArtifact(lib.formats.packageTar, session.compression, size, digest);
    var build := Succeeded(session.request, manifest, artifact, lib.executionEvidence(x.identity));
    var authority := w.admitted(build, w.image.value);
    if !authority.Worked? {
      return Refail(authority.Status());
    }
    r := Worked(BuildExecutionResult(x, build, None, [], Some(authority.value)));
  }

  /** The sealing of `x` is recorded as failed, with this kind, under the failure identity of this kind. */
  ghost predicate Recorded(
      lib: Library, session: Session, x: Execution, kind: SealingKind, r: Trial<BuildExecutionResult>)
  {
    && r.Worked?
    && r.value.execution == x
    && r.value.build == Failed(
         session.request, lib.executionEvidence(x.identity), lib.sealingFailure(x.identity, kind))
    && r.value.sealing == Some(kind)
    && r.value.authority.None?
  }

  /** What an error of a sealing step is recorded as, code by code; any other code escapes. */
  ghost predicate RecordedByCode(
      lib: Library, session: Session, x: Execution, code: ErrorCode, what: Text, r: Trial<BuildExecutionResult>)
  {
    && (r.Worked? ==> r.value.diagnostic == what)
    && (code == PayloadInspectionFailed ==> Recorded(lib, session, x, PayloadInspection, r))
    && (code == ArtifactEncodingFailed ==> Recorded(lib, session, x, ArtifactEncoding, r))
    && (code == ArtifactPublicationFailed ==> Recorded(lib, session, x, ArtifactPublication, r))
    && (code == ArtifactVerificationFailed ==> Recorded(lib, session, x, ArtifactVerification, r))
    && (code == ArtifactCleanupFailed ==> Recorded(lib, session, x, ArtifactCleanup, r))
    && (code !in {
          PayloadInspectionFailed, ArtifactEncodingFailed, ArtifactPublicationFailed, ArtifactVerificationFailed,
          ArtifactCleanupFailed}
        ==> r == Threw(code, what))
  }

  /** What the failed step ends in: anything but the adapter's own error is a failed verification. */
  ghost predicate Becomes<T>(
      lib: Library, session: Session, x: Execution, failed: Trial<T>, r: Trial<BuildExecutionResult>)
  {
    && (failed.Threw? ==> RecordedByCode(lib, session, x, failed.code, failed.what, r))
    && (failed.ThrewForeign? ==>
          Recorded(lib, session, x, ArtifactVerification, r) && r.value.diagnostic == failed.what)
  }

  /** After the private publication a failure is rolled back first, and a failing rollback takes its place. */
  ghost predicate RolledBack<T>(
      lib: Library, session: Session, w: World, x: Execution, failed: Trial<T>, r: Trial<BuildExecutionResult>)
  {
    if w.rolledBack.Worked? then
      Becomes(lib, session, x, failed, r)
    else
      Becomes(lib, session, x, w.rolledBack, r)
  }

  /** What sealing `x` ends in: the first step that fails decides. */
  ghost predicate SealingEnds(lib: Library, session: Session, w: World, x: Execution, r: Trial<BuildExecutionResult>) {
    if !w.inspected.Worked? then
      Becomes(lib, session, x, w.inspected, r)
    else if !w.created.Worked? then
      Becomes(lib, session, x, w.created, r)
    else if !w.encoded.Worked? then
      Becomes(lib, session, x, w.encoded, r)
    else if !w.reinspected.Worked? then
      Becomes(lib, session, x, w.reinspected, r)
    else if w.inspected.value != w.reinspected.value then
      Recorded(lib, session, x, ArtifactEncoding, r)
    else if !w.hashed.Worked? then
      Becomes(lib, session, x, w.hashed, r)
    else if !w.published.Worked? then
      Becomes(lib, session, x, w.published, r)
    else
      VerificationEnds(lib, session, w, x, w.inspected.value.manifest, w.hashed.value.0, w.hashed.value.1, r)
  }

  /** What verifying the private archive ends in, once it is published. */
  ghost predicate VerificationEnds(
      lib: Library, session: Session, w: World, x: Execution, manifest: seq<Entry>, digest: Text, size: u64,
      r: Trial<BuildExecutionResult>)
  {
    var build := Succeeded(
                   session.request, manifest,
                   SealedArtifact(lib.formats.packageTar, session.compression, size, digest),
                   lib.executionEvidence(x.identity));
    if !w.before.Worked? then
      RolledBack(lib, session, w, x, w.before, r)
    else if !w.image.Worked? then
      RolledBack(lib, session, w, x, w.image, r)
    else if !w.after.Worked? then
      RolledBack(lib, session, w, x, w.after, r)
    else if w.before.value != w.after.value then
      if w.rolledBack.Worked? then
        Recorded(lib, session, x, ArtifactVerification, r)
      else
        Becomes(lib, session, x, w.rolledBack, r)
    else if !w.bound.Worked? then
      RolledBack(lib, session, w, x, w.bound, r)
    else if !w.artifactMade.Worked? then
      RolledBack(lib, session, w, x, w.artifactMade, r)
    else
      var authority := w.admitted(build, w.image.value);
      if !authority.Worked? then
        RolledBack(lib, session, w, x, authority, r)
      else
        r == Worked(BuildExecutionResult(x, build, None, [], Some(Authority(build, w.image.value))))
  }

  /** The handlers of the outer `try`. */
  method Handle(lib: Library, session: Session, x: Execution, attempt: Trial<BuildExecutionResult>)
    returns (r: Trial<BuildExecutionResult>)
    requires session.execution.isBuild && x.succeeded && x.request == session.execution
    requires attempt.Worked? ==> ValidResult(lib, attempt.value)
    ensures Becomes(lib, session, x, attempt, r)
    ensures attempt.Worked? ==> r == attempt
    ensures r.Worked? ==> ValidResult(lib, r.value) && (attempt.Worked? || r.value.sealing.Some?)
    ensures !r.ThrewForeign?
  {
    match attempt
    case Worked(result) => r := attempt;
    case ThrewForeign(what) => r := Worked(SealingFailed(lib, session, x, ArtifactVerification, what));
    case Threw(code, what) =>
      var kind := FailureKind(code);
      if kind.None? {
        return Threw(code, what);
      }
      r := Worked(SealingFailed(lib, session, x, kind.value, what));
  }

  /** The rest of the outer `try`, once the private archive is published. */
  method VerifyOrRollBack(
      lib: Library, session: Session, w: World, x: Execution, manifest: seq<Entry>, digest: Text, size: u64)
    returns (r: Trial<BuildExecutionResult>)
    requires w.Contracts(session) && x.succeeded && x.request == session.execution
    ensures VerificationEnds(lib, session, w, x, manifest, digest, size, r)
    ensures r.Worked? ==> ValidResult(lib, r.value)
    ensures !r.ThrewForeign?
  {
    var attempt := VerifySealed(lib, session, w, x, manifest, digest, size);
    if !attempt.Worked? && !w.rolledBack.Worked? {
      attempt := Refail(w.rolledBack);
    }
    r := Handle(lib, session, x, attempt);
  }

  /** The outer `try`: a failed attempt rolls back, and becomes a sealing failure. */
  method SealExecution(lib: Library, session: Session, w: World, x: Execution) returns (r: Trial<BuildExecutionResult>)
    requires w.Contracts(session) && x.succeeded && x.request == session.execution
    ensures SealingEnds(lib, session, w, x, r)
    ensures r.Worked? ==>
      ValidResult(lib, r.value) && r.value.execution == x && r.value.build.request == session.request
    ensures r.Threw? ==>
      r.code !in {
        PayloadInspectionFailed, ArtifactEncodingFailed, ArtifactPublicationFailed, ArtifactVerificationFailed,
        ArtifactCleanupFailed}
    ensures !r.ThrewForeign?
    ensures r.Worked? ==> (r.value.sealing.Some? <==> !r.value.build.Succeeded?)
    ensures r.Worked? && r.value.build.Succeeded? ==> r.value.build.payload == w.inspected.value.manifest
    ensures r.Worked? && r.value.build.Succeeded? <==>
      SealsPrivately(w) && Verifies(lib, session, w, x, w.inspected.value.manifest, w.hashed.value.0, w.hashed.value.1)
  {
    var sealed := SealPrivately(w);
    if !sealed.Worked? {
      r := Handle(lib, session, x, Refail(sealed.Status()));
      return;
    }
    r := VerifyOrRollBack(lib, session, w, x, sealed.value.0, sealed.value.1, sealed.value.2);
  }

  /** The backend ran the session's own request and reported its own profile. */
  ghost predicate Ran(session: Session, w: World) {
    && w.capabilities.Worked? && w.prepared.Worked? && w.executed.Worked?
    && w.executed.value.request == session.execution
    && w.executed.value.backend == w.capabilities.value
  }

  /** What a run ends in when it is not published: the execution's own failure, or what sealing ends in. */
  ghost predicate RunEnds(lib: Library, session: Session, w: World, r: Trial<BuildExecutionResult>) {
    && (w.capabilities.Worked? && !w.prepared.Worked? ==> Fails(w.prepared, r))
    && (!Ran(session, w) && (w.capabilities.Worked? ==> w.prepared.Worked?) ==>
          r.Threw? && r.code == BackendContractViolation)
    && (Ran(session, w) ==>
          var x := w.executed.value;
          if x.succeeded then
            SealingEnds(lib, session, w, x, r)
          else
            var failure := lib.executionFailure(x.identity);
            r == Worked(BuildExecutionResult(
                          x, Failed(session.request, lib.executionEvidence(x.identity), failure),
                          None, x.diagnostic, None)))
  }

  /** Every step of the run works, up to the private archive's verification. */
  ghost predicate Builds(lib: Library, session: Session, w: World) {
    && Ran(session, w) && w.executed.value.succeeded
    && SealsPrivately(w)
    && Verifies(
         lib, session, w, w.executed.value, w.inspected.value.manifest, w.hashed.value.0, w.hashed.value.1)
  }

  /** `execute_sealed`. */
  method ExecuteSealed(lib: Library, session: Session, w: World) returns (r: Trial<BuildExecutionResult>)
    requires w.Contracts(session)
    ensures r.Worked? ==> ValidResult(lib, r.value)
    ensures r.Worked? ==>
      && Ran(session, w) && r.value.execution == w.executed.value
      && AuthoritiesOf(r.value) == Authorities(session.request, session.execution, w.capabilities.value)
    ensures r.Worked? && r.value.build.Succeeded? <==> Builds(lib, session, w)
    ensures RunEnds(lib, session, w, r)
  {
    if !w.capabilities.Worked? {
      return Threw(BackendContractViolation, []);
    }
    if !w.prepared.Worked? {
      return Refail(w.prepared);
    }
    if !w.executed.Worked? {
      return Threw(BackendContractViolation, []);
    }
    var x := w.executed.value;
    if x.request != session.execution || x.backend != w.capabilities.value {
      return Threw(BackendContractViolation, []);
    }
    if !x.succeeded {
      var build := Failed(session.request, lib.executionEvidence(x.identity), lib.executionFailure(x.identity));
      return Worked(BuildExecutionResult(x, build, None, x.diagnostic, None));
    }
    r := SealExecution(lib, session, w, x);
  }

  /** `execute`: also publish, and let a failed publication replace the result. */
  method Execute(lib: Library, session: Session, w: World) returns (r: Trial<BuildExecutionResult>)
    requires w.Contracts(session)
    ensures r.Worked? ==> ValidResult(lib, r.value)
    ensures r.Worked? ==>
      && Ran(session, w) && r.value.execution == w.executed.value
      && AuthoritiesOf(r.value) == Authorities(session.request, session.execution, w.capabilities.value)
    ensures r.Worked? && r.value.build.Succeeded? <==> Builds(lib, session, w) && w.finallyPublished.Worked?
    ensures !Builds(lib, session, w) || w.finallyPublished.Worked? ==> RunEnds(lib, session, w, r)
    ensures Builds(lib, session, w) && w.finallyPublished.Threw? ==>
      RecordedByCode(lib, session, w.executed.value, w.finallyPublished.code, w.finallyPublished.what, r)
    ensures Builds(lib, session, w) && w.finallyPublished.ThrewForeign? ==> r == ThrewForeign(w.finallyPublished.what)
  {
    r := ExecuteSealed(lib, session, w);
    if !r.Worked? || !r.value.build.Succeeded? || w.finallyPublished.Worked? {
      return;
    }
    match w.finallyPublished
    case ThrewForeign(what) => r := ThrewForeign(what);
    case Threw(code, what) =>
      var kind := FailureKind(code);
      if kind.None? {
        return Threw(code, what);
      }
      r := Worked(SealingFailed(lib, session, r.value.execution, kind.value, what));
  }

  /** The codec's own size limits, checksum included. */
  predicate FitsCodec(lib: Library, r: BuildExecutionResult) {
    && |r.diagnostic| <= 1_048_576 && (r.build.Succeeded? ==> |r.build.payload| <= 1_048_576)
    && |Body(lib, r)| + 32 <= 268_435_456
  }

  /** Identities are SHA-256 digests, which print as 64 hexadecimal digits. */
  ghost predicate Identified(lib: Library, r: BuildExecutionResult) {
    IdentitiesPrint(lib, r) && Hexadecimal(lib.sha(Body(lib, r)))
  }

  /** A one-shot run, then its durable record: the record fails only for its size. */
  method ExecuteAndEncode(lib: Library, session: Session, w: World)
    returns (r: Trial<BuildExecutionResult>, encoding: Result<Bytes>)
    requires w.Contracts(session)
    ensures encoding == (if r.Worked? then Encoding(lib, r.value) else Err(InconsistentResult))
    ensures r.Worked? && Identified(lib, r.value) ==> (encoding.Err? <==> !FitsCodec(lib, r.value))
  {
    r := Execute(lib, session, w);
    encoding := Err(InconsistentResult);
    if r.Worked? {
      ConsistentExactly(lib, r.value);
      encoding := EncodeBuildExecutionResult(lib, r.value);
    }
  }
}
