/** The durable codec of build-execution results (src/result_codec.cpp:547-737). */
module ResultCodec {
  import opened Outcomes
  import opened Wire
  import opened WireBuffers
  import opened RecordFormat
  import opened RecordBuffers
  import opened BuildResults

  /** What the encoder writes for a result, in the order it writes it. */
  function RecordOf(lib: Library, r: BuildExecutionResult): Record {
    Record(
      Header(r.build.request.identity, r.execution.request.identity, r.execution.backend.identity,
             r.execution.identity, lib.buildIdentity(r.build)),
      lib.encodeExecution(r.execution),
      Tail(r.build.Succeeded?, r.sealing, r.diagnostic, r.build.Payload(), r.build.Artifact(),
           if r.authority.Some? then Some(r.authority.value.receipt) else None))
  }

  /** Every identity in the record is 64 lower-case hexadecimal digits. */
  predicate PrintableTail(t: Tail) {
    && (t.payload.Some? ==> PrintableEntries(t.payload.value))
    && (t.artifact.Some? ==> IsIdentity(t.artifact.value.digest))
  }

  predicate PrintableRecord(r: Record) {
    ReadableHeader(r.header) && PrintableTail(r.tail)
  }

  /** The encoder's own limits. */
  predicate WithinLimits(r: BuildExecutionResult) {
    |r.diagnostic| <= MAXIMUM_DIAGNOSTIC && (r.build.Succeeded? ==> |r.build.payload| <= MAXIMUM_ENTRIES)
  }

  /** The record and its checksum. */
  function Sealed(lib: Library, body: Bytes): Bytes {
    body + Pack(lib.sha(body))
  }

  /** `encode_build_execution_result`. */
  function Encoding(lib: Library, r: BuildExecutionResult): Result<Bytes> {
    var body := PutRecord(lib.formats, RecordOf(lib, r), []);
    if !ValidResult(lib, r) || !WithinLimits(r) || !PrintableRecord(RecordOf(lib, r)) || !IsIdentity(lib.sha(body)) then
      Err(InconsistentResult)
    else if |body| + 32 > MAXIMUM_ENCODING then
      Err(InconsistentResult)
    else
      Ok(Sealed(lib, body))
  }

  /** The three authorities a record is decoded under. */
  datatype Authorities = Authorities(request: BuildRequest, executionRequest: ExecutionRequest, backend: Backend)

  predicate Matches(h: Header, who: Authorities) {
    && who.request.identity == h.request
    && who.executionRequest.identity == h.executionRequest
    && who.backend.identity == h.backend
    && who.executionRequest.isBuild
  }

  /** The shape checks the decoder makes before it rebuilds anything. */
  predicate ShapeDecodes(execution: Execution, t: Tail) {
    && (t.succeeded <==> execution.succeeded && t.sealing.None?)
    && if !execution.succeeded then
         && t.sealing.None? && t.payload.None? && t.artifact.None? && t.receipt.None?
         && t.diagnostic == execution.diagnostic
       else if t.sealing.Some? then
         t.payload.None? && t.artifact.None? && t.receipt.None?
       else
         && t.diagnostic == [] && t.payload.Some? && t.artifact.Some? && t.receipt.Some?
         && ReceiptBinds(t.payload.value, t.artifact.value, t.receipt.value)
  }

  /** The payload as the manifest library seals it; `None` if it refuses. */
  function SealedTail(lib: Library, t: Tail): Option<Tail> {
    if t.payload.None? then
      Some(t)
    else
      match lib.seal(t.payload.value)
      case None => None
      case Some(es) => Some(t.(payload := Some(es)))
  }

  /** Everything after the parse, up to the re-encoding. */
  function Rebuilding(
      lib: Library, who: Authorities, h: Header, execution: Execution, t: Tail): Result<BuildExecutionResult>
  {
    if execution.identity != h.execution || !ShapeDecodes(execution, t) then
      Err(CorruptEncoding)
    else
      match ExpectedBuild(lib, execution, who.request, t.sealing, t.payload, t.artifact)
      case Err(_) => Err(CorruptEncoding)
      case Ok(build) =>
        var r := BuildExecutionResult(
          execution, build, t.sealing, t.diagnostic,
          if t.receipt.Some? then Some(Authority(build, t.receipt.value)) else None);
        if lib.buildIdentity(build) != h.build || !ValidResult(lib, r) then Err(CorruptEncoding) else Ok(r)
  }

  /** Parse and rebuild the body of a record whose checksum is right. */
  function DecodingBody(lib: Library, body: Bytes, who: Authorities): Result<BuildExecutionResult> {
    match ParseHeader(body)
    case Malformed => Err(CorruptEncoding)
    case Parsed(h, s1) =>
      if !Matches(h, who) then
        Err(AuthorityMismatch)
      else
        match ParseText(s1, lib.executionLimit)
        case Malformed => Err(CorruptEncoding)
        case Parsed(embedded, s2) =>
          match lib.decodeExecution(embedded, who.executionRequest, who.backend)
          case OtherAuthority => Err(AuthorityMismatch)
          case InvalidExecution => Err(CorruptEncoding)
          case DecodedExecution(execution) => DecodingTail(lib, who, h, execution, s2)
  }

  function DecodingTail(
      lib: Library, who: Authorities, h: Header, execution: Execution, s: Bytes): Result<BuildExecutionResult>
  {
    match ParseTail(lib.formats, s)
    case Malformed => Err(CorruptEncoding)
    case Parsed(raw, rest) =>
      match SealedTail(lib, raw)
      case None => Err(CorruptEncoding)
      case Some(t) => if rest != [] then Err(CorruptEncoding) else Rebuilding(lib, who, h, execution, t)
  }

  /** Size and checksum, and the body between them. */
  predicate Framed(lib: Library, encoding: Bytes) {
    && 42 <= |encoding| <= MAXIMUM_ENCODING
    && HexOf(encoding[|encoding| - 32..]) == lib.sha(encoding[..|encoding| - 32])
  }

  /** Every check the decoder makes before it re-encodes. */
  function Checked(lib: Library, encoding: Bytes, who: Authorities): Result<BuildExecutionResult> {
    if !Framed(lib, encoding) then Err(CorruptEncoding) else DecodingBody(lib, encoding[..|encoding| - 32], who)
  }

  /** `decode_build_execution_result`. */
  function Decoding(lib: Library, encoding: Bytes, who: Authorities): Result<BuildExecutionResult> {
    match Checked(lib, encoding, who)
    case Err(code) => Err(code)
    case Ok(r) => if Encoding(lib, r) == Ok(encoding) then Ok(r) else Err(CorruptEncoding)
  }

  // Round trip -------------------------------------------------------------------------------------------

  /** A result's own authorities. */
  function AuthoritiesOf(r: BuildExecutionResult): Authorities {
    Authorities(r.build.request, r.execution.request, r.execution.backend)
  }

  /** The result with its build rebuilt from the evidence. */
  function Rebuilt(lib: Library, r: BuildExecutionResult): BuildExecutionResult
    requires ValidResult(lib, r)
  {
    var build :=
      ExpectedBuild(lib, r.execution, r.build.request, r.sealing, r.build.Payload(), r.build.Artifact()).value;
    BuildExecutionResult(
      r.execution, build, r.sealing, r.diagnostic,
      if r.authority.Some? then Some(Authority(build, r.authority.value.receipt)) else None)
  }

  /**
   * The result's parts are what their libraries make and accept, its manifest is sealed, and its
   * text fields and embedded record fit the decoder's limits.
   */
  predicate Decodable(lib: Library, r: BuildExecutionResult) {
    && ReadableTail(lib.formats, RecordOf(lib, r).tail)
    && |lib.encodeExecution(r.execution)| <= lib.executionLimit
    && (r.build.Succeeded? ==> lib.seal(r.build.payload) == Some(r.build.payload))
  }

  lemma {:induction false} RebuiltIsSame(lib: Library, r: BuildExecutionResult)
    requires ValidResult(lib, r)
    ensures ValidResult(lib, Rebuilt(lib, r)) && RecordOf(lib, Rebuilt(lib, r)) == RecordOf(lib, r)
    ensures lib.BuildsAreIdentified() ==> Rebuilt(lib, r) == r
  {
    var build := Rebuilt(lib, r).build;
    assert lib.buildIdentity(build) == lib.buildIdentity(r.build);
    assert build.request == r.build.request;
    assert build.Payload() == r.build.Payload() && build.Artifact() == r.build.Artifact();
  }

  lemma {:induction false} RebuildingFinds(lib: Library, r: BuildExecutionResult)
    requires ValidResult(lib, r)
    ensures Rebuilding(lib, AuthoritiesOf(r), RecordOf(lib, r).header, r.execution, RecordOf(lib, r).tail) ==
      Ok(Rebuilt(lib, r))
  {
    RebuiltIsSame(lib, r);
  }

  lemma {:induction false} TailDecodes(lib: Library, r: BuildExecutionResult)
    requires ValidResult(lib, r) && Decodable(lib, r)
    ensures var record := RecordOf(lib, r);
      DecodingTail(lib, AuthoritiesOf(r), record.header, r.execution, PutTail(lib.formats, record.tail, [])) ==
        Ok(Rebuilt(lib, r))
  {
    TailLeft(lib.formats, RecordOf(lib, r).tail, []);
    RebuildingFinds(lib, r);
  }

  lemma {:induction false} BodyDecodes(lib: Library, r: BuildExecutionResult)
    requires lib.Lawful() && ValidResult(lib, r) && Decodable(lib, r) && PrintableRecord(RecordOf(lib, r))
    requires |lib.encodeExecution(r.execution)| < TWO_32
    ensures DecodingBody(lib, PutRecord(lib.formats, RecordOf(lib, r), []), AuthoritiesOf(r)) == Ok(Rebuilt(lib, r))
  {
    var record := RecordOf(lib, r);
    var s2 := PutTail(lib.formats, record.tail, []);
    HeaderLeft(record.header, PrintText(record.execution) + s2);
    TextLeft(record.execution, lib.executionLimit, s2);
    TailDecodes(lib, r);
  }

  lemma {:induction false} RecordIsLong(lib: Library, r: Record)
    requires ReadableHeader(r.header)
    ensures |PutRecord(lib.formats, r, [])| >= 10 + |r.execution|
  {
    assert |PutHeader(r.header, PrintText(r.execution) + PutTail(lib.formats, r.tail, []))| >=
      10 + |PrintText(r.execution)|;
  }

  lemma {:induction false} SealedFrames(lib: Library, body: Bytes)
    requires IsIdentity(lib.sha(body)) && 10 <= |body| <= MAXIMUM_ENCODING - 32
    ensures var s := Sealed(lib, body); Framed(lib, s) && s[..|s| - 32] == body
  {
    HexOfUnHex(lib.sha(body));
    var s := Sealed(lib, body);
    assert s[..|s| - 32] == body && s[|s| - 32..] == Pack(lib.sha(body));
  }

  lemma {:induction false} EncodedIsFramed(lib: Library, r: BuildExecutionResult)
    requires Encoding(lib, r).Ok?
    ensures var encoding, body := Encoding(lib, r).value, PutRecord(lib.formats, RecordOf(lib, r), []);
      Framed(lib, encoding) && encoding[..|encoding| - 32] == body && |lib.encodeExecution(r.execution)| < TWO_32
  {
    RecordIsLong(lib, RecordOf(lib, r));
    SealedFrames(lib, PutRecord(lib.formats, RecordOf(lib, r), []));
  }

  lemma {:induction false} EncodedChecks(lib: Library, r: BuildExecutionResult)
    requires lib.Lawful() && Encoding(lib, r).Ok? && Decodable(lib, r)
    ensures Checked(lib, Encoding(lib, r).value, AuthoritiesOf(r)) == Ok(Rebuilt(lib, r))
  {
    EncodedIsFramed(lib, r);
    BodyDecodes(lib, r);
  }

  /** Decoding what the encoder wrote, under the result's own authorities, gives the result back. */
  lemma {:induction false} RoundTrip(lib: Library, r: BuildExecutionResult)
    requires lib.Lawful() && Encoding(lib, r).Ok? && Decodable(lib, r)
    ensures Decoding(lib, Encoding(lib, r).value, AuthoritiesOf(r)) == Ok(Rebuilt(lib, r))
    ensures lib.BuildsAreIdentified() ==> Rebuilt(lib, r) == r
  {
    EncodedChecks(lib, r);
    RebuiltIsSame(lib, r);
  }

  /** Under any other authority the record is refused as another's, not as damaged. */
  lemma {:induction false} WrongAuthority(lib: Library, r: BuildExecutionResult, who: Authorities)
    requires Encoding(lib, r).Ok? && !Matches(RecordOf(lib, r).header, who)
    ensures Decoding(lib, Encoding(lib, r).value, who) == Err(AuthorityMismatch)
  {
    var record := RecordOf(lib, r);
    EncodedIsFramed(lib, r);
    HeaderLeft(record.header, PrintText(record.execution) + PutTail(lib.formats, record.tail, []));
  }

  // Canonicality ---------------------------------------------------------------------------------------

  /** The record that a checked encoding spells. */
  ghost predicate Spells(lib: Library, encoding: Bytes, record: Record) {
    |encoding| >= 32 && ParseRecord(lib.formats, lib.executionLimit, encoding[..|encoding| - 32]) == Parsed(record, [])
  }

  /** Its payload is in sealed order, and its embedded record is the one its execution encodes to. */
  predicate Canonical(lib: Library, record: Record, r: BuildExecutionResult) {
    && (record.tail.payload.Some? ==> lib.seal(record.tail.payload.value) == record.tail.payload)
    && lib.encodeExecution(r.execution) == record.execution
  }

  lemma {:induction false} CheckedSpells(lib: Library, encoding: Bytes, who: Authorities) returns (record: Record)
    requires lib.Lawful() && Checked(lib, encoding, who).Ok?
    ensures Spells(lib, encoding, record) && ReadableRecord(lib.formats, lib.executionLimit, record)
    ensures SealedTail(lib, record.tail).Some?
    ensures var r := Checked(lib, encoding, who).value;
      && AuthoritiesOf(r) == who
      && ValidResult(lib, r)
      && RecordOf(lib, r) == Record(record.header, lib.encodeExecution(r.execution), SealedTail(lib, record.tail).value)
  {
    var body := encoding[..|encoding| - 32];
    record := ParseRecord(lib.formats, lib.executionLimit, body).value;
    RecordRight(lib.formats, lib.executionLimit, body);
  }

  lemma {:induction false} SealedIsReadable(lib: Library, t: Tail)
    requires lib.Lawful() && ReadableTail(lib.formats, t) && SealedTail(lib, t).Some?
    ensures ReadableTail(lib.formats, SealedTail(lib, t).value)
  {
    if t.payload.Some? {
      var es, sealed := t.payload.value, lib.seal(t.payload.value).value;
      forall i | 0 <= i < |sealed|
        ensures ReadableEntry(lib.formats, sealed[i])
      {
        assert sealed[i] in sealed && sealed[i] in es;
      }
    }
  }

  lemma {:induction false} ReadableIsPrintable(lib: Library, record: Record)
    requires ReadableRecord(lib.formats, lib.executionLimit, record)
    ensures PrintableRecord(record)
  {
    if record.tail.payload.Some? {
      var es := record.tail.payload.value;
      forall i | 0 <= i < |es|
        ensures PrintableEntry(es[i])
      {
        assert ReadableEntry(lib.formats, es[i]);
      }
    }
  }

  lemma {:induction false} FramedIsSealed(lib: Library, encoding: Bytes)
    requires Framed(lib, encoding)
    ensures var body := encoding[..|encoding| - 32]; IsIdentity(lib.sha(body)) && Sealed(lib, body) == encoding
  {
    UnHexOfHex(encoding[|encoding| - 32..]);
    assert encoding == encoding[..|encoding| - 32] + encoding[|encoding| - 32..];
  }

  /** A canonical record is re-encoded to the bytes it came from. */
  lemma {:induction false} CanonicalReencodes(lib: Library, encoding: Bytes, record: Record, r: BuildExecutionResult)
    requires Framed(lib, encoding) && Spells(lib, encoding, record)
    requires ReadableRecord(lib.formats, lib.executionLimit, record)
    requires ValidResult(lib, r) && RecordOf(lib, r) == record
    ensures Encoding(lib, r) == Ok(encoding)
  {
    RecordRight(lib.formats, lib.executionLimit, encoding[..|encoding| - 32]);
    FramedIsSealed(lib, encoding);
    ReadableIsPrintable(lib, record);
  }

  /** Two readable records printed alike are the same record. */
  lemma {:induction false} PrintsOnce(f: Formats, a: Record, b: Record)
    requires ReadableRecord(f, TWO_32, a) && ReadableRecord(f, TWO_32, b)
    requires PutRecord(f, a, []) == PutRecord(f, b, [])
    ensures a == b
  {
    RecordLeft(f, TWO_32, a, []);
    RecordLeft(f, TWO_32, b, []);
  }

  lemma {:induction false} ReencodedIsCanonical(lib: Library, encoding: Bytes, record: Record, r: BuildExecutionResult)
    requires Framed(lib, encoding) && Spells(lib, encoding, record)
    requires ReadableRecord(lib.formats, lib.executionLimit, record) && ReadableTail(lib.formats, RecordOf(lib, r).tail)
    requires Encoding(lib, r) == Ok(encoding)
    ensures RecordOf(lib, r) == record
  {
    RecordRight(lib.formats, lib.executionLimit, encoding[..|encoding| - 32]);
    EncodedIsFramed(lib, r);
    PrintsOnce(lib.formats, RecordOf(lib, r), record);
  }

  /**
   * For every byte string that passes all the other checks, re-encoding reproduces it exactly when
   * its payload entries were in sealed order already and its embedded record was canonical.
   */
  lemma {:induction false} CanonicalExactly(lib: Library, encoding: Bytes, who: Authorities) returns (record: Record)
    requires lib.Lawful() && Checked(lib, encoding, who).Ok?
    ensures Spells(lib, encoding, record)
    ensures Decoding(lib, encoding, who).Ok? <==> Canonical(lib, record, Checked(lib, encoding, who).value)
    ensures Decoding(lib, encoding, who).Ok? <==> Encoding(lib, Checked(lib, encoding, who).value) == Ok(encoding)
  {
    record := CheckedSpells(lib, encoding, who);
    var r := Checked(lib, encoding, who).value;
    SealedIsReadable(lib, record.tail);
    if Canonical(lib, record, r) {
      CanonicalReencodes(lib, encoding, record, r);
    }
    if Encoding(lib, r) == Ok(encoding) {
      ReencodedIsCanonical(lib, encoding, record, r);
    }
  }

  /** What is decoded carries the authorities it was decoded under, and has that one encoding. */
  lemma {:induction false} DecodedIsEncoded(lib: Library, encoding: Bytes, who: Authorities)
    requires lib.Lawful() && Decoding(lib, encoding, who).Ok?
    ensures var r := Decoding(lib, encoding, who).value; AuthoritiesOf(r) == who && Encoding(lib, r) == Ok(encoding)
  {
    var _ := CheckedSpells(lib, encoding, who);
  }
}
