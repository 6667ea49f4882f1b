/** The encoder and the decoder as the program runs them (src/result_codec.cpp:547-737). */
module DurableCodec {
  import opened Outcomes
  import opened Wire
  import opened WireBuffers
  import opened RecordFormat
  import opened RecordBuffers
  import opened BuildResults
  import opened RecordLayout
  import opened ResultCodec

  method EncodeTwo(output: Writer, a: Text, b: Text) returns (r: Result<()>)
    requires output.Valid()
    modifies output
    ensures Wrote(IsIdentity(a) && IsIdentity(b), old(output.output), output.output, Pack(a) + Pack(b), r)
    ensures r.Ok? ==> output.Valid()
  {
    ghost var before := output.output;
    var q := output.PutIdentity(a);
    ghost var middle := output.output;
    r := q;
    if q.Ok? {
      r := output.PutIdentity(b);
    }
    WroteBoth(IsIdentity(a), IsIdentity(b), before, middle, output.output, Pack(a), Pack(b), q, r);
  }

  method EncodeThree(output: Writer, a: Text, b: Text, c: Text) returns (r: Result<()>)
    requires output.Valid()
    modifies output
    ensures Wrote(IsIdentity(a) && IsIdentity(b) && IsIdentity(c), old(output.output), output.output,
                  Pack(a) + (Pack(b) + Pack(c)), r)
    ensures r.Ok? ==> output.Valid()
  {
    ghost var before := output.output;
    var q := output.PutIdentity(a);
    ghost var middle := output.output;
    r := q;
    if q.Ok? {
      r := EncodeTwo(output, b, c);
    }
    WroteBoth(IsIdentity(a), IsIdentity(b) && IsIdentity(c), before, middle, output.output, Pack(a),
      Pack(b) + Pack(c), q, r);
  }

  lemma {:induction false} IdentitiesSplit(h: Header)
    ensures PutIdentities(h, []) ==
      (Pack(h.request) + Pack(h.executionRequest)) + (Pack(h.backend) + (Pack(h.execution) + Pack(h.build)))
  {
    assert Pack(h.build) + [] == Pack(h.build);
    Regroup(Pack(h.request), Pack(h.executionRequest), Pack(h.backend) + (Pack(h.execution) + Pack(h.build)));
  }

  method EncodeIdentities(output: Writer, h: Header) returns (r: Result<()>)
    requires output.Valid()
    modifies output
    ensures Wrote(ReadableHeader(h), old(output.output), output.output, PutIdentities(h, []), r)
    ensures r.Ok? ==> output.Valid()
  {
    IdentitiesSplit(h);
    ghost var before := output.output;
    var q := EncodeTwo(output, h.request, h.executionRequest);
    ghost var middle := output.output;
    r := q;
    if q.Ok? {
      r := EncodeThree(output, h.backend, h.execution, h.build);
    }
    WroteBoth(IsIdentity(h.request) && IsIdentity(h.executionRequest),
              IsIdentity(h.backend) && IsIdentity(h.execution) && IsIdentity(h.build),
              before, middle, output.output, Pack(h.request) + Pack(h.executionRequest),
              Pack(h.backend) + (Pack(h.execution) + Pack(h.build)), q, r);
  }

  method EncodeHeader(output: Writer, h: Header) returns (r: Result<()>)
    requires output.Valid()
    modifies output
    ensures Wrote(ReadableHeader(h), old(output.output), output.output, PutHeader(h, []), r)
    ensures r.Ok? ==> output.Valid()
  {
    var _ :- output.PutRaw(MAGIC);
    var _ :- output.PutInteger(2, VERSION);
    r := EncodeIdentities(output, h);
  }

  method EncodeOptionalKind(output: Writer, kind: Option<SealingKind>) returns (r: Result<()>)
    requires output.Valid()
    modifies output
    ensures Wrote(true, old(output.output), output.output, PutOption(PutKind, kind, []), r)
    ensures r.Ok? ==> output.Valid()
  {
    r := output.PutBoolean(kind.Some?);
    if r.Ok? && kind.Some? {
      r := output.PutByte(KindCode(kind.value));
    }
  }

  method EncodeOptionalPayload(output: Writer, payload: Option<seq<Entry>>) returns (r: Result<()>)
    requires output.Valid()
    modifies output
    ensures Wrote(payload.Some? ==> PrintableEntries(payload.value), old(output.output), output.output,
                  PutOption(PutPayload, payload, []), r)
    ensures r.Ok? ==> output.Valid()
  {
    ghost var before := output.output;
    var q := output.PutBoolean(payload.Some?);
    ghost var middle := output.output;
    r := q;
    if payload.Some? {
      if q.Ok? {
        r := EncodePayload(output, payload.value);
      }
      WroteBoth(true, PrintableEntries(payload.value), before, middle, output.output, PrintBool(true),
        PutPayload(payload.value, []), q, r);
    }
  }

  method EncodeOptionalArtifact(output: Writer, artifact: Option<SealedArtifact>) returns (r: Result<()>)
    requires output.Valid()
    modifies output
    ensures Wrote(artifact.Some? ==> IsIdentity(artifact.value.digest), old(output.output), output.output,
                  PutOption(PutArtifact, artifact, []), r)
    ensures r.Ok? ==> output.Valid()
  {
    ghost var before := output.output;
    var q := output.PutBoolean(artifact.Some?);
    ghost var middle := output.output;
    r := q;
    if artifact.Some? {
      if q.Ok? {
        r := EncodeArtifact(output, artifact.value);
      }
      WroteBoth(true, IsIdentity(artifact.value.digest), before, middle, output.output, PrintBool(true),
        PutArtifact(artifact.value, []), q, r);
    }
  }

  method EncodeOptionalReceipt(f: Formats, output: Writer, receipt: Option<Receipt>) returns (r: Result<()>)
    requires output.Valid()
    modifies output
    ensures Wrote(true, old(output.output), output.output,
                  PutOption((x, rest) => PutReceipt(f, x, rest), receipt, []), r)
    ensures r.Ok? ==> output.Valid()
  {
    ghost var before := output.output;
    var q := output.PutBoolean(receipt.Some?);
    ghost var middle := output.output;
    r := q;
    if receipt.Some? {
      if q.Ok? {
        r := EncodeReceipt(f, output, receipt.value);
      }
      WroteBoth(true, true, before, middle, output.output, PrintBool(true), PutReceipt(f, receipt.value, []), q, r);
    }
  }

  method EncodeKindAndText(output: Writer, kind: Option<SealingKind>, text: Text) returns (r: Result<()>)
    requires output.Valid()
    modifies output
    ensures Wrote(true, old(output.output), output.output, PutOption(PutKind, kind, []) + PrintText(text), r)
    ensures r.Ok? ==> output.Valid()
  {
    ghost var before := output.output;
    var q := EncodeOptionalKind(output, kind);
    ghost var middle := output.output;
    r := q;
    if q.Ok? {
      r := output.PutText(text);
    }
    WroteBoth(true, true, before, middle, output.output, PutOption(PutKind, kind, []), PrintText(text), q, r);
  }

  lemma {:induction false} OutcomeParts(t: Tail)
    ensures PutOutcome(t, []) ==
      [if t.succeeded then 0 else 1] + (PutOption(PutKind, t.sealing, []) + PrintText(t.diagnostic))
  {
    var text := PrintText(t.diagnostic);
    forall k, rest ensures PutKind(k, rest) == PutKind(k, []) + rest {
    }
    OptionAppends(PutKind, t.sealing, text + []);
    assert text + [] == text;
  }

  method EncodeOutcome(output: Writer, t: Tail) returns (r: Result<()>)
    requires output.Valid()
    modifies output
    ensures Wrote(true, old(output.output), output.output, PutOutcome(t, []), r) && (r.Ok? ==> output.Valid())
  {
    ghost var before := output.output;
    OutcomeParts(t);
    var q := output.PutByte(if t.succeeded then 0 else 1);
    ghost var middle := output.output;
    r := q;
    if q.Ok? {
      r := EncodeKindAndText(output, t.sealing, t.diagnostic);
    }
    WroteBoth(true, true, before, middle, output.output, [if t.succeeded then 0 else 1],
              PutOption(PutKind, t.sealing, []) + PrintText(t.diagnostic), q, r);
  }

  method EncodeEvidence(f: Formats, output: Writer, t: Tail) returns (r: Result<()>)
    requires output.Valid()
    modifies output
    ensures Wrote(PrintableTail(t), old(output.output), output.output, PutEvidence(f, t, []), r)
    ensures r.Ok? ==> output.Valid()
  {
    ghost var before := output.output;
    ghost var payload := PutOption(PutPayload, t.payload, []);
    ghost var others := PutArtifactAndReceipt(f, t);
    EvidenceParts(f, t);
    var q := EncodeOptionalPayload(output, t.payload);
    ghost var middle := output.output;
    r := q;
    if q.Ok? {
      r := EncodeArtifactAndReceipt(f, output, t);
    }
    WroteBoth(t.payload.Some? ==> PrintableEntries(t.payload.value),
              t.artifact.Some? ==> IsIdentity(t.artifact.value.digest),
              before, middle, output.output, payload, others, q, r);
  }

  ghost function PutArtifactAndReceipt(f: Formats, t: Tail): Bytes {
    PutOption(PutArtifact, t.artifact, []) + PutOption((x, rest) => PutReceipt(f, x, rest), t.receipt, [])
  }

  lemma {:induction false} EvidenceParts(f: Formats, t: Tail)
    ensures PutEvidence(f, t, []) == PutOption(PutPayload, t.payload, []) + PutArtifactAndReceipt(f, t)
  {
    forall es, rest ensures PutPayload(es, rest) == PutPayload(es, []) + rest {
      PayloadPrinted(es, rest);
    }
    forall a, rest ensures PutArtifact(a, rest) == PutArtifact(a, []) + rest {
      ArtifactPrinted(a, rest);
    }
    OptionAppends(PutArtifact, t.artifact, PutOption((x, rest) => PutReceipt(f, x, rest), t.receipt, []));
    OptionAppends(PutPayload, t.payload, PutArtifactAndReceipt(f, t));
  }

  method EncodeArtifactAndReceipt(f: Formats, output: Writer, t: Tail) returns (r: Result<()>)
    requires output.Valid()
    modifies output
    ensures Wrote(t.artifact.Some? ==> IsIdentity(t.artifact.value.digest), old(output.output), output.output,
                  PutArtifactAndReceipt(f, t), r)
    ensures r.Ok? ==> output.Valid()
  {
    ghost var before := output.output;
    var q := EncodeOptionalArtifact(output, t.artifact);
    ghost var middle := output.output;
    r := q;
    if q.Ok? {
      r := EncodeOptionalReceipt(f, output, t.receipt);
    }
    WroteBoth(t.artifact.Some? ==> IsIdentity(t.artifact.value.digest), true, before, middle, output.output,
              PutOption(PutArtifact, t.artifact, []),
              PutOption((x, rest) => PutReceipt(f, x, rest), t.receipt, []), q, r);
  }

  lemma {:induction false} OutcomeInFront(t: Tail, rest: Bytes)
    ensures PutOutcome(t, rest) == PutOutcome(t, []) + rest
  {
    OutcomePrinted(t, [], rest);
    assert [] + rest == rest;
  }

  method EncodeTail(f: Formats, output: Writer, t: Tail) returns (r: Result<()>)
    requires output.Valid()
    modifies output
    ensures Wrote(PrintableTail(t), old(output.output), output.output, PutTail(f, t, []), r)
    ensures r.Ok? ==> output.Valid()
  {
    ghost var before, evidence := output.output, PutEvidence(f, t, []);
    OutcomeInFront(t, evidence);
    var q := EncodeOutcome(output, t);
    ghost var middle := output.output;
    r := q;
    if q.Ok? {
      r := EncodeEvidence(f, output, t);
    }
    WroteBoth(true, PrintableTail(t), before, middle, output.output, PutOutcome(t, []), evidence, q, r);
  }

  method EncodeEmbeddedAndTail(f: Formats, output: Writer, embedded: Bytes, t: Tail) returns (r: Result<()>)
    requires output.Valid()
    modifies output
    ensures Wrote(PrintableTail(t), old(output.output), output.output, PrintText(embedded) + PutTail(f, t, []), r)
    ensures r.Ok? ==> output.Valid()
  {
    ghost var before := output.output;
    var q := output.PutText(embedded);
    ghost var middle := output.output;
    r := q;
    if q.Ok? {
      r := EncodeTail(f, output, t);
    }
    WroteBoth(true, PrintableTail(t), before, middle, output.output, PrintText(embedded), PutTail(f, t, []), q, r);
  }

  lemma {:induction false} RecordParts(f: Formats, r: Record)
    ensures PutRecord(f, r, []) == PutHeader(r.header, []) + (PrintText(r.execution) + PutTail(f, r.tail, []))
  {
    HeaderInFront(r.header, PrintText(r.execution) + PutTail(f, r.tail, []));
  }

  lemma {:induction false} HeaderInFront(h: Header, rest: Bytes)
    ensures PutHeader(h, rest) == PutHeader(h, []) + rest
  {
    HeaderPrinted(h, [], rest);
    assert [] + rest == rest;
  }

  method EncodeRecord(f: Formats, output: Writer, record: Record) returns (r: Result<()>)
    requires output.Valid()
    modifies output
    ensures Wrote(PrintableRecord(record), old(output.output), output.output, PutRecord(f, record, []), r)
    ensures r.Ok? ==> output.Valid()
  {
    ghost var before, others := output.output, PrintText(record.execution) + PutTail(f, record.tail, []);
    RecordParts(f, record);
    var q := EncodeHeader(output, record.header);
    ghost var middle := output.output;
    r := q;
    if q.Ok? {
      r := EncodeEmbeddedAndTail(f, output, record.execution, record.tail);
    }
    WroteBoth(ReadableHeader(record.header), PrintableTail(record.tail), before, middle, output.output,
              PutHeader(record.header, []), others, q, r);
  }

  /** `encode_build_execution_result`. */
  method EncodeBuildExecutionResult(lib: Library, r: BuildExecutionResult) returns (encoding: Result<Bytes>)
    ensures encoding == Encoding(lib, r)
    ensures encoding ==
      if Encodable(lib, r) then Ok(Body(lib, r) + Octets(lib.sha(Body(lib, r)))) else Err(InconsistentResult)
  {
    EncodesExactly(lib, r);
    if !ValidResult(lib, r) || !WithinLimits(r) {
      return Err(InconsistentResult);
    }
    var output := new Writer();
    var record := RecordOf(lib, r);
    ghost var body := PutRecord(lib.formats, record, []);
    assert [] + body == body;
    var written := EncodeRecord(lib.formats, output, record);
    if written.Err? {
      return Err(InconsistentResult);
    }
    var sealed := output.PutIdentity(lib.sha(output.output));
    encoding := if sealed.Ok? then Ok(output.output) else Err(InconsistentResult);
  }

  // Decoding ---------------------------------------------------------------------------------------------

  method DecodeIdentities(input: Reader) returns (r: Result<Header>)
    requires input.Valid()
    modifies input
    ensures input.Valid() && Took(input.Rest(), ParseIdentities(old(input.Rest())), r)
  {
    var request :- input.TakeIdentity();
    var executionRequest :- input.TakeIdentity();
    var backend :- input.TakeIdentity();
    var execution :- input.TakeIdentity();
    var build :- input.TakeIdentity();
    r := Ok(Header(request, executionRequest, backend, execution, build));
  }

  method DecodeMagic(input: Reader) returns (r: Result<()>)
    requires input.Valid()
    modifies input
    ensures input.Valid()
    ensures r == if MAGIC <= old(input.Rest()) then Ok(()) else Err(CorruptEncoding)
    ensures r.Ok? ==> input.Rest() == old(input.Rest())[8..]
  {
    ghost var all := input.Rest();
    for i := 0 to |MAGIC|
      invariant input.Valid() && i <= |all| && input.Rest() == all[i..]
      invariant forall k :: 0 <= k < i ==> all[k] == MAGIC[k]
    {
      var next :- input.TakeByte();
      if next != MAGIC[i] {
        return Err(CorruptEncoding);
      }
      assert all[i..][1..] == all[i + 1..];
    }
    r := Ok(());
  }

  method DecodeHeader(input: Reader) returns (r: Result<Header>)
    requires input.Valid()
    modifies input
    ensures input.Valid() && Took(input.Rest(), ParseHeader(old(input.Rest())), r)
  {
    var _ :- DecodeMagic(input);
    var version :- input.TakeInteger(2);
    if version != VERSION {
      return Err(CorruptEncoding);
    }
    r := DecodeIdentities(input);
  }

  method DecodeOptionalKind(input: Reader) returns (r: Result<Option<SealingKind>>)
    requires input.Valid()
    modifies input
    ensures input.Valid() && Took(input.Rest(), ParseOption(ParseKind, old(input.Rest())), r)
  {
    var present :- input.TakeBoolean();
    if !present {
      return Ok(None);
    }
    ghost var s := input.Rest();
    var value :- input.TakeByte();
    if value > 4 {
      return Err(CorruptEncoding);
    }
    assert ParseKind(s).Parsed? && input.Rest() == ParseKind(s).rest;
    r := Ok(Some(match value
      case 0 => PayloadInspection
      case 1 => ArtifactEncoding
      case 2 => ArtifactPublication
      case 3 => ArtifactVerification
      case _ => ArtifactCleanup));
  }

  method DecodeOutcome(input: Reader) returns (r: Result<Outcome>)
    requires input.Valid()
    modifies input
    ensures input.Valid() && Took(input.Rest(), ParseOutcome(old(input.Rest())), r)
  {
    var outcome :- input.TakeByte();
    if outcome > 1 {
      return Err(CorruptEncoding);
    }
    var sealing :- DecodeOptionalKind(input);
    var diagnostic :- input.TakeText(MAXIMUM_DIAGNOSTIC);
    r := Ok(Outcome(outcome == 0, sealing, diagnostic));
  }

  method DecodeOptionalPayload(f: Formats, input: Reader, ghost payloads: Parse<seq<Entry>>)
    returns (r: Result<Option<seq<Entry>>>)
    requires input.Valid() && forall x {:trigger ParsePayload(f, x)} :: payloads(x) == ParsePayload(f, x)
    modifies input
    ensures input.Valid() && Took(input.Rest(), ParseOption(payloads, old(input.Rest())), r)
  {
    var present :- input.TakeBoolean();
    if !present {
      return Ok(None);
    }
    var payload :- DecodePayload(f, input);
    r := Ok(Some(payload));
  }

  method DecodeOptionalArtifact(f: Formats, input: Reader, ghost artifacts: Parse<SealedArtifact>)
    returns (r: Result<Option<SealedArtifact>>)
    requires input.Valid() && forall x {:trigger ParseArtifact(f, x)} :: artifacts(x) == ParseArtifact(f, x)
    modifies input
    ensures input.Valid() && Took(input.Rest(), ParseOption(artifacts, old(input.Rest())), r)
  {
    var present :- input.TakeBoolean();
    if !present {
      return Ok(None);
    }
    var artifact :- DecodeArtifact(f, input);
    r := Ok(Some(artifact));
  }

  method DecodeOptionalReceipt(f: Formats, input: Reader, ghost receipts: Parse<Receipt>)
    returns (r: Result<Option<Receipt>>)
    requires input.Valid() && forall x {:trigger ParseReceipt(f, x)} :: receipts(x) == ParseReceipt(f, x)
    modifies input
    ensures input.Valid() && Took(input.Rest(), ParseOption(receipts, old(input.Rest())), r)
  {
    var present :- input.TakeBoolean();
    if !present {
      return Ok(None);
    }
    var receipt :- DecodeReceipt(f, input);
    r := Ok(Some(receipt));
  }

  /** The evidence as parsed, with its payload sealed in place. */
  function SealedParse(lib: Library, p: Parsed<Tail>): Parsed<Tail> {
    match p
    case Malformed => Malformed
    case Parsed(t, rest) =>
      match SealedTail(lib, t)
      case None => Malformed
      case Some(sealed) => Parsed(sealed, rest)
  }

  /** An artifact and a receipt, if they are there. */
  function ParseTwo(artifacts: Parse<SealedArtifact>, receipts: Parse<Receipt>, s: Bytes):
    Parsed<(Option<SealedArtifact>, Option<Receipt>)>
  {
    match ParseOption(artifacts, s)
    case Malformed => Malformed
    case Parsed(artifact, s1) =>
      match ParseOption(receipts, s1)
      case Malformed => Malformed
      case Parsed(receipt, rest) => Parsed((artifact, receipt), rest)
  }

  method DecodeTwo(f: Formats, input: Reader, ghost artifacts: Parse<SealedArtifact>, ghost receipts: Parse<Receipt>)
    returns (r: Result<(Option<SealedArtifact>, Option<Receipt>)>)
    requires input.Valid()
    requires forall x {:trigger ParseArtifact(f, x)} :: artifacts(x) == ParseArtifact(f, x)
    requires forall x {:trigger ParseReceipt(f, x)} :: receipts(x) == ParseReceipt(f, x)
    modifies input
    ensures input.Valid() && Took(input.Rest(), ParseTwo(artifacts, receipts, old(input.Rest())), r)
  {
    var artifact :- DecodeOptionalArtifact(f, input, artifacts);
    var receipt :- DecodeOptionalReceipt(f, input, receipts);
    r := Ok((artifact, receipt));
  }

  /** The three optional parts in the order they are read and sealed. */
  function ParseInTurn(
      lib: Library, payloads: Parse<seq<Entry>>, artifacts: Parse<SealedArtifact>, receipts: Parse<Receipt>,
      o: Outcome, s: Bytes): Parsed<Tail>
  {
    match ParseOption(payloads, s)
    case Malformed => Malformed
    case Parsed(raw, s1) =>
      var payload := if raw.Some? then lib.seal(raw.value) else None;
      if raw.Some? && payload.None? then
        Malformed
      else
        match ParseTwo(artifacts, receipts, s1)
        case Malformed => Malformed
        case Parsed((artifact, receipt), rest) =>
          Parsed(Tail(o.succeeded, o.sealing, o.diagnostic, payload, artifact, receipt), rest)
  }

  lemma {:induction false} InTurn(
      lib: Library, payloads: Parse<seq<Entry>>, artifacts: Parse<SealedArtifact>, receipts: Parse<Receipt>,
      o: Outcome, s: Bytes)
    ensures SealedParse(lib, ParseEvidenceBy(payloads, artifacts, receipts, o, s)) ==
      ParseInTurn(lib, payloads, artifacts, receipts, o, s)
  {
  }

  method DecodeInTurn(
      lib: Library, input: Reader, o: Outcome,
      ghost payloads: Parse<seq<Entry>>, ghost artifacts: Parse<SealedArtifact>, ghost receipts: Parse<Receipt>)
    returns (r: Result<Tail>)
    requires input.Valid()
    requires forall x {:trigger ParsePayload(lib.formats, x)} :: payloads(x) == ParsePayload(lib.formats, x)
    requires forall x {:trigger ParseArtifact(lib.formats, x)} :: artifacts(x) == ParseArtifact(lib.formats, x)
    requires forall x {:trigger ParseReceipt(lib.formats, x)} :: receipts(x) == ParseReceipt(lib.formats, x)
    modifies input
    ensures input.Valid()
    ensures Took(input.Rest(), ParseInTurn(lib, payloads, artifacts, receipts, o, old(input.Rest())), r)
  {
    var raw :- DecodeOptionalPayload(lib.formats, input, payloads);
    var payload := raw;
    if raw.Some? {
      payload := lib.seal(raw.value);
      if payload.None? {
        return Err(CorruptEncoding);
      }
    }
    var two :- DecodeTwo(lib.formats, input, artifacts, receipts);
    r := Ok(Tail(o.succeeded, o.sealing, o.diagnostic, payload, two.0, two.1));
  }

  /** The three optional parts; the manifest is sealed as soon as its entries are read. */
  method DecodeEvidence(
      lib: Library, input: Reader, o: Outcome,
      ghost payloads: Parse<seq<Entry>>, ghost artifacts: Parse<SealedArtifact>, ghost receipts: Parse<Receipt>)
    returns (r: Result<Tail>)
    requires input.Valid()
    requires forall x {:trigger ParsePayload(lib.formats, x)} :: payloads(x) == ParsePayload(lib.formats, x)
    requires forall x {:trigger ParseArtifact(lib.formats, x)} :: artifacts(x) == ParseArtifact(lib.formats, x)
    requires forall x {:trigger ParseReceipt(lib.formats, x)} :: receipts(x) == ParseReceipt(lib.formats, x)
    modifies input
    ensures input.Valid()
    ensures Took(input.Rest(),
                 SealedParse(lib, ParseEvidenceBy(payloads, artifacts, receipts, o, old(input.Rest()))), r)
  {
    InTurn(lib, payloads, artifacts, receipts, o, input.Rest());
    r := DecodeInTurn(lib, input, o, payloads, artifacts, receipts);
  }

  method DecodeBody(lib: Library, input: Reader, who: Authorities) returns (r: Result<BuildExecutionResult>)
    requires input.Valid()
    modifies input
    ensures r == DecodingBody(lib, old(input.Rest()), who)
  {
    var h :- DecodeHeader(input);
    if !Matches(h, who) {
      return Err(AuthorityMismatch);
    }
    var embedded :- input.TakeText(lib.executionLimit);
    var decoded := lib.decodeExecution(embedded, who.executionRequest, who.backend);
    match decoded
    case OtherAuthority => return Err(AuthorityMismatch);
    case InvalidExecution => return Err(CorruptEncoding);
    case DecodedExecution(execution) => r := DecodeRest(lib, input, who, h, execution);
  }

  method DecodeRest(lib: Library, input: Reader, who: Authorities, h: Header, execution: Execution)
    returns (r: Result<BuildExecutionResult>)
    requires input.Valid()
    modifies input
    ensures r == DecodingTail(lib, who, h, execution, old(input.Rest()))
  {
    if execution.identity != h.execution {
      return Err(CorruptEncoding);
    }
    var o :- DecodeOutcome(input);
    var t :- DecodeEvidence(lib, input, o, x => ParsePayload(lib.formats, x), x => ParseArtifact(lib.formats, x),
                            x => ParseReceipt(lib.formats, x));
    if input.offset != input.limit {
      return Err(CorruptEncoding);
    }
    r := Rebuilding(lib, who, h, execution, t);
  }

  method DecodeFramed(lib: Library, encoding: Bytes, size: nat, who: Authorities)
    returns (r: Result<BuildExecutionResult>)
    requires size <= |encoding| < TWO_64
    ensures r == DecodingBody(lib, encoding[..size], who)
  {
    var input := new Reader(encoding, size);
    assert input.Rest() == encoding[..size];
    r := DecodeBody(lib, input, who);
  }

  /** Everything `decode_build_execution_result` does before it re-encodes. */
  method DecodeChecked(lib: Library, encoding: Bytes, who: Authorities) returns (r: Result<BuildExecutionResult>)
    ensures r == Checked(lib, encoding, who)
  {
    if |encoding| > MAXIMUM_ENCODING || |encoding| < |MAGIC| + 2 + 32 {
      return Err(CorruptEncoding);
    }
    var size := |encoding| - 32;
    if HexOf(encoding[size..]) != lib.sha(encoding[..size]) {
      return Err(CorruptEncoding);
    }
    r := DecodeFramed(lib, encoding, size, who);
  }

  /** `decode_build_execution_result`. */
  method DecodeBuildExecutionResult(lib: Library, encoding: Bytes, who: Authorities)
    returns (r: Result<BuildExecutionResult>)
    ensures r == Decoding(lib, encoding, who)
    ensures r.Ok? && lib.Lawful() ==>
      && r.value.build.request == who.request && r.value.execution.request == who.executionRequest
      && r.value.execution.backend == who.backend
      && Encodable(lib, r.value)
      && encoding == Body(lib, r.value) + Octets(lib.sha(Body(lib, r.value)))
  {
    if lib.Lawful() && Decoding(lib, encoding, who).Ok? {
      DecodesExactly(lib, encoding, who);
    }
    var decoded :- DecodeChecked(lib, encoding, who);
    var again := EncodeBuildExecutionResult(lib, decoded);
    r := if again == Ok(encoding) then Ok(decoded) else Err(CorruptEncoding);
  }
}
