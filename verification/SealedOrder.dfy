/**
 * A record whose payload entries are not in sealed order passes every check of the decoder but the
 * last, the re-encoding (src/result_codec.cpp:649-737): for any library, and one such byte string.
 */
module SealedOrder {
  import opened Outcomes
  import opened Wire
  import opened WireBuffers
  import opened RecordFormat
  import opened BuildResults
  import opened ResultCodec

  /** The result's record with other entries, which the manifest library seals to the result's own. */
  function Reordered(lib: Library, r: BuildExecutionResult, es: seq<Entry>): Record {
    var record := RecordOf(lib, r);
    record.(tail := record.tail.(payload := Some(es)))
  }

  /** The parts of the record can be read back. */
  predicate Spellable(lib: Library, r: BuildExecutionResult, es: seq<Entry>) {
    && ValidResult(lib, r) && Decodable(lib, r) && r.build.Succeeded?
    && ReadableHeader(RecordOf(lib, r).header)
    && |lib.encodeExecution(r.execution)| < TWO_32
    && ReadablePayload(lib.formats, es)
    && lib.seal(es) == Some(r.build.payload)
  }

  lemma {:induction false} ReorderedTailDecodes(lib: Library, r: BuildExecutionResult, es: seq<Entry>)
    requires Spellable(lib, r, es)
    ensures var record := Reordered(lib, r, es);
      DecodingTail(lib, AuthoritiesOf(r), record.header, r.execution, PutTail(lib.formats, record.tail, [])) ==
        Ok(Rebuilt(lib, r))
  {
    TailLeft(lib.formats, Reordered(lib, r, es).tail, []);
    RebuildingFinds(lib, r);
  }

  /** Header and embedded record in front of a tail that decodes. */
  lemma {:induction false} BodyInParts(
      lib: Library, who: Authorities, h: Header, embedded: Bytes, execution: Execution, tail: Bytes,
      r: BuildExecutionResult)
    requires ReadableHeader(h) && Matches(h, who) && |embedded| <= lib.executionLimit && |embedded| < TWO_32
    requires lib.decodeExecution(embedded, who.executionRequest, who.backend) == DecodedExecution(execution)
    requires DecodingTail(lib, who, h, execution, tail) == Ok(r)
    ensures DecodingBody(lib, PutHeader(h, PrintText(embedded) + tail), who) == Ok(r)
  {
    HeaderLeft(h, PrintText(embedded) + tail);
    TextLeft(embedded, lib.executionLimit, tail);
  }

  lemma {:induction false} ReorderedChecks(lib: Library, r: BuildExecutionResult, es: seq<Entry>)
    requires lib.Lawful() && Spellable(lib, r, es)
    requires var body := PutRecord(lib.formats, Reordered(lib, r, es), []);
      |body| <= MAXIMUM_ENCODING - 32 && IsIdentity(lib.sha(body))
    ensures var body := PutRecord(lib.formats, Reordered(lib, r, es), []);
      && Checked(lib, Sealed(lib, body), AuthoritiesOf(r)) == Ok(Rebuilt(lib, r))
      && Sealed(lib, body)[..|Sealed(lib, body)| - 32] == body
  {
    var record := Reordered(lib, r, es);
    RecordIsLong(lib, record);
    SealedFrames(lib, PutRecord(lib.formats, record, []));
    ReorderedTailDecodes(lib, r, es);
    BodyInParts(lib, AuthoritiesOf(r), record.header, record.execution, r.execution,
                PutTail(lib.formats, record.tail, []), Rebuilt(lib, r));
  }

  /** The bytes spell the reordered record and no other. */
  lemma {:induction false} ReorderedSpells(lib: Library, r: BuildExecutionResult, es: seq<Entry>)
    requires Spellable(lib, r, es)
    ensures ParseRecord(lib.formats, lib.executionLimit, PutRecord(lib.formats, Reordered(lib, r, es), [])) ==
      Parsed(Reordered(lib, r, es), [])
  {
    RecordLeft(lib.formats, lib.executionLimit, Reordered(lib, r, es), []);
  }

  /**
   * Entries that seal to a result's payload and are not that payload: their record passes the other
   * checks, stands for the same result, and is refused.
   */
  lemma {:induction false} ReorderedIsRefused(lib: Library, r: BuildExecutionResult, es: seq<Entry>)
    requires lib.Lawful() && Spellable(lib, r, es) && es != r.build.payload
    requires var body := PutRecord(lib.formats, Reordered(lib, r, es), []);
      |body| <= MAXIMUM_ENCODING - 32 && IsIdentity(lib.sha(body))
    ensures var encoding := Sealed(lib, PutRecord(lib.formats, Reordered(lib, r, es), []));
      && Checked(lib, encoding, AuthoritiesOf(r)) == Ok(Rebuilt(lib, r))
      && Decoding(lib, encoding, AuthoritiesOf(r)) == Err(CorruptEncoding)
  {
    ReorderedChecks(lib, r, es);
    ReorderedSpells(lib, r, es);
    var encoding := Sealed(lib, PutRecord(lib.formats, Reordered(lib, r, es), []));
    var record := CanonicalExactly(lib, encoding, AuthoritiesOf(r));
    assert record == Reordered(lib, r, es);
    NotSealedYet(lib, r, es);
  }

  lemma {:induction false} NotSealedYet(lib: Library, r: BuildExecutionResult, es: seq<Entry>)
    requires Spellable(lib, r, es) && es != r.build.payload
    ensures !Canonical(lib, Reordered(lib, r, es), Rebuilt(lib, r))
  {
  }

  // One such record --------------------------------------------------------------------------------------

  /** 64 zero digits. */
  function Zeros(): (t: Text)
    ensures IsIdentity(t)
  {
    seq(64, _ => 48)
  }

  /** A manifest library that puts a directory in front of what is in it, for payloads of two entries. */
  function SealPair(es: seq<Entry>): seq<Entry> {
    if |es| == 2 && es[1].path < es[0].path then [es[1], es[0]] else es
  }

  /** An execution library that knows one execution. */
  function OneExecution(): Execution {
    Execution(ExecutionRequest(Zeros(), true, []), Backend(Zeros(), []), Zeros(), true, [], [])
  }

  function OneDecoding(embedded: Bytes, request: ExecutionRequest, backend: Backend): ExecutionDecoding {
    if embedded == [] && request == OneExecution().request && backend == OneExecution().backend
    then DecodedExecution(OneExecution())
    else InvalidExecution
  }

  function OneLibrary(): Library {
    Library(
      Formats(_ => true, _ => true, 0, 0, _ => true, _ => true, _ => []),
      _ => Zeros(), es => Some(SealPair(es)), 0,
      x => if x == OneExecution() then [] else [0],
      (b, q, k) => OneDecoding(b, q, k),
      _ => [], _ => [], (_, _) => [], _ => Zeros())
  }

  lemma {:induction false} OneLibraryIsLawful()
    ensures OneLibrary().Lawful()
  {
    var lib := OneLibrary();
    forall es, e | e in SealPair(es)
      ensures e in es
    {
    }
    assert lib.SealNormalizes();
    assert lib.ExecutionRoundTrips();
  }

  function DirectoryAt(path: Text): Entry {
    Entry(path, 0, 0, 0, 0, 0, Directory)
  }

  /** A directory and one in it. */
  function OnePayload(): seq<Entry> {
    [DirectoryAt([97]), DirectoryAt([97, 47, 98])]
  }

  function OneResult(): BuildExecutionResult {
    var artifact := SealedArtifact(0, 0, 0, Zeros());
    var build := Succeeded(BuildRequest(Zeros(), []), OnePayload(), artifact, []);
    var receipt := Receipt([], ArchiveDigest(Zeros()), [], 2);
    BuildExecutionResult(OneExecution(), build, None, [], Some(Authority(build, receipt)))
  }

  lemma {:induction false} OneIsSpellable()
    ensures Spellable(OneLibrary(), OneResult(), [OnePayload()[1], OnePayload()[0]])
    ensures [OnePayload()[1], OnePayload()[0]] != OnePayload()
  {
    assert OnePayload()[0].path[..] != OnePayload()[1].path;
    assert OnePayload()[0].path < OnePayload()[1].path;
    assert |ArchiveDigest(Zeros())| == 74;
  }

  lemma {:induction false} DirectorySize(e: Entry, rest: Bytes)
    requires e.what.Directory?
    ensures |PutEntry(e, rest)| == 45 + |e.path| + |rest|
  {
    assert PutWhat(e.what, rest) == rest;
    assert |PutTimes(e.Common().times, rest)| == 20 + |rest|;
    assert |PutOwner(e.Common().owner, PutTimes(e.Common().times, rest))| == 40 + |rest|;
  }

  lemma {:induction false} PairSize(a: Entry, b: Entry, rest: Bytes)
    requires a.what.Directory? && b.what.Directory?
    ensures |PutPayload([a, b], rest)| == 94 + |a.path| + |b.path| + |rest|
  {
    assert [a, b][1..] == [b] && [b][1..] == [];
    DirectorySize(b, rest);
    DirectorySize(a, PutEntry(b, rest));
    assert PutAll(PutEntry, [b], rest) == PutEntry(b, rest);
    assert PutAll(PutEntry, [a, b], rest) == PutEntry(a, PutEntry(b, rest));
  }

  lemma {:induction false} ReceiptSize(f: Formats, r: Receipt, rest: Bytes)
    ensures |PutReceipt(f, r, rest)| == 28 + |r.backend| + |r.archive| + |r.image| + |f.receiptIdentity(r)| + |rest|
  {
    assert |PutReceiptAfter(f, r, rest)| == 20 + |r.archive| + |r.image| + |f.receiptIdentity(r)| + |rest|;
  }

  lemma {:induction false} TailSize(f: Formats, t: Tail)
    requires t.sealing.None? && t.payload.Some? && t.artifact.Some? && t.receipt.Some?
    requires |t.payload.value| == 2 && t.payload.value[0].what.Directory? && t.payload.value[1].what.Directory?
    ensures |PutTail(f, t, [])| <= 300 + |t.diagnostic| + |t.payload.value[0].path| + |t.payload.value[1].path|
      + |t.receipt.value.backend| + |t.receipt.value.archive| + |t.receipt.value.image|
      + |f.receiptIdentity(t.receipt.value)|
  {
    var es := t.payload.value;
    var s2 := PutOption((x, rest) => PutReceipt(f, x, rest), t.receipt, []);
    ReceiptSize(f, t.receipt.value, []);
    var s1 := PutOption(PutArtifact, t.artifact, s2);
    assert |Pack(t.artifact.value.digest)| <= 32;
    assert |PutArtifact(t.artifact.value, s2)| <= 42 + |s2|;
    assert es == [es[0], es[1]];
    PairSize(es[0], es[1], s1);
    assert PutEvidence(f, t, []) == PutOption(PutPayload, t.payload, s1);
  }

  lemma {:induction false} HeaderSize(h: Header, rest: Bytes)
    ensures |PutHeader(h, rest)| <= 170 + |rest|
  {
    assert |Pack(h.request)| <= 32 && |Pack(h.executionRequest)| <= 32 && |Pack(h.backend)| <= 32;
    assert |Pack(h.execution)| <= 32 && |Pack(h.build)| <= 32;
  }

  lemma {:induction false} OneSize()
    ensures var es := [OnePayload()[1], OnePayload()[0]];
      |PutRecord(OneLibrary().formats, Reordered(OneLibrary(), OneResult(), es), [])| <= 600
  {
    var lib, es := OneLibrary(), [OnePayload()[1], OnePayload()[0]];
    var record := Reordered(lib, OneResult(), es);
    assert |ArchiveDigest(Zeros())| == 74;
    TailSize(lib.formats, record.tail);
    HeaderSize(record.header, PrintText(record.execution) + PutTail(lib.formats, record.tail, []));
  }

  /**
   * So one byte string passes every other check, and is refused all the same: the decoder does not
   * return whatever it can read.
   */
  lemma {:induction false} OneIsRefused() returns (encoding: Bytes)
    ensures OneLibrary().Lawful()
    ensures Checked(OneLibrary(), encoding, AuthoritiesOf(OneResult())).Ok?
    ensures Decoding(OneLibrary(), encoding, AuthoritiesOf(OneResult())) == Err(CorruptEncoding)
  {
    var lib, r, es := OneLibrary(), OneResult(), [OnePayload()[1], OnePayload()[0]];
    OneLibraryIsLawful();
    OneIsSpellable();
    OneSize();
    ReorderedIsRefused(lib, r, es);
    encoding := Sealed(lib, PutRecord(lib.formats, Reordered(lib, r, es), []));
  }
}
