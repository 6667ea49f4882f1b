/**
 * The bytes of a durable record, field by field as the encoder writes them, and the results it accepts
 * (src/result_codec.cpp:74-160, 317-352, 425-506, 599-664).  Nothing here goes through the printers.
 */
module RecordLayout {
  import opened Outcomes
  import opened Wire
  import opened RecordFormat
  import opened BuildResults
  import opened RecordBuffers
  import opened ResultCodec

  // Fields ---------------------------------------------------------------------------------------------

  function Ascii(text: string): Bytes
    requires forall i :: 0 <= i < |text| ==> text[i] as int < 256
  {
    seq(|text|, i requires 0 <= i < |text| => text[i] as int)
  }

  /** Four bytes, the most significant first. */
  function Four(v: nat): Bytes {
    [v / 0x100_0000 % 0x100, v / 0x1_0000 % 0x100, v / 0x100 % 0x100, v % 0x100]
  }

  function Eight(v: nat): Bytes {
    Four(v / 0x1_0000_0000) + Four(v)
  }

  /** Two's complement in eight bytes. */
  function EightSigned(v: i64): Bytes {
    Eight(v % 0x1_0000_0000_0000_0000)
  }

  function Nibble(c: Byte): nat {
    if '0' as int <= c <= '9' as int then c - '0' as int else if 'a' as int <= c then c - 'a' as int + 10 else 0
  }

  function Octet(high: Byte, low: Byte): Byte {
    (16 * Nibble(high) + Nibble(low)) % 0x100
  }

  /** One byte for every two hexadecimal digits. */
  function Octets(identity: Text): Bytes {
    seq(|identity| / 2, i requires 0 <= i < |identity| / 2 => Octet(identity[2 * i], identity[2 * i + 1]))
  }

  /** The length in four bytes, then the bytes. */
  function Counted(text: Text): Bytes {
    Four(|text|) + text
  }

  /** 64 digits, each one of "0123456789abcdef". */
  predicate Hexadecimal(t: Text) {
    |t| == 64 && forall i :: 0 <= i < 64 ==> t[i] in Ascii("0123456789abcdef")
  }

  lemma {:induction false} FourIsBE(v: nat)
    ensures BE(4, v) == Four(v)
  {
    BELast(4, v);
    BELast(3, v / 0x100);
    BELast(2, v / 0x100 / 0x100);
    BELast(1, v / 0x100 / 0x100 / 0x100);
  }

  lemma {:induction false} FourTimes(v: nat)
    ensures v / 0x100 / 0x100 / 0x100 / 0x100 == v / 0x1_0000_0000
  {
    assert v / 0x100 / 0x100 == v / 0x1_0000;
    assert v / 0x1_0000 / 0x100 == v / 0x100_0000;
  }

  lemma {:induction false} EightIsBE(v: nat)
    ensures BE(8, v) == Eight(v)
  {
    BELast(8, v);
    BELast(7, v / 0x100);
    BELast(6, v / 0x100 / 0x100);
    BELast(5, v / 0x100 / 0x100 / 0x100);
    FourTimes(v);
    FourIsBE(v / 0x1_0000_0000);
    LastFour(v);
  }

  lemma {:induction false} LastFour(v: nat)
    ensures Four(v) ==
      [v / 0x100 / 0x100 / 0x100 % 0x100, v / 0x100 / 0x100 % 0x100, v / 0x100 % 0x100, v % 0x100]
  {
  }

  lemma {:induction false} WrapsAround(v: i64)
    ensures Unsigned(v) == v % 0x1_0000_0000_0000_0000
  {
  }

  lemma {:induction false} SignedIsBE(v: i64)
    ensures BE(8, Unsigned(v)) == EightSigned(v)
  {
    WrapsAround(v);
    EightIsBE(Unsigned(v));
  }

  lemma {:induction false} OctetIsPair(c: Byte, d: Byte)
    requires IsHexDigit(c) && IsHexDigit(d)
    ensures DigitValue(c) * 16 + DigitValue(d) == Octet(c, d)
  {
    NibbleIsDigit(c);
    NibbleIsDigit(d);
  }

  lemma {:induction false} NibbleIsDigit(c: Byte)
    requires IsHexDigit(c)
    ensures Nibble(c) == DigitValue(c)
  {
  }

  lemma {:induction false} OctetsAreDigits(t: Text)
    requires |t| % 2 == 0 && AllHex(t)
    ensures UnHex(t) == Octets(t)
  {
    if t != [] {
      ghost var others := t[2..];
      assert AllHex(others) && |others| % 2 == 0;
      calc {
        UnHex(t);
        [DigitValue(t[0]) * 16 + DigitValue(t[1])] + UnHex(others);
        { OctetsAreDigits(others); OctetIsPair(t[0], t[1]); }
        [Octet(t[0], t[1])] + Octets(others);
        { OctetsSplit(t); }
        Octets(t);
      }
    }
  }

  lemma {:induction false} OctetsSplit(t: Text)
    requires |t| % 2 == 0 && t != []
    ensures Octets(t) == [Octet(t[0], t[1])] + Octets(t[2..])
  {
    forall i | 1 <= i < |t| / 2
      ensures Octets(t)[i] == Octets(t[2..])[i - 1]
    {
      assert t[2..][2 * (i - 1)] == t[2 * i] && t[2..][2 * (i - 1) + 1] == t[2 * i + 1];
    }
  }

  lemma {:induction false} IdentityIsHexadecimal(t: Text)
    ensures IsIdentity(t) <==> Hexadecimal(t)
    ensures IsIdentity(t) ==> Pack(t) == Octets(t)
  {
    var digits := Ascii("0123456789abcdef");
    forall c: Byte
      ensures IsHexDigit(c) <==> c in digits
    {
      if IsHexDigit(c) {
        assert digits[if c <= 57 then c - 48 else c - 87] == c;
      }
    }
    if IsIdentity(t) {
      OctetsAreDigits(t);
    }
  }

  // Entries --------------------------------------------------------------------------------------------

  /** The type of an entry, by its number. */
  function TypeNumber(w: What): Byte {
    if w.Regular? then 0
    else if w.Directory? then 1
    else if w.Symlink? then 2
    else if w.Hardlink? then 3
    else if w.Fifo? then 4
    else if w.CharacterDevice? then 5
    else 6
  }

  /** What only entries of this type have. */
  function WhatBytes(w: What): Bytes {
    match w
    case Regular(_, content) => Octets(content)
    case Symlink(target) => Counted(target)
    case Hardlink(original) => Counted(original)
    case CharacterDevice(major, minor) => Eight(major) + Eight(minor)
    case BlockDevice(major, minor) => Eight(major) + Eight(minor)
    case _ => []
  }

  /** Mode, user, group, size and time. */
  function Numbers(e: Entry): Bytes {
    Four(e.mode) + Eight(e.uid) + Eight(e.gid)
    + Eight(if e.what.Regular? then e.what.size else 0)
    + EightSigned(e.seconds) + Four(e.nanoseconds)
  }

  function EntryBytes(e: Entry): Bytes {
    [TypeNumber(e.what)] + Counted(e.path) + Numbers(e) + WhatBytes(e.what)
  }

  function EntriesBytes(es: seq<Entry>): Bytes {
    if es == [] then [] else EntryBytes(es[0]) + EntriesBytes(es[1..])
  }

  lemma {:induction false} WhatLaidOut(w: What, rest: Bytes)
    requires w.Regular? ==> IsIdentity(w.content)
    ensures PutWhat(w, rest) == WhatBytes(w) + rest
  {
    match w
    case Regular(_, content) => IdentityIsHexadecimal(content);
    case Symlink(target) => FourIsBE(|target|);
    case Hardlink(original) => FourIsBE(|original|);
    case CharacterDevice(major, minor) => DeviceLaidOut(major, minor, rest);
    case BlockDevice(major, minor) => DeviceLaidOut(major, minor, rest);
    case _ =>
  }

  lemma {:induction false} DeviceLaidOut(major: u64, minor: u64, rest: Bytes)
    ensures BE(8, major) + (BE(8, minor) + rest) == (Eight(major) + Eight(minor)) + rest
  {
    EightIsBE(major);
    EightIsBE(minor);
    Regroup(BE(8, major), BE(8, minor), rest);
  }

  lemma {:induction false} TimesLaidOut(t: Times, rest: Bytes)
    ensures PutTimes(t, rest) == (Eight(t.size) + EightSigned(t.seconds) + Four(t.nanoseconds)) + rest
  {
    EightIsBE(t.size);
    SignedIsBE(t.seconds);
    FourIsBE(t.nanoseconds);
    Three(BE(8, t.size), BE(8, Unsigned(t.seconds)), BE(4, t.nanoseconds), rest);
  }

  lemma {:induction false} OwnerLaidOut(o: Owner, rest: Bytes)
    ensures PutOwner(o, rest) == (Four(o.mode) + Eight(o.uid) + Eight(o.gid)) + rest
  {
    FourIsBE(o.mode);
    EightIsBE(o.uid);
    EightIsBE(o.gid);
    Three(BE(4, o.mode), BE(8, o.uid), BE(8, o.gid), rest);
  }

  lemma {:induction false} Three(a: Bytes, b: Bytes, c: Bytes, rest: Bytes)
    ensures a + (b + (c + rest)) == (a + b + c) + rest
  {
  }

  lemma {:induction false} Six(a: Bytes, b: Bytes, c: Bytes, d: Bytes, e: Bytes, f: Bytes, rest: Bytes)
    ensures (a + b + c) + ((d + e + f) + rest) == (a + b + c + d + e + f) + rest
  {
    Three(a + b + c, d, e, f + rest);
    Three(d, e, f, rest);
    Regroup(a + b + c + d + e, f, rest);
  }

  lemma {:induction false} NumbersLaidOut(e: Entry, rest: Bytes)
    ensures PutOwner(e.Common().owner, PutTimes(e.Common().times, rest)) == Numbers(e) + rest
  {
    OwnerLaidOut(e.Common().owner, PutTimes(e.Common().times, rest));
    TimesLaidOut(e.Common().times, rest);
    Six(Four(e.mode), Eight(e.uid), Eight(e.gid), Eight(if e.what.Regular? then e.what.size else 0),
        EightSigned(e.seconds), Four(e.nanoseconds), rest);
  }

  lemma {:induction false} EntryLaidOut(e: Entry, rest: Bytes)
    requires PrintableEntry(e)
    ensures PutEntry(e, rest) == EntryBytes(e) + rest
  {
    WhatLaidOut(e.what, rest);
    NumbersLaidOut(e, WhatBytes(e.what) + rest);
    FourIsBE(|e.path|);
    var kind, path, numbers, what := [TypeNumber(e.what)], Counted(e.path), Numbers(e), WhatBytes(e.what);
    assert [Code(e.what)] == kind;
    Three(kind, path, numbers, what + rest);
    Regroup(kind + path + numbers, what, rest);
  }

  lemma {:induction false} EntriesLaidOut(es: seq<Entry>, rest: Bytes)
    requires PrintableEntries(es)
    ensures PutAll(PutEntry, es, rest) == EntriesBytes(es) + rest
  {
    if es != [] {
      EntriesLaidOut(es[1..], rest);
      EntryLaidOut(es[0], EntriesBytes(es[1..]) + rest);
      Regroup(EntryBytes(es[0]), EntriesBytes(es[1..]), rest);
    }
  }

  // The record -----------------------------------------------------------------------------------------

  /** A presence byte, and the failure's number. */
  function SealingBytes(sealing: Option<SealingKind>): Bytes {
    if sealing == None then [0]
    else if sealing == Some(PayloadInspection) then [1, 0]
    else if sealing == Some(ArtifactEncoding) then [1, 1]
    else if sealing == Some(ArtifactPublication) then [1, 2]
    else if sealing == Some(ArtifactVerification) then [1, 3]
    else [1, 4]
  }

  function ReceiptBytes(receipt: Receipt, identity: Text): Bytes {
    [0, 0, 0, 1] + Counted(receipt.backend) + Counted(receipt.archive) + Counted(receipt.image)
    + Eight(receipt.entryCount) + Counted(identity)
  }

  function ArtifactBytes(a: SealedArtifact): Bytes {
    [a.encoding, a.compression] + Eight(a.byteCount) + Octets(a.digest)
  }

  /** The magic, version 1 in two bytes, and the five identities. */
  function HeadBytes(lib: Library, r: BuildExecutionResult): Bytes {
    Ascii("PKGBXR1\0") + [0, 1]
    + Octets(r.build.request.identity) + Octets(r.execution.request.identity) + Octets(r.execution.backend.identity)
    + Octets(r.execution.identity) + Octets(lib.buildIdentity(r.build))
  }

  function OutcomeBytes(r: BuildExecutionResult): Bytes {
    [if r.build.Succeeded? then 0 else 1] + SealingBytes(r.sealing) + Counted(r.diagnostic)
  }

  /** Presence, count and entries; presence and artifact. */
  function SuccessBytes(es: seq<Entry>, a: SealedArtifact): Bytes {
    [1] + Four(|es|) + EntriesBytes(es) + [1] + ArtifactBytes(a)
  }

  function EvidenceBytes(lib: Library, r: BuildExecutionResult): Bytes {
    (if r.build.Succeeded? then SuccessBytes(r.build.payload, r.build.artifact) else [0, 0])
    + ImageBytes(lib, r.authority)
  }

  /** Of the image authority only the receipt is written, with the identity its library derives. */
  function ImageBytes(lib: Library, authority: Option<Authority>): Bytes {
    match authority
    case None => [0]
    case Some(a) => [1] + ReceiptBytes(a.receipt, lib.formats.receiptIdentity(a.receipt))
  }

  /** Everything before the checksum. */
  function Body(lib: Library, r: BuildExecutionResult): Bytes {
    HeadBytes(lib, r) + Counted(lib.encodeExecution(r.execution)) + OutcomeBytes(r) + EvidenceBytes(lib, r)
  }

  lemma {:induction false} ReceiptAfterLaidOut(f: Formats, receipt: Receipt, rest: Bytes)
    ensures PutReceiptAfter(f, receipt, rest) ==
      Counted(receipt.archive) +
      ((Counted(receipt.image) + Eight(receipt.entryCount) + Counted(f.receiptIdentity(receipt))) + rest)
  {
    FourIsBE(|receipt.archive|);
    FourIsBE(|receipt.image|);
    EightIsBE(receipt.entryCount);
    FourIsBE(|f.receiptIdentity(receipt)|);
    Three(Counted(receipt.image), Eight(receipt.entryCount), Counted(f.receiptIdentity(receipt)), rest);
  }

  lemma {:induction false} ReceiptLaidOut(f: Formats, receipt: Receipt, rest: Bytes)
    ensures PutReceipt(f, receipt, rest) == ReceiptBytes(receipt, f.receiptIdentity(receipt)) + rest
  {
    var schema: Bytes, identity := [0, 0, 0, 1], Counted(f.receiptIdentity(receipt));
    var after := (Counted(receipt.image) + Eight(receipt.entryCount) + identity) + rest;
    FourIsBE(1);
    FourIsBE(|receipt.backend|);
    ReceiptAfterLaidOut(f, receipt, rest);
    Three(schema, Counted(receipt.backend), Counted(receipt.archive), after);
    Six(schema, Counted(receipt.backend), Counted(receipt.archive), Counted(receipt.image),
        Eight(receipt.entryCount), identity, rest);
  }

  lemma {:induction false} ArtifactLaidOut(a: SealedArtifact, rest: Bytes)
    requires IsIdentity(a.digest)
    ensures PutArtifact(a, rest) == ArtifactBytes(a) + rest
  {
    EightIsBE(a.byteCount);
    IdentityIsHexadecimal(a.digest);
    Three([a.encoding, a.compression], Eight(a.byteCount), Octets(a.digest), rest);
  }

  lemma {:induction false} HeadLaidOut(lib: Library, r: BuildExecutionResult, rest: Bytes)
    requires ReadableHeader(RecordOf(lib, r).header)
    ensures PutHeader(RecordOf(lib, r).header, rest) == HeadBytes(lib, r) + rest
  {
    var h := RecordOf(lib, r).header;
    assert BE(2, VERSION) == [0, 1] by {
      BELast(2, VERSION);
      BELast(1, 0);
    }
    assert MAGIC == Ascii("PKGBXR1\0");
    IdentityIsHexadecimal(h.request);
    IdentityIsHexadecimal(h.executionRequest);
    IdentityIsHexadecimal(h.backend);
    IdentityIsHexadecimal(h.execution);
    IdentityIsHexadecimal(h.build);
    var fifth := Octets(h.build) + rest;
    Three(Octets(h.backend), Octets(h.execution), Octets(h.build), rest);
    var fourth := Octets(h.execution) + fifth;
    Three(MAGIC, [0, 1], Octets(h.request), Octets(h.executionRequest) + (Octets(h.backend) + fourth));
    Three(MAGIC + [0, 1] + Octets(h.request), Octets(h.executionRequest), Octets(h.backend), fourth);
    Regroup(HeadFront(h), Octets(h.execution), fifth);
    Regroup(HeadFront(h) + Octets(h.execution), Octets(h.build), rest);
  }

  ghost function HeadFront(h: Header): Bytes {
    Ascii("PKGBXR1\0") + [0, 1] + Octets(h.request) + Octets(h.executionRequest) + Octets(h.backend)
  }

  lemma {:induction false} OutcomeLaidOut(lib: Library, r: BuildExecutionResult, rest: Bytes)
    ensures PutOutcome(RecordOf(lib, r).tail, rest) == OutcomeBytes(r) + rest
  {
    FourIsBE(|r.diagnostic|);
    SealingLaidOut(r.sealing, Counted(r.diagnostic) + rest);
    Three([if r.build.Succeeded? then 0 else 1], SealingBytes(r.sealing), Counted(r.diagnostic), rest);
  }

  lemma {:induction false} SealingLaidOut(sealing: Option<SealingKind>, rest: Bytes)
    ensures PutOption(PutKind, sealing, rest) == SealingBytes(sealing) + rest
  {
    if sealing.Some? {
      var code := KindCode(sealing.value);
      assert [1] + ([code] + rest) == [1, code] + rest;
    }
  }

  lemma {:induction false} ImageLaidOut(lib: Library, r: BuildExecutionResult)
    ensures PutOption((x, after) => PutReceipt(lib.formats, x, after), RecordOf(lib, r).tail.receipt, []) ==
      ImageBytes(lib, r.authority)
  {
    if r.authority.Some? {
      ReceiptLaidOut(lib.formats, r.authority.value.receipt, []);
    }
  }

  lemma {:induction false} SuccessLaidOut(es: seq<Entry>, a: SealedArtifact, rest: Bytes)
    requires PrintableEntries(es) && IsIdentity(a.digest)
    ensures PutOption(PutPayload, Some(es), PutOption(PutArtifact, Some(a), rest)) == SuccessBytes(es, a) + rest
  {
    var after := [1] + (ArtifactBytes(a) + rest);
    ArtifactLaidOut(a, rest);
    FourIsBE(|es|);
    EntriesLaidOut(es, after);
    Three([1], Four(|es|), EntriesBytes(es), after);
    Three([1] + Four(|es|) + EntriesBytes(es), [1], ArtifactBytes(a), rest);
  }

  lemma {:induction false} EvidenceLaidOut(lib: Library, r: BuildExecutionResult)
    requires PrintableTail(RecordOf(lib, r).tail)
    ensures PutEvidence(lib.formats, RecordOf(lib, r).tail, []) == EvidenceBytes(lib, r)
  {
    ImageLaidOut(lib, r);
    if r.build.Succeeded? {
      SuccessLaidOut(r.build.payload, r.build.artifact, ImageBytes(lib, r.authority));
    }
  }

  lemma {:induction false} BodyLaidOut(lib: Library, r: BuildExecutionResult)
    requires PrintableRecord(RecordOf(lib, r))
    ensures PutRecord(lib.formats, RecordOf(lib, r), []) == Body(lib, r)
  {
    var embedded := lib.encodeExecution(r.execution);
    FourIsBE(|embedded|);
    EvidenceLaidOut(lib, r);
    OutcomeLaidOut(lib, r, EvidenceBytes(lib, r));
    HeadLaidOut(lib, r, Counted(embedded) + (OutcomeBytes(r) + EvidenceBytes(lib, r)));
    Three(HeadBytes(lib, r), Counted(embedded), OutcomeBytes(r), EvidenceBytes(lib, r));
  }

  // What is accepted -------------------------------------------------------------------------------------

  /** The evidence fits together: the execution failed, or sealing it failed, or both succeeded. */
  predicate Consistent(lib: Library, r: BuildExecutionResult) {
    r.execution.request.isBuild && (FailedExecution(lib, r) || FailedSealing(lib, r) || SealedBuild(lib, r))
  }

  predicate FailedExecution(lib: Library, r: BuildExecutionResult) {
    && !r.execution.succeeded && r.sealing.None? && r.authority.None? && r.build.Failed?
    && r.diagnostic == r.execution.diagnostic
    && lib.buildIdentity(r.build) == lib.buildIdentity(
         Failed(r.build.request, lib.executionEvidence(r.execution.identity),
                lib.executionFailure(r.execution.identity)))
  }

  predicate FailedSealing(lib: Library, r: BuildExecutionResult) {
    && r.execution.succeeded && r.sealing.Some? && r.authority.None? && r.build.Failed?
    && lib.buildIdentity(r.build) == lib.buildIdentity(
         Failed(r.build.request, lib.executionEvidence(r.execution.identity),
                lib.sealingFailure(r.execution.identity, r.sealing.value)))
  }

  /** The receipt names the artifact's digest and counts the payload's entries. */
  predicate SealedBuild(lib: Library, r: BuildExecutionResult) {
    && r.execution.succeeded && r.sealing.None? && r.authority.Some? && r.build.Succeeded?
    && r.diagnostic == []
    && r.authority.value.receipt.archive == Ascii("v1:sha256:") + r.build.artifact.digest
    && r.authority.value.receipt.entryCount == |r.build.payload|
    && lib.buildIdentity(r.authority.value.build) == lib.buildIdentity(r.build)
    && lib.buildIdentity(r.build) == lib.buildIdentity(
         Succeeded(r.build.request, r.build.payload, r.build.artifact, lib.executionEvidence(r.execution.identity)))
  }

  /** Every identity in the record prints as 64 hexadecimal digits. */
  ghost predicate IdentitiesPrint(lib: Library, r: BuildExecutionResult) {
    && Hexadecimal(r.build.request.identity) && Hexadecimal(r.execution.request.identity)
    && Hexadecimal(r.execution.backend.identity) && Hexadecimal(r.execution.identity)
    && Hexadecimal(lib.buildIdentity(r.build))
    && (r.build.Succeeded? ==>
          && Hexadecimal(r.build.artifact.digest)
          && forall i :: 0 <= i < |r.build.payload| && r.build.payload[i].what.Regular? ==>
               Hexadecimal(r.build.payload[i].what.content))
  }

  lemma {:induction false} ConsistentExactly(lib: Library, r: BuildExecutionResult)
    ensures ValidResult(lib, r) <==> Consistent(lib, r)
  {
    assert Ascii("v1:sha256:") == [118, 49, 58, 115, 104, 97, 50, 53, 54, 58];
  }

  lemma {:induction false} PrintableExactly(lib: Library, r: BuildExecutionResult)
    ensures PrintableRecord(RecordOf(lib, r)) <==> IdentitiesPrint(lib, r)
  {
    forall t: Text
      ensures IsIdentity(t) <==> Hexadecimal(t)
    {
      IdentityIsHexadecimal(t);
    }
  }

  lemma {:induction false} WithinExactly(r: BuildExecutionResult)
    ensures WithinLimits(r) <==>
      |r.diagnostic| <= 1_048_576 && (r.build.Succeeded? ==> |r.build.payload| <= 1_048_576)
  {
  }

  /** Once everything in it prints, the record is the body and its checksum, if they fit. */
  lemma {:induction false} PrintedIsBody(lib: Library, r: BuildExecutionResult)
    requires ValidResult(lib, r) && WithinLimits(r) && PrintableRecord(RecordOf(lib, r))
    ensures Encoding(lib, r) ==
      if Hexadecimal(lib.sha(Body(lib, r))) && |Body(lib, r)| + 32 <= 268_435_456 then
        Ok(Body(lib, r) + Octets(lib.sha(Body(lib, r))))
      else
        Err(InconsistentResult)
  {
    BodyLaidOut(lib, r);
    IdentityIsHexadecimal(lib.sha(Body(lib, r)));
  }

  /** What the encoder accepts. */
  ghost predicate Encodable(lib: Library, r: BuildExecutionResult) {
    && Consistent(lib, r)
    && |r.diagnostic| <= 1_048_576 && (r.build.Succeeded? ==> |r.build.payload| <= 1_048_576)
    && IdentitiesPrint(lib, r) && Hexadecimal(lib.sha(Body(lib, r)))
    && |Body(lib, r)| + 32 <= 268_435_456
  }

  /** The encoder writes exactly these bytes, for exactly these results. */
  lemma {:induction false} EncodesExactly(lib: Library, r: BuildExecutionResult)
    ensures Encoding(lib, r) ==
      if Encodable(lib, r) then Ok(Body(lib, r) + Octets(lib.sha(Body(lib, r)))) else Err(InconsistentResult)
  {
    ConsistentExactly(lib, r);
    WithinExactly(r);
    PrintableExactly(lib, r);
    if ValidResult(lib, r) && WithinLimits(r) && PrintableRecord(RecordOf(lib, r)) {
      PrintedIsBody(lib, r);
    }
  }

  /** The receipt counts other than the payload's entries, or names another digest than the artifact's. */
  predicate IsOther(receipt: Receipt, payload: seq<Entry>, artifact: SealedArtifact) {
    receipt.entryCount != |payload| || receipt.archive != Ascii("v1:sha256:") + artifact.digest
  }

  /** A receipt of another archive, or with another count of entries, is refused by the encoder. */
  lemma {:induction false} OtherReceiptIsRefused(lib: Library, r: BuildExecutionResult)
    requires r.build.Succeeded? && r.authority.Some?
    requires IsOther(r.authority.value.receipt, r.build.payload, r.build.artifact)
    ensures Encoding(lib, r) == Err(InconsistentResult)
  {
    EncodesExactly(lib, r);
  }

  /** And by the decoder, whatever bytes spell it. */
  lemma {:induction false} SpelledReceiptIsRefused(lib: Library, encoding: Bytes, who: Authorities, record: Record)
    requires record.tail.payload.Some? && record.tail.artifact.Some? && record.tail.receipt.Some?
    requires IsOther(record.tail.receipt.value, record.tail.payload.value, record.tail.artifact.value)
    requires lib.Lawful() && Spells(lib, encoding, record)
    ensures Decoding(lib, encoding, who).Err?
  {
    if Decoding(lib, encoding, who).Ok? {
      var r := DecodedRecord(lib, encoding, who);
      OtherReceiptIsRefused(lib, Decoding(lib, encoding, who).value);
    }
  }

  lemma {:induction false} DecodedRecord(lib: Library, encoding: Bytes, who: Authorities) returns (record: Record)
    requires lib.Lawful() && Decoding(lib, encoding, who).Ok?
    ensures Spells(lib, encoding, record) && RecordOf(lib, Decoding(lib, encoding, who).value) == record
    ensures Encoding(lib, Decoding(lib, encoding, who).value) == Ok(encoding)
  {
    record := CanonicalExactly(lib, encoding, who);
    var spelled := CheckedSpells(lib, encoding, who);
    assert spelled == record;
  }

  /** What is decoded carries the authorities given, is consistent, and is written as these bytes and no others. */
  lemma {:induction false} DecodesExactly(lib: Library, encoding: Bytes, who: Authorities)
    requires lib.Lawful() && Decoding(lib, encoding, who).Ok?
    ensures var r := Decoding(lib, encoding, who).value;
      && r.build.request == who.request && r.execution.request == who.executionRequest
      && r.execution.backend == who.backend
      && Encodable(lib, r)
      && encoding == Body(lib, r) + Octets(lib.sha(Body(lib, r)))
  {
    var r := Decoding(lib, encoding, who).value;
    DecodedIsEncoded(lib, encoding, who);
    EncodesExactly(lib, r);
  }

  /** A record of another build request, execution request or backend is refused as such. */
  lemma {:induction false} OtherAuthorityIsRefused(lib: Library, r: BuildExecutionResult, who: Authorities)
    requires Encoding(lib, r).Ok?
    requires
      || who.request.identity != r.build.request.identity
      || who.executionRequest.identity != r.execution.request.identity
      || who.backend.identity != r.execution.backend.identity
      || !who.executionRequest.isBuild
    ensures Decoding(lib, Encoding(lib, r).value, who) == Err(AuthorityMismatch)
  {
    WrongAuthority(lib, r, who);
  }

  /** The body before the checksum, where the sizes and the checksum are right. */
  predicate HasBody(lib: Library, encoding: Bytes, body: Bytes) {
    && 10 <= |body| && |body| + 32 <= 268_435_456
    && Hexadecimal(lib.sha(body))
    && encoding == body + Octets(lib.sha(body))
  }

  lemma {:induction false} FramedExactly(lib: Library, encoding: Bytes)
    ensures Framed(lib, encoding) <==> |encoding| >= 32 && HasBody(lib, encoding, encoding[..|encoding| - 32])
  {
    if |encoding| >= 32 {
      var body, last := encoding[..|encoding| - 32], encoding[|encoding| - 32..];
      assert encoding == body + last;
      UnHexOfHex(last);
      IdentityIsHexadecimal(lib.sha(body));
      if IsIdentity(lib.sha(body)) {
        HexOfUnHex(lib.sha(body));
      }
    }
  }

  /** The record was written for another build request, execution request or backend, or for no build. */
  predicate IsOfOthers(lib: Library, body: Bytes, who: Authorities) {
    match ParseHeader(body)
    case Malformed => false
    case Parsed(h, s) =>
      || h.request != who.request.identity
      || h.executionRequest != who.executionRequest.identity
      || h.backend != who.backend.identity
      || !who.executionRequest.isBuild
      || var embedded := ParseText(s, lib.executionLimit);
         && embedded.Parsed?
         && lib.decodeExecution(embedded.value, who.executionRequest, who.backend).OtherAuthority?
  }

  lemma {:induction false} BodyRefusedAs(lib: Library, body: Bytes, who: Authorities)
    requires DecodingBody(lib, body, who).Err?
    ensures DecodingBody(lib, body, who).code in {AuthorityMismatch, CorruptEncoding}
    ensures DecodingBody(lib, body, who).code == AuthorityMismatch <==> IsOfOthers(lib, body, who)
  {
  }

  lemma {:induction false} OthersAreRefused(lib: Library, body: Bytes, who: Authorities)
    requires IsOfOthers(lib, body, who)
    ensures DecodingBody(lib, body, who).Err?
  {
  }

  /** Every refusal is either another's record or a corrupt one. */
  lemma {:induction false} RefusedAsOthers(lib: Library, encoding: Bytes, who: Authorities)
    requires Decoding(lib, encoding, who).Err?
    ensures Decoding(lib, encoding, who).code in {AuthorityMismatch, CorruptEncoding}
    ensures Decoding(lib, encoding, who).code == AuthorityMismatch <==>
      && |encoding| >= 32 && HasBody(lib, encoding, encoding[..|encoding| - 32])
      && IsOfOthers(lib, encoding[..|encoding| - 32], who)
  {
    FramedExactly(lib, encoding);
    if Framed(lib, encoding) {
      var body := encoding[..|encoding| - 32];
      if DecodingBody(lib, body, who).Err? {
        BodyRefusedAs(lib, body, who);
      } else if IsOfOthers(lib, body, who) {
        OthersAreRefused(lib, body, who);
      }
    }
  }
}
