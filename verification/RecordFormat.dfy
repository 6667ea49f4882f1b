/**
 * The layout of one durable build-execution record (src/result_codec.cpp:281-403, 494-719).
 * `PutX(x, rest)` prints x in front of `rest`; `ParseX` takes it off again.
 */
module RecordFormat {
  import opened Outcomes
  import opened Wire

  // The record's parts ---------------------------------------------------------------------------

  type Text = Bytes

  datatype What =
    | Regular(size: u64, content: Text)
    | Directory
    | Symlink(target: Text)
    | Hardlink(original: Text)
    | Fifo
    | CharacterDevice(major: u64, minor: u64)
    | BlockDevice(major: u64, minor: u64)

  datatype Meta = Meta(path: Text, owner: Owner, times: Times)

  datatype Entry = Entry(path: Text, mode: u32, uid: u64, gid: u64, seconds: i64, nanoseconds: u32, what: What) {
    /** Only a regular file has a size of its own. */
    function Size(): u64 {
      if what.Regular? then what.size else 0
    }

    function Common(): Meta {
      Meta(path, Owner(mode, uid, gid), Times(Size(), seconds, nanoseconds))
    }
  }

  datatype SealedArtifact = SealedArtifact(encoding: Byte, compression: Byte, byteCount: u64, digest: Text)

  datatype Receipt = Receipt(backend: Text, archive: Text, image: Text, entryCount: u64)

  datatype SealingKind =
    | PayloadInspection
    | ArtifactEncoding
    | ArtifactPublication
    | ArtifactVerification
    | ArtifactCleanup

  /** What the decoder needs of the libraries that own paths, entries, artifacts and receipts. */
  datatype Formats = Formats(
    acceptsPath: Text -> bool,
    acceptsEntry: Entry -> bool,
    packageTar: Byte,
    zstd: Byte,
    acceptsArtifact: SealedArtifact -> bool,
    acceptsReceipt: Receipt -> bool,
    receiptIdentity: Receipt -> Text)

  const MAXIMUM_TEXT: int := 1024 * 1024
  const MAXIMUM_DIAGNOSTIC: int := 1024 * 1024
  const MAXIMUM_ENTRIES: int := 1024 * 1024
  const MAXIMUM_BACKEND: int := 4096

  // One payload entry ----------------------------------------------------------------------------

  datatype Times = Times(size: u64, seconds: i64, nanoseconds: u32)

  function PutTimes(t: Times, rest: Bytes): Bytes {
    BE(8, t.size) + (BE(8, Unsigned(t.seconds)) + (BE(4, t.nanoseconds) + rest))
  }

  function ParseTimes(s: Bytes): Parsed<Times> {
    match ParseU64(s)
    case Malformed => Malformed
    case Parsed(size, s1) =>
      match ParseU64(s1)
      case Malformed => Malformed
      case Parsed(seconds, s2) =>
        match ParseU32(s2)
        case Malformed => Malformed
        case Parsed(nanoseconds, rest) => Parsed(Times(size, Signed(seconds), nanoseconds), rest)
  }

  lemma {:induction false} TimesLeft(t: Times, rest: Bytes)
    ensures ParseTimes(PutTimes(t, rest)) == Parsed(t, rest)
  {
    U64Left(t.size, BE(8, Unsigned(t.seconds)) + (BE(4, t.nanoseconds) + rest));
    U64Left(Unsigned(t.seconds), BE(4, t.nanoseconds) + rest);
    U32Left(t.nanoseconds, rest);
    CastsAreInverse(t.seconds, 0);
  }

  lemma {:induction false} TimesRight(s: Bytes)
    ensures ParseTimes(s).Parsed? ==> s == PutTimes(ParseTimes(s).value, ParseTimes(s).rest)
  {
    if ParseTimes(s).Parsed? {
      U64Right(s);
      var s1 := ParseU64(s).rest;
      U64Right(s1);
      CastsAreInverse(0, ParseU64(s1).value);
      U32Right(ParseU64(s1).rest);
    }
  }

  datatype Owner = Owner(mode: u32, uid: u64, gid: u64)

  function PutOwner(o: Owner, rest: Bytes): Bytes {
    BE(4, o.mode) + (BE(8, o.uid) + (BE(8, o.gid) + rest))
  }

  function ParseOwner(s: Bytes): Parsed<Owner> {
    match ParseU32(s)
    case Malformed => Malformed
    case Parsed(mode, s1) =>
      match ParseU64(s1)
      case Malformed => Malformed
      case Parsed(uid, s2) =>
        match ParseU64(s2)
        case Malformed => Malformed
        case Parsed(gid, rest) => Parsed(Owner(mode, uid, gid), rest)
  }

  lemma {:induction false} OwnerLeft(o: Owner, rest: Bytes)
    ensures ParseOwner(PutOwner(o, rest)) == Parsed(o, rest)
  {
    U32Left(o.mode, BE(8, o.uid) + (BE(8, o.gid) + rest));
    U64Left(o.uid, BE(8, o.gid) + rest);
    U64Left(o.gid, rest);
  }

  lemma {:induction false} OwnerRight(s: Bytes)
    ensures ParseOwner(s).Parsed? ==> s == PutOwner(ParseOwner(s).value, ParseOwner(s).rest)
  {
    if ParseOwner(s).Parsed? {
      U32Right(s);
      var s1 := ParseU32(s).rest;
      U64Right(s1);
      U64Right(ParseU64(s1).rest);
    }
  }

  /** Path, mode, owner, size and time come in this order for every type of entry. */
  function PutMeta(m: Meta, rest: Bytes): Bytes {
    PrintText(m.path) + PutOwner(m.owner, PutTimes(m.times, rest))
  }

  function ParseMeta(s: Bytes): Parsed<Meta> {
    match ParseText(s, MAXIMUM_TEXT)
    case Malformed => Malformed
    case Parsed(path, s1) =>
      match ParseOwner(s1)
      case Malformed => Malformed
      case Parsed(owner, s2) =>
        match ParseTimes(s2)
        case Malformed => Malformed
        case Parsed(times, rest) => Parsed(Meta(path, owner, times), rest)
  }

  lemma {:induction false} MetaLeft(m: Meta, rest: Bytes)
    requires |m.path| <= MAXIMUM_TEXT
    ensures ParseMeta(PutMeta(m, rest)) == Parsed(m, rest)
  {
    TextLeft(m.path, MAXIMUM_TEXT, PutOwner(m.owner, PutTimes(m.times, rest)));
    OwnerLeft(m.owner, PutTimes(m.times, rest));
    TimesLeft(m.times, rest);
  }

  lemma {:induction false} MetaRight(s: Bytes)
    ensures var p := ParseMeta(s); p.Parsed? ==> |p.value.path| <= MAXIMUM_TEXT && s == PutMeta(p.value, p.rest)
  {
    if ParseMeta(s).Parsed? {
      TextRight(s, MAXIMUM_TEXT);
      var s1 := ParseText(s, MAXIMUM_TEXT).rest;
      OwnerRight(s1);
      TimesRight(ParseOwner(s1).rest);
    }
  }

  function Code(w: What): Byte {
    match w
    case Regular(_, _) => 0
    case Directory => 1
    case Symlink(_) => 2
    case Hardlink(_) => 3
    case Fifo => 4
    case CharacterDevice(_, _) => 5
    case BlockDevice(_, _) => 6
  }

  function PutWhat(w: What, rest: Bytes): Bytes {
    match w
    case Regular(_, content) => Pack(content) + rest
    case Directory => rest
    case Symlink(target) => PrintText(target) + rest
    case Hardlink(original) => PrintText(original) + rest
    case Fifo => rest
    case CharacterDevice(major, minor) => BE(8, major) + (BE(8, minor) + rest)
    case BlockDevice(major, minor) => BE(8, major) + (BE(8, minor) + rest)
  }

  function ParseDevice(s: Bytes): Parsed<(u64, u64)> {
    match ParseU64(s)
    case Malformed => Malformed
    case Parsed(major, s1) =>
      match ParseU64(s1)
      case Malformed => Malformed
      case Parsed(minor, s2) => Parsed((major, minor), s2)
  }

  function ParseWhat(f: Formats, code: Byte, size: u64, s: Bytes): Parsed<What> {
    if code == 0 then
      match ParseIdentity(s)
      case Malformed => Malformed
      case Parsed(content, rest) => Parsed(Regular(size, content), rest)
    else if code > 6 || size != 0 then
      Malformed
    else if code == 1 then
      Parsed(Directory, s)
    else if code == 2 then
      match ParseText(s, MAXIMUM_TEXT)
      case Malformed => Malformed
      case Parsed(target, rest) => Parsed(Symlink(target), rest)
    else if code == 3 then
      match ParseText(s, MAXIMUM_TEXT)
      case Malformed => Malformed
      case Parsed(original, rest) => if f.acceptsPath(original) then Parsed(Hardlink(original), rest) else Malformed
    else if code == 4 then
      Parsed(Fifo, s)
    else
      match ParseDevice(s)
      case Malformed => Malformed
      case Parsed((major, minor), rest) =>
        Parsed(if code == 5 then CharacterDevice(major, minor) else BlockDevice(major, minor), rest)
  }

  /** The texts a decoder would read back: short enough, and paths it accepts. */
  predicate ReadableWhat(f: Formats, w: What) {
    match w
    case Regular(_, content) => IsIdentity(content)
    case Symlink(target) => |target| <= MAXIMUM_TEXT
    case Hardlink(original) => |original| <= MAXIMUM_TEXT && f.acceptsPath(original)
    case _ => true
  }

  lemma {:induction false} WhatLeft(f: Formats, w: What, rest: Bytes)
    requires ReadableWhat(f, w)
    ensures ParseWhat(f, Code(w), if w.Regular? then w.size else 0, PutWhat(w, rest)) == Parsed(w, rest)
  {
    match w
    case Regular(_, content) => IdentityLeft(content, rest);
    case Symlink(target) => TextLeft(target, MAXIMUM_TEXT, rest);
    case Hardlink(original) => TextLeft(original, MAXIMUM_TEXT, rest);
    case CharacterDevice(major, minor) =>
      U64Left(major, BE(8, minor) + rest);
      U64Left(minor, rest);
    case BlockDevice(major, minor) =>
      U64Left(major, BE(8, minor) + rest);
      U64Left(minor, rest);
    case _ =>
  }

  lemma {:induction false} WhatRight(f: Formats, code: Byte, size: u64, s: Bytes)
    ensures var p := ParseWhat(f, code, size, s);
      p.Parsed? ==>
        && ReadableWhat(f, p.value)
        && Code(p.value) == code
        && size == (if p.value.Regular? then p.value.size else 0)
        && s == PutWhat(p.value, p.rest)
  {
    if ParseWhat(f, code, size, s).Parsed? {
      if code == 0 {
        IdentityRight(s);
      } else if code == 2 || code == 3 {
        TextRight(s, MAXIMUM_TEXT);
      } else if code > 4 {
        U64Right(s);
        U64Right(ParseU64(s).rest);
      }
    }
  }

  predicate ReadableEntry(f: Formats, e: Entry) {
    |e.path| <= MAXIMUM_TEXT && f.acceptsPath(e.path) && ReadableWhat(f, e.what) && f.acceptsEntry(e)
  }

  function PutEntry(e: Entry, rest: Bytes): Bytes {
    [Code(e.what)] + PutMeta(e.Common(), PutWhat(e.what, rest))
  }

  function EntryOf(m: Meta, what: What): Entry {
    Entry(m.path, m.owner.mode, m.owner.uid, m.owner.gid, m.times.seconds, m.times.nanoseconds, what)
  }

  function ParseEntryAfter(f: Formats, code: Byte, m: Meta, s: Bytes): Parsed<Entry> {
    match ParseWhat(f, code, m.times.size, s)
    case Malformed => Malformed
    case Parsed(what, rest) =>
      if f.acceptsEntry(EntryOf(m, what)) then Parsed(EntryOf(m, what), rest) else Malformed
  }

  function ParseEntry(f: Formats, s: Bytes): Parsed<Entry> {
    if s == [] || s[0] > 6 then
      Malformed
    else
      match ParseMeta(s[1..])
      case Malformed => Malformed
      case Parsed(m, s1) => if f.acceptsPath(m.path) then ParseEntryAfter(f, s[0], m, s1) else Malformed
  }

  lemma {:induction false} EntryLeft(f: Formats, e: Entry, rest: Bytes)
    requires ReadableEntry(f, e)
    ensures ParseEntry(f, PutEntry(e, rest)) == Parsed(e, rest)
  {
    var s1 := PutMeta(e.Common(), PutWhat(e.what, rest));
    assert ([Code(e.what)] + s1)[1..] == s1;
    MetaLeft(e.Common(), PutWhat(e.what, rest));
    WhatLeft(f, e.what, rest);
  }

  lemma {:induction false} EntryAfterRight(f: Formats, code: Byte, m: Meta, s: Bytes)
    ensures var p := ParseEntryAfter(f, code, m, s);
      p.Parsed? ==>
        && ReadableWhat(f, p.value.what) && f.acceptsEntry(p.value)
        && p.value.Common() == m && Code(p.value.what) == code
        && s == PutWhat(p.value.what, p.rest)
  {
    WhatRight(f, code, m.times.size, s);
  }

  lemma {:induction false} EntryRight(f: Formats, s: Bytes)
    ensures var p := ParseEntry(f, s); p.Parsed? ==> ReadableEntry(f, p.value) && s == PutEntry(p.value, p.rest)
  {
    if ParseEntry(f, s).Parsed? {
      MetaRight(s[1..]);
      var m := ParseMeta(s[1..]);
      EntryAfterRight(f, s[0], m.value, m.rest);
      HeadAndRest(s);
    }
  }

  lemma {:induction false} EntryInverse(f: Formats)
    ensures Inverse(PutEntry, s => ParseEntry(f, s), e => ReadableEntry(f, e))
  {
    forall e, rest | ReadableEntry(f, e)
      ensures ParseEntry(f, PutEntry(e, rest)) == Parsed(e, rest)
    {
      EntryLeft(f, e, rest);
    }
    forall s | ParseEntry(f, s).Parsed?
      ensures ReadableEntry(f, ParseEntry(f, s).value) && s == PutEntry(ParseEntry(f, s).value, ParseEntry(f, s).rest)
    {
      EntryRight(f, s);
    }
  }

  // The payload: a count, then that many entries ---------------------------------------------------

  predicate ReadablePayload(f: Formats, es: seq<Entry>) {
    |es| <= MAXIMUM_ENTRIES && All(e => ReadableEntry(f, e), es)
  }

  function PutPayload(es: seq<Entry>, rest: Bytes): Bytes {
    BE(4, |es|) + PutAll(PutEntry, es, rest)
  }

  function ParsePayload(f: Formats, s: Bytes): Parsed<seq<Entry>> {
    match ParseU32(s)
    case Malformed => Malformed
    case Parsed(count, s1) =>
      if count > MAXIMUM_ENTRIES then Malformed else ParseAll(x => ParseEntry(f, x), count, s1)
  }

  lemma {:induction false} PayloadInverse(f: Formats)
    ensures Inverse(PutPayload, s => ParsePayload(f, s), es => ReadablePayload(f, es))
  {
    var parse, readable := x => ParseEntry(f, x), e => ReadableEntry(f, e);
    EntryInverse(f);
    forall es, rest | ReadablePayload(f, es)
      ensures ParsePayload(f, PutPayload(es, rest)) == Parsed(es, rest)
    {
      U32Left(|es|, PutAll(PutEntry, es, rest));
      AllLeft(PutEntry, parse, readable, es, rest);
    }
    forall s | ParsePayload(f, s).Parsed?
      ensures var p := ParsePayload(f, s); ReadablePayload(f, p.value) && s == PutPayload(p.value, p.rest)
    {
      U32Right(s);
      AllRight(PutEntry, parse, readable, ParseU32(s).value, ParseU32(s).rest);
    }
  }

  // The sealed artifact ----------------------------------------------------------------------------

  predicate ReadableArtifact(f: Formats, a: SealedArtifact) {
    a.encoding == f.packageTar && a.compression <= f.zstd && IsIdentity(a.digest) && f.acceptsArtifact(a)
  }

  function PutArtifact(a: SealedArtifact, rest: Bytes): Bytes {
    [a.encoding, a.compression] + (BE(8, a.byteCount) + (Pack(a.digest) + rest))
  }

  function ParseArtifact(f: Formats, s: Bytes): Parsed<SealedArtifact> {
    if |s| < 2 || s[0] != f.packageTar || s[1] > f.zstd then
      Malformed
    else
      match ParseU64(s[2..])
      case Malformed => Malformed
      case Parsed(byteCount, s1) =>
        match ParseIdentity(s1)
        case Malformed => Malformed
        case Parsed(digest, rest) =>
          var a := SealedArtifact(s[0], s[1], byteCount, digest);
          if f.acceptsArtifact(a) then Parsed(a, rest) else Malformed
  }

  lemma {:induction false} ArtifactLeft(f: Formats, a: SealedArtifact, rest: Bytes)
    requires ReadableArtifact(f, a)
    ensures ParseArtifact(f, PutArtifact(a, rest)) == Parsed(a, rest)
  {
    var s1 := Pack(a.digest) + rest;
    assert PutArtifact(a, rest)[2..] == BE(8, a.byteCount) + s1;
    U64Left(a.byteCount, s1);
    IdentityLeft(a.digest, rest);
  }

  lemma {:induction false} ArtifactRight(f: Formats, s: Bytes)
    ensures var p := ParseArtifact(f, s); p.Parsed? ==>
      ReadableArtifact(f, p.value) && s == PutArtifact(p.value, p.rest)
  {
    if ParseArtifact(f, s).Parsed? {
      U64Right(s[2..]);
      IdentityRight(ParseU64(s[2..]).rest);
      assert s == [s[0], s[1]] + s[2..];
    }
  }

  lemma {:induction false} ArtifactInverse(f: Formats)
    ensures Inverse(PutArtifact, s => ParseArtifact(f, s), a => ReadableArtifact(f, a))
  {
    forall a, rest | ReadableArtifact(f, a)
      ensures ParseArtifact(f, PutArtifact(a, rest)) == Parsed(a, rest)
    {
      ArtifactLeft(f, a, rest);
    }
    forall s | ParseArtifact(f, s).Parsed?
      ensures var p := ParseArtifact(f, s); ReadableArtifact(f, p.value) && s == PutArtifact(p.value, p.rest)
    {
      ArtifactRight(f, s);
    }
  }

  // The archive inspection receipt -------------------------------------------------------------------

  predicate ReadableReceipt(f: Formats, r: Receipt) {
    && |r.backend| <= MAXIMUM_BACKEND
    && |r.archive| <= MAXIMUM_TEXT
    && |r.image| <= MAXIMUM_TEXT
    && f.acceptsReceipt(r)
    && |f.receiptIdentity(r)| <= MAXIMUM_TEXT
  }

  /** Schema 1, the four fields, and the identity the receipt's library derives from them. */
  function PutReceipt(f: Formats, r: Receipt, rest: Bytes): Bytes {
    BE(4, 1) + (PrintText(r.backend) + PutReceiptAfter(f, r, rest))
  }

  function PutReceiptAfter(f: Formats, r: Receipt, rest: Bytes): Bytes {
    PrintText(r.archive) + (PrintText(r.image) + (BE(8, r.entryCount) + (PrintText(f.receiptIdentity(r)) + rest)))
  }

  function ParseReceipt(f: Formats, s: Bytes): Parsed<Receipt> {
    match ParseU32(s)
    case Malformed => Malformed
    case Parsed(schema, s1) =>
      if schema != 1 then
        Malformed
      else
        match ParseText(s1, MAXIMUM_BACKEND)
        case Malformed => Malformed
        case Parsed(backend, s2) => ParseReceiptAfter(f, backend, s2)
  }

  function ParseReceiptAfter(f: Formats, backend: Text, s: Bytes): Parsed<Receipt> {
    match ParseText(s, MAXIMUM_TEXT)
    case Malformed => Malformed
    case Parsed(archive, s1) =>
      match ParseText(s1, MAXIMUM_TEXT)
      case Malformed => Malformed
      case Parsed(image, s2) =>
        match ParseU64(s2)
        case Malformed => Malformed
        case Parsed(entryCount, s3) => ParseReceiptIdentity(f, Receipt(backend, archive, image, entryCount), s3)
  }

  function ParseReceiptIdentity(f: Formats, r: Receipt, s: Bytes): Parsed<Receipt> {
    if !f.acceptsReceipt(r) then
      Malformed
    else
      match ParseText(s, MAXIMUM_TEXT)
      case Malformed => Malformed
      case Parsed(identity, rest) => if identity == f.receiptIdentity(r) then Parsed(r, rest) else Malformed
  }

  lemma {:induction false} ReceiptAfterLeft(f: Formats, r: Receipt, rest: Bytes)
    requires ReadableReceipt(f, r)
    ensures ParseReceiptAfter(f, r.backend, PutReceiptAfter(f, r, rest)) == Parsed(r, rest)
  {
    var s3 := PrintText(f.receiptIdentity(r)) + rest;
    var s2 := BE(8, r.entryCount) + s3;
    TextLeft(r.archive, MAXIMUM_TEXT, PrintText(r.image) + s2);
    TextLeft(r.image, MAXIMUM_TEXT, s2);
    U64Left(r.entryCount, s3);
    TextLeft(f.receiptIdentity(r), MAXIMUM_TEXT, rest);
  }

  lemma {:induction false} ReceiptLeft(f: Formats, r: Receipt, rest: Bytes)
    requires ReadableReceipt(f, r)
    ensures ParseReceipt(f, PutReceipt(f, r, rest)) == Parsed(r, rest)
  {
    U32Left(1, PrintText(r.backend) + PutReceiptAfter(f, r, rest));
    TextLeft(r.backend, MAXIMUM_BACKEND, PutReceiptAfter(f, r, rest));
    ReceiptAfterLeft(f, r, rest);
  }

  lemma {:induction false} ReceiptAfterRight(f: Formats, backend: Text, s: Bytes)
    requires |backend| <= MAXIMUM_BACKEND
    ensures var p := ParseReceiptAfter(f, backend, s);
      p.Parsed? ==>
        ReadableReceipt(f, p.value) && p.value.backend == backend && s == PutReceiptAfter(f, p.value, p.rest)
  {
    if ParseReceiptAfter(f, backend, s).Parsed? {
      TextRight(s, MAXIMUM_TEXT);
      var s1 := ParseText(s, MAXIMUM_TEXT).rest;
      TextRight(s1, MAXIMUM_TEXT);
      var s2 := ParseText(s1, MAXIMUM_TEXT).rest;
      U64Right(s2);
      TextRight(ParseU64(s2).rest, MAXIMUM_TEXT);
    }
  }

  lemma {:induction false} ReceiptRight(f: Formats, s: Bytes)
    ensures var p := ParseReceipt(f, s); p.Parsed? ==>
      ReadableReceipt(f, p.value) && s == PutReceipt(f, p.value, p.rest)
  {
    if ParseReceipt(f, s).Parsed? {
      U32Right(s);
      var s1 := ParseU32(s).rest;
      TextRight(s1, MAXIMUM_BACKEND);
      var backend := ParseText(s1, MAXIMUM_BACKEND);
      ReceiptAfterRight(f, backend.value, backend.rest);
    }
  }

  lemma {:induction false} ReceiptInverse(f: Formats)
    ensures Inverse((r, rest) => PutReceipt(f, r, rest), s => ParseReceipt(f, s), r => ReadableReceipt(f, r))
  {
    forall r, rest | ReadableReceipt(f, r)
      ensures ParseReceipt(f, PutReceipt(f, r, rest)) == Parsed(r, rest)
    {
      ReceiptLeft(f, r, rest);
    }
    forall s | ParseReceipt(f, s).Parsed?
      ensures var p := ParseReceipt(f, s); ReadableReceipt(f, p.value) && s == PutReceipt(f, p.value, p.rest)
    {
      ReceiptRight(f, s);
    }
  }

  // Sealing failures ---------------------------------------------------------------------------------

  function KindCode(k: SealingKind): Byte {
    match k
    case PayloadInspection => 0
    case ArtifactEncoding => 1
    case ArtifactPublication => 2
    case ArtifactVerification => 3
    case ArtifactCleanup => 4
  }

  function PutKind(k: SealingKind, rest: Bytes): Bytes {
    [KindCode(k)] + rest
  }

  function ParseKind(s: Bytes): Parsed<SealingKind> {
    if s == [] || s[0] > 4 then
      Malformed
    else
      Parsed(if s[0] == 0 then PayloadInspection
             else if s[0] == 1 then ArtifactEncoding
             else if s[0] == 2 then ArtifactPublication
             else if s[0] == 3 then ArtifactVerification
             else ArtifactCleanup, s[1..])
  }

  lemma {:induction false} KindInverse()
    ensures Inverse(PutKind, ParseKind, _ => true)
  {
    forall s | ParseKind(s).Parsed?
      ensures s == PutKind(ParseKind(s).value, ParseKind(s).rest)
    {
      HeadAndRest(s);
    }
  }

  // What follows the embedded execution record -------------------------------------------------------

  datatype Tail = Tail(
    succeeded: bool,
    sealing: Option<SealingKind>,
    diagnostic: Text,
    payload: Option<seq<Entry>>,
    artifact: Option<SealedArtifact>,
    receipt: Option<Receipt>)

  predicate ReadableTail(f: Formats, t: Tail) {
    && |t.diagnostic| <= MAXIMUM_DIAGNOSTIC
    && (t.payload.Some? ==> ReadablePayload(f, t.payload.value))
    && (t.artifact.Some? ==> ReadableArtifact(f, t.artifact.value))
    && (t.receipt.Some? ==> ReadableReceipt(f, t.receipt.value))
  }

  /** `build_outcome::succeeded` is 0 and `failed` is 1. */
  function PutOutcome(t: Tail, rest: Bytes): Bytes {
    [if t.succeeded then 0 else 1] + PutOption(PutKind, t.sealing, PrintText(t.diagnostic) + rest)
  }

  function PutEvidence(f: Formats, t: Tail, rest: Bytes): Bytes {
    PutOption(PutPayload, t.payload,
              PutOption(PutArtifact, t.artifact, PutOption((r, after) => PutReceipt(f, r, after), t.receipt, rest)))
  }

  function PutTail(f: Formats, t: Tail, rest: Bytes): Bytes {
    PutOutcome(t, PutEvidence(f, t, rest))
  }

  datatype Outcome = Outcome(succeeded: bool, sealing: Option<SealingKind>, diagnostic: Text)

  function ParseOutcome(s: Bytes): Parsed<Outcome> {
    if s == [] || s[0] > 1 then
      Malformed
    else
      match ParseOption(ParseKind, s[1..])
      case Malformed => Malformed
      case Parsed(sealing, s1) =>
        match ParseText(s1, MAXIMUM_DIAGNOSTIC)
        case Malformed => Malformed
        case Parsed(diagnostic, rest) => Parsed(Outcome(s[0] == 0, sealing, diagnostic), rest)
  }

  function ParseEvidenceBy(
      payloads: Parse<seq<Entry>>, artifacts: Parse<SealedArtifact>, receipts: Parse<Receipt>,
      o: Outcome, s: Bytes): Parsed<Tail>
  {
    match ParseOption(payloads, s)
    case Malformed => Malformed
    case Parsed(payload, s1) =>
      match ParseOption(artifacts, s1)
      case Malformed => Malformed
      case Parsed(artifact, s2) =>
        match ParseOption(receipts, s2)
        case Malformed => Malformed
        case Parsed(receipt, rest) =>
          Parsed(Tail(o.succeeded, o.sealing, o.diagnostic, payload, artifact, receipt), rest)
  }

  function ParseEvidence(f: Formats, o: Outcome, s: Bytes): Parsed<Tail> {
    ParseEvidenceBy(x => ParsePayload(f, x), x => ParseArtifact(f, x), x => ParseReceipt(f, x), o, s)
  }

  function ParseTail(f: Formats, s: Bytes): Parsed<Tail> {
    match ParseOutcome(s)
    case Malformed => Malformed
    case Parsed(o, s1) => ParseEvidence(f, o, s1)
  }

  lemma {:induction false} OutcomeLeft(t: Tail, rest: Bytes)
    requires |t.diagnostic| <= MAXIMUM_DIAGNOSTIC
    ensures ParseOutcome(PutOutcome(t, rest)) == Parsed(Outcome(t.succeeded, t.sealing, t.diagnostic), rest)
  {
    KindInverse();
    OptionLeft(PutKind, ParseKind, _ => true, t.sealing, PrintText(t.diagnostic) + rest);
    TextLeft(t.diagnostic, MAXIMUM_DIAGNOSTIC, rest);
    assert PutOutcome(t, rest)[1..] == PutOption(PutKind, t.sealing, PrintText(t.diagnostic) + rest);
  }

  lemma {:induction false} OutcomeRight(s: Bytes, t: Tail)
    ensures var p := ParseOutcome(s);
      p.Parsed? && p.value == Outcome(t.succeeded, t.sealing, t.diagnostic) ==>
        |t.diagnostic| <= MAXIMUM_DIAGNOSTIC && s == PutOutcome(t, p.rest)
  {
    if ParseOutcome(s).Parsed? {
      KindInverse();
      OptionRight(PutKind, ParseKind, _ => true, s[1..]);
      TextRight(ParseOption(ParseKind, s[1..]).rest, MAXIMUM_DIAGNOSTIC);
      HeadAndRest(s);
    }
  }

  lemma {:induction false} EvidenceLeft(f: Formats, t: Tail, rest: Bytes)
    requires ReadableTail(f, t)
    ensures ParseEvidence(f, Outcome(t.succeeded, t.sealing, t.diagnostic), PutEvidence(f, t, rest)) == Parsed(t, rest)
  {
    var putReceipt := (r, after) => PutReceipt(f, r, after);
    var s2 := PutOption(putReceipt, t.receipt, rest);
    var s1 := PutOption(PutArtifact, t.artifact, s2);
    PayloadInverse(f);
    OptionLeft(PutPayload, x => ParsePayload(f, x), es => ReadablePayload(f, es), t.payload, s1);
    ArtifactInverse(f);
    OptionLeft(PutArtifact, x => ParseArtifact(f, x), a => ReadableArtifact(f, a), t.artifact, s2);
    ReceiptInverse(f);
    OptionLeft(putReceipt, x => ParseReceipt(f, x), r => ReadableReceipt(f, r), t.receipt, rest);
  }

  lemma {:induction false} EvidenceRight(f: Formats, o: Outcome, s: Bytes)
    requires |o.diagnostic| <= MAXIMUM_DIAGNOSTIC
    ensures var p := ParseEvidence(f, o, s);
      p.Parsed? ==>
        && ReadableTail(f, p.value)
        && o == Outcome(p.value.succeeded, p.value.sealing, p.value.diagnostic)
        && s == PutEvidence(f, p.value, p.rest)
  {
    if ParseEvidence(f, o, s).Parsed? {
      PayloadInverse(f);
      OptionRight(PutPayload, x => ParsePayload(f, x), es => ReadablePayload(f, es), s);
      var s1 := ParseOption(x => ParsePayload(f, x), s).rest;
      ArtifactInverse(f);
      OptionRight(PutArtifact, x => ParseArtifact(f, x), a => ReadableArtifact(f, a), s1);
      var s2 := ParseOption(x => ParseArtifact(f, x), s1).rest;
      ReceiptInverse(f);
      OptionRight((r, after) => PutReceipt(f, r, after), x => ParseReceipt(f, x), r => ReadableReceipt(f, r), s2);
    }
  }

  lemma {:induction false} TailLeft(f: Formats, t: Tail, rest: Bytes)
    requires ReadableTail(f, t)
    ensures ParseTail(f, PutTail(f, t, rest)) == Parsed(t, rest)
  {
    OutcomeLeft(t, PutEvidence(f, t, rest));
    EvidenceLeft(f, t, rest);
  }

  lemma {:induction false} TailRight(f: Formats, s: Bytes)
    ensures var p := ParseTail(f, s); p.Parsed? ==> ReadableTail(f, p.value) && s == PutTail(f, p.value, p.rest)
  {
    if ParseTail(f, s).Parsed? {
      var o := ParseOutcome(s);
      OutcomeRight(s, Tail(o.value.succeeded, o.value.sealing, o.value.diagnostic, None, None, None));
      EvidenceRight(f, o.value, o.rest);
      OutcomeRight(s, ParseTail(f, s).value);
    }
  }

  // What is printed does not depend on what follows it ---------------------------------------------------

  lemma {:induction false} EntryPrinted(e: Entry, rest: Bytes)
    ensures PutEntry(e, rest) == PutEntry(e, []) + rest
  {
    WhatPrinted(e.what, rest);
    var w := PutWhat(e.what, []);
    MetaPrinted(e.Common(), w, rest);
    Regroup([Code(e.what)], PutMeta(e.Common(), w), rest);
  }

  lemma {:induction false} WhatPrinted(w: What, rest: Bytes)
    ensures PutWhat(w, rest) == PutWhat(w, []) + rest
  {
    match w
    case CharacterDevice(major, minor) => DevicePrinted(major, minor, rest);
    case BlockDevice(major, minor) => DevicePrinted(major, minor, rest);
    case _ =>
  }

  lemma {:induction false} DevicePrinted(major: u64, minor: u64, rest: Bytes)
    ensures BE(8, major) + (BE(8, minor) + rest) == (BE(8, major) + (BE(8, minor) + [])) + rest
  {
    assert BE(8, minor) + [] == BE(8, minor);
    Regroup(BE(8, major), BE(8, minor), rest);
  }

  lemma {:induction false} MetaPrinted(m: Meta, middle: Bytes, rest: Bytes)
    ensures PutMeta(m, middle + rest) == PutMeta(m, middle) + rest
  {
    TimesPrinted(m.times, middle, rest);
    OwnerPrinted(m.owner, PutTimes(m.times, middle), rest);
    Regroup(PrintText(m.path), PutOwner(m.owner, PutTimes(m.times, middle)), rest);
  }

  lemma {:induction false} TimesPrinted(t: Times, middle: Bytes, rest: Bytes)
    ensures PutTimes(t, middle + rest) == PutTimes(t, middle) + rest
  {
    Regroup(BE(4, t.nanoseconds), middle, rest);
    Regroup(BE(8, Unsigned(t.seconds)), BE(4, t.nanoseconds) + middle, rest);
    Regroup(BE(8, t.size), BE(8, Unsigned(t.seconds)) + (BE(4, t.nanoseconds) + middle), rest);
  }

  lemma {:induction false} OwnerPrinted(o: Owner, middle: Bytes, rest: Bytes)
    ensures PutOwner(o, middle + rest) == PutOwner(o, middle) + rest
  {
    Regroup(BE(8, o.gid), middle, rest);
    Regroup(BE(8, o.uid), BE(8, o.gid) + middle, rest);
    Regroup(BE(4, o.mode), BE(8, o.uid) + (BE(8, o.gid) + middle), rest);
  }

  lemma {:induction false} PayloadPrinted(es: seq<Entry>, rest: Bytes)
    ensures PutPayload(es, rest) == PutPayload(es, []) + rest
  {
    forall e, after ensures PutEntry(e, after) == PutEntry(e, []) + after {
      EntryPrinted(e, after);
    }
    AllAppend(PutEntry, es, rest);
    Regroup(BE(4, |es|), PutAll(PutEntry, es, []), rest);
  }

  lemma {:induction false} ArtifactPrinted(a: SealedArtifact, rest: Bytes)
    ensures PutArtifact(a, rest) == PutArtifact(a, []) + rest
  {
    assert Pack(a.digest) + [] == Pack(a.digest);
    Regroup(BE(8, a.byteCount), Pack(a.digest), rest);
    Regroup([a.encoding, a.compression], BE(8, a.byteCount) + Pack(a.digest), rest);
  }

  lemma {:induction false} ReceiptPrinted(f: Formats, r: Receipt, rest: Bytes)
    ensures PutReceipt(f, r, rest) == PutReceipt(f, r, []) + rest
  {
    var identity := PrintText(f.receiptIdentity(r));
    assert identity + [] == identity;
    var counted := BE(8, r.entryCount) + identity;
    Regroup(BE(8, r.entryCount), identity, rest);
    Regroup(PrintText(r.image), counted, rest);
    Regroup(PrintText(r.archive), PrintText(r.image) + counted, rest);
    Regroup(PrintText(r.backend), PrintText(r.archive) + (PrintText(r.image) + counted), rest);
    Regroup(BE(4, 1), PrintText(r.backend) + (PrintText(r.archive) + (PrintText(r.image) + counted)), rest);
  }

  lemma {:induction false} EvidencePrinted(f: Formats, t: Tail, rest: Bytes)
    ensures PutEvidence(f, t, rest) == PutEvidence(f, t, []) + rest
  {
    forall es, after ensures PutPayload(es, after) == PutPayload(es, []) + after {
      PayloadPrinted(es, after);
    }
    forall a, after ensures PutArtifact(a, after) == PutArtifact(a, []) + after {
      ArtifactPrinted(a, after);
    }
    forall r, after ensures PutReceipt(f, r, after) == PutReceipt(f, r, []) + after {
      ReceiptPrinted(f, r, after);
    }
    var putReceipt := (r, after) => PutReceipt(f, r, after);
    OptionAppends(putReceipt, t.receipt, rest);
    var s1 := PutOption(putReceipt, t.receipt, []);
    OptionAppends(PutArtifact, t.artifact, s1 + rest);
    OptionAppends(PutArtifact, t.artifact, s1);
    var s2 := PutOption(PutArtifact, t.artifact, []);
    Regroup(s2, s1, rest);
    OptionAppends(PutPayload, t.payload, (s2 + s1) + rest);
    OptionAppends(PutPayload, t.payload, s2 + s1);
    Regroup(PutOption(PutPayload, t.payload, []), s2 + s1, rest);
  }

  lemma {:induction false} OutcomePrinted(t: Tail, middle: Bytes, rest: Bytes)
    ensures PutOutcome(t, middle + rest) == PutOutcome(t, middle) + rest
  {
    Regroup(PrintText(t.diagnostic), middle, rest);
    forall k, after ensures PutKind(k, after) == PutKind(k, []) + after {
    }
    var text := PrintText(t.diagnostic) + middle;
    OptionAppends(PutKind, t.sealing, text + rest);
    OptionAppends(PutKind, t.sealing, text);
    Regroup(PutOption(PutKind, t.sealing, []), text, rest);
    Regroup([if t.succeeded then 0 else 1], PutOption(PutKind, t.sealing, text), rest);
  }

  lemma {:induction false} TailPrinted(f: Formats, t: Tail, rest: Bytes)
    ensures PutTail(f, t, rest) == PutTail(f, t, []) + rest
  {
    EvidencePrinted(f, t, rest);
    OutcomePrinted(t, PutEvidence(f, t, []), rest);
  }

  // The whole record -----------------------------------------------------------------------------------

  /** "PKGBXR1" and a zero byte. */
  const MAGIC: Bytes := [80, 75, 71, 66, 88, 82, 49, 0]

  const VERSION: int := 1

  datatype Header = Header(request: Text, executionRequest: Text, backend: Text, execution: Text, build: Text)

  predicate ReadableHeader(h: Header) {
    && IsIdentity(h.request) && IsIdentity(h.executionRequest) && IsIdentity(h.backend)
    && IsIdentity(h.execution) && IsIdentity(h.build)
  }

  function PutIdentities(h: Header, rest: Bytes): Bytes {
    Pack(h.request) + (Pack(h.executionRequest) + (Pack(h.backend) + (Pack(h.execution) + (Pack(h.build) + rest))))
  }

  function PutHeader(h: Header, rest: Bytes): Bytes {
    MAGIC + (BE(2, VERSION) + PutIdentities(h, rest))
  }

  function ParseIdentities(s: Bytes): Parsed<Header> {
    match ParseIdentity(s)
    case Malformed => Malformed
    case Parsed(request, s1) =>
      match ParseIdentity(s1)
      case Malformed => Malformed
      case Parsed(executionRequest, s2) =>
        match ParseIdentity(s2)
        case Malformed => Malformed
        case Parsed(backend, s3) =>
          match ParseIdentity(s3)
          case Malformed => Malformed
          case Parsed(execution, s4) =>
            match ParseIdentity(s4)
            case Malformed => Malformed
            case Parsed(build, rest) => Parsed(Header(request, executionRequest, backend, execution, build), rest)
  }

  function ParseHeader(s: Bytes): Parsed<Header> {
    if |s| < 8 || s[..8] != MAGIC then
      Malformed
    else
      match ParseU16(s[8..])
      case Malformed => Malformed
      case Parsed(version, s1) => if version != VERSION then Malformed else ParseIdentities(s1)
  }

  lemma {:induction false} IdentitiesLeft(h: Header, rest: Bytes)
    requires ReadableHeader(h)
    ensures ParseIdentities(PutIdentities(h, rest)) == Parsed(h, rest)
  {
    var s4 := Pack(h.build) + rest;
    var s3 := Pack(h.execution) + s4;
    var s2 := Pack(h.backend) + s3;
    IdentityLeft(h.request, Pack(h.executionRequest) + s2);
    IdentityLeft(h.executionRequest, s2);
    IdentityLeft(h.backend, s3);
    IdentityLeft(h.execution, s4);
    IdentityLeft(h.build, rest);
  }

  lemma {:induction false} IdentitiesRight(s: Bytes)
    ensures var p := ParseIdentities(s); p.Parsed? ==> ReadableHeader(p.value) && s == PutIdentities(p.value, p.rest)
  {
    if ParseIdentities(s).Parsed? {
      IdentityRight(s);
      var s1 := ParseIdentity(s).rest;
      IdentityRight(s1);
      var s2 := ParseIdentity(s1).rest;
      IdentityRight(s2);
      var s3 := ParseIdentity(s2).rest;
      IdentityRight(s3);
      IdentityRight(ParseIdentity(s3).rest);
    }
  }

  lemma {:induction false} HeaderLeft(h: Header, rest: Bytes)
    requires ReadableHeader(h)
    ensures ParseHeader(PutHeader(h, rest)) == Parsed(h, rest)
  {
    Widths();
    var s1 := PutIdentities(h, rest);
    BELeft(2, VERSION, s1);
    assert PutHeader(h, rest)[..8] == MAGIC && PutHeader(h, rest)[8..] == BE(2, VERSION) + s1;
    IdentitiesLeft(h, rest);
  }

  lemma {:induction false} HeaderRight(s: Bytes)
    ensures var p := ParseHeader(s); p.Parsed? ==> ReadableHeader(p.value) && s == PutHeader(p.value, p.rest)
  {
    if ParseHeader(s).Parsed? {
      assert s == s[..8] + s[8..];
      BERight(2, s[8..]);
      IdentitiesRight(ParseU16(s[8..]).rest);
    }
  }

  datatype Record = Record(header: Header, execution: Bytes, tail: Tail)

  predicate ReadableRecord(f: Formats, executionLimit: nat, r: Record) {
    ReadableHeader(r.header) && |r.execution| <= executionLimit && |r.execution| < TWO_32 && ReadableTail(f, r.tail)
  }

  function PutRecord(f: Formats, r: Record, rest: Bytes): Bytes {
    PutHeader(r.header, PrintText(r.execution) + PutTail(f, r.tail, rest))
  }

  function ParseRecord(f: Formats, executionLimit: nat, s: Bytes): Parsed<Record> {
    match ParseHeader(s)
    case Malformed => Malformed
    case Parsed(header, s1) =>
      match ParseText(s1, executionLimit)
      case Malformed => Malformed
      case Parsed(execution, s2) =>
        match ParseTail(f, s2)
        case Malformed => Malformed
        case Parsed(tail, rest) => Parsed(Record(header, execution, tail), rest)
  }

  /** Printed, then parsed: the same record, and nothing of what follows it. */
  lemma {:induction false} RecordLeft(f: Formats, executionLimit: nat, r: Record, rest: Bytes)
    requires ReadableRecord(f, executionLimit, r)
    ensures ParseRecord(f, executionLimit, PutRecord(f, r, rest)) == Parsed(r, rest)
  {
    var s2 := PutTail(f, r.tail, rest);
    HeaderLeft(r.header, PrintText(r.execution) + s2);
    TextLeft(r.execution, executionLimit, s2);
    TailLeft(f, r.tail, rest);
  }

  /** Parsed, then printed: exactly the bytes consumed. */
  lemma {:induction false} RecordRight(f: Formats, executionLimit: nat, s: Bytes)
    ensures var p := ParseRecord(f, executionLimit, s);
      p.Parsed? ==> ReadableRecord(f, executionLimit, p.value) && s == PutRecord(f, p.value, p.rest)
  {
    if ParseRecord(f, executionLimit, s).Parsed? {
      HeaderRight(s);
      var s1 := ParseHeader(s).rest;
      TextRight(s1, executionLimit);
      TailRight(f, ParseText(s1, executionLimit).rest);
    }
  }

  /** A body that parses to its end. */
  predicate Accepted(f: Formats, executionLimit: nat, s: Bytes) {
    var p := ParseRecord(f, executionLimit, s); p.Parsed? && p.rest == []
  }

  /** No accepted body is a proper prefix of another. */
  lemma {:induction false} NoProperPrefix(f: Formats, executionLimit: nat, body: Bytes, more: Bytes)
    requires Accepted(f, executionLimit, body) && Accepted(f, executionLimit, body + more)
    ensures more == []
  {
    RecordRight(f, executionLimit, body);
    var r := ParseRecord(f, executionLimit, body).value;
    RecordPrinted(f, r, more);
    RecordLeft(f, executionLimit, r, more);
  }

  /** What is printed does not depend on what it is put in front of. */
  lemma {:induction false} RecordPrinted(f: Formats, r: Record, rest: Bytes)
    ensures PutRecord(f, r, rest) == PutRecord(f, r, []) + rest
  {
    TailPrinted(f, r.tail, rest);
    var tail := PutTail(f, r.tail, []);
    Regroup(PrintText(r.execution), tail, rest);
    HeaderPrinted(r.header, PrintText(r.execution) + tail, rest);
  }

  lemma {:induction false} HeaderPrinted(h: Header, middle: Bytes, rest: Bytes)
    ensures PutHeader(h, middle + rest) == PutHeader(h, middle) + rest
  {
    IdentitiesPrinted(h, middle, rest);
    Regroup(BE(2, VERSION), PutIdentities(h, middle), rest);
    Regroup(MAGIC, BE(2, VERSION) + PutIdentities(h, middle), rest);
  }

  lemma {:induction false} IdentitiesPrinted(h: Header, middle: Bytes, rest: Bytes)
    ensures PutIdentities(h, middle + rest) == PutIdentities(h, middle) + rest
  {
    var s4 := Pack(h.build) + middle;
    var s3 := Pack(h.execution) + s4;
    var s2 := Pack(h.backend) + s3;
    Regroup(Pack(h.build), middle, rest);
    Regroup(Pack(h.execution), s4, rest);
    Regroup(Pack(h.backend), s3, rest);
    Regroup(Pack(h.executionRequest), s2, rest);
    Regroup(Pack(h.request), Pack(h.executionRequest) + s2, rest);
  }
}
