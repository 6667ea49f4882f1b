/** The record's parts written to the buffer and read back from it (src/result_codec.cpp:317-403, 494-523). */
module RecordBuffers {
  import opened Outcomes
  import opened Wire
  import opened WireBuffers
  import opened RecordFormat

  method EncodeOwner(output: Writer, o: Owner) returns (r: Result<()>)
    requires output.Valid()
    modifies output
    ensures Wrote(true, old(output.output), output.output, PutOwner(o, []), r) && (r.Ok? ==> output.Valid())
  {
    var _ :- output.PutInteger(4, o.mode);
    var _ :- output.PutInteger(8, o.uid);
    r := output.PutInteger(8, o.gid);
  }

  method EncodeTimes(output: Writer, t: Times) returns (r: Result<()>)
    requires output.Valid()
    modifies output
    ensures Wrote(true, old(output.output), output.output, PutTimes(t, []), r) && (r.Ok? ==> output.Valid())
  {
    var _ :- output.PutInteger(8, t.size);
    var _ :- output.PutInteger(8, Unsigned(t.seconds));
    r := output.PutInteger(4, t.nanoseconds);
  }

  method EncodeOwnerAndTimes(output: Writer, m: Meta) returns (r: Result<()>)
    requires output.Valid()
    modifies output
    ensures Wrote(true, old(output.output), output.output, PutOwner(m.owner, PutTimes(m.times, [])), r)
    ensures r.Ok? ==> output.Valid()
  {
    ghost var before, times := output.output, PutTimes(m.times, []);
    OwnerPrinted(m.owner, [], times);
    assert [] + times == times;
    var q := EncodeOwner(output, m.owner);
    ghost var middle := output.output;
    r := q;
    if q.Ok? {
      r := EncodeTimes(output, m.times);
    }
    WroteBoth(true, true, before, middle, output.output, PutOwner(m.owner, []), times, q, r);
  }

  method EncodeTypeAndPath(output: Writer, code: Byte, path: Text) returns (r: Result<()>)
    requires output.Valid()
    modifies output
    ensures Wrote(true, old(output.output), output.output, [code] + PrintText(path), r) && (r.Ok? ==> output.Valid())
  {
    var _ :- output.PutByte(code);
    r := output.PutText(path);
  }

  /** `encode_payload_entry` up to its switch. */
  method EncodeMeta(output: Writer, code: Byte, m: Meta) returns (r: Result<()>)
    requires output.Valid()
    modifies output
    ensures Wrote(true, old(output.output), output.output, [code] + PutMeta(m, []), r) && (r.Ok? ==> output.Valid())
  {
    ghost var before, others := output.output, PutOwner(m.owner, PutTimes(m.times, []));
    Regroup([code], PrintText(m.path), others);
    var q := EncodeTypeAndPath(output, code, m.path);
    ghost var middle := output.output;
    r := q;
    if q.Ok? {
      r := EncodeOwnerAndTimes(output, m);
    }
    WroteBoth(true, true, before, middle, output.output, [code] + PrintText(m.path), others, q, r);
  }

  /** Every identity in an entry is one the writer accepts. */
  predicate PrintableEntry(e: Entry) {
    e.what.Regular? ==> IsIdentity(e.what.content)
  }

  /** The switch of `encode_payload_entry`. */
  method EncodeWhat(output: Writer, w: What) returns (r: Result<()>)
    requires output.Valid()
    modifies output
    ensures Wrote(w.Regular? ==> IsIdentity(w.content), old(output.output), output.output, PutWhat(w, []), r)
    ensures r.Ok? ==> output.Valid()
  {
    match w
    case Regular(_, content) => r := output.PutIdentity(content);
    case Directory => r := Ok(());
    case Symlink(target) => r := output.PutText(target);
    case Hardlink(original) => r := output.PutText(original);
    case Fifo => r := Ok(());
    case CharacterDevice(major, minor) => r := EncodeDevice(output, major, minor);
    case BlockDevice(major, minor) => r := EncodeDevice(output, major, minor);
  }

  method EncodeDevice(output: Writer, major: u64, minor: u64) returns (r: Result<()>)
    requires output.Valid()
    modifies output
    ensures Wrote(true, old(output.output), output.output, BE(8, major) + (BE(8, minor) + []), r)
    ensures r.Ok? ==> output.Valid()
  {
    var _ :- output.PutInteger(8, major);
    r := output.PutInteger(8, minor);
  }

  method EncodePayloadEntry(output: Writer, e: Entry) returns (r: Result<()>)
    requires output.Valid()
    modifies output
    ensures Wrote(PrintableEntry(e), old(output.output), output.output, PutEntry(e, []), r)
    ensures r.Ok? ==> output.Valid()
  {
    MetaPrinted(e.Common(), [], PutWhat(e.what, []));
    ghost var before := output.output;
    ghost var head := [Code(e.what)] + PutMeta(e.Common(), []);
    assert [] + PutWhat(e.what, []) == PutWhat(e.what, []);
    Regroup([Code(e.what)], PutMeta(e.Common(), []), PutWhat(e.what, []));
    var q := EncodeMeta(output, Code(e.what), e.Common());
    ghost var middle := output.output;
    r := q;
    if q.Ok? {
      r := EncodeWhat(output, e.what);
    }
    WroteBoth(true, PrintableEntry(e), before, middle, output.output, head, PutWhat(e.what, []), q, r);
  }

  predicate PrintableEntries(es: seq<Entry>) {
    forall i :: 0 <= i < |es| ==> PrintableEntry(es[i])
  }

  /** The entries in order; `put` is how one entry prints. */
  method EncodeEntries(output: Writer, es: seq<Entry>, ghost put: Put<Entry>) returns (r: Result<()>)
    requires output.Valid() && Appends(put) && forall e {:trigger PutEntry(e, [])} :: put(e, []) == PutEntry(e, [])
    modifies output
    ensures Wrote(PrintableEntries(es), old(output.output), output.output, PutAll(put, es, []), r)
    ensures r.Ok? ==> output.Valid()
  {
    ghost var before, data := output.output, [];
    assert es[0..] == es && [] + PutAll(put, es, []) == PutAll(put, es, []);
    for i := 0 to |es|
      invariant output.Valid() && output.output == before + data
      invariant forall k :: 0 <= k < i ==> PrintableEntry(es[k])
      invariant PutAll(put, es, []) == data + PutAll(put, es[i..], [])
    {
      ghost var entry, others := put(es[i], []), PutAll(put, es[i + 1..], []);
      assert es[i..][0] == es[i] && es[i..][1..] == es[i + 1..];
      assert PutAll(put, es[i..], []) == entry + others;
      Regroup(data, entry, others);
      var _ :- EncodeEntryAs(output, es[i], put);
      Regroup(before, data, entry);
      data := data + entry;
    }
    r := Ok(());
  }

  method EncodeEntryAs(output: Writer, e: Entry, ghost put: Put<Entry>) returns (r: Result<()>)
    requires output.Valid() && forall e {:trigger PutEntry(e, [])} :: put(e, []) == PutEntry(e, [])
    modifies output
    ensures Wrote(PrintableEntry(e), old(output.output), output.output, put(e, []), r) && (r.Ok? ==> output.Valid())
  {
    r := EncodePayloadEntry(output, e);
  }

  lemma {:induction false} EntriesAppend()
    ensures Appends(PutEntry)
  {
    forall e, rest ensures PutEntry(e, rest) == PutEntry(e, []) + rest {
      EntryPrinted(e, rest);
    }
  }

  /** The count and the entries, one after another. */
  method EncodePayload(output: Writer, es: seq<Entry>) returns (r: Result<()>)
    requires output.Valid()
    modifies output
    ensures Wrote(PrintableEntries(es), old(output.output), output.output, PutPayload(es, []), r)
    ensures r.Ok? ==> output.Valid()
  {
    EntriesAppend();
    ghost var before := output.output;
    var q := output.PutInteger(4, |es|);
    ghost var middle := output.output;
    r := q;
    if q.Ok? {
      r := EncodeEntries(output, es, PutEntry);
    }
    WroteBoth(true, PrintableEntries(es), before, middle, output.output, BE(4, |es|), PutAll(PutEntry, es, []), q, r);
  }

  method EncodeArtifact(output: Writer, a: SealedArtifact) returns (r: Result<()>)
    requires output.Valid()
    modifies output
    ensures Wrote(IsIdentity(a.digest), old(output.output), output.output, PutArtifact(a, []), r)
    ensures r.Ok? ==> output.Valid()
  {
    var _ :- output.PutByte(a.encoding);
    var _ :- output.PutByte(a.compression);
    var _ :- output.PutInteger(8, a.byteCount);
    r := output.PutIdentity(a.digest);
  }

  /** `encode_receipt`. */
  method EncodeReceipt(f: Formats, output: Writer, receipt: Receipt) returns (r: Result<()>)
    requires output.Valid()
    modifies output
    ensures Wrote(true, old(output.output), output.output, PutReceipt(f, receipt, []), r) && (r.Ok? ==> output.Valid())
  {
    ghost var before, after := output.output, PutReceiptAfter(f, receipt, []);
    Regroup(BE(4, 1), PrintText(receipt.backend), after);
    var q := EncodeReceiptStart(output, receipt.backend);
    ghost var middle := output.output;
    r := q;
    if q.Ok? {
      r := EncodeReceiptAfter(f, output, receipt);
    }
    WroteBoth(true, true, before, middle, output.output, BE(4, 1) + PrintText(receipt.backend), after, q, r);
  }

  method EncodeReceiptStart(output: Writer, backend: Text) returns (r: Result<()>)
    requires output.Valid()
    modifies output
    ensures Wrote(true, old(output.output), output.output, BE(4, 1) + PrintText(backend), r)
    ensures r.Ok? ==> output.Valid()
  {
    var _ :- output.PutInteger(4, 1);
    r := output.PutText(backend);
  }

  method EncodeReceiptAfter(f: Formats, output: Writer, receipt: Receipt) returns (r: Result<()>)
    requires output.Valid()
    modifies output
    ensures Wrote(true, old(output.output), output.output, PutReceiptAfter(f, receipt, []), r)
    ensures r.Ok? ==> output.Valid()
  {
    var _ :- output.PutText(receipt.archive);
    var _ :- output.PutText(receipt.image);
    var _ :- output.PutInteger(8, receipt.entryCount);
    r := output.PutText(f.receiptIdentity(receipt));
  }

  // Reading --------------------------------------------------------------------------------------------

  method DecodeOwner(input: Reader) returns (r: Result<Owner>)
    requires input.Valid()
    modifies input
    ensures input.Valid() && Took(input.Rest(), ParseOwner(old(input.Rest())), r)
  {
    var mode :- input.TakeU32();
    var uid :- input.TakeU64();
    var gid :- input.TakeU64();
    r := Ok(Owner(mode, uid, gid));
  }

  method DecodeTimes(input: Reader) returns (r: Result<Times>)
    requires input.Valid()
    modifies input
    ensures input.Valid() && Took(input.Rest(), ParseTimes(old(input.Rest())), r)
  {
    var size :- input.TakeU64();
    var seconds :- input.TakeU64();
    var nanoseconds :- input.TakeU32();
    r := Ok(Times(size, Signed(seconds), nanoseconds));
  }

  method DecodeMeta(input: Reader) returns (r: Result<Meta>)
    requires input.Valid()
    modifies input
    ensures input.Valid() && Took(input.Rest(), ParseMeta(old(input.Rest())), r)
  {
    var path :- input.TakeText(MAXIMUM_TEXT);
    var owner :- DecodeOwner(input);
    var times :- DecodeTimes(input);
    r := Ok(Meta(path, owner, times));
  }

  method DecodeDevice(input: Reader) returns (r: Result<(u64, u64)>)
    requires input.Valid()
    modifies input
    ensures input.Valid() && Took(input.Rest(), ParseDevice(old(input.Rest())), r)
  {
    var major :- input.TakeU64();
    var minor :- input.TakeU64();
    r := Ok((major, minor));
  }

  /** The switch of `decode_payload_entry`. */
  method DecodeWhat(f: Formats, input: Reader, code: Byte, size: u64) returns (r: Result<What>)
    requires input.Valid()
    modifies input
    ensures input.Valid() && Took(input.Rest(), ParseWhat(f, code, size, old(input.Rest())), r)
  {
    if code == 0 {
      var content :- input.TakeIdentity();
      return Ok(Regular(size, content));
    }
    if code > 6 || size != 0 {
      return Err(CorruptEncoding);
    }
    match code
    case 1 => r := Ok(Directory);
    case 2 =>
      var target :- input.TakeText(MAXIMUM_TEXT);
      r := Ok(Symlink(target));
    case 3 =>
      var original :- input.TakeText(MAXIMUM_TEXT);
      r := if f.acceptsPath(original) then Ok(Hardlink(original)) else Err(CorruptEncoding);
    case 4 => r := Ok(Fifo);
    case _ =>
      var device :- DecodeDevice(input);
      r := Ok(if code == 5 then CharacterDevice(device.0, device.1) else BlockDevice(device.0, device.1));
  }

  /** `decode_payload_entry`; a path or an entry the library rejects is corrupt. */
  method DecodePayloadEntry(f: Formats, input: Reader) returns (r: Result<Entry>)
    requires input.Valid()
    modifies input
    ensures input.Valid() && Took(input.Rest(), ParseEntry(f, old(input.Rest())), r)
  {
    var code :- input.TakeByte();
    if code > 6 {
      return Err(CorruptEncoding);
    }
    var meta :- DecodeMeta(input);
    if !f.acceptsPath(meta.path) {
      return Err(CorruptEncoding);
    }
    var what :- DecodeWhat(f, input, code, meta.times.size);
    var e := EntryOf(meta, what);
    r := if f.acceptsEntry(e) then Ok(e) else Err(CorruptEncoding);
  }

  method DecodeEntryAs(f: Formats, input: Reader, ghost parse: Parse<Entry>) returns (r: Result<Entry>)
    requires input.Valid() && forall x {:trigger ParseEntry(f, x)} :: parse(x) == ParseEntry(f, x)
    modifies input
    ensures input.Valid() && Took(input.Rest(), parse(old(input.Rest())), r)
  {
    r := DecodePayloadEntry(f, input);
  }

  /** The entries read so far, in front of what parsing the rest gives. */
  ghost function Continued(done: seq<Entry>, p: Parsed<seq<Entry>>): Parsed<seq<Entry>> {
    match p
    case Malformed => Malformed
    case Parsed(others, rest) => Parsed(done + others, rest)
  }

  lemma {:induction false} ContinuedOnce(done: seq<Entry>, e: Entry, p: Parsed<seq<Entry>>)
    ensures Continued(done + [e], p) == Continued(done, Continued([e], p))
  {
    if p.Parsed? {
      assert done + [e] + p.value == done + ([e] + p.value);
    }
  }

  lemma {:induction false} ContinuedNone(p: Parsed<seq<Entry>>)
    ensures Continued([], p) == p
  {
    if p.Parsed? {
      assert [] + p.value == p.value;
    }
  }

  /** `count` entries; `parse` is how one entry parses. */
  method DecodeEntries(f: Formats, input: Reader, count: nat, ghost parse: Parse<Entry>) returns (r: Result<seq<Entry>>)
    requires input.Valid() && forall x {:trigger ParseEntry(f, x)} :: parse(x) == ParseEntry(f, x)
    modifies input
    ensures input.Valid() && Took(input.Rest(), ParseAll(parse, count, old(input.Rest())), r)
  {
    ghost var goal := ParseAll(parse, count, input.Rest());
    var es := [];
    ContinuedNone(goal);
    for i := 0 to count
      invariant input.Valid()
      invariant goal == Continued(es, ParseAll(parse, count - i, input.Rest()))
    {
      var e :- DecodeEntryAs(f, input, parse);
      ContinuedOnce(es, e, ParseAll(parse, count - i - 1, input.Rest()));
      es := es + [e];
    }
    assert es + [] == es;
    r := Ok(es);
  }

  method DecodePayload(f: Formats, input: Reader) returns (r: Result<seq<Entry>>)
    requires input.Valid()
    modifies input
    ensures input.Valid() && Took(input.Rest(), ParsePayload(f, old(input.Rest())), r)
  {
    var count :- input.TakeU32();
    if count > MAXIMUM_ENTRIES {
      return Err(CorruptEncoding);
    }
    r := DecodeEntries(f, input, count, x => ParseEntry(f, x));
  }

  method DecodeArtifact(f: Formats, input: Reader) returns (r: Result<SealedArtifact>)
    requires input.Valid()
    modifies input
    ensures input.Valid() && Took(input.Rest(), ParseArtifact(f, old(input.Rest())), r)
  {
    ghost var before := input.Rest();
    var encoding :- input.TakeByte();
    if encoding != f.packageTar {
      return Err(CorruptEncoding);
    }
    var compression :- input.TakeByte();
    if compression > f.zstd {
      return Err(CorruptEncoding);
    }
    assert input.Rest() == before[2..];
    var byteCount :- input.TakeU64();
    var digest :- input.TakeIdentity();
    var a := SealedArtifact(encoding, compression, byteCount, digest);
    r := if f.acceptsArtifact(a) then Ok(a) else Err(CorruptEncoding);
  }

  /** `decode_receipt`. */
  method DecodeReceipt(f: Formats, input: Reader) returns (r: Result<Receipt>)
    requires input.Valid()
    modifies input
    ensures input.Valid() && Took(input.Rest(), ParseReceipt(f, old(input.Rest())), r)
  {
    var schema :- input.TakeU32();
    if schema != 1 {
      return Err(CorruptEncoding);
    }
    var backend :- input.TakeText(MAXIMUM_BACKEND);
    r := DecodeReceiptAfter(f, input, backend);
  }

  method DecodeReceiptAfter(f: Formats, input: Reader, backend: Text) returns (r: Result<Receipt>)
    requires input.Valid()
    modifies input
    ensures input.Valid() && Took(input.Rest(), ParseReceiptAfter(f, backend, old(input.Rest())), r)
  {
    var archive :- input.TakeText(MAXIMUM_TEXT);
    var image :- input.TakeText(MAXIMUM_TEXT);
    var entryCount :- input.TakeU64();
    var receipt := Receipt(backend, archive, image, entryCount);
    if !f.acceptsReceipt(receipt) {
      return Err(CorruptEncoding);
    }
    var retained :- input.TakeText(MAXIMUM_TEXT);
    r := if f.receiptIdentity(receipt) == retained then Ok(receipt) else Err(CorruptEncoding);
  }
}
