/** The byte writer and the bounded reader (src/result_codec.cpp:74-279). */
module WireBuffers {
  import opened Outcomes
  import opened Wire

  /** 256 MiB. */
  const MAXIMUM_ENCODING: int := 256 * 1024 * 1024

  /** `std::size_t` subtraction, which wraps. */
  function SizeMinus(a: u64, b: u64): u64 {
    (a - b) % TWO_64
  }

  /**
   * What a write of `data` does: append it all, or throw -- exactly when `fits` is false or the
   * bound would be exceeded.
   */
  predicate Wrote(fits: bool, before: Bytes, after: Bytes, data: Bytes, r: Result<()>) {
    if fits && |before| + |data| <= MAXIMUM_ENCODING then
      r.Ok? && after == before + data
    else
      r == Err(InconsistentResult)
  }

  /** One write after another is a write of both. */
  lemma {:induction false} WroteBoth(
      fits: bool, more: bool, first: Bytes, second: Bytes, third: Bytes, a: Bytes, b: Bytes,
      q: Result<()>, r: Result<()>)
    requires Wrote(fits, first, second, a, q)
    requires if q.Ok? then Wrote(more, second, third, b, r) else r == q
    ensures Wrote(fits && more, first, third, a + b, r)
  {
    if q.Ok? {
      Regroup(first, a, b);
    }
  }

  lemma {:induction false} BEAt(n: nat, v: nat, i: nat)
    requires i < n
    ensures BE(n, v)[i] == Digit(v, n - 1 - i)
  {
    if i > 0 {
      BEAt(n - 1, v, i - 1);
    }
  }

  lemma {:induction false} UnHexAt(t: Bytes, i: nat)
    requires |t| % 2 == 0 && AllHex(t) && 2 * i + 1 < |t|
    ensures UnHex(t)[i] == DigitValue(t[2 * i]) * 16 + DigitValue(t[2 * i + 1])
  {
    if i > 0 {
      UnHexAt(t[2..], i - 1);
    }
  }

  lemma {:induction false} SlicePrefix(s: Bytes, from: nat, to: nat, size: nat)
    requires from <= to <= |s| && size <= to - from
    ensures s[from..to][..size] == s[from..from + size] && s[from..to][size..] == s[from + size..to]
  {
  }

  lemma {:induction false} HexAt(s: Bytes, i: nat)
    requires i < |s|
    ensures HexOf(s)[2 * i] == HexDigit(s[i] / 16) && HexOf(s)[2 * i + 1] == HexDigit(s[i] % 16)
  {
    if i > 0 {
      HexAt(s[1..], i - 1);
    }
  }

  class Writer {
    var output: Bytes

    ghost predicate Valid()
      reads this
    {
      |output| <= MAXIMUM_ENCODING
    }

    constructor ()
      ensures Valid() && output == []
    {
      output := [];
    }

    /** Append, then check the size: the buffer may end one byte over the bound, and is then abandoned. */
    method PutByte(value: Byte) returns (r: Result<()>)
      requires Valid()
      modifies this
      ensures Wrote(true, old(output), output, [value], r) && (r.Ok? ==> Valid())
    {
      output := output + [value];
      if |output| > MAXIMUM_ENCODING {
        return Err(InconsistentResult);
      }
      r := Ok(());
    }

    /** `u16`, `u32` and `u64`: most significant byte first. */
    method PutInteger(width: nat, value: nat) returns (r: Result<()>)
      requires Valid()
      modifies this
      ensures Wrote(true, old(output), output, BE(width, value), r) && (r.Ok? ==> Valid())
    {
      ghost var bytes := BE(width, value);
      for i := 0 to width
        invariant Valid() && output == old(output) + bytes[..i]
      {
        BEAt(width, value, i);
        var _ :- PutByte(Digit(value, width - 1 - i));
        assert bytes[..i] + [bytes[i]] == bytes[..i + 1];
      }
      assert bytes[..width] == bytes;
      r := Ok(());
    }

    method PutBoolean(value: bool) returns (r: Result<()>)
      requires Valid()
      modifies this
      ensures Wrote(true, old(output), output, PrintBool(value), r) && (r.Ok? ==> Valid())
    {
      r := PutByte(if value then 1 else 0);
    }

    /** The bound minus the buffer's size cannot wrap, so the comparison is exact. */
    method PutRaw(data: Bytes) returns (r: Result<()>)
      requires Valid()
      modifies this
      ensures Wrote(true, old(output), output, data, r) && (r.Ok? ==> Valid())
    {
      if |data| == 0 {
        return Ok(());
      }
      if |data| > SizeMinus(MAXIMUM_ENCODING, |output|) {
        return Err(InconsistentResult);
      }
      output := output + data;
      r := Ok(());
    }

    /** `text` and `bytes`: a 32-bit length, then the contents. */
    method PutText(value: Bytes) returns (r: Result<()>)
      requires Valid()
      modifies this
      ensures Wrote(true, old(output), output, PrintText(value), r) && (r.Ok? ==> Valid())
    {
      if |value| >= TWO_32 {
        return Err(InconsistentResult);
      }
      ghost var before := output;
      r := PutInteger(4, |value|);
      if r.Err? {
        return;
      }
      ghost var middle := output;
      r := PutRaw(value);
      WroteBoth(true, true, before, middle, output, BE(4, |value|), value, Ok(()), r);
    }

    method PutIdentity(value: Bytes) returns (r: Result<()>)
      requires Valid()
      modifies this
      ensures Wrote(IsIdentity(value), old(output), output, Pack(value), r) && (r.Ok? ==> Valid())
    {
      if !IsIdentity(value) {
        return Err(InconsistentResult);
      }
      ghost var bytes := UnHex(value);
      for i := 0 to 32
        invariant Valid() && output == old(output) + bytes[..i]
      {
        UnHexAt(value, i);
        var _ :- PutByte(DigitValue(value[2 * i]) * 16 + DigitValue(value[2 * i + 1]));
        assert bytes[..i] + [bytes[i]] == bytes[..i + 1];
      }
      assert bytes[..32] == bytes;
      r := Ok(());
    }
  }

  /** What a read does: take what the parser takes, or throw exactly when it finds nothing. */
  predicate Took<T(==)>(after: Bytes, parsed: Parsed<T>, r: Result<T>) {
    match parsed
    case Malformed => r == Err(CorruptEncoding)
    case Parsed(value, rest) => r == Ok(value) && after == rest
  }

  class Reader {
    const input: Bytes
    const limit: nat
    var offset: nat

    ghost predicate Valid()
      reads this
    {
      offset <= limit <= |input| < TWO_64
    }

    /** What is left to read. */
    ghost function Rest(): Bytes
      requires Valid()
      reads this
    {
      input[offset..limit]
    }

    constructor (input: Bytes, limit: nat)
      requires limit <= |input| < TWO_64
      ensures Valid() && Rest() == input[..limit] && this.input == input && this.limit == limit
    {
      this.input := input;
      this.limit := limit;
      this.offset := 0;
    }

    predicate Has(size: nat)
      requires Valid()
      reads this
      ensures Has(size) <==> |Rest()| >= size
    {
      !(offset > limit || size > limit - offset)
    }

    method TakeByte() returns (r: Result<Byte>)
      requires Valid()
      modifies this
      ensures Valid()
      ensures Took(Rest(), if old(Rest()) == [] then Malformed else Parsed(old(Rest())[0], old(Rest())[1..]), r)
    {
      if !Has(1) {
        return Err(CorruptEncoding);
      }
      r := Ok(input[offset]);
      offset := offset + 1;
    }

    /** `u16`, `u32` and `u64`. */
    method TakeInteger(width: nat) returns (r: Result<nat>)
      requires Valid()
      modifies this
      ensures Valid() && Took(Rest(), ParseBE(width, old(Rest())), r)
    {
      ghost var all := Rest();
      var value: nat := 0;
      for i := 0 to width
        invariant Valid() && i <= |all| && Rest() == all[i..] && value == Value(all[..i])
      {
        var next :- TakeByte();
        assert all[..i + 1][..i] == all[..i] && all[i..][1..] == all[i + 1..];
        value := value * 256 + next;
      }
      r := Ok(value);
    }

    method TakeU32() returns (r: Result<u32>)
      requires Valid()
      modifies this
      ensures Valid() && Took(Rest(), ParseU32(old(Rest())), r)
    {
      ghost var all := Rest();
      var value :- TakeInteger(4);
      BEOfValue(all[..4]);
      Widths();
      r := Ok(value);
    }

    method TakeU64() returns (r: Result<u64>)
      requires Valid()
      modifies this
      ensures Valid() && Took(Rest(), ParseU64(old(Rest())), r)
    {
      ghost var all := Rest();
      var value :- TakeInteger(8);
      BEOfValue(all[..8]);
      Widths();
      r := Ok(value);
    }

    method TakeBoolean() returns (r: Result<bool>)
      requires Valid()
      modifies this
      ensures Valid() && Took(Rest(), ParseBool(old(Rest())), r)
    {
      var value :- TakeByte();
      if value > 1 {
        return Err(CorruptEncoding);
      }
      r := Ok(value == 1);
    }

    method TakeIdentity() returns (r: Result<Bytes>)
      requires Valid()
      modifies this
      ensures Valid() && Took(Rest(), ParseIdentity(old(Rest())), r)
    {
      if !Has(32) {
        return Err(CorruptEncoding);
      }
      ghost var all := Rest();
      var value: Bytes := [];
      for i := 0 to 32
        invariant Valid() && Rest() == all[i..] && value == HexOf(all[..32])[..2 * i]
      {
        var current := input[offset];
        offset := offset + 1;
        HexAt(all[..32], i);
        value := value + [HexDigit(current / 16), HexDigit(current % 16)];
        assert all[i..][1..] == all[i + 1..];
      }
      assert HexOf(all[..32])[..64] == HexOf(all[..32]);
      r := Ok(value);
    }

    /** `text` and `bytes`. */
    method TakeText(maximum: nat) returns (r: Result<Bytes>)
      requires Valid()
      modifies this
      ensures Valid() && Took(Rest(), ParseText(old(Rest()), maximum), r)
    {
      var size :- TakeU32();
      if size > maximum || !Has(size) {
        return Err(CorruptEncoding);
      }
      SlicePrefix(input, offset, limit, size);
      r := Ok(input[offset..offset + size]);
      offset := offset + size;
    }
  }
}
