/**
 * The primitive fields of the durable record, printed and parsed
 * (src/result_codec.cpp:74-279).  A parser consumes a prefix of its input and
 * returns the rest; each one is a left and a right inverse of its printer.
 */
module Wire {
  import opened Outcomes

  /** A parsed value and the bytes after it. */
  datatype Parsed<+T> = Malformed | Parsed(value: T, rest: Bytes)

  const TWO_16: int := 0x1_0000
  const TWO_32: int := 0x1_0000_0000
  const TWO_63: int := 0x8000_0000_0000_0000
  const TWO_64: int := 0x1_0000_0000_0000_0000

  type u32 = x: int | 0 <= x < 0x1_0000_0000
  type u64 = x: int | 0 <= x < 0x1_0000_0000_0000_0000
  type i64 = x: int | -0x8000_0000_0000_0000 <= x < 0x8000_0000_0000_0000

  lemma {:induction false} HeadAndRest(s: Bytes)
    requires s != []
    ensures s == [s[0]] + s[1..]
  {
  }

  // Big-endian integers ------------------------------------------------------------------------

  function Pow256(n: nat): (p: int)
    ensures p >= 1
  {
    if n == 0 then 1 else 256 * Pow256(n - 1)
  }

  /** `(value >> 8 * k) & 0xff`. */
  function Digit(v: nat, k: nat): Byte {
    v / Pow256(k) % 256
  }

  function BE(n: nat, v: nat): (s: Bytes)
    ensures |s| == n
    decreases n, v
  {
    if n == 0 then [] else [Digit(v, n - 1)] + BE(n - 1, v)
  }

  /** The value the reader accumulates, most significant byte first. */
  function Value(s: Bytes): nat {
    if s == [] then 0 else Value(s[..|s| - 1]) * 256 + s[|s| - 1]
  }

  lemma {:induction false} DivideTwice(v: nat, b: int)
    requires b >= 1
    ensures v / (256 * b) == v / 256 / b
  {
    var q, r, t := v / 256 / b, v / 256 % b, v % 256;
    assert v == 256 * (v / 256) + t;
    assert v / 256 == b * q + r;
    assert v == 256 * (b * q) + (256 * r + t);
    assert 256 * (b * q) == (256 * b) * q;
    Quotient(v, 256 * b, q, 256 * r + t);
  }

  lemma {:induction false} Scaled(d: int, p: int, q: int)
    requires d >= 1
    ensures p > q ==> d * p >= d * q + d
  {
    if p > q {
      Scales(d, p - q);
      assert d * (p - q) == d * p - d * q;
    }
  }

  lemma {:induction false} Scales(d: int, k: nat)
    requires d >= 1 && k >= 1
    ensures d * k >= d
  {
    if k > 1 {
      Scales(d, k - 1);
      assert d * k == d * (k - 1) + d;
    }
  }

  lemma {:induction false} Quotient(v: nat, d: int, q: int, r: int)
    requires d >= 1 && v == d * q + r && 0 <= r < d
    ensures v / d == q
  {
    var p := v / d;
    assert d * p + v % d == v;
    Scaled(d, p, q);
    Scaled(d, q, p);
  }

  lemma {:induction false} DigitAbove(v: nat, k: nat)
    ensures Digit(v, k + 1) == Digit(v / 256, k)
  {
    DivideTwice(v, Pow256(k));
  }

  lemma {:induction false} BELast(n: nat, v: nat)
    requires n > 0
    ensures BE(n, v) == BE(n - 1, v / 256) + [v % 256]
  {
    if n > 1 {
      BELast(n - 1, v);
      DigitAbove(v, n - 2);
    }
  }

  /** What is read back is the value, truncated to the field's width. */
  lemma {:induction false} ValueOfBE(n: nat, v: nat)
    requires v < Pow256(n)
    ensures Value(BE(n, v)) == v
  {
    if n > 0 {
      BELast(n, v);
      assert v / 256 < Pow256(n - 1);
      ValueOfBE(n - 1, v / 256);
      var s := BE(n, v);
      assert s[..n - 1] == BE(n - 1, v / 256) && s[n - 1] == v % 256;
    }
  }

  lemma {:induction false} BEOfValue(s: Bytes)
    ensures Value(s) < Pow256(|s|) && BE(|s|, Value(s)) == s
  {
    if s != [] {
      var front, last := s[..|s| - 1], s[|s| - 1];
      BEOfValue(front);
      BELast(|s|, Value(s));
      assert Value(s) / 256 == Value(front) && Value(s) % 256 == last;
      assert s == front + [last];
    }
  }

  lemma {:induction false} Widths()
    ensures Pow256(1) == 256 && Pow256(2) == TWO_16 && Pow256(4) == TWO_32 && Pow256(8) == TWO_64
  {
    assert Pow256(3) == 0x100_0000 && Pow256(5) == 0x100_0000_0000;
    assert Pow256(6) == 0x1_0000_0000_0000 && Pow256(7) == 0x100_0000_0000_0000;
  }

  function ParseBE(n: nat, s: Bytes): Parsed<nat> {
    if |s| < n then Malformed else Parsed(Value(s[..n]), s[n..])
  }

  lemma {:induction false} BELeft(n: nat, v: nat, rest: Bytes)
    requires v < Pow256(n)
    ensures ParseBE(n, BE(n, v) + rest) == Parsed(v, rest)
  {
    ValueOfBE(n, v);
    assert (BE(n, v) + rest)[..n] == BE(n, v);
  }

  lemma {:induction false} BERight(n: nat, s: Bytes)
    ensures ParseBE(n, s).Parsed? ==>
      ParseBE(n, s).value < Pow256(n) && s == BE(n, ParseBE(n, s).value) + ParseBE(n, s).rest
  {
    if |s| >= n {
      BEOfValue(s[..n]);
    }
  }

  function ParseU16(s: Bytes): Parsed<nat> {
    ParseBE(2, s)
  }

  function ParseU32(s: Bytes): (p: Parsed<u32>) {
    if |s| < 4 then
      Malformed
    else
      BEOfValue(s[..4]);
      Widths();
      Parsed(Value(s[..4]), s[4..])
  }

  function ParseU64(s: Bytes): (p: Parsed<u64>) {
    if |s| < 8 then
      Malformed
    else
      BEOfValue(s[..8]);
      Widths();
      Parsed(Value(s[..8]), s[8..])
  }

  lemma {:induction false} U32Left(v: u32, rest: Bytes)
    ensures ParseU32(BE(4, v) + rest) == Parsed(v, rest)
  {
    Widths();
    BELeft(4, v, rest);
  }

  lemma {:induction false} U32Right(s: Bytes)
    ensures ParseU32(s).Parsed? ==> s == BE(4, ParseU32(s).value) + ParseU32(s).rest
  {
    BERight(4, s);
  }

  lemma {:induction false} U64Left(v: u64, rest: Bytes)
    ensures ParseU64(BE(8, v) + rest) == Parsed(v, rest)
  {
    Widths();
    BELeft(8, v, rest);
  }

  lemma {:induction false} U64Right(s: Bytes)
    ensures ParseU64(s).Parsed? ==> s == BE(8, ParseU64(s).value) + ParseU64(s).rest
  {
    BERight(8, s);
  }

  // Two's complement ---------------------------------------------------------------------------

  /** `static_cast<std::uint64_t>`. */
  function Unsigned(v: i64): u64 {
    if v < 0 then v + TWO_64 else v
  }

  /** `static_cast<std::int64_t>`. */
  function Signed(v: u64): i64 {
    if v >= TWO_63 then v - TWO_64 else v
  }

  lemma {:induction false} CastsAreInverse(v: i64, u: u64)
    ensures Signed(Unsigned(v)) == v && Unsigned(Signed(u)) == u
  {
  }

  // Booleans -----------------------------------------------------------------------------------

  function PrintBool(b: bool): Bytes {
    [if b then 1 else 0]
  }

  function ParseBool(s: Bytes): Parsed<bool> {
    if s == [] || s[0] > 1 then Malformed else Parsed(s[0] == 1, s[1..])
  }

  lemma {:induction false} BoolInverse(b: bool, s: Bytes, rest: Bytes)
    ensures ParseBool(PrintBool(b) + rest) == Parsed(b, rest)
    ensures ParseBool(s).Parsed? ==> s == PrintBool(ParseBool(s).value) + ParseBool(s).rest
  {
  }

  // Identities: 32 bytes, held as 64 lower-case hexadecimal digits --------------------------------

  function HexDigit(v: int): Byte
    requires 0 <= v < 16
  {
    if v < 10 then 48 + v else 87 + v
  }

  predicate IsHexDigit(c: Byte) {
    48 <= c <= 57 || 97 <= c <= 102
  }

  function DigitValue(c: Byte): int
    requires IsHexDigit(c)
    ensures 0 <= DigitValue(c) < 16
  {
    if c <= 57 then c - 48 else c - 87
  }

  function HexOf(s: Bytes): (t: Bytes)
    ensures |t| == 2 * |s|
  {
    if s == [] then [] else [HexDigit(s[0] / 16), HexDigit(s[0] % 16)] + HexOf(s[1..])
  }

  predicate AllHex(t: Bytes) {
    forall i :: 0 <= i < |t| ==> IsHexDigit(t[i])
  }

  /** What the writer accepts as an identity. */
  predicate IsIdentity(t: Bytes) {
    |t| == 64 && AllHex(t)
  }

  function UnHex(t: Bytes): (s: Bytes)
    requires |t| % 2 == 0 && AllHex(t)
    ensures |s| == |t| / 2
  {
    if t == [] then [] else [DigitValue(t[0]) * 16 + DigitValue(t[1])] + UnHex(t[2..])
  }

  lemma {:induction false} DigitPair(c: Byte, d: Byte)
    requires IsHexDigit(c) && IsHexDigit(d)
    ensures var b := DigitValue(c) * 16 + DigitValue(d); HexDigit(b / 16) == c && HexDigit(b % 16) == d
  {
  }

  lemma {:induction false} HexOfUnHex(t: Bytes)
    requires |t| % 2 == 0 && AllHex(t)
    ensures HexOf(UnHex(t)) == t
  {
    if t != [] {
      HexOfUnHex(t[2..]);
      DigitPair(t[0], t[1]);
      var s := UnHex(t);
      assert s[1..] == UnHex(t[2..]);
      assert t == [t[0], t[1]] + t[2..];
    }
  }

  lemma {:induction false} UnHexOfHex(s: Bytes)
    ensures AllHex(HexOf(s)) && UnHex(HexOf(s)) == s
  {
    if s != [] {
      UnHexOfHex(s[1..]);
      assert HexOf(s)[2..] == HexOf(s[1..]);
      assert s == [s[0]] + s[1..];
    }
  }

  /** The 32 bytes of an identity; the writer refuses anything else. */
  function Pack(t: Bytes): Bytes {
    if IsIdentity(t) then UnHex(t) else []
  }

  function ParseIdentity(s: Bytes): Parsed<Bytes> {
    if |s| < 32 then Malformed else Parsed(HexOf(s[..32]), s[32..])
  }

  lemma {:induction false} IdentityLeft(t: Bytes, rest: Bytes)
    requires IsIdentity(t)
    ensures ParseIdentity(Pack(t) + rest) == Parsed(t, rest)
  {
    HexOfUnHex(t);
    assert (UnHex(t) + rest)[..32] == UnHex(t);
  }

  lemma {:induction false} IdentityRight(s: Bytes)
    ensures ParseIdentity(s).Parsed? ==>
      IsIdentity(ParseIdentity(s).value) && s == Pack(ParseIdentity(s).value) + ParseIdentity(s).rest
  {
    if |s| >= 32 {
      UnHexOfHex(s[..32]);
    }
  }

  // Text and embedded bytes ----------------------------------------------------------------------

  /** The length is written in 32 bits; the writer refuses what would not fit. */
  function PrintText(t: Bytes): Bytes {
    BE(4, |t|) + t
  }

  function ParseText(s: Bytes, maximum: nat): Parsed<Bytes> {
    var size := ParseU32(s);
    if size.Malformed? || size.value > maximum || |size.rest| < size.value then
      Malformed
    else
      Parsed(size.rest[..size.value], size.rest[size.value..])
  }

  lemma {:induction false} TextLeft(t: Bytes, maximum: nat, rest: Bytes)
    requires |t| <= maximum && |t| < TWO_32
    ensures ParseText(PrintText(t) + rest, maximum) == Parsed(t, rest)
  {
    U32Left(|t|, t + rest);
    assert PrintText(t) + rest == BE(4, |t|) + (t + rest);
  }

  lemma {:induction false} TextRight(s: Bytes, maximum: nat)
    ensures var p := ParseText(s, maximum);
      p.Parsed? ==> |p.value| <= maximum && |p.value| < TWO_32 && s == PrintText(p.value) + p.rest
  {
    U32Right(s);
    var size := ParseU32(s);
    if ParseText(s, maximum).Parsed? {
      assert size.rest == size.rest[..size.value] + size.rest[size.value..];
    }
  }

  // Values in sequence, and values that may be missing ---------------------------------------------

  type Put<!T> = (T, Bytes) -> Bytes

  type Parse<!T> = Bytes -> Parsed<T>

  /** The parser takes off exactly what the printer puts in front of acceptable values. */
  ghost predicate Inverse<T(!new)>(put: Put<T>, parse: Parse<T>, acceptable: T -> bool) {
    && (forall v, rest :: acceptable(v) ==> parse(put(v, rest)) == Parsed(v, rest))
    && (forall s :: parse(s).Parsed? ==> acceptable(parse(s).value) && s == put(parse(s).value, parse(s).rest))
  }

  function PutAll<T>(put: Put<T>, values: seq<T>, rest: Bytes): Bytes {
    if values == [] then rest else put(values[0], PutAll(put, values[1..], rest))
  }

  function ParseAll<T>(parse: Parse<T>, count: nat, s: Bytes): Parsed<seq<T>> {
    if count == 0 then
      Parsed([], s)
    else
      match parse(s)
      case Malformed => Malformed
      case Parsed(first, s1) =>
        match ParseAll(parse, count - 1, s1)
        case Malformed => Malformed
        case Parsed(others, rest) => Parsed([first] + others, rest)
  }

  predicate All<T>(acceptable: T -> bool, values: seq<T>) {
    forall i :: 0 <= i < |values| ==> acceptable(values[i])
  }

  lemma {:induction false} AllLeft<T(!new)>(
      put: Put<T>, parse: Parse<T>, acceptable: T -> bool, values: seq<T>, rest: Bytes)
    requires Inverse(put, parse, acceptable) && All(acceptable, values)
    ensures ParseAll(parse, |values|, PutAll(put, values, rest)) == Parsed(values, rest)
  {
    if values != [] {
      AllLeft(put, parse, acceptable, values[1..], rest);
      assert [values[0]] + values[1..] == values;
    }
  }

  lemma {:induction false} AllRight<T(!new)>(put: Put<T>, parse: Parse<T>, acceptable: T -> bool, count: nat, s: Bytes)
    requires Inverse(put, parse, acceptable)
    ensures var p := ParseAll(parse, count, s);
      p.Parsed? ==> |p.value| == count && All(acceptable, p.value) && s == PutAll(put, p.value, p.rest)
  {
    if count > 0 && ParseAll(parse, count, s).Parsed? {
      var first := parse(s);
      AllRight(put, parse, acceptable, count - 1, first.rest);
      var p := ParseAll(parse, count, s);
      assert p.value[1..] == ParseAll(parse, count - 1, first.rest).value;
    }
  }

  /** A presence flag, then the value if there is one. */
  function PutOption<T>(put: Put<T>, value: Option<T>, rest: Bytes): Bytes {
    match value
    case None => PrintBool(false) + rest
    case Some(v) => PrintBool(true) + put(v, rest)
  }

  function ParseOption<T>(parse: Parse<T>, s: Bytes): Parsed<Option<T>> {
    match ParseBool(s)
    case Malformed => Malformed
    case Parsed(present, s1) =>
      if !present then
        Parsed(None, s1)
      else
        match parse(s1)
        case Malformed => Malformed
        case Parsed(v, rest) => Parsed(Some(v), rest)
  }

  lemma {:induction false} OptionLeft<T(!new)>(
      put: Put<T>, parse: Parse<T>, acceptable: T -> bool, value: Option<T>, rest: Bytes)
    requires Inverse(put, parse, acceptable) && (value.Some? ==> acceptable(value.value))
    ensures ParseOption(parse, PutOption(put, value, rest)) == Parsed(value, rest)
  {
    match value
    case None => BoolInverse(false, [], rest);
    case Some(v) => BoolInverse(true, [], put(v, rest));
  }

  lemma {:induction false} OptionRight<T(!new)>(put: Put<T>, parse: Parse<T>, acceptable: T -> bool, s: Bytes)
    requires Inverse(put, parse, acceptable)
    ensures var p := ParseOption(parse, s);
      p.Parsed? ==> (p.value.Some? ==> acceptable(p.value.value)) && s == PutOption(put, p.value, p.rest)
  {
    BoolInverse(true, s, []);
  }

  lemma {:induction false} Regroup(a: Bytes, b: Bytes, c: Bytes)
    ensures a + (b + c) == (a + b) + c
  {
  }

  /** What is printed does not depend on what it is put in front of. */
  ghost predicate Appends<T(!new)>(put: Put<T>) {
    forall v, rest :: put(v, rest) == put(v, []) + rest
  }

  lemma {:induction false} AllAppend<T(!new)>(put: Put<T>, values: seq<T>, rest: Bytes)
    requires Appends(put)
    ensures PutAll(put, values, rest) == PutAll(put, values, []) + rest
  {
    if values != [] {
      var others := PutAll(put, values[1..], []);
      AllAppend(put, values[1..], rest);
      Regroup(put(values[0], []), others, rest);
    }
  }

  lemma {:induction false} OptionAppends<T(!new)>(put: Put<T>, value: Option<T>, rest: Bytes)
    requires Appends(put)
    ensures PutOption(put, value, rest) == PutOption(put, value, []) + rest
  {
    if value.Some? {
      Regroup(PrintBool(true), put(value.value, []), rest);
    }
  }
}
