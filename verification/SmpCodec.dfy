/** The management protocol's value codec: variants behind a type byte, integers in one to five bytes. */
module SmpCodec {
  import opened Arith
  import opened Bytes

  type int32 = x: int | -0x8000_0000 <= x < 0x8000_0000
  type uint64 = x: int | 0 <= x < 0x1_0000_0000_0000_0000

  const ST_OCTET := 1
  const ST_UINTEGER16 := 2
  const ST_INTEGER := 3
  const ST_UINTEGER := 4
  const ST_UINTEGER64 := 5
  const ST_BINARY := 6

  /** SMP_ELEM_VALUE */
  const VALUE := 0xC0

  /** The types without a payload of their own. */
  type Kind = x: int | 0 <= x < 0x40 && !(ST_OCTET <= x <= ST_BINARY)

  datatype Variant =
    | Octet(octet: byte)
    | Uint16(uint16: uint16)
    | Integer(int32: int32)
    | Unsigned(uint32: uint32)
    | Uint64(uint64: uint64)
    | Bare(kind: Kind)
    /** As decoded: the length byte and what it counts, itself included. */
    | Blob(bytes: seq<byte>)

  datatype Result<T> = Error | Success(value: T, rest: seq<byte>)

  // ---------------------------------------------------------------- integers

  /** The same 32 bits, read as signed. */
  function Signed(u: uint32): int32 {
    if u < 0x8000_0000 then u else u - 0x1_0000_0000
  }

  function Unsigned32(x: int32): uint32 {
    if x < 0 then x + 0x1_0000_0000 else x
  }

  /** The low bytes of v, the highest first: what the fall-through writes. */
  function LowBytes(v: nat, len: nat): (s: seq<byte>)
    requires 1 <= len <= 4
    ensures |s| == len
  {
    (if len == 4 then [v / 0x100_0000 % 0x100] else [])
    + (if len >= 3 then [v / 0x1_0000 % 0x100] else [])
    + (if len >= 2 then [v / 0x100 % 0x100] else [])
    + [v % 0x100]
  }

  /** ... and what reads them back. */
  function FromBytes(s: seq<byte>): (u: uint32)
    requires 1 <= |s| <= 4
  {
    var n := |s|;
    var b3: int := if n == 4 then s[0] else 0;
    var b2: int := if n >= 3 then s[n - 3] else 0;
    var b1: int := if n >= 2 then s[n - 2] else 0;
    ((b3 * 0x100 + b2) * 0x100 + b1) * 0x100 + s[n - 1]
  }

  lemma LowBytesRoundTrip(v: nat, len: nat)
    requires 1 <= len <= 4
    ensures len == 1 && v < 0x100 ==> FromBytes(LowBytes(v, len)) == v
    ensures len == 2 && v < 0x1_0000 ==> FromBytes(LowBytes(v, len)) == v
    ensures len == 3 && v < 0x100_0000 ==> FromBytes(LowBytes(v, len)) == v
    ensures len == 4 && v < 0x1_0000_0000 ==> FromBytes(LowBytes(v, len)) == v
  {
    assert v / 0x1_0000 == v / 0x100 / 0x100 && v / 0x100_0000 == v / 0x100 / 0x100 / 0x100;
  }

  /** How many of the low bytes encodeInt32 writes; negative numbers take the first branch. */
  function LowLength(v: int32): (len: nat)
    ensures 1 <= len <= 4
  {
    if v < 0x80 then 1 else if v < 0x4000 then 2 else if v < 0x20_0000 then 3 else 4
  }

  /** The 32 bits it writes them of, with the length mark. */
  function Marked(v: int32): uint32 {
    var u := v % 0x1_0000_0000;
    if v < 0x80 then u
    else if v < 0x4000 then u + 0x8000
    else if v < 0x20_0000 then u + 0xC0_0000
    else if v < 0x1000_0000 then u + 0xE000_0000
    else u
  }

  function EncodedInt(v: int32): (s: seq<byte>)
    ensures 1 <= |s| <= 5
  {
    (if v >= 0x1000_0000 then [0xF0] else []) + LowBytes(Marked(v), LowLength(v))
  }

  lemma EncodedIntIs(v: int32)
    ensures EncodedInt(v) == if v >= 0x1000_0000 then [0xF0] + LowBytes(Marked(v), 4)
      else LowBytes(Marked(v), LowLength(v))
  {
  }

  /** How many bytes the first byte announces; 0 for a byte that starts no integer. */
  function IntLength(first: byte): nat {
    if first < 0x80 then 1
    else if first < 0xC0 then 2
    else if first < 0xE0 then 3
    else if first < 0xF0 then 4
    else if first < 0xF8 then 5
    else 0
  }

  /** The length mark in the first byte, which decodeInt32 takes off in the buffer itself. */
  function Mark(first: byte): byte {
    if first < 0x80 then 0
    else if first < 0xC0 then 0x80
    else if first < 0xE0 then 0xC0
    else if first < 0xF0 then 0xE0
    else 0
  }

  function Unmarked(s: seq<byte>): (r: seq<byte>)
    requires s != []
    ensures |r| == |s|
  {
    s[0 := s[0] - Mark(s[0])]
  }

  function IntOf(s: seq<byte>): int32
    requires 1 <= |s| <= 5
  {
    Signed(FromBytes(if |s| == 5 then s[1..] else s))
  }

  function DecodedInt(s: seq<byte>): Result<int32> {
    if s == [] then Error else
    var len := IntLength(s[0]);
    if len == 0 || |s| < len then Error else Success(IntOf(Unmarked(s)[..len]), s[len..])
  }

  /** The first byte tells the length, and taking the mark off leaves the number. */
  lemma EncodedIntShape(v: int32)
    requires v >= 0
    ensures var e := EncodedInt(v);
      && IntLength(e[0]) == |e| && IntOf(Unmarked(e)) == v
      && (Mark(e[0]) != 0 <==> 0x80 <= v < 0x1000_0000) && (Mark(e[0]) != 0 ==> |e| > 1 && e[0] - Mark(e[0]) < 0x80)
  {
    var e, len, m := EncodedInt(v), LowLength(v), Marked(v);
    LowBytesRoundTrip(v, len);
    if v >= 0x1000_0000 {
      assert e[1..] == LowBytes(v, 4) && Unmarked(e) == e;
    } else {
      assert e == LowBytes(m, len);
      MarkedBytes(v);
      assert Unmarked(e) == LowBytes(v, len);
    }
  }

  /** The mark lies in the bits above the number. */
  lemma MarkedBytes(v: int32)
    requires 0 <= v < 0x1000_0000
    ensures var e, f := LowBytes(Marked(v), LowLength(v)), LowBytes(v, LowLength(v));
      && IntLength(e[0]) == LowLength(v) && e[0] == f[0] + Mark(e[0]) && e[1..] == f[1..]
      && (Mark(e[0]) != 0 <==> 0x80 <= v) && (0x80 <= v ==> f[0] < 0x40)
  {
    hide LowBytes;
    if v < 0x80 {
      OneByte(v);
    } else if v < 0x4000 {
      MarkedBytes2(v);
    } else if v < 0x20_0000 {
      MarkedBytes3(v);
    } else {
      MarkedBytes4(v);
    }
  }

  lemma OneByte(v: int32)
    requires 0 <= v < 0x80
    ensures LowBytes(v, 1) == [v]
  {
  }

  lemma MarkedBytes2(v: int32)
    requires 0x80 <= v < 0x4000
    ensures LowBytes(v + 0x8000, 2) == [v / 0x100 + 0x80, v % 0x100] && LowBytes(v, 2) == [v / 0x100, v % 0x100]
  {
    Shifted(v, 0x80, 0x100);
  }

  lemma MarkedBytes3(v: int32)
    requires 0x4000 <= v < 0x20_0000
    ensures LowBytes(v + 0xC0_0000, 3) == [v / 0x1_0000 + 0xC0, v / 0x100 % 0x100, v % 0x100]
    ensures LowBytes(v, 3) == [v / 0x1_0000, v / 0x100 % 0x100, v % 0x100]
  {
    Shifted(v, 0xC000, 0x100);
    Shifted(v, 0xC0, 0x1_0000);
    Shifted(v / 0x100, 0xC0, 0x100);
  }

  lemma MarkedBytes4(v: int32)
    requires 0x20_0000 <= v < 0x1000_0000
    ensures LowBytes(v + 0xE000_0000, 4) == [v / 0x100_0000 + 0xE0, v / 0x1_0000 % 0x100, v / 0x100 % 0x100, v % 0x100]
    ensures LowBytes(v, 4) == [v / 0x100_0000, v / 0x1_0000 % 0x100, v / 0x100 % 0x100, v % 0x100]
  {
    Shifted(v, 0xE0_0000, 0x100);
    Shifted(v, 0xE000, 0x1_0000);
    Shifted(v, 0xE0, 0x100_0000);
    Shifted(v / 0x100, 0xE000, 0x100);
    Shifted(v / 0x1_0000, 0xE0, 0x100);
  }

  lemma Shifted(v: nat, k: nat, d: nat)
    requires d > 0
    ensures (v + k * d) / d == v / d + k && (v + k * d) % d == v % d
  {
    QuotientUnique(d, v / d + k, v % d, v + k * d) by {
      assert (v / d + k) * d == v / d * d + k * d;
      QuotientIsNat(v, d);
    }
  }

  /** An integer survives coding exactly when it is not negative. */
  lemma IntRoundTrip(v: int32, rest: seq<byte>)
    ensures DecodedInt(EncodedInt(v) + rest) == Success(v, rest) <==> v >= 0
  {
    hide EncodedInt, IntOf, IntLength, Mark;
    var e := EncodedInt(v);
    var s := e + rest;
    assert s[..|e|] == e && s[|e|..] == rest;
    if v >= 0 {
      EncodedIntShape(v);
      assert Unmarked(s)[..|e|] == Unmarked(e);
    } else {
      NegativeShape(v);
      assert DecodedInt(s).Success? ==> |DecodedInt(s).rest| == |s| - IntLength(s[0]);
      assert Unmarked(s)[..1] == [s[0] - Mark(s[0])];
    }
  }

  /** A negative number is cut down to its last byte; if that is a whole integer again, it is another one. */
  lemma NegativeShape(v: int32)
    requires v < 0
    ensures |EncodedInt(v)| == 1 && IntOf([EncodedInt(v)[0] - Mark(EncodedInt(v)[0])]) >= 0
  {
  }

  /** One to five bytes, with the thresholds at 2^7, 2^14, 2^21 and 2^28. */
  lemma IntSizes(v: int32)
    requires v >= 0
    ensures |EncodedInt(v)| == 1 <==> v < 0x80
    ensures |EncodedInt(v)| <= 2 <==> v < 0x4000
    ensures |EncodedInt(v)| <= 3 <==> v < 0x20_0000
    ensures |EncodedInt(v)| <= 4 <==> v < 0x1000_0000
  {
  }

  /** Decoding spends the buffer: where the first byte carried a mark, the same bytes do not decode again. */
  lemma DecodesOnlyOnce(v: int32, rest: seq<byte>)
    requires v >= 0
    ensures var again := DecodedInt(Unmarked(EncodedInt(v) + rest));
      again == Success(v, rest) <==> v < 0x80 || v >= 0x1000_0000
  {
    hide EncodedInt, IntOf;
    var e := EncodedInt(v);
    var s := e + rest;
    IntRoundTrip(v, rest);
    EncodedIntShape(v);
    assert s[0] == e[0];
    if Mark(e[0]) != 0 {
      assert IntLength(Unmarked(s)[0]) == 1;
      assert |Unmarked(s)[1..]| > |rest|;
    } else {
      assert Unmarked(s) == s;
    }
  }

  // ---------------------------------------------------------------- variants

  function ToLe64(v: uint64): (s: seq<byte>)
    ensures |s| == 8
  {
    ToLe32(v % 0x1_0000_0000) + ToLe32(v / 0x1_0000_0000)
  }

  function FromLe64(s: seq<byte>): uint64
    requires |s| == 8
  {
    FromLe32(s[0], s[1], s[2], s[3]) + 0x1_0000_0000 * FromLe32(s[4], s[5], s[6], s[7])
  }

  lemma Le64RoundTrip(v: uint64)
    ensures FromLe64(ToLe64(v)) == v
  {
    var lo, hi := ToLe32(v % 0x1_0000_0000), ToLe32(v / 0x1_0000_0000);
    assert ToLe64(v)[..4] == lo && ToLe64(v)[4..] == hi;
  }

  function TypeOf(v: Variant): byte {
    match v
    case Octet(_) => ST_OCTET
    case Uint16(_) => ST_UINTEGER16
    case Integer(_) => ST_INTEGER
    case Unsigned(_) => ST_UINTEGER
    case Uint64(_) => ST_UINTEGER64
    case Bare(kind) => kind
    case Blob(_) => ST_BINARY
  }

  /** What encodeVariant writes behind the type byte; of a blob, nothing. */
  function Payload(v: Variant): seq<byte> {
    match v
    case Octet(x) => [x]
    case Uint16(x) => ToLe16(x)
    case Integer(x) => EncodedInt(x)
    case Unsigned(x) => EncodedInt(Signed(x))
    case Uint64(x) => ToLe64(x)
    case Bare(_) => []
    case Blob(_) => []
  }

  function Encoded(v: Variant): seq<byte> {
    [VALUE + TypeOf(v)] + Payload(v)
  }

  /** What encodeBinary writes and moves past. The length byte counts itself, so 255 bytes wrap it to 0, and the
      cursor stays where it is. */
  function EncodedBlob(src: seq<byte>): seq<byte>
    requires |src| <= 0xFF
  {
    var len := (|src| + 1) % 0x100;
    [VALUE + ST_BINARY] + ([len] + src)[..len]
  }

  /** What a payload of the given type decodes to. */
  function DecodedPayload(kind: nat, s: seq<byte>): Result<Variant> {
    if kind == ST_OCTET then
      if |s| < 1 then Error else Success(Octet(s[0]), s[1..])
    else if kind == ST_UINTEGER16 then
      if |s| < 2 then Error else Success(Uint16(FromLe16(s[0], s[1])), s[2..])
    else if kind == ST_INTEGER || kind == ST_UINTEGER then
      var r := DecodedInt(s);
      if r.Error? then Error else
      Success(if kind == ST_INTEGER then Integer(r.value) else Unsigned(Unsigned32(r.value)), r.rest)
    else if kind == ST_UINTEGER64 then
      if |s| < 8 then Error else Success(Uint64(FromLe64(s[..8])), s[8..])
    else if kind == ST_BINARY then
      if s == [] || |s| < s[0] then Error else Success(Blob(s[..s[0]]), s[s[0]..])
    else if kind >= 0x40 then Error
    else Success(Bare(kind), s)
  }

  function Decoded(s: seq<byte>): Result<Variant> {
    if s == [] then Error else DecodedPayload(s[0] % 0x40, s[1..])
  }

  /** The values the codec can carry: integers below 2^31, and no blobs. */
  predicate Carried(v: Variant) {
    match v
    case Integer(x) => x >= 0
    case Unsigned(x) => x < 0x8000_0000
    case Blob(_) => false
    case _ => true
  }

  /** A variant survives coding exactly if it is carried; of blobs, whose type byte alone is written, only the empty
      one can come back, by the accident of a zero byte that follows. */
  lemma VariantRoundTrip(v: Variant, rest: seq<byte>)
    ensures Decoded(Encoded(v) + rest) == Success(v, rest) <==>
      Carried(v) || (v == Blob([]) && rest != [] && rest[0] == 0)
  {
    hide EncodedInt, IntOf, DecodedInt, ToLe64, FromLe64, ToLe32, FromLe32;
    var p := Payload(v) + rest;
    var s := Encoded(v) + rest;
    assert s[0] == VALUE + TypeOf(v) && s[1..] == p;
    match v
    case Octet(x) =>
      assert p[1..] == rest;
    case Uint16(x) =>
      assert p[2..] == rest;
    case Integer(x) =>
      IntRoundTrip(x, rest);
    case Unsigned(x) =>
      IntRoundTrip(Signed(x), rest);
      assert x >= 0x8000_0000 ==> Signed(x) < 0;
      if x >= 0x8000_0000 && DecodedInt(p).Success? {
        assert Unsigned32(DecodedInt(p).value) == x && DecodedInt(p).rest == rest ==>
          DecodedInt(p) == Success(Signed(x), rest);
      }
    case Uint64(x) =>
      assert p[..8] == ToLe64(x) && p[8..] == rest;
      Le64RoundTrip(x);
    case Bare(_) =>
      assert p == rest;
    case Blob(x) =>
      assert p == rest;
      BlobWithoutPayload(x, rest);
  }

  lemma BlobWithoutPayload(x: seq<byte>, rest: seq<byte>)
    ensures DecodedPayload(ST_BINARY, rest) == Success(Blob(x), rest) <==> x == [] && rest != [] && rest[0] == 0
  {
    assert x == [] && rest != [] && rest[0] == 0 ==> rest[..0] == x && rest[0..] == rest;
    assert rest != [] && 0 < rest[0] <= |rest| ==> |rest[rest[0]..]| < |rest|;
  }

  /** What encodeBinary wrote comes back, with its length byte in front, exactly if it was less than 255 bytes. */
  lemma BlobRoundTrip(src: seq<byte>, rest: seq<byte>)
    requires |src| <= 0xFF
    ensures var len := (|src| + 1) % 0x100;
      Decoded(EncodedBlob(src) + rest) == Success(Blob([len] + src), rest) <==> |src| < 0xFF
  {
    var len := (|src| + 1) % 0x100;
    var s := EncodedBlob(src) + rest;
    if |src| < 0xFF {
      assert s[1..][..len] == [len] + src && s[1..][len..] == rest;
    } else {
      assert s[1..] == rest;
      BlobWithoutPayload([len] + src, rest);
    }
  }

  /** One value of each type, byte for byte. */
  lemma KnownEncodings()
    ensures Encoded(Octet(7)) == [0xC1, 7] && Encoded(Bare(0)) == [0xC0]
    ensures Encoded(Uint16(0x1234)) == [0xC2, 0x34, 0x12]
    ensures Encoded(Integer(300)) == [0xC3, 0x81, 0x2C]
    ensures Encoded(Unsigned(0x1234_5678)) == [0xC4, 0xF0, 0x12, 0x34, 0x56, 0x78]
    ensures Encoded(Uint64(0x0102_0304_0506_0708)) == [0xC5, 8, 7, 6, 5, 4, 3, 2, 1]
    ensures EncodedBlob([9]) == [0xC6, 2, 9]
  {
    hide EncodedInt, ToLe16, ToLe32, ToLe64;
    KnownWords();
    KnownIntegers();
  }

  lemma KnownWords()
    ensures ToLe16(0x1234) == [0x34, 0x12]
    ensures ToLe64(0x0102_0304_0506_0708) == [8, 7, 6, 5, 4, 3, 2, 1]
  {
    hide ToLe16, ToLe32, FromLe16, FromLe32, FromLe64;
    KnownHalves();
    KnownQuarters();
  }

  lemma KnownHalves()
    ensures ToLe32(0x0506_0708) == [8, 7, 6, 5] && ToLe32(0x0102_0304) == [4, 3, 2, 1]
  {
    hide ToLe16, FromLe16, FromLe32;
    KnownQuarters();
  }

  lemma KnownQuarters()
    ensures ToLe16(0x1234) == [0x34, 0x12]
    ensures ToLe16(0x0708) == [8, 7] && ToLe16(0x0506) == [6, 5]
    ensures ToLe16(0x0304) == [4, 3] && ToLe16(0x0102) == [2, 1]
  {
  }

  lemma KnownIntegers()
    ensures EncodedInt(300) == [0x81, 0x2C] && EncodedInt(0x1234_5678) == [0xF0, 0x12, 0x34, 0x56, 0x78]
  {
  }

  function EncodedAll(vs: seq<Variant>): seq<byte> {
    if vs == [] then [] else Encoded(vs[0]) + EncodedAll(vs[1..])
  }

  function DecodedAll(s: seq<byte>, n: nat): Result<seq<Variant>> {
    if n == 0 then Success([], s) else
    var first := Decoded(s);
    if first.Error? then Error else
    var others := DecodedAll(first.rest, n - 1);
    if others.Error? then Error else Success([first.value] + others.value, others.rest)
  }

  /** Any list of carried values comes back, and exactly its own bytes are consumed. */
  lemma {:induction false} ListRoundTrip(vs: seq<Variant>, rest: seq<byte>)
    requires forall i :: 0 <= i < |vs| ==> Carried(vs[i])
    ensures DecodedAll(EncodedAll(vs) + rest, |vs|) == Success(vs, rest)
  {
    if vs == [] {
      assert EncodedAll(vs) + rest == rest;
    } else {
      var more := EncodedAll(vs[1..]) + rest;
      assert EncodedAll(vs) + rest == Encoded(vs[0]) + more;
      VariantRoundTrip(vs[0], more);
      ListRoundTrip(vs[1..], rest);
      assert [vs[0]] + vs[1..] == vs;
    }
  }

  // ---------------------------------------------------------------- the cursor

  /** The buffer b after s was written at byte i. */
  function Written(b: seq<byte>, i: nat, s: seq<byte>): (r: seq<byte>)
    requires i + |s| <= |b|
    ensures |r| == |b|
  {
    b[..i] + s + b[i + |s|..]
  }

  lemma WrittenTwice(b: seq<byte>, i: nat, s: seq<byte>, t: seq<byte>)
    requires i + |s| + |t| <= |b|
    ensures Written(Written(b, i, s), i + |s|, t) == Written(b, i, s + t)
  {
  }

  lemma WrittenOne(b: seq<byte>, i: nat, x: byte)
    requires i < |b|
    ensures Written(b, i, [x]) == b[i := x]
  {
  }

  lemma WrittenNone(b: seq<byte>, i: nat)
    requires i <= |b|
    ensures Written(b, i, []) == b
  {
  }

  lemma DecodedIntIs(s: seq<byte>)
    ensures DecodedInt(s).Success? <==> s != [] && 0 < IntLength(s[0]) <= |s|
  {
  }

  lemma UnmarkedIs(s: seq<byte>, t: seq<byte>)
    requires s != [] && t == s[0 := s[0] - Mark(s[0])]
    ensures t == Unmarked(s)
  {
  }

  /** What decodeInt32 read of the unmarked bytes t is what s decodes to. */
  lemma Consumed(t: seq<byte>, s: seq<byte>, len: nat, result: int32, rest: seq<byte>)
    requires s != [] && t == Unmarked(s) && 1 <= len == IntLength(s[0]) <= |s| && len <= 5
    requires result == Signed(FromBytes(if len == 5 then t[1..5] else t[..len])) && rest == t[len..]
    ensures DecodedInt(s) == Success(result, rest)
  {
    assert t[..len][1..] == t[1..len];
  }

  class Cursor {
    const buffer: array<byte>
    var data: nat
    var maxLen: nat

    ghost predicate Valid()
      reads this
    {
      data + maxLen <= buffer.Length
    }

    ghost function Left(): seq<byte>
      requires Valid()
      reads this, buffer
    {
      buffer[data..data + maxLen]
    }

    constructor (buffer: array<byte>, maxLen: nat)
      requires maxLen <= buffer.Length
      ensures Valid() && this.buffer == buffer && data == 0 && this.maxLen == maxLen
    {
      this.buffer, data, this.maxLen := buffer, 0, maxLen;
    }

    /** memcpy of s to the cursor, and past it. */
    method Put(s: seq<byte>)
      requires Valid() && |s| <= maxLen
      modifies this, buffer
      ensures Valid() && data == old(data) + |s| && maxLen == old(maxLen) - |s|
      ensures buffer[..] == Written(old(buffer[..]), old(data), s)
    {
      hide Written;
      WrittenNone(buffer[..], data);
      for i := 0 to |s|
        invariant Valid() && data == old(data) && maxLen == old(maxLen)
        invariant buffer[..] == Written(old(buffer[..]), data, s[..i])
      {
        ghost var before := buffer[..];
        buffer[data + i] := s[i];
        WrittenOne(before, data + i, s[i]);
        WrittenTwice(old(buffer[..]), data, s[..i], [s[i]]);
        assert s[..i + 1] == s[..i] + [s[i]];
      }
      assert s[..|s|] == s;
      data := data + |s|;
      maxLen := maxLen - |s|;
    }

    /** encodeInt32. It fails when the bytes do not fit; a five-byte number has then lost one byte of room already, and
        its first byte is written. */
    method EncodeInt32(value: int32) returns (ok: bool)
      requires Valid()
      modifies this, buffer
      ensures Valid() && (ok <==> |EncodedInt(value)| <= old(maxLen))
      ensures ok ==> data == old(data) + |EncodedInt(value)| && maxLen == old(maxLen) - |EncodedInt(value)|
      ensures ok ==> buffer[..] == Written(old(buffer[..]), old(data), EncodedInt(value))
      ensures !ok ==> data == old(data)
      ensures !ok && !(value >= 0x1000_0000 && old(maxLen) > 0) ==>
        maxLen == old(maxLen) && buffer[..] == old(buffer[..])
      ensures !ok && value >= 0x1000_0000 && old(maxLen) > 0 ==>
        maxLen == old(maxLen) - 1 && buffer[..] == old(buffer[..])[old(data) := 0xF0]
    {
      hide EncodedInt, LowBytes, Written;
      EncodedIntIs(value);
      if maxLen == 0 {
        return false;
      }
      var p := data;
      var len: nat;
      var v: nat := value % 0x1_0000_0000;
      if value < 0x80 {
        len := 1;
      } else if value < 0x4000 {
        len := 2;
        v := v + 0x8000;
      } else if value < 0x20_0000 {
        len := 3;
        v := v + 0xC0_0000;
      } else if value < 0x1000_0000 {
        len := 4;
        v := v + 0xE000_0000;
      } else {
        len := 4;
        maxLen := maxLen - 1;
        buffer[p] := 0xF0;
        WrittenOne(old(buffer[..]), p, 0xF0);
        p := p + 1;
      }
      if maxLen < len {
        return false;
      }
      maxLen := maxLen - len;
      p := WriteLow(p, v, len);
      EncodedIntIs(value);
      if value >= 0x1000_0000 {
        WrittenTwice(old(buffer[..]), data, [0xF0], LowBytes(v, len));
      }
      data := p;
      ok := true;
    }

    /** encodeOctet, encodeUint16 and encodeUint64: memcpy, if there is room. */
    method EncodeFixed(s: seq<byte>) returns (ok: bool)
      requires Valid()
      modifies this, buffer
      ensures Valid() && (ok <==> |s| <= old(maxLen))
      ensures ok ==> data == old(data) + |s| && maxLen == old(maxLen) - |s|
      ensures ok ==> buffer[..] == Written(old(buffer[..]), old(data), s)
      ensures !ok ==> data == old(data) && maxLen == old(maxLen) && buffer[..] == old(buffer[..])
    {
      if maxLen < |s| {
        return false;
      }
      Put(s);
      ok := true;
    }

    /** encodeVariant: all of the variant's bytes, or failure. */
    method EncodeVariant(v: Variant) returns (ok: bool)
      requires Valid()
      modifies this, buffer
      ensures Valid() && (ok <==> |Encoded(v)| <= old(maxLen))
      ensures ok ==> data == old(data) + |Encoded(v)| && maxLen == old(maxLen) - |Encoded(v)|
      ensures ok ==> buffer[..] == Written(old(buffer[..]), old(data), Encoded(v))
      ensures !ok && old(maxLen) == 0 ==> data == old(data) && maxLen == 0 && buffer[..] == old(buffer[..])
      ensures !ok && old(maxLen) > 0 ==> data == old(data) + 1 && buffer[old(data)] == VALUE + TypeOf(v)
    {
      hide EncodedInt, ToLe64, ToLe16, Written;
      if maxLen == 0 {
        return false;
      }
      if |Encoded(v)| <= maxLen {
        WrittenTwice(buffer[..], data, [VALUE + TypeOf(v)], Payload(v));
      }
      WrittenOne(buffer[..], data, VALUE + TypeOf(v));
      Put([VALUE + TypeOf(v)]);
      assert buffer[old(data)] == buffer[..][old(data)];
      label Typed:
      ok := EncodePayload(v);
      if !ok {
        assert buffer[..][old(data)] == old@Typed(buffer[..])[old(data)];
      }
    }

    /** What follows the type byte. Only an integer of five bytes can leave something behind when it fails. */
    method EncodePayload(v: Variant) returns (ok: bool)
      requires Valid()
      modifies this, buffer
      ensures Valid() && (ok <==> |Payload(v)| <= old(maxLen))
      ensures ok ==> data == old(data) + |Payload(v)| && maxLen == old(maxLen) - |Payload(v)|
      ensures ok ==> buffer[..] == Written(old(buffer[..]), old(data), Payload(v))
      ensures !ok ==> data == old(data) && buffer[..old(data)] == old(buffer[..data])
    {
      hide EncodedInt, ToLe64, ToLe16, Written;
      match v {
        case Octet(x) => ok := EncodeFixed([x]);
        case Uint16(x) => ok := EncodeFixed(ToLe16(x));
        case Integer(x) => ok := EncodeInt32(x);
        case Unsigned(x) => ok := EncodeInt32(Signed(x));
        case Uint64(x) => ok := EncodeFixed(ToLe64(x));
        case Bare(kind) =>
          WrittenNone(buffer[..], data);
          ok := true;
        case Blob(_) =>
          WrittenNone(buffer[..], data);
          ok := true;
      }
    }

    /** decodeOctet, decodeUint16 and decodeUint64: memcpy, if there are enough bytes. */
    method DecodeFixed(n: nat) returns (ok: bool, s: seq<byte>)
      requires Valid()
      modifies this
      ensures Valid() && (ok <==> n <= old(maxLen))
      ensures ok ==> s == old(Left())[..n] && Left() == old(Left())[n..] && data == old(data) + n
      ensures !ok ==> data == old(data) && maxLen == old(maxLen)
    {
      if maxLen < n {
        return false, [];
      }
      s := buffer[data..data + n];
      data := data + n;
      maxLen := maxLen - n;
      ok := true;
    }

    /** decodeInt32. It takes the length mark off in the buffer, even when too few bytes follow. */
    method DecodeInt32() returns (ok: bool, result: int32)
      requires Valid()
      modifies this, buffer
      ensures Valid() && ok == DecodedInt(old(Left())).Success?
      ensures ok ==> DecodedInt(old(Left())) == Success(result, Left()) && data + maxLen == old(data + maxLen)
      ensures !ok ==> data == old(data) && maxLen == old(maxLen)
      ensures buffer[..] == if old(maxLen) == 0 then old(buffer[..]) else
        old(buffer[..])[old(data) := old(buffer[data]) - Mark(old(buffer[data]))]
    {
      hide FromBytes, IntLength, Mark, DecodedInt, Unmarked;
      DecodedIntIs(Left());
      result := 0;
      if maxLen == 0 {
        return false, 0;
      }
      ghost var s := Left();
      var len := TakeMark();
      ghost var t := buffer[data..data + maxLen];
      UnmarkedIs(s, t);
      if len == 0 || maxLen < len {
        return false, 0;
      }
      result := TakeInt(len);
      ok := true;
      Consumed(t, s, len, result, Left());
    }

    /** The bytes of an integer, the mark taken off. */
    method TakeInt(len: nat) returns (result: int32)
      requires Valid() && 1 <= len <= 5 && len <= maxLen
      modifies this
      ensures Valid() && data == old(data) + len && maxLen == old(maxLen) - len && Left() == old(Left())[len..]
      ensures result == Signed(FromBytes(if len == 5 then old(Left())[1..5] else old(Left())[..len]))
    {
      hide FromBytes;
      ghost var t := Left();
      assert buffer[data..data + len] == t[..len] && (len == 5 ==> buffer[data + 1..data + 5] == t[1..5]);
      var p := data;
      maxLen := maxLen - len;
      if len == 5 {
        p := p + 1;
        result := ReadLow(p, 4);
        p := p + 4;
      } else {
        result := ReadLow(p, len);
        p := p + len;
      }
      data := p;
    }

    /** The tests of the first byte. */
    method TakeMark() returns (len: nat)
      requires Valid() && maxLen > 0
      modifies buffer
      ensures len == IntLength(old(buffer[data])) <= 5
      ensures buffer[..] == old(buffer[..])[data := old(buffer[data]) - Mark(old(buffer[data]))]
    {
      var p, first := data, buffer[data];
      if first < 0x80 {
        len := 1;
      } else if first < 0xC0 {
        len := 2;
        buffer[p] := first - 0x80;
      } else if first < 0xE0 {
        len := 3;
        buffer[p] := first - 0xC0;
      } else if first < 0xF0 {
        len := 4;
        buffer[p] := first - 0xE0;
      } else if first < 0xF8 {
        len := 5;
      } else {
        len := 0;
      }
    }

    /** The fall-through of decodeInt32: the bytes, the highest first, in 32 bits. */
    method ReadLow(start: nat, len: nat) returns (result: int32)
      requires 1 <= len <= 4 && start + len <= buffer.Length
      ensures result == Signed(FromBytes(buffer[start..start + len]))
    {
      var p := start;
      var u: nat := 0;
      if len == 4 {
        u := buffer[p];
        p := p + 1;
      }
      if len >= 3 {
        u := u * 0x100 + buffer[p];
        p := p + 1;
      }
      if len >= 2 {
        u := u * 0x100 + buffer[p];
        p := p + 1;
      }
      u := u * 0x100 + buffer[p];
      assert u == FromBytes(buffer[start..start + len]);
      result := Signed(u);
    }

    /** decodeBinary: the result points at the length byte, which counts itself. */
    method DecodeBinary() returns (ok: bool, s: seq<byte>)
      requires Valid()
      modifies this
      ensures Valid() && (ok <==> old(maxLen) > 0 && old(Left())[0] <= old(maxLen))
      ensures ok ==> var len := old(Left())[0];
        && s == old(Left())[..len] && Left() == old(Left())[len..]
        && data == old(data) + len && maxLen == old(maxLen) - len
      ensures !ok ==> data == old(data) && maxLen == old(maxLen)
    {
      s := [];
      if maxLen == 0 {
        return false, s;
      }
      var len := buffer[data];
      if maxLen < len {
        return false, s;
      }
      s := buffer[data..data + len];
      data := data + len;
      maxLen := maxLen - len;
      ok := true;
    }

    /** decodeVariant. */
    method DecodeVariant() returns (ok: bool, v: Variant)
      requires Valid()
      modifies this, buffer
      ensures Valid() && ok == Decoded(old(Left())).Success?
      ensures ok ==> Decoded(old(Left())) == Success(v, Left()) && data + maxLen == old(data + maxLen)
      ensures !ok ==> data == old(data) + (if old(maxLen) == 0 then 0 else 1) && data + maxLen == old(data + maxLen)
    {
      hide DecodedInt, Unmarked, FromLe16, FromLe64;
      v := Bare(0);
      if maxLen == 0 {
        return false, v;
      }
      ghost var s := Left();
      var kind := buffer[data] % 0x40;
      data := data + 1;
      maxLen := maxLen - 1;
      assert Left() == s[1..];
      if kind == ST_OCTET {
        var bytes;
        ok, bytes := DecodeFixed(1);
        if ok {
          v := Octet(bytes[0]);
        }
      } else if kind == ST_UINTEGER16 {
        var bytes;
        ok, bytes := DecodeFixed(2);
        if ok {
          v := Uint16(FromLe16(bytes[0], bytes[1]));
        }
      } else if kind == ST_INTEGER {
        var x;
        ok, x := DecodeInt32();
        v := Integer(x);
      } else if kind == ST_UINTEGER {
        var x;
        ok, x := DecodeInt32();
        v := Unsigned(Unsigned32(x));
      } else if kind == ST_UINTEGER64 {
        var bytes;
        ok, bytes := DecodeFixed(8);
        if ok {
          v := Uint64(FromLe64(bytes));
        }
      } else if kind == ST_BINARY {
        var bytes;
        ok, bytes := DecodeBinary();
        if ok {
          v := Blob(bytes);
        }
      } else {
        ok, v := true, Bare(kind);
      }
    }

    /** The fall-through of encodeInt32. */
    method WriteLow(start: nat, v: uint32, len: nat) returns (p: nat)
      requires 1 <= len <= 4 && start + len <= buffer.Length
      modifies buffer
      ensures p == start + len
      ensures buffer[..] == Written(old(buffer[..]), start, LowBytes(v, len))
    {
      p := start;
      if len == 4 {
        buffer[p] := v / 0x100_0000 % 0x100;
        p := p + 1;
      }
      if len >= 3 {
        buffer[p] := v / 0x1_0000 % 0x100;
        p := p + 1;
      }
      if len >= 2 {
        buffer[p] := v / 0x100 % 0x100;
        p := p + 1;
      }
      buffer[p] := v % 0x100;
      p := p + 1;
    }
  }
}
