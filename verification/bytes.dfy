/**
 * The binary cursor under every codec: little-endian integers, binary32
 * words, NUL-padded fixed strings, and a read position over a byte sequence.
 * File reads and seeks become `Take` and `Seek` on a `Cursor`.
 */
module Bytes {
  import opened Wrappers
  import opened Errors

  type byte = b: int | 0 <= b < 0x100
  type uint16 = x: int | 0 <= x < 0x1_0000
  type uint32 = x: int | 0 <= x < 0x1_0000_0000
  type int8 = x: int | -0x80 <= x < 0x80
  type int16 = x: int | -0x8000 <= x < 0x8000
  type int32 = x: int | -0x8000_0000 <= x < 0x8000_0000

  /** An IEEE 754 binary32 value, kept as its raw bit pattern. */
  type F32 = uint32

  const SignBit: int := 0x8000_0000

  predicate InInt32(x: int) {
    -0x8000_0000 <= x < 0x8000_0000
  }

  /** How many times Python's `range(n)` iterates. */
  function RangeCount(n: int): nat {
    if n < 0 then 0 else n
  }

  /** Float negation: flips the sign bit and keeps the other 31 bits. */
  function Neg(f: F32): (r: F32)
    ensures (r < SignBit) <==> (f >= SignBit)
    ensures r % SignBit == f % SignBit
  {
    if f < SignBit then f + SignBit else f - SignBit
  }

  lemma NegNeg(f: F32)
    ensures Neg(Neg(f)) == f
  {
  }

  // ---------------------------------------------------------------------
  // Little-endian integers

  function LeU16(b: seq<byte>): uint16
    requires |b| == 2
  {
    b[0] as int + 0x100 * b[1] as int
  }

  function LeU32(b: seq<byte>): uint32
    requires |b| == 4
  {
    b[0] as int + 0x100 * (b[1] as int + 0x100 * (b[2] as int + 0x100 * b[3] as int))
  }

  function U16Bytes(x: uint16): (b: seq<byte>)
    ensures |b| == 2 && LeU16(b) == x
  {
    [x % 0x100, x / 0x100]
  }

  function U32Bytes(x: uint32): (b: seq<byte>)
    ensures |b| == 4 && LeU32(b) == x
  {
    var r1 := x / 0x100;
    var r2 := r1 / 0x100;
    [x % 0x100, r1 % 0x100, r2 % 0x100, r2 / 0x100]
  }

  lemma U16BytesOfLe(b: seq<byte>)
    requires |b| == 2
    ensures U16Bytes(LeU16(b)) == b
  {
    ByteDigit(b[0], b[1]);
  }

  lemma U32BytesOfLe(b: seq<byte>)
    requires |b| == 4
    ensures U32Bytes(LeU32(b)) == b
  {
    var r2 := b[2] as int + 0x100 * b[3] as int;
    var r1 := b[1] as int + 0x100 * r2;
    assert LeU32(b) == b[0] as int + 0x100 * r1;
    ByteDigit(b[0], r1);
    ByteDigit(b[1], r2);
    ByteDigit(b[2], b[3]);
  }

  /** The low byte and the rest of `a + 0x100 * q`. */
  lemma ByteDigit(a: int, q: int)
    requires 0 <= a < 0x100
    ensures (a + 0x100 * q) % 0x100 == a && (a + 0x100 * q) / 0x100 == q
  {
  }

  // Two's complement views of unsigned fields.

  function Int32Of(u: uint32): (x: int32)
    ensures x >= 0 <==> u < 0x8000_0000
    ensures (x - u) % 0x1_0000_0000 == 0
  {
    if u < 0x8000_0000 then u else u - 0x1_0000_0000
  }

  function Uint32Of(x: int32): (u: uint32)
    ensures Int32Of(u) == x
  {
    if x >= 0 then x else x + 0x1_0000_0000
  }

  function Int16Of(u: uint16): (x: int16)
    ensures x >= 0 <==> u < 0x8000
    ensures (x - u) % 0x1_0000 == 0
  {
    if u < 0x8000 then u else u - 0x1_0000
  }

  function Uint16Of(x: int16): (u: uint16)
    ensures Int16Of(u) == x
  {
    if x >= 0 then x else x + 0x1_0000
  }

  function Int8Of(u: byte): (x: int8)
    ensures x >= 0 <==> u < 0x80
    ensures (x - u) % 0x100 == 0
  {
    if u < 0x80 then u else u - 0x100
  }

  function Uint8Of(x: int8): (u: byte)
    ensures Int8Of(u) == x
  {
    if x >= 0 then x else x + 0x100
  }

  lemma Uint32OfInt32(u: uint32)
    ensures Uint32Of(Int32Of(u)) == u
  {
  }

  function I32Bytes(x: int32): (b: seq<byte>)
    ensures |b| == 4 && Int32Of(LeU32(b)) == x
  {
    U32Bytes(Uint32Of(x))
  }

  function I16Bytes(x: int16): (b: seq<byte>)
    ensures |b| == 2 && Int16Of(LeU16(b)) == x
  {
    U16Bytes(Uint16Of(x))
  }

  // ---------------------------------------------------------------------
  // Runs of 4-byte words, 2-byte halves and signed single bytes

  /** Splits a block into consecutive little-endian 32-bit words. */
  function Words(b: seq<byte>): (ws: seq<uint32>)
    requires |b| % 4 == 0
    ensures |ws| == |b| / 4
    decreases |b|
  {
    if b == [] then [] else [LeU32(b[..4])] + Words(b[4..])
  }

  /** Writes words back to back, least significant byte first. */
  function WordBytes(ws: seq<uint32>): (b: seq<byte>)
    ensures |b| == 4 * |ws|
  {
    if ws == [] then [] else U32Bytes(ws[0]) + WordBytes(ws[1..])
  }

  lemma {:induction false} WordsOfWordBytes(ws: seq<uint32>)
    ensures Words(WordBytes(ws)) == ws
  {
    if ws != [] {
      var b := WordBytes(ws);
      assert b[..4] == U32Bytes(ws[0]);
      assert b[4..] == WordBytes(ws[1..]);
      WordsOfWordBytes(ws[1..]);
    }
  }

  /** Any block of whole words is the encoding of the words read from it. */
  lemma {:induction false} WordBytesOfWords(b: seq<byte>)
    requires |b| % 4 == 0
    ensures WordBytes(Words(b)) == b
    decreases |b|
  {
    if b != [] {
      U32BytesOfLe(b[..4]);
      WordBytesOfWords(b[4..]);
      assert b == b[..4] + b[4..];
    }
  }

  lemma {:induction false} WordBytesAppend(a: seq<uint32>, c: seq<uint32>)
    ensures WordBytes(a + c) == WordBytes(a) + WordBytes(c)
  {
    if a != [] {
      assert (a + c)[1..] == a[1..] + c;
      WordBytesAppend(a[1..], c);
    } else {
      assert a + c == c;
    }
  }

  function Halves(b: seq<byte>): (hs: seq<uint16>)
    requires |b| % 2 == 0
    ensures |hs| == |b| / 2
    decreases |b|
  {
    if b == [] then [] else [LeU16(b[..2])] + Halves(b[2..])
  }

  function HalfBytes(hs: seq<uint16>): (b: seq<byte>)
    ensures |b| == 2 * |hs|
  {
    if hs == [] then [] else U16Bytes(hs[0]) + HalfBytes(hs[1..])
  }

  lemma {:induction false} HalvesOfHalfBytes(hs: seq<uint16>)
    ensures Halves(HalfBytes(hs)) == hs
  {
    if hs != [] {
      var b := HalfBytes(hs);
      assert b[..2] == U16Bytes(hs[0]);
      assert b[2..] == HalfBytes(hs[1..]);
      HalvesOfHalfBytes(hs[1..]);
    }
  }

  /** The signed 32-bit values of a run of words. */
  function Int32s(ws: seq<uint32>): (xs: seq<int32>)
    ensures |xs| == |ws| && forall i :: 0 <= i < |ws| ==> xs[i] == Int32Of(ws[i])
  {
    seq(|ws|, i requires 0 <= i < |ws| => Int32Of(ws[i]))
  }

  function Uint32s(xs: seq<int32>): (ws: seq<uint32>)
    ensures |ws| == |xs| && Int32s(ws) == xs
  {
    seq(|xs|, i requires 0 <= i < |xs| => Uint32Of(xs[i]))
  }

  function Int16s(hs: seq<uint16>): (xs: seq<int16>)
    ensures |xs| == |hs| && forall i :: 0 <= i < |hs| ==> xs[i] == Int16Of(hs[i])
  {
    seq(|hs|, i requires 0 <= i < |hs| => Int16Of(hs[i]))
  }

  function Uint16s(xs: seq<int16>): (hs: seq<uint16>)
    ensures |hs| == |xs| && Int16s(hs) == xs
  {
    seq(|xs|, i requires 0 <= i < |xs| => Uint16Of(xs[i]))
  }

  function Int8s(b: seq<byte>): (xs: seq<int8>)
    ensures |xs| == |b| && forall i :: 0 <= i < |b| ==> xs[i] == Int8Of(b[i])
  {
    seq(|b|, i requires 0 <= i < |b| => Int8Of(b[i]))
  }

  function Uint8s(xs: seq<int8>): (b: seq<byte>)
    ensures |b| == |xs| && Int8s(b) == xs
  {
    seq(|xs|, i requires 0 <= i < |xs| => Uint8Of(xs[i]))
  }

  // ---------------------------------------------------------------------
  // Fixed-capacity NUL-padded strings

  predicate NoTrailingNul(s: seq<byte>) {
    s == [] || s[|s| - 1] != 0
  }

  /** `rstrip('\0')`: drops every trailing NUL byte. */
  function StripNuls(s: seq<byte>): (r: seq<byte>)
    ensures |r| <= |s| && r == s[..|r|]
    ensures NoTrailingNul(r)
    ensures forall i :: |r| <= i < |s| ==> s[i] == 0
  {
    if s == [] || s[|s| - 1] != 0 then s else StripNuls(s[..|s| - 1])
  }

  /** `struct.pack('<Ns', s)`: truncates to `n` bytes or pads with NULs. */
  function PadNuls(s: seq<byte>, n: nat): (r: seq<byte>)
    ensures |r| == n
    ensures forall i :: 0 <= i < n ==> r[i] == (if i < |s| then s[i] else 0)
  {
    if |s| >= n then s[..n] else s + seq(n - |s|, _ => 0)
  }

  /** A name that survives the trip through an `n`-byte field. */
  predicate FitsField(s: seq<byte>, n: nat) {
    |s| <= n && NoTrailingNul(s)
  }

  lemma StripPadNuls(s: seq<byte>, n: nat)
    requires FitsField(s, n)
    ensures StripNuls(PadNuls(s, n)) == s
  {
  }

  // ---------------------------------------------------------------------
  // Strict UTF-8, as `bytes.decode()` checks it

  predicate IsContinuation(x: byte) {
    0x80 <= x <= 0xBF
  }

  /**
   * The length of the well-formed UTF-8 sequence that starts `s`, or 0 when
   * none does: overlong forms, surrogates and values above U+10FFFF are
   * rejected, as Python's strict decoder rejects them.
   */
  function Utf8Length(s: seq<byte>): (n: nat)
    ensures n <= |s| && n <= 4
    ensures n == 1 <==> s != [] && s[0] < 0x80
  {
    if |s| >= 1 && s[0] < 0x80 then 1
    else if |s| >= 2 && 0xC2 <= s[0] <= 0xDF && IsContinuation(s[1]) then 2
    else if |s| >= 3 && s[0] == 0xE0 && 0xA0 <= s[1] <= 0xBF && IsContinuation(s[2]) then 3
    else if |s| >= 3 && (0xE1 <= s[0] <= 0xEC || 0xEE <= s[0] <= 0xEF)
                     && IsContinuation(s[1]) && IsContinuation(s[2]) then 3
    else if |s| >= 3 && s[0] == 0xED && 0x80 <= s[1] <= 0x9F && IsContinuation(s[2]) then 3
    else if |s| >= 4 && s[0] == 0xF0 && 0x90 <= s[1] <= 0xBF
                     && IsContinuation(s[2]) && IsContinuation(s[3]) then 4
    else if |s| >= 4 && 0xF1 <= s[0] <= 0xF3
                     && IsContinuation(s[1]) && IsContinuation(s[2]) && IsContinuation(s[3]) then 4
    else if |s| >= 4 && s[0] == 0xF4 && 0x80 <= s[1] <= 0x8F
                     && IsContinuation(s[2]) && IsContinuation(s[3]) then 4
    else 0
  }

  /** `s` decodes as UTF-8: it is a run of well-formed sequences. */
  predicate Utf8(s: seq<byte>)
    decreases |s|
  {
    s == [] || (Utf8Length(s) > 0 && Utf8(s[Utf8Length(s)..]))
  }

  predicate IsScalar(cp: int) {
    0 <= cp < 0x11_0000 && !(0xD800 <= cp < 0xE000)
  }

  /** Reference definition: the UTF-8 encoding of one Unicode scalar value. */
  function EncodeScalar(cp: int): (b: seq<byte>)
    requires IsScalar(cp)
    ensures 1 <= |b| <= 4
  {
    if cp < 0x80 then [cp]
    else if cp < 0x800 then [0xC0 + cp / 0x40, 0x80 + cp % 0x40]
    else if cp < 0x1_0000 then
      [0xE0 + cp / 0x1000, 0x80 + cp / 0x40 % 0x40, 0x80 + cp % 0x40]
    else
      [0xF0 + cp / 0x4_0000, 0x80 + cp / 0x1000 % 0x40, 0x80 + cp / 0x40 % 0x40, 0x80 + cp % 0x40]
  }

  /** Every scalar value's encoding is exactly one well-formed sequence, whatever follows it. */
  lemma Utf8LengthOfScalar(cp: int, rest: seq<byte>)
    requires IsScalar(cp)
    ensures Utf8Length(EncodeScalar(cp) + rest) == |EncodeScalar(cp)|
  {
    var b := EncodeScalar(cp) + rest;
    if cp < 0x80 {
    } else if cp < 0x800 {
      assert b[0] == 0xC0 + cp / 0x40 && b[1] == 0x80 + cp % 0x40;
    } else if cp < 0x1_0000 {
      assert b[0] == 0xE0 + cp / 0x1000;
      assert b[1] == 0x80 + cp / 0x40 % 0x40 && b[2] == 0x80 + cp % 0x40;
    } else {
      assert b[0] == 0xF0 + cp / 0x4_0000;
      assert b[1] == 0x80 + cp / 0x1000 % 0x40;
      assert b[2] == 0x80 + cp / 0x40 % 0x40 && b[3] == 0x80 + cp % 0x40;
    }
  }

  /** A run of encoded scalar values is valid UTF-8. */
  lemma {:induction false} Utf8OfScalars(cps: seq<int>)
    requires forall i :: 0 <= i < |cps| ==> IsScalar(cps[i])
    ensures Utf8(EncodeScalars(cps))
    decreases |cps|
  {
    if cps != [] {
      var first, rest := EncodeScalar(cps[0]), EncodeScalars(cps[1..]);
      Utf8LengthOfScalar(cps[0], rest);
      assert (first + rest)[|first|..] == rest;
      Utf8OfScalars(cps[1..]);
    }
  }

  function EncodeScalars(cps: seq<int>): seq<byte>
    requires forall i :: 0 <= i < |cps| ==> IsScalar(cps[i])
  {
    if cps == [] then [] else EncodeScalar(cps[0]) + EncodeScalars(cps[1..])
  }

  /** Well-formed text followed by well-formed text is well formed. */
  lemma {:induction false} Utf8Append(a: seq<byte>, b: seq<byte>)
    requires Utf8(a) && Utf8(b)
    ensures Utf8(a + b)
    decreases |a|
  {
    if a != [] {
      var n := Utf8Length(a);
      assert (a + b)[..n] == a[..n];
      Utf8LengthPrefix(a, b);
      assert (a + b)[n..] == a[n..] + b;
      Utf8Append(a[n..], b);
    } else {
      assert a + b == b;
    }
  }

  /** A leading well-formed sequence is found the same way whatever follows. */
  lemma Utf8LengthPrefix(a: seq<byte>, b: seq<byte>)
    requires Utf8Length(a) > 0
    ensures Utf8Length(a + b) == Utf8Length(a)
  {
    var n := Utf8Length(a);
    assert forall i :: 0 <= i < n ==> (a + b)[i] == a[i];
  }

  /** NUL padding is valid UTF-8. */
  lemma {:induction false} Utf8Nuls(k: nat)
    ensures Utf8(seq(k, _ => 0))
    decreases k
  {
    if k > 0 {
      var z: seq<byte> := seq(k, _ => 0);
      assert z[1..] == seq(k - 1, _ => 0);
      Utf8Nuls(k - 1);
    }
  }

  /** A name that `str.encode()` can produce and that an `n`-byte field keeps unchanged. */
  predicate NameFits(s: seq<byte>, n: nat) {
    FitsField(s, n) && Utf8(s)
  }

  /**
   * `bytes.decode(field).rstrip('\0')`: the whole field must be UTF-8, else
   * the decoder raises (reported here at the field's offset).
   */
  function DecodeName(field: seq<byte>, offset: nat): (r: Result<seq<byte>, Error>)
    ensures r.Ok? <==> Utf8(field)
    ensures r.Err? ==> r.error == NotUtf8(offset)
    ensures r.Ok? ==> && |r.value| <= |field| && r.value == field[..|r.value|]
                      && NoTrailingNul(r.value)
                      && forall i :: |r.value| <= i < |field| ==> field[i] == 0
  {
    if Utf8(field) then Ok(StripNuls(field)) else Err(NotUtf8(offset))
  }

  /** A fitting name, padded into its field, decodes back to itself. */
  lemma DecodePaddedName(s: seq<byte>, n: nat, offset: nat)
    requires NameFits(s, n)
    ensures DecodeName(PadNuls(s, n), offset) == Ok(s)
  {
    assert PadNuls(s, n) == s + seq(n - |s|, _ => 0);
    Utf8Nuls(n - |s|);
    Utf8Append(s, seq(n - |s|, _ => 0));
    StripPadNuls(s, n);
  }

  // ---------------------------------------------------------------------
  // The cursor

  /** An open file: its whole contents and the current read position. */
  datatype Cursor = Cursor(data: seq<byte>, pos: nat) {
    function Skip(n: nat): Cursor {
      Cursor(data, pos + n)
    }
  }

  /** A decoded value and the position after it. */
  datatype Parsed<+T> = Parsed(value: T, rest: Cursor)

  /** `read(n)` followed by an unpack that insists on exactly `n` bytes. */
  function Take(c: Cursor, n: nat): (r: Result<Parsed<seq<byte>>, Error>)
    ensures r.Ok? <==> c.pos + n <= |c.data|
    ensures r.Ok? ==> r.value.rest == c.Skip(n) && r.value.value == c.data[c.pos .. c.pos + n]
    ensures r.Err? ==> r.error == Truncated(c.pos, n)
  {
    if c.pos + n <= |c.data| then Ok(Parsed(c.data[c.pos .. c.pos + n], c.Skip(n)))
    else Err(Truncated(c.pos, n))
  }

  /** `seek(off)`: any non-negative offset, even past the end, is accepted. */
  function Seek(c: Cursor, off: int): (r: Result<Cursor, Error>)
    ensures r.Ok? <==> off >= 0
    ensures r.Ok? ==> r.value == Cursor(c.data, off)
  {
    if off < 0 then Err(NegativeSeek(off)) else Ok(Cursor(c.data, off))
  }

  /** `bytes` lie in the data at the cursor position. */
  predicate At(c: Cursor, bytes: seq<byte>) {
    c.pos + |bytes| <= |c.data| && c.data[c.pos .. c.pos + |bytes|] == bytes
  }

  lemma AtAppend(c: Cursor, a: seq<byte>, b: seq<byte>)
    requires At(c, a + b)
    ensures At(c, a) && At(c.Skip(|a|), b)
  {
    assert c.data[c.pos .. c.pos + |a|] == (a + b)[..|a|];
    assert c.data[c.pos + |a| .. c.pos + |a| + |b|] == (a + b)[|a|..];
  }

  /** Re-nesting a right-nested concatenation once more bytes follow it. */
  lemma AppendAssoc(a: seq<byte>, b: seq<byte>, c: seq<byte>, d: seq<byte>, e: seq<byte>)
    ensures (a + (b + (c + d))) + e == a + (b + (c + (d + e)))
  {
  }

  lemma TakeAt(c: Cursor, bytes: seq<byte>)
    requires At(c, bytes)
    ensures Take(c, |bytes|) == Ok(Parsed(bytes, c.Skip(|bytes|)))
  {
  }

  /** Reads one signed little-endian 32-bit field. */
  function ReadInt32(c: Cursor): (r: Result<Parsed<int32>, Error>)
    ensures r.Ok? <==> c.pos + 4 <= |c.data|
    ensures r.Ok? ==> r.value.rest == c.Skip(4)
  {
    var b :- Take(c, 4);
    Ok(Parsed(Int32Of(LeU32(b.value)), b.rest))
  }

  lemma ReadInt32At(c: Cursor, x: int32)
    requires At(c, I32Bytes(x))
    ensures ReadInt32(c) == Ok(Parsed(x, c.Skip(4)))
  {
    TakeAt(c, I32Bytes(x));
  }

  /** Reads one signed little-endian 16-bit field. */
  function ReadInt16(c: Cursor): (r: Result<Parsed<int16>, Error>)
    ensures r.Ok? <==> c.pos + 2 <= |c.data|
    ensures r.Ok? ==> r.value.rest == c.Skip(2)
  {
    var b :- Take(c, 2);
    Ok(Parsed(Int16Of(LeU16(b.value)), b.rest))
  }

  lemma ReadInt16At(c: Cursor, x: int16)
    requires At(c, I16Bytes(x))
    ensures ReadInt16(c) == Ok(Parsed(x, c.Skip(2)))
  {
    TakeAt(c, I16Bytes(x));
  }

  /** Reads `n` consecutive 32-bit words. */
  function ReadWords(c: Cursor, n: nat): (r: Result<Parsed<seq<uint32>>, Error>)
    ensures r.Ok? <==> c.pos + 4 * n <= |c.data|
    ensures r.Ok? ==> |r.value.value| == n && r.value.rest == c.Skip(4 * n)
  {
    var b :- Take(c, 4 * n);
    Ok(Parsed(Words(b.value), b.rest))
  }

  lemma ReadWordsAt(c: Cursor, ws: seq<uint32>)
    requires At(c, WordBytes(ws))
    ensures ReadWords(c, |ws|) == Ok(Parsed(ws, c.Skip(4 * |ws|)))
  {
    TakeWordBytes(c, ws);
    ReadWordsOfTake(c, ws);
  }

  lemma TakeWordBytes(c: Cursor, ws: seq<uint32>)
    requires At(c, WordBytes(ws))
    ensures Take(c, 4 * |ws|) == Ok(Parsed(WordBytes(ws), c.Skip(4 * |ws|)))
  {
    TakeAt(c, WordBytes(ws));
  }

  lemma ReadWordsOfTake(c: Cursor, ws: seq<uint32>)
    requires Take(c, 4 * |ws|) == Ok(Parsed(WordBytes(ws), c.Skip(4 * |ws|)))
    ensures ReadWords(c, |ws|) == Ok(Parsed(ws, c.Skip(4 * |ws|)))
  {
    WordsOfWordBytes(ws);
  }

}
