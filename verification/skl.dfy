/**
 * The `.skl` skeleton codec. Versions 1 and 2 store a 20-byte header and
 * 88-byte bones whose matrices are read with row 2 negated; version 2 adds
 * a list of bone ids. Version 0 stores absolute offsets in its header,
 * 100-byte bones with a reordered quaternion, a table of NUL-terminated
 * names read in 4-byte chunks, an animation-id map and a list of int16
 * bone ids. The exporter writes versions 1 and 2 only.
 */
module Skl {
  import opened Wrappers
  import opened Errors
  import opened Bytes
  import opened Records

  // -----------------------------------------------------------------------
  // Header

  /**
   * `sklHeader`, by revision. A revision other than 0, 1 or 2 reads only
   * the common 12 bytes; the importer then rejects it.
   */
  datatype Header =
    | HeaderV12(fileType: seq<byte>, version: int32, skeletonHash: int32, numBones: int32)
    | HeaderV0(fileType: seq<byte>, zero: int16, numBones: int32, numBoneIds: int32,
               offsetVertexData: int16, unknown: int16, offset1: int32,
               offsetAnimationIndices: int32, offset2: int32, offset3: int32,
               offsetToStrings: int32)
    | HeaderOther(fileType: seq<byte>, version: int32)
  {
    function Version(): int {
      if HeaderV0? then 0 else version
    }
  }

  /** What the header reader can return. */
  predicate HeaderFits(h: Header) {
    && |h.fileType| == 8
    && (h.HeaderV12? ==> h.version == 1 || h.version == 2)
    && (h.HeaderOther? ==> h.version !in {0, 1, 2})
    && (h.HeaderV0? ==> -0x8000 <= h.numBones < 0x8000)
  }

  /** The 32 bytes `<2hi2h5i` that follow the common part in version 0. */
  function DecodeHeaderV0(fileType: seq<byte>, b: seq<byte>): (h: Header)
    requires |b| == 32
    ensures h.HeaderV0?
  {
    var s := Int16s(Halves(b[..4]));
    var t := Int16s(Halves(b[8..12]));
    var w := Int32s(Words(b[12..]));
    HeaderV0(fileType, s[0], s[1], Int32Of(LeU32(b[4..8])), t[0], t[1], w[0], w[1], w[2], w[3], w[4])
  }

  /**
   * `sklHeader.fromFile` from the start of the data: the common 8-byte
   * id and int32 version, then 8 more bytes for versions 1 and 2, or 32
   * more for version 0 followed by a seek to `offsetVertexData`.
   */
  function ReadHeader(c: Cursor): (r: Result<Parsed<Header>, Error>)
    ensures r.Ok? ==> HeaderFits(r.value.value)
    ensures c.pos + 12 > |c.data| ==> r == Err(Truncated(c.pos, 12))
    ensures r.Ok? && r.value.value.HeaderV12? ==> r.value.rest == c.Skip(20)
    ensures r.Ok? && r.value.value.HeaderV0? ==>
              r.value.value.offsetVertexData >= 0
              && r.value.rest == Cursor(c.data, r.value.value.offsetVertexData)
    ensures r.Ok? && r.value.value.HeaderOther? ==> r.value.rest == c.Skip(12)
  {
    var base :- Take(c, 12);
    var fileType := base.value[..8];
    var version := Int32Of(LeU32(base.value[8..]));
    if version == 1 || version == 2 then
      var rest :- Take(base.rest, 8);
      var w := Int32s(Words(rest.value));
      Ok(Parsed(HeaderV12(fileType, version, w[0], w[1]), rest.rest))
    else if version == 0 then
      var rest :- Take(base.rest, 32);
      var h := DecodeHeaderV0(fileType, rest.value);
      var next :- Seek(rest.rest, h.offsetVertexData);
      Ok(Parsed(h, next))
    else
      Ok(Parsed(HeaderOther(fileType, version), base.rest))
  }

  /** `sklHeader.toFile`: the id and version, then hash and bone count for versions 1 and 2. */
  function EncodeHeader(h: Header): (b: seq<byte>)
    requires InInt32(h.Version())
    ensures |b| == if h.HeaderV12? && h.version in {1, 2} then 20 else 12
  {
    PadNuls(h.fileType, 8) + I32Bytes(h.Version())
    + (if h.HeaderV12? && h.version in {1, 2}
       then I32Bytes(h.skeletonHash) + I32Bytes(h.numBones) else [])
  }

  /** A written version-1 or -2 header reads back unchanged. */
  lemma ReadHeaderAt(c: Cursor, h: Header)
    requires h.HeaderV12? && HeaderFits(h)
    requires At(c, EncodeHeader(h))
    ensures ReadHeader(c) == Ok(Parsed(h, c.Skip(20)))
  {
    var e := EncodeHeader(h);
    AtAppend(c, e[..12], e[12..]);
    TakeAt(c, e[..12]);
    TakeAt(c.Skip(12), e[12..]);
    EncodeHeaderV12Parts(h);
  }

  /** Where the fields of a written version-1 or -2 header lie. */
  lemma EncodeHeaderV12Parts(h: Header)
    requires h.HeaderV12? && HeaderFits(h)
    ensures var e := EncodeHeader(h);
      && e[..12][..8] == h.fileType
      && Int32Of(LeU32(e[..12][8..])) == h.version
      && Int32s(Words(e[12..])) == [h.skeletonHash, h.numBones]
  {
    var e := EncodeHeader(h);
    assert e[..12][..8] == h.fileType;
    assert e[..12][8..] == I32Bytes(h.version);
    var ws := [Uint32Of(h.skeletonHash), Uint32Of(h.numBones)];
    assert WordBytes(ws) == I32Bytes(h.skeletonHash) + I32Bytes(h.numBones) + [];
    assert e[12..] == WordBytes(ws);
    WordsOfWordBytes(ws);
  }

  /** The version-0 header block as the file stores it: the inverse of `DecodeHeaderV0`. */
  function HeaderV0Layout(h: Header): (b: seq<byte>)
    requires h.HeaderV0? && -0x8000 <= h.numBones < 0x8000
    ensures |b| == 32
  {
    HalfBytes(Uint16s([h.zero, h.numBones])) + I32Bytes(h.numBoneIds)
    + HalfBytes(Uint16s([h.offsetVertexData, h.unknown]))
    + WordBytes(Uint32s([h.offset1, h.offsetAnimationIndices, h.offset2, h.offset3, h.offsetToStrings]))
  }

  lemma DecodeHeaderV0Layout(h: Header)
    requires h.HeaderV0? && -0x8000 <= h.numBones < 0x8000
    ensures DecodeHeaderV0(h.fileType, HeaderV0Layout(h)) == h
  {
    var b := HeaderV0Layout(h);
    var ws := Uint32s([h.offset1, h.offsetAnimationIndices, h.offset2, h.offset3, h.offsetToStrings]);
    assert b[..4] == HalfBytes(Uint16s([h.zero, h.numBones]));
    assert b[4..8] == I32Bytes(h.numBoneIds);
    assert b[8..12] == HalfBytes(Uint16s([h.offsetVertexData, h.unknown]));
    assert b[12..] == WordBytes(ws);
    HalvesOfHalfBytes(Uint16s([h.zero, h.numBones]));
    HalvesOfHalfBytes(Uint16s([h.offsetVertexData, h.unknown]));
    WordsOfWordBytes(ws);
  }

  /**
   * A version-0 header reads every field back and leaves the cursor at
   * `offsetVertexData`, wherever that points.
   */
  lemma ReadHeaderV0At(c: Cursor, h: Header)
    requires h.HeaderV0? && HeaderFits(h) && h.offsetVertexData >= 0
    requires At(c, h.fileType + I32Bytes(0) + HeaderV0Layout(h))
    ensures ReadHeader(c) == Ok(Parsed(h, Cursor(c.data, h.offsetVertexData)))
  {
    var e := h.fileType + I32Bytes(0);
    AtAppend(c, e, HeaderV0Layout(h));
    TakeAt(c, e);
    TakeAt(c.Skip(12), HeaderV0Layout(h));
    assert e[..8] == h.fileType && e[8..] == I32Bytes(0);
    DecodeHeaderV0Layout(h);
  }

  // -----------------------------------------------------------------------
  // Bones

  type Row = s: seq<F32> | |s| == 4 witness [0, 0, 0, 0]
  type Vec3 = s: seq<F32> | |s| == 3 witness [0, 0, 0]
  type Quat = s: seq<F32> | |s| == 4 witness [0, 0, 0, 0]
  /** The top three rows of an affine bone matrix. */
  type Matrix = m: seq<Row> | |m| == 3 witness [ZeroRow, ZeroRow, ZeroRow]

  const ZeroRow: Row := [0, 0, 0, 0]

  /**
   * `sklBone`, by the revision that produced it. `BoneCopy` is what
   * `copy()` makes of a version-0 bone: name, parent, scale and quaternion,
   * with the constructor's empty matrix.
   */
  datatype Bone =
    | Bone12(name: seq<byte>, parent: int32, scale: F32, matrix: Matrix)
    | Bone0(id: int16, parent: int32, position: Vec3, scaling: Vec3, quat: Quat, ct: Vec3,
            extra: seq<F32>, name: seq<byte>)
    | BoneCopy(name: seq<byte>, parent: int32, scaling: Vec3, quat: Quat)

  /** Negates every entry. */
  function Negs(ws: seq<F32>): (r: seq<F32>)
    ensures |r| == |ws| && forall i :: 0 <= i < |ws| ==> r[i] == Neg(ws[i])
  {
    seq(|ws|, i requires 0 <= i < |ws| => Neg(ws[i]))
  }

  lemma NegsNegs(ws: seq<F32>)
    ensures Negs(Negs(ws)) == ws
  {
    forall i | 0 <= i < |ws| ensures Negs(Negs(ws))[i] == ws[i] {
      NegNeg(ws[i]);
    }
  }

  /** The z flip the reader applies: row 2 negated. */
  function FlipRow2(m: Matrix): (r: Matrix)
    ensures r[0] == m[0] && r[1] == m[1]
    ensures forall k :: 0 <= k < 4 ==> r[2][k] == Neg(m[2][k])
  {
    [m[0], m[1], Negs(m[2])]
  }

  lemma FlipRow2Involution(m: Matrix)
    ensures FlipRow2(FlipRow2(m)) == m
  {
    NegsNegs(m[2]);
  }

  /**
   * `sklBone.fromFile` for versions 1 and 2 (`<32sif12f`), on a record at
   * `offset`; the name field must decode as UTF-8.
   */
  function DecodeBone12(b: seq<byte>, offset: nat): (r: Result<Bone, Error>)
    requires |b| == 88
    ensures r.Ok? <==> Utf8(b[..32])
    ensures r.Err? ==> r.error == NotUtf8(offset)
    ensures r.Ok? ==> r.value.Bone12? && NoTrailingNul(r.value.name) && |r.value.name| <= 32
  {
    var name :- DecodeName(b[..32], offset);
    var w := Words(b[32..]);
    Ok(Bone12(name, Int32Of(w[0]), w[1], FlipRow2([w[2..6], w[6..10], w[10..14]])))
  }

  /** `sklBone.toFile`: the same 88-byte order, the matrix written as it stands. */
  function EncodeBone12(bone: Bone): (b: seq<byte>)
    requires bone.Bone12?
    ensures |b| == 88
  {
    PadNuls(bone.name, 32)
    + WordBytes([Uint32Of(bone.parent), bone.scale] + bone.matrix[0] + bone.matrix[1] + bone.matrix[2])
  }

  /**
   * Reading a written bone: the name survives when it is UTF-8, fits the
   * field and does not end in NUL, parent and scale survive, and row 2 comes
   * back negated.
   */
  lemma DecodeEncodeBone12(bone: Bone, offset: nat)
    requires bone.Bone12? && NameFits(bone.name, 32)
    ensures DecodeBone12(EncodeBone12(bone), offset) == Ok(bone.(matrix := FlipRow2(bone.matrix)))
  {
    var m := bone.matrix;
    var ws := [Uint32Of(bone.parent), bone.scale] + m[0] + m[1] + m[2];
    var b := EncodeBone12(bone);
    assert b[..32] == PadNuls(bone.name, 32);
    assert b[32..] == WordBytes(ws);
    WordsOfWordBytes(ws);
    DecodePaddedName(bone.name, 32, offset);
    assert ws[2..6] == m[0] && ws[6..10] == m[1] && ws[10..14] == m[2];
  }

  /**
   * `sklBone.fromFile` for version 0 (`<4hi22f`): id and parent from the
   * second and third int16, position with z negated, the quaternion
   * (w, x, y, z) = (-f15, f12, f13, -f14), ct with y and z negated, and the
   * eight trailing floats. The name hash is replaced later by the name table.
   */
  function DecodeBone0(b: seq<byte>): (bone: Bone)
    requires |b| == 100
    ensures bone.Bone0? && |bone.extra| == 8 && bone.name == []
  {
    var h := Int16s(Halves(b[..8]));
    var w := Words(b[12..]);
    Bone0(h[1], h[2], [w[1], w[2], Neg(w[3])], w[4..7], [Neg(w[10]), w[7], w[8], Neg(w[9])],
          [w[11], Neg(w[12]), Neg(w[13])], w[14..22], [])
  }

  /** A version-0 bone the 100-byte record can carry. */
  predicate Bone0Fits(bone: Bone) {
    bone.Bone0? && -0x8000 <= bone.parent < 0x8000 && |bone.extra| == 8 && bone.name == []
  }

  /** The 22 floats of a version-0 record that stores `bone`, after `twoPointOne`. */
  function Bone0Words(bone: Bone): (ws: seq<F32>)
    requires Bone0Fits(bone)
    ensures |ws| == 21
  {
    var p, q, t := bone.position, bone.quat, bone.ct;
    [p[0], p[1], Neg(p[2])] + bone.scaling + [q[1], q[2], Neg(q[3]), Neg(q[0])]
    + [t[0], Neg(t[1]), Neg(t[2])] + bone.extra
  }

  /**
   * A version-0 record holding `bone`, with the fields the reader drops
   * (the leading and fourth int16, the name hash, the 2.1 constant) given.
   */
  function Bone0Layout(bone: Bone, zero: int16, unknown: int16, nameHash: int32, twoPointOne: F32)
    : (b: seq<byte>)
    requires Bone0Fits(bone)
    ensures |b| == 100
  {
    HalfBytes(Uint16s([zero, bone.id, bone.parent, unknown])) + I32Bytes(nameHash)
    + WordBytes([twoPointOne] + Bone0Words(bone))
  }

  /** The version-0 reader undoes the stored reordering and negations exactly. */
  lemma DecodeBone0Layout(bone: Bone, zero: int16, unknown: int16, nameHash: int32, twoPointOne: F32)
    requires Bone0Fits(bone)
    ensures DecodeBone0(Bone0Layout(bone, zero, unknown, nameHash, twoPointOne)) == bone
  {
    var b := Bone0Layout(bone, zero, unknown, nameHash, twoPointOne);
    var hs := Uint16s([zero, bone.id, bone.parent, unknown]);
    var ws := [twoPointOne] + Bone0Words(bone);
    assert b[..8] == HalfBytes(hs);
    assert b[12..] == WordBytes(ws);
    HalvesOfHalfBytes(hs);
    WordsOfWordBytes(ws);
    var p, q, t := bone.position, bone.quat, bone.ct;
    NegNeg(p[2]);
    NegNeg(q[0]);
    NegNeg(q[3]);
    NegNeg(t[1]);
    NegNeg(t[2]);
    assert ws[4..7] == bone.scaling;
    assert ws[14..22] == bone.extra;
  }

  function BoneSize(version: int): nat {
    if version == 0 then 100 else 88
  }

  function ReadBone(c: Cursor, version: int): (r: Result<Parsed<Bone>, Error>)
    ensures version !in {0, 1, 2} ==> r == Err(UnsupportedVersion(version))
    ensures version in {0, 1, 2} ==>
              (r.Ok? <==> && c.pos + BoneSize(version) <= |c.data|
                          && (version != 0 ==> Utf8(c.data[c.pos .. c.pos + 32])))
    ensures r.Ok? ==> r.value.rest == c.Skip(BoneSize(version))
    ensures r.Ok? ==> (version == 0 <==> r.value.value.Bone0?)
  {
    if version !in {0, 1, 2} then Err(UnsupportedVersion(version))
    else
    var b :- Take(c, BoneSize(version));
    if version == 0 then Ok(Parsed(DecodeBone0(b.value), b.rest))
    else
      assert b.value[..32] == c.data[c.pos .. c.pos + 32];
      var bone :- DecodeBone12(b.value, c.pos);
      Ok(Parsed(bone, b.rest))
  }

  function BoneReader(version: int): Cursor -> Result<Parsed<Bone>, Error> {
    d => ReadBone(d, version)
  }

  // -----------------------------------------------------------------------
  // The version-0 name table

  function Min(a: int, b: int): int {
    if a <= b then a else b
  }

  /** Reference definition: the first NUL at or after `p`. */
  function FirstNul(data: seq<byte>, p: nat): (r: Option<nat>)
    ensures r.Some? ==> && p <= r.value < |data| && data[r.value] == 0
                        && forall q :: p <= q < r.value ==> data[q] != 0
    ensures r.None? ==> forall q :: p <= q < |data| ==> data[q] != 0
    decreases |data| - p
  {
    if p >= |data| then None else if data[p] == 0 then Some(p) else FirstNul(data, p + 1)
  }

  /**
   * `while name.count(b'\0') == 0: read(1) four times`, from chunk `p` of
   * a name that starts at `start`: the position after the first chunk that
   * holds a NUL. A read at the end of the data returns nothing, so once the
   * data is exhausted `importSKL`'s name loop never ends; that is an error here.
   */
  function ScanChunks(data: seq<byte>, p: nat, start: nat): (r: Result<nat, Error>)
    ensures r.Ok? ==> p < r.value <= |data|
    decreases |data| - p
  {
    if p >= |data| then Err(EndlessNameScan(start))
    else if 0 in data[p .. Min(p + 4, |data|)] then Ok(Min(p + 4, |data|))
    else ScanChunks(data, p + 4, start)
  }

  /** The end of the 4-byte chunk, counted from `p`, that holds position `q`. */
  function ChunkEnd(p: nat, q: nat): (e: nat)
    requires p <= q
    ensures q < e <= q + 4
    decreases q - p
  {
    if q < p + 4 then p + 4 else ChunkEnd(p + 4, q)
  }

  /**
   * The chunk scan stops exactly when a NUL follows, right after the
   * chunk that holds the first one, or at the end of the data.
   */
  lemma {:induction false} ScanChunksFindsNul(data: seq<byte>, p: nat, start: nat)
    ensures ScanChunks(data, p, start).Ok? <==> FirstNul(data, p).Some?
    ensures ScanChunks(data, p, start).Err? ==> ScanChunks(data, p, start).error == EndlessNameScan(start)
    ensures ScanChunks(data, p, start).Ok? ==>
              ScanChunks(data, p, start).value == Min(ChunkEnd(p, FirstNul(data, p).value), |data|)
    decreases |data| - p
  {
    if p < |data| {
      var m := Min(p + 4, |data|);
      if 0 in data[p .. m] {
        var j :| p <= j < m && data[j] == 0 by {
          var i :| 0 <= i < m - p && data[p .. m][i] == 0;
          assert data[p + i] == 0;
        }
      } else {
        forall q | p <= q < m ensures data[q] != 0 {
          assert data[q] == data[p .. m][q - p];
        }
        ScanChunksFindsNul(data, p + 4, start);
      }
    }
  }

  /**
   * `name.index(b'\0')`: the first index of a NUL, or the whole length of
   * a run that has none.
   */
  function IndexOfNul(s: seq<byte>): (i: nat)
    ensures i <= |s| && forall j :: 0 <= j < i ==> s[j] != 0
    ensures i < |s| ==> s[i] == 0
  {
    if s == [] || s[0] == 0 then 0 else IndexOfNul(s[1..]) + 1
  }

  /** The first byte that is not ASCII, which `decode()` on its own rejects. */
  function FirstNonAscii(s: seq<byte>): (r: Option<nat>)
    ensures r.Some? ==> r.value < |s| && s[r.value] >= 0x80 && forall j :: 0 <= j < r.value ==> s[j] < 0x80
    ensures r.None? ==> forall j :: 0 <= j < |s| ==> s[j] < 0x80
  {
    if s == [] then None
    else if s[0] >= 0x80 then Some(0)
    else match FirstNonAscii(s[1..])
      case None => None
      case Some(k) => Some(k + 1)
  }

  /**
   * One name of the table: the bytes before the first NUL, each decoded
   * alone; reading resumes after the chunk that held the NUL.
   */
  function ReadName(c: Cursor): (r: Result<Parsed<seq<byte>>, Error>)
    ensures r.Ok? ==> r.value.rest.data == c.data
  {
    var e :- ScanChunks(c.data, c.pos, c.pos);
    NameOfChunks(c, e)
  }

  /** The name in the chunks `c.pos .. e` the scan read: the bytes before their first NUL. */
  function NameOfChunks(c: Cursor, e: nat): (r: Result<Parsed<seq<byte>>, Error>)
    requires c.pos <= e <= |c.data|
    ensures r.Ok? ==> r.value.rest.data == c.data
  {
    var name :- NameIn(c.data[c.pos .. e], c.pos);
    Ok(Parsed(name, Cursor(c.data, e)))
  }

  /** The bytes of `chunks`, read from position `pos`, before their first NUL, each decoded alone. */
  function NameIn(chunks: seq<byte>, pos: nat): (r: Result<seq<byte>, Error>)
  {
    var name := chunks[..IndexOfNul(chunks)];
    match FirstNonAscii(name)
    case Some(k) => Err(NotAscii(pos + k))
    case None => Ok(name)
  }

  /** The bytes before the first NUL are where `name.index` finds them in the chunks read. */
  lemma IndexOfNulInChunks(data: seq<byte>, p: nat, e: nat)
    requires FirstNul(data, p).Some? && FirstNul(data, p).value < e <= |data|
    ensures data[p .. e][..IndexOfNul(data[p .. e])] == data[p .. FirstNul(data, p).value]
  {
    var q := FirstNul(data, p).value;
    var chunks := data[p .. e];
    assert chunks[q - p] == 0;
  }

  /**
   * A name is read when a NUL follows and every byte before it is ASCII:
   * the bytes up to the first NUL, with reading resuming at the end of the
   * chunk that holds it. Without a NUL the scan never ends.
   */
  lemma ReadNameFindsNul(c: Cursor)
    ensures FirstNul(c.data, c.pos).None? ==> ReadName(c) == Err(EndlessNameScan(c.pos))
    ensures FirstNul(c.data, c.pos).Some? ==>
              var q := FirstNul(c.data, c.pos).value;
              var name := c.data[c.pos .. q];
              var next := Cursor(c.data, Min(ChunkEnd(c.pos, q), |c.data|));
              && (ReadName(c).Ok? <==> FirstNonAscii(name).None?)
              && (ReadName(c).Ok? ==> ReadName(c).value == Parsed(name, next))
  {
    ScanChunksFindsNul(c.data, c.pos, c.pos);
    if FirstNul(c.data, c.pos).Some? {
      IndexOfNulInChunks(c.data, c.pos, ScanChunks(c.data, c.pos, c.pos).value);
    }
  }

  /** A name the table can hold and the reader gives back. */
  predicate TableName(name: seq<byte>) {
    forall j :: 0 <= j < |name| ==> 0 < name[j] < 0x80
  }

  /** How many NULs end a name of `n` bytes in the table: at least one, up to a whole chunk. */
  function PadLength(n: nat): (k: nat)
    ensures 0 < k <= 4
  {
    if n < 4 then 4 - n else PadLength(n - 4)
  }

  /** A name as the table stores it: NUL-terminated and padded to whole chunks. */
  function NameLayout(name: seq<byte>): (b: seq<byte>)
    ensures |b| == |name| + PadLength(|name|)
  {
    name + seq(PadLength(|name|), _ => 0)
  }

  /** A stored name reads back, with reading resuming after its padding. */
  lemma ReadNameAt(c: Cursor, name: seq<byte>)
    requires TableName(name)
    requires At(c, NameLayout(name))
    ensures ReadName(c) == Ok(Parsed(name, c.Skip(|NameLayout(name)|)))
  {
    ScanOfLayout(c.data, c.pos, c.pos, name);
    NameInLayout(name, c.pos);
    ReadNameOfChunks(c, NameLayout(name), name);
  }

  /** The chunk scan over a stored name stops at the end of its padding. */
  lemma {:induction false} ScanOfLayout(data: seq<byte>, p: nat, start: nat, name: seq<byte>)
    requires TableName(name)
    requires p + |NameLayout(name)| <= |data| && data[p .. p + |NameLayout(name)|] == NameLayout(name)
    ensures ScanChunks(data, p, start) == Ok(p + |NameLayout(name)|)
    decreases |name|
  {
    var b := NameLayout(name);
    var chunk := data[p .. Min(p + 4, |data|)];
    if |name| < 4 {
      assert |b| == 4 && chunk == b;
      assert chunk[|name|] == 0;
    } else {
      var rest := name[4..];
      assert NameLayout(name) == name[..4] + NameLayout(rest) by {
        assert name == name[..4] + rest;
      }
      assert chunk == name[..4] by {
        assert chunk == b[..4];
      }
      assert 0 !in chunk by {
        assert forall k :: 0 <= k < 4 ==> chunk[k] == name[k];
      }
      assert data[p + 4 .. p + 4 + |NameLayout(rest)|] == NameLayout(rest) by {
        assert data[p + 4 .. p + 4 + |NameLayout(rest)|] == b[4..];
      }
      ScanOfLayout(data, p + 4, start, rest);
    }
  }

  /** The name in a stored name's chunks is the name. */
  lemma NameInLayout(name: seq<byte>, pos: nat)
    requires TableName(name)
    ensures NameIn(NameLayout(name), pos) == Ok(name)
  {
    NulOfLayout(name);
    assert FirstNonAscii(name).None? by {
      assert forall j :: 0 <= j < |name| ==> name[j] < 0x80;
    }
  }

  /** The first NUL of a stored name is the one right after it. */
  lemma NulOfLayout(name: seq<byte>)
    requires TableName(name)
    ensures NameLayout(name)[..IndexOfNul(NameLayout(name))] == name
  {
    var b := NameLayout(name);
    assert b[|name|] == 0;
    assert forall j :: 0 <= j < |name| ==> b[j] == name[j] && b[j] != 0;
    assert IndexOfNul(b) == |name|;
    assert b[..|name|] == name;
  }

  /** Once the scan has stopped after the chunks `b`, the name is the one `b` holds. */
  lemma ReadNameOfChunks(c: Cursor, b: seq<byte>, name: seq<byte>)
    requires At(c, b)
    requires ScanChunks(c.data, c.pos, c.pos) == Ok(c.pos + |b|)
    requires NameIn(b, c.pos) == Ok(name)
    ensures ReadName(c) == Ok(Parsed(name, c.Skip(|b|)))
  {
    assert c.data[c.pos .. c.pos + |b|] == b;
  }

  function NameReader(): Cursor -> Result<Parsed<seq<byte>>, Error> {
    d => ReadName(d)
  }

  function NameEncoder(): seq<byte> --> seq<byte> {
    n => NameLayout(n)
  }

  /** A table of names written one after another reads back name by name. */
  lemma ReadNamesAt(c: Cursor, names: seq<seq<byte>>)
    requires forall k :: 0 <= k < |names| ==> TableName(names[k])
    requires At(c, Concat(names, NameEncoder()))
    ensures ReadMany(c, |names|, NameReader())
            == Ok(Parsed(names, c.Skip(|Concat(names, NameEncoder())|)))
  {
    forall k | 0 <= k < |names| ensures ReadsBack(NameReader(), NameEncoder(), names[k]) {
      forall d: Cursor | At(d, NameLayout(names[k]))
        ensures ReadName(d) == Ok(Parsed(names[k], d.Skip(|NameLayout(names[k])|)))
      {
        ReadNameAt(d, names[k]);
      }
    }
    ReadManyAt(c, names, NameReader(), NameEncoder());
  }

  // -----------------------------------------------------------------------
  // The version-0 animation-id map

  /** One `<2i` pair of the map block: (sklID, anmID). */
  function ReadIdPair(c: Cursor): (r: Result<Parsed<(int32, int32)>, Error>)
    ensures r.Ok? <==> c.pos + 8 <= |c.data|
    ensures r.Ok? ==> r.value.rest == c.Skip(8)
  {
    var b :- Take(c, 8);
    var w := Int32s(Words(b.value));
    Ok(Parsed((w[0], w[1]), b.rest))
  }

  function IdPairReader(): Cursor -> Result<Parsed<(int32, int32)>, Error> {
    d => ReadIdPair(d)
  }

  /**
   * `boneIDMap[anmID] = sklID` for each pair in order: every animation id
   * that occurs is a key, and the last pair's assignment stands.
   */
  function IdMap(pairs: seq<(int32, int32)>): (r: map<int32, int32>)
    ensures forall k :: 0 <= k < |pairs| ==> pairs[k].1 in r
    ensures pairs != [] ==> r[pairs[|pairs| - 1].1] == pairs[|pairs| - 1].0
  {
    if pairs == [] then map[]
    else
      var last := pairs[|pairs| - 1];
      IdMap(pairs[..|pairs| - 1])[last.1 := last.0]
  }

  /**
   * The map has a key for every animation id that occurs, and each maps to
   * the skeleton id of its last pair: later duplicates overwrite.
   */
  lemma {:induction false} IdMapLastWins(pairs: seq<(int32, int32)>)
    ensures forall a :: a in IdMap(pairs) <==> exists k :: 0 <= k < |pairs| && pairs[k].1 == a
    ensures forall k :: 0 <= k < |pairs| && (forall j :: k < j < |pairs| ==> pairs[j].1 != pairs[k].1)
                        ==> IdMap(pairs)[pairs[k].1] == pairs[k].0
  {
    if pairs != [] {
      var n := |pairs| - 1;
      var init := pairs[..n];
      IdMapLastWins(init);
      forall a ensures a in IdMap(pairs) <==> exists k :: 0 <= k < |pairs| && pairs[k].1 == a {
        if a in IdMap(init) {
          var k :| 0 <= k < |init| && init[k].1 == a;
          assert pairs[k] == init[k];
        }
        if exists k :: 0 <= k < |pairs| && pairs[k].1 == a {
          var k :| 0 <= k < |pairs| && pairs[k].1 == a;
          if k < n {
            assert init[k] == pairs[k];
          }
        }
      }
      forall k | 0 <= k < |pairs| && (forall j :: k < j < |pairs| ==> pairs[j].1 != pairs[k].1)
        ensures IdMap(pairs)[pairs[k].1] == pairs[k].0
      {
        if k < n {
          assert init[k] == pairs[k];
          assert pairs[n].1 != pairs[k].1;
          assert forall j :: k < j < |init| ==> init[j] == pairs[j];
        }
      }
    }
  }

  // -----------------------------------------------------------------------
  // Reorder lists

  /** `boneList[id]`: Python indexing, where `-1` is the last bone. */
  function BoneAt(bones: seq<Bone>, id: int): (r: Result<Bone, Error>)
    ensures r.Ok? <==> -|bones| <= id < |bones|
    ensures r.Err? ==> r.error == BadBoneIndex(id)
  {
    if 0 <= id < |bones| then Ok(bones[id])
    else if -|bones| <= id < 0 then Ok(bones[|bones| + id])
    else Err(BadBoneIndex(id))
  }

  /** A negative id names the same bone as the id one list length higher. */
  lemma BoneAtNegative(bones: seq<Bone>, id: int)
    requires -|bones| <= id < 0
    ensures BoneAt(bones, id) == BoneAt(bones, id + |bones|)
    ensures BoneAt(bones, id).Ok?
  {
  }

  /** `copy()`: name, parent, scale and matrix; a version-0 bone keeps its quaternion too. */
  function Copy(b: Bone): (r: Bone)
    ensures r.name == b.name && r.parent == b.parent
    ensures b.Bone12? ==> r == b
    ensures b.Bone0? ==> r.BoneCopy? && r.scaling == b.scaling && r.quat == b.quat
  {
    match b
    case Bone12(_, _, _, _) => b
    case Bone0(_, parent, _, scaling, quat, _, _, name) => BoneCopy(name, parent, scaling, quat)
    case BoneCopy(_, _, _, _) => b
  }

  /**
   * Version 2's list: up to `n` int32 ids, stopping early when a read finds
   * the data exhausted; each id is looked up as it is read.
   */
  function ReadReorderV2(c: Cursor, n: nat, bones: seq<Bone>): (r: Result<seq<Bone>, Error>)
    ensures r.Ok? ==> |r.value| <= n
    decreases n
  {
    if n == 0 || c.pos >= |c.data| then Ok([])
    else
      var id :- ReadInt32(c);
      var b :- BoneAt(bones, id.value);
      var more :- ReadReorderV2(id.rest, n - 1, bones);
      Ok([Copy(b)] + more)
  }

  /** Version 0's list: exactly `n` int16 ids, each looked up as it is read. */
  function ReadReorderV0(c: Cursor, n: nat, bones: seq<Bone>): (r: Result<seq<Bone>, Error>)
    ensures r.Ok? ==> |r.value| == n
    decreases n
  {
    if n == 0 then Ok([])
    else
      var id :- ReadInt16(c);
      var b :- BoneAt(bones, id.value);
      var more :- ReadReorderV0(id.rest, n - 1, bones);
      Ok([Copy(b)] + more)
  }

  /** Every id names a bone of the list. */
  predicate ValidIds(ids: seq<int>, n: nat) {
    forall k :: 0 <= k < |ids| ==> 0 <= ids[k] < n
  }

  /** The first of the ids that end the data reads back, and the rest follow it. */
  lemma TailWordsAtEnd(c: Cursor, ids: seq<int32>)
    requires ids != []
    requires c.pos <= |c.data| && c.data[c.pos ..] == WordBytes(Uint32s(ids))
    ensures ReadInt32(c) == Ok(Parsed(ids[0], c.Skip(4)))
    ensures c.pos + 4 <= |c.data| && c.data[c.pos + 4 ..] == WordBytes(Uint32s(ids[1..]))
  {
    var b := WordBytes(Uint32s(ids));
    assert Uint32s(ids)[1..] == Uint32s(ids[1..]);
    assert b[..4] == U32Bytes(Uint32Of(ids[0])) && b[4..] == WordBytes(Uint32s(ids[1..]));
    assert At(c, I32Bytes(ids[0])) by {
      assert c.data[c.pos .. c.pos + 4] == b[..4];
    }
    ReadInt32At(c, ids[0]);
    assert c.data[c.pos + 4 ..] == b[4..];
  }

  /** `r` holds copies of the bones `ids` name, in order. */
  predicate CopiesOf(r: seq<Bone>, ids: seq<int>, bones: seq<Bone>)
    requires ValidIds(ids, |bones|)
  {
    |r| == |ids| && forall k :: 0 <= k < |ids| ==> r[k] == Copy(bones[ids[k]])
  }

  lemma CopiesCons(r: seq<Bone>, ids: seq<int>, bones: seq<Bone>)
    requires ids != [] && ValidIds(ids, |bones|)
    requires CopiesOf(r, ids[1..], bones)
    ensures CopiesOf([Copy(bones[ids[0]])] + r, ids, bones)
  {
    var s := [Copy(bones[ids[0]])] + r;
    forall k | 0 <= k < |ids| ensures s[k] == Copy(bones[ids[k]]) {
      if k > 0 {
        assert ids[1..][k - 1] == ids[k];
      }
    }
  }

  /**
   * Reading the ids written at the very end of the data gives copies of
   * the bones they name, however large the stored count: the loop stops
   * at the end of the data.
   */
  lemma {:induction false} ReadReorderV2AtEnd(c: Cursor, ids: seq<int32>, n: nat, bones: seq<Bone>)
    requires ValidIds(ids, |bones|) && |ids| <= n
    requires c.pos <= |c.data| && c.data[c.pos ..] == WordBytes(Uint32s(ids))
    ensures ReadReorderV2(c, n, bones).Ok?
    ensures CopiesOf(ReadReorderV2(c, n, bones).value, ids, bones)
    decreases |ids|, 1
  {
    if ids == [] {
      assert |c.data| == c.pos;
    } else {
      ReorderTail(c, ids, n, bones);
      ReadReorderV2Step(c, ids, n, bones);
    }
  }

  /** After the first of the ids that end the data, the rest end it and are valid. */
  lemma ReorderTail(c: Cursor, ids: seq<int32>, n: nat, bones: seq<Bone>)
    requires ValidIds(ids, |bones|) && |ids| <= n && ids != []
    requires c.pos <= |c.data| && c.data[c.pos ..] == WordBytes(Uint32s(ids))
    ensures ReadInt32(c) == Ok(Parsed(ids[0], c.Skip(4))) && c.pos < |c.data| && n > 0
    ensures ValidIds(ids[1..], |bones|) && |ids[1..]| <= n - 1
    ensures c.Skip(4).pos <= |c.Skip(4).data| && c.Skip(4).data[c.Skip(4).pos ..] == WordBytes(Uint32s(ids[1..]))
  {
    TailWordsAtEnd(c, ids);
    assert forall k :: 0 <= k < |ids| - 1 ==> ids[1..][k] == ids[k + 1];
  }

  /** Reading the first id, then copies of the rest, gives copies of all of them. */
  lemma {:induction false} ReadReorderV2Step(c: Cursor, ids: seq<int32>, n: nat, bones: seq<Bone>)
    requires ids != [] && ValidIds(ids, |bones|) && n > 0 && c.pos < |c.data|
    requires ReadInt32(c) == Ok(Parsed(ids[0], c.Skip(4)))
    requires ValidIds(ids[1..], |bones|) && |ids[1..]| <= n - 1
    requires c.Skip(4).pos <= |c.Skip(4).data| && c.Skip(4).data[c.Skip(4).pos ..] == WordBytes(Uint32s(ids[1..]))
    ensures ReadReorderV2(c, n, bones).Ok?
    ensures CopiesOf(ReadReorderV2(c, n, bones).value, ids, bones)
    decreases |ids|, 0
  {
    ReadReorderV2AtEnd(c.Skip(4), ids[1..], n - 1, bones);
    var more := ReadReorderV2(c.Skip(4), n - 1, bones).value;
    CopiesCons(more, ids, bones);
    ReadReorderV2Cons(c, n, bones, ids[0], more);
  }

  /** One id of the list read: its bone's copy, then the rest of the list. */
  lemma ReadReorderV2Cons(c: Cursor, n: nat, bones: seq<Bone>, id: int, more: seq<Bone>)
    requires n > 0 && c.pos < |c.data| && 0 <= id < |bones|
    requires ReadInt32(c) == Ok(Parsed(id, c.Skip(4)))
    requires ReadReorderV2(c.Skip(4), n - 1, bones) == Ok(more)
    ensures ReadReorderV2(c, n, bones) == Ok([Copy(bones[id])] + more)
  {
    assert BoneAt(bones, id) == Ok(bones[id]);
  }

  /** The first of a run of written int16 ids reads back, and the rest follow it. */
  lemma HeadHalfAt(c: Cursor, ids: seq<int16>)
    requires ids != [] && At(c, HalfBytes(Uint16s(ids)))
    ensures ReadInt16(c) == Ok(Parsed(ids[0], c.Skip(2)))
    ensures At(c.Skip(2), HalfBytes(Uint16s(ids[1..])))
  {
    var b := HalfBytes(Uint16s(ids));
    assert Uint16s(ids)[1..] == Uint16s(ids[1..]);
    assert b == I16Bytes(ids[0]) + HalfBytes(Uint16s(ids[1..]));
    AtAppend(c, I16Bytes(ids[0]), HalfBytes(Uint16s(ids[1..])));
    ReadInt16At(c, ids[0]);
  }

  /** Version 0's list of written int16 ids gives copies of the bones they name. */
  lemma {:induction false} ReadReorderV0At(c: Cursor, ids: seq<int16>, bones: seq<Bone>)
    requires ValidIds(ids, |bones|)
    requires At(c, HalfBytes(Uint16s(ids)))
    ensures ReadReorderV0(c, |ids|, bones).Ok?
    ensures CopiesOf(ReadReorderV0(c, |ids|, bones).value, ids, bones)
    decreases |ids|
  {
    if ids != [] {
      HeadHalfAt(c, ids);
      ReadReorderV0At(c.Skip(2), ids[1..], bones);
      CopiesCons(ReadReorderV0(c.Skip(2), |ids| - 1, bones).value, ids, bones);
    }
  }

  // -----------------------------------------------------------------------
  // Import

  /** What `importSKL` returns: the header, the bones, the reordered copies, and version 0's id map. */
  datatype Skeleton = Skeleton(header: Header, bones: seq<Bone>, reordered: seq<Bone>,
                               boneIdMap: Option<map<int32, int32>>)

  /** `boneList[i].name = ...` for every bone. */
  function SetNames(bones: seq<Bone>, names: seq<seq<byte>>): (r: seq<Bone>)
    requires |names| == |bones|
    ensures |r| == |bones|
  {
    seq(|bones|, k requires 0 <= k < |bones| => bones[k].(name := names[k]))
  }

  /**
   * `importSKL`. Versions 1 and 2 read the bones after the header; version
   * 2 then reads its id list. Version 0 reads the bones at
   * `offsetVertexData`, the id map at `offset1`, the names at
   * `offsetToStrings` and the int16 id list at `offsetAnimationIndices`.
   * Any other version is rejected after its header.
   */
  function ImportSkl(data: seq<byte>): (r: Result<Skeleton, Error>)
    ensures r.Ok? ==> HeaderFits(r.value.header) && !r.value.header.HeaderOther?
    ensures r.Ok? ==> |r.value.bones| == RangeCount(r.value.header.numBones)
    ensures r.Ok? && r.value.header.HeaderV12? ==>
              && r.value.boneIdMap == None
              && (r.value.header.version == 1 ==> r.value.reordered == [])
              && forall k :: 0 <= k < |r.value.bones| ==> r.value.bones[k].Bone12?
    ensures r.Ok? && r.value.header.HeaderV0? ==>
              && r.value.boneIdMap.Some?
              && |r.value.reordered| == RangeCount(r.value.header.numBoneIds)
              && forall k :: 0 <= k < |r.value.bones| ==> r.value.bones[k].Bone0?
    ensures var h := ReadHeader(Cursor(data, 0));
            h.Ok? && h.value.value.HeaderOther? ==> r == Err(UnsupportedVersion(h.value.value.version))
  {
    var h :- ReadHeader(Cursor(data, 0));
    var hd := h.value;
    if hd.HeaderV12? then
      var n := RangeCount(hd.numBones);
      var bones :- ReadMany(h.rest, n, BoneReader(hd.version));
      ReadManyEach(h.rest, n, BoneReader(hd.version), (b: Bone) => b.Bone12?);
      if hd.version == 2 then
        var count :- ReadInt32(bones.rest);
        var re :- ReadReorderV2(count.rest, RangeCount(count.value), bones.value);
        Ok(Skeleton(hd, bones.value, re, None))
      else
        Ok(Skeleton(hd, bones.value, [], None))
    else if hd.HeaderV0? then
      var n := RangeCount(hd.numBones);
      var bones :- ReadMany(h.rest, n, BoneReader(0));
      ReadManyEach(h.rest, n, BoneReader(0), (b: Bone) => b.Bone0?);
      var c1 :- Seek(bones.rest, hd.offset1);
      var pairs :- ReadMany(c1, n, IdPairReader());
      var c2 :- Seek(pairs.rest, hd.offsetToStrings);
      var names :- ReadMany(c2, n, NameReader());
      var named := SetNames(bones.value, names.value);
      var c3 :- Seek(names.rest, hd.offsetAnimationIndices);
      var re :- ReadReorderV0(c3, RangeCount(hd.numBoneIds), named);
      Ok(Skeleton(hd, named, re, Some(IdMap(pairs.value))))
    else
      Err(UnsupportedVersion(hd.version))
  }

  // -----------------------------------------------------------------------
  // Export

  /** A bone of the armature being exported: name, parent's name, and the top rows of `matrix_local`. */
  datatype ArmatureBone = ArmatureBone(name: seq<byte>, parent: Option<seq<byte>>, matrixLocal: Matrix)

  /** The position of the first bone called `name`. */
  function IndexOfName(bs: seq<ArmatureBone>, name: seq<byte>): (r: Option<nat>)
    ensures r.Some? ==> && r.value < |bs| && bs[r.value].name == name
                        && forall j :: 0 <= j < r.value ==> bs[j].name != name
    ensures r.None? ==> forall j :: 0 <= j < |bs| ==> bs[j].name != name
  {
    if bs == [] then None
    else if bs[0].name == name then Some(0)
    else match IndexOfName(bs[1..], name)
      case None => None
      case Some(i) => Some(i + 1)
  }

  /** The parent `exportSKL` stores: the parent's position in the armature, or -1 for a root. */
  function ParentIndex(all: seq<ArmatureBone>, b: ArmatureBone): (r: Result<int, Error>)
    ensures r.Ok? ==> -1 <= r.value < |all|
    ensures r.Ok? && b.parent.Some? ==> 0 <= r.value && all[r.value].name == b.parent.value
    ensures r.Ok? <==> b.parent.None? || IndexOfName(all, b.parent.value).Some?
  {
    match b.parent
    case None => var root: int := -1; Ok(root)
    case Some(p) =>
      match IndexOfName(all, p)
      case None => Err(NoSuchBone(p))
      case Some(i) => Ok(i)
  }

  /** The parents of `bs`, each looked up in the whole armature, the first failure first. */
  function ExportParents(all: seq<ArmatureBone>, bs: seq<ArmatureBone>): (r: Result<seq<int>, Error>)
    ensures r.Ok? <==> forall k :: 0 <= k < |bs| ==> ParentIndex(all, bs[k]).Ok?
    ensures r.Ok? ==> |r.value| == |bs| && forall k :: 0 <= k < |bs| ==> ParentIndex(all, bs[k]) == Ok(r.value[k])
  {
    if bs == [] then Ok([])
    else
      var p :- ParentIndex(all, bs[0]);
      var more :- ExportParents(all, bs[1..]);
      assert forall k :: 1 <= k < |bs| ==> bs[k] == bs[1..][k - 1];
      Ok([p] + more)
  }

  /** The bone positions of the mesh's vertex groups, by name (`objBones[groupName]`). */
  function GroupIndices(all: seq<ArmatureBone>, groups: seq<seq<byte>>): (r: Result<seq<int>, Error>)
    ensures r.Ok? <==> forall k :: 0 <= k < |groups| ==> IndexOfName(all, groups[k]).Some?
    ensures r.Ok? ==> |r.value| == |groups|
                      && forall k :: 0 <= k < |groups| ==> IndexOfName(all, groups[k]) == Some(r.value[k])
  {
    if groups == [] then Ok([])
    else
      match IndexOfName(all, groups[0])
      case None => Err(NoSuchBone(groups[0]))
      case Some(i) =>
        var more :- GroupIndices(all, groups[1..]);
        assert forall k :: 1 <= k < |groups| ==> groups[k] == groups[1..][k - 1];
        Ok([i] + more)
  }

  /** 0.1 rounded to binary32, the scale every exported bone gets. */
  const ExportScale: F32 := 0x3DCC_CCCD

  /**
   * Column 2 of the three rows negated, then row 2 negated: an entry is
   * negated exactly when it lies in row 2 or column 2 but not both, so
   * entry (2, 2) is negated twice and comes out unchanged.
   */
  function ExportMatrix(m: Matrix): (r: Matrix)
    ensures forall j, k :: 0 <= j < 3 && 0 <= k < 4 ==>
              r[j][k] == if (j == 2) != (k == 2) then Neg(m[j][k]) else m[j][k]
  {
    var flipped: Matrix := seq(3, j requires 0 <= j < 3 => m[j][2 := Neg(m[j][2])]);
    NegNeg(m[2][2]);
    FlipRow2(flipped)
  }

  /** Column 2 of the three rows negated: the exported matrix as the importer reads it. */
  function NegColumn2(m: Matrix): Matrix {
    seq(3, j requires 0 <= j < 3 => m[j][2 := Neg(m[j][2])])
  }

  lemma ReadBackExportMatrix(m: Matrix)
    ensures FlipRow2(ExportMatrix(m)) == NegColumn2(m)
    ensures ExportMatrix(m) == FlipRow2(NegColumn2(m))
  {
    FlipRow2Involution(NegColumn2(m));
  }

  /** The bones `exportSKL` writes. */
  function ExportBones(bs: seq<ArmatureBone>, parents: seq<int>): (r: seq<Bone>)
    requires |parents| == |bs|
    requires forall k :: 0 <= k < |parents| ==> -0x8000_0000 <= parents[k] < 0x8000_0000
    ensures |r| == |bs| && forall k :: 0 <= k < |bs| ==> r[k].Bone12?
  {
    seq(|bs|, k requires 0 <= k < |bs| =>
      Bone12(bs[k].name, parents[k], ExportScale, ExportMatrix(bs[k].matrixLocal)))
  }

  function BoneEncoder(): Bone --> seq<byte> {
    (b: Bone) requires b.Bone12? => EncodeBone12(b)
  }

  /**
   * `exportSKL` on the armature's bones, the mesh's vertex-group names and
   * the header re-imported from the file the export is based on: the header with the
   * new bone count, the bones, and the group list. Version 0 is rejected.
   */
  function ExportSkl(bs: seq<ArmatureBone>, groups: seq<seq<byte>>, imported: Result<Header, Error>)
    : (r: Result<seq<byte>, Error>)
    ensures r.Ok? <==> && (forall k :: 0 <= k < |bs| ==> ParentIndex(bs, bs[k]).Ok?)
                       && imported.Ok? && imported.value.HeaderV12? && imported.value.version in {1, 2}
                       && (forall k :: 0 <= k < |groups| ==> IndexOfName(bs, groups[k]).Some?)
                       && InInt32(|bs|) && InInt32(|groups|)
    ensures r.Ok? ==> |r.value| == 20 + 88 * |bs| + 4 + 4 * |groups|
    ensures (forall k :: 0 <= k < |bs| ==> ParentIndex(bs, bs[k]).Ok?) && imported.Ok?
            && !(imported.value.HeaderV12? && imported.value.version in {1, 2})
            ==> r == Err(UnsupportedVersion(imported.value.Version()))
  {
    var parents :- ExportParents(bs, bs);
    var h :- imported;
    if !(h.HeaderV12? && h.version in {1, 2}) then Err(UnsupportedVersion(h.Version()))
    else
      var ids :- GroupIndices(bs, groups);
      if !InInt32(|bs|) then Err(OutOfRange(|bs|))
      else if !InInt32(|groups|) then Err(OutOfRange(|groups|))
      else
        var bones := ExportBones(bs, parents);
        ConcatLength(bones, BoneEncoder(), 88);
        Ok(EncodeHeader(HeaderV12(h.fileType, h.version, h.skeletonHash, |bs|)) + Concat(bones, BoneEncoder())
           + I32Bytes(|groups|) + WordBytes(Uint32s(ids)))
  }

  // -----------------------------------------------------------------------
  // Export, then import

  /** What the importer makes of the exported bones: column 2 of each matrix negated. */
  function ImportedBones(bs: seq<ArmatureBone>, parents: seq<int>): (r: seq<Bone>)
    requires |parents| == |bs|
    requires forall k :: 0 <= k < |parents| ==> -0x8000_0000 <= parents[k] < 0x8000_0000
    ensures |r| == |bs| && forall k :: 0 <= k < |bs| ==> r[k].Bone12?
  {
    seq(|bs|, k requires 0 <= k < |bs| =>
      Bone12(bs[k].name, parents[k], ExportScale, NegColumn2(bs[k].matrixLocal)))
  }

  /** The encoder whose output reads back as the bone itself. */
  function PreFlippedEncoder(): Bone --> seq<byte> {
    (b: Bone) requires b.Bone12? => EncodeBone12(b.(matrix := FlipRow2(b.matrix)))
  }

  lemma BoneReadsBack(x: Bone, version: int)
    requires x.Bone12? && NameFits(x.name, 32) && version in {1, 2}
    ensures ReadsBack(BoneReader(version), PreFlippedEncoder(), x)
  {
    var y := x.(matrix := FlipRow2(x.matrix));
    forall d: Cursor | At(d, EncodeBone12(y))
      ensures ReadBone(d, version) == Ok(Parsed(x, d.Skip(88)))
    {
      TakeAt(d, EncodeBone12(y));
      DecodeEncodeBone12(y, d.pos);
      FlipRow2Involution(x.matrix);
    }
  }

  /** The exported bones are the pre-flipped encodings of the bones the importer makes. */
  lemma ExportedBonesEncode(bs: seq<ArmatureBone>, parents: seq<int>)
    requires |parents| == |bs|
    requires forall k :: 0 <= k < |parents| ==> -0x8000_0000 <= parents[k] < 0x8000_0000
    ensures Concat(ImportedBones(bs, parents), PreFlippedEncoder()) == Concat(ExportBones(bs, parents), BoneEncoder())
    ensures |Concat(ExportBones(bs, parents), BoneEncoder())| == 88 * |bs|
  {
    var xs := ImportedBones(bs, parents);
    var ys := ExportBones(bs, parents);
    forall k | 0 <= k < |bs| ensures PreFlippedEncoder()(xs[k]) == BoneEncoder()(ys[k]) {
      ReadBackExportMatrix(bs[k].matrixLocal);
    }
    ConcatPointwise(xs, PreFlippedEncoder(), ys, BoneEncoder());
    ConcatLength(ys, BoneEncoder(), 88);
  }

  /** The exported bones, read back in a run, come out with column 2 negated. */
  lemma ReadExportedBones(c: Cursor, bs: seq<ArmatureBone>, parents: seq<int>, version: int)
    requires |parents| == |bs| && version in {1, 2}
    requires forall k :: 0 <= k < |parents| ==> -0x8000_0000 <= parents[k] < 0x8000_0000
    requires forall k :: 0 <= k < |bs| ==> NameFits(bs[k].name, 32)
    requires At(c, Concat(ExportBones(bs, parents), BoneEncoder()))
    ensures |Concat(ExportBones(bs, parents), BoneEncoder())| == 88 * |bs|
    ensures ReadMany(c, |bs|, BoneReader(version)) == Ok(Parsed(ImportedBones(bs, parents), c.Skip(88 * |bs|)))
  {
    var xs := ImportedBones(bs, parents);
    assert forall k :: 0 <= k < |xs| ==> xs[k].name == bs[k].name;
    ExportedBonesEncode(bs, parents);
    ReadPreFlippedBones(c, xs, version);
  }

  /** Bones written pre-flipped read back as themselves. */
  lemma ReadPreFlippedBones(c: Cursor, xs: seq<Bone>, version: int)
    requires version in {1, 2}
    requires forall k :: 0 <= k < |xs| ==> xs[k].Bone12? && NameFits(xs[k].name, 32)
    requires At(c, Concat(xs, PreFlippedEncoder()))
    ensures ReadMany(c, |xs|, BoneReader(version)) == Ok(Parsed(xs, c.Skip(|Concat(xs, PreFlippedEncoder())|)))
  {
    forall k | 0 <= k < |xs| ensures ReadsBack(BoneReader(version), PreFlippedEncoder(), xs[k]) {
      BoneReadsBack(xs[k], version);
    }
    ReadManyAt(c, xs, BoneReader(version), PreFlippedEncoder());
  }

  /** The four parts of an exported file lie one after another. */
  lemma ExportParts(data: seq<byte>, e: seq<byte>, b: seq<byte>, n: seq<byte>, w: seq<byte>)
    requires data == e + b + n + w
    ensures At(Cursor(data, 0), e)
    ensures At(Cursor(data, |e|), b)
    ensures At(Cursor(data, |e| + |b|), n)
    ensures data[|e| + |b| + |n| ..] == w
  {
    assert data[..|e|] == e;
    assert data[|e| .. |e| + |b|] == b;
    assert data[|e| + |b| .. |e| + |b| + |n|] == n;
  }

  /**
   * Importing an exported skeleton gives back the new header, every bone
   * with its name, parent position, the 0.1 scale and its matrix with
   * column 2 negated, and, for version 2, the bones the vertex groups name.
   */
  lemma ExportImportSkl(bs: seq<ArmatureBone>, groups: seq<seq<byte>>, h: Header)
    requires ExportSkl(bs, groups, Ok(h)).Ok?
    requires |h.fileType| == 8
    requires forall k :: 0 <= k < |bs| ==> NameFits(bs[k].name, 32)
    ensures ImportSkl(ExportSkl(bs, groups, Ok(h)).value).Ok?
    ensures var s := ImportSkl(ExportSkl(bs, groups, Ok(h)).value).value;
      && s.header == HeaderV12(h.fileType, h.version, h.skeletonHash, |bs|)
      && s.boneIdMap == None
      && |s.bones| == |bs|
      && (forall k :: 0 <= k < |bs| ==>
            s.bones[k] == Bone12(bs[k].name, ParentIndex(bs, bs[k]).value, ExportScale,
                                 NegColumn2(bs[k].matrixLocal)))
      && (h.version == 1 ==> s.reordered == [])
      && (h.version == 2 ==>
            && |s.reordered| == |groups|
            && forall k :: 0 <= k < |groups| ==> s.reordered[k] == s.bones[IndexOfName(bs, groups[k]).value])
  {
    var parents := ExportParents(bs, bs).value;
    var ids := GroupIndices(bs, groups).value;
    var h1 := HeaderV12(h.fileType, h.version, h.skeletonHash, |bs|);
    var e := EncodeHeader(h1);
    var b := Concat(ExportBones(bs, parents), BoneEncoder());
    var n := I32Bytes(|groups|);
    var w := WordBytes(Uint32s(ids));
    var data := ExportSkl(bs, groups, Ok(h)).value;
    assert data == e + b + n + w;
    ExportParts(data, e, b, n, w);
    var c0 := Cursor(data, 0);
    ReadHeaderAt(c0, h1);
    var c1 := c0.Skip(20);
    ReadExportedBones(c1, bs, parents, h.version);
    var bones := ImportedBones(bs, parents);
    if h.version == 2 {
      var c2 := c1.Skip(88 * |bs|);
      ReadInt32At(c2, |groups|);
      ReadReorderV2AtEnd(c2.Skip(4), ids, |groups|, bones);
    }
  }
}
