/**
 * The `.skn` mesh codec: header, material table, metadata block, int16
 * index buffer, vertex records and the version-2+ trailer, read in that
 * order from one byte sequence.
 */
module Skn {
  import opened Wrappers
  import opened Errors
  import opened Bytes
  import opened Records

  /** Revisions the header accepts. */
  predicate KnownVersion(v: int) {
    v == 0 || v == 1 || v == 2 || v == 4
  }

  /** Revisions that store a material count and 84-byte materials. */
  predicate Counted(v: int) {
    v == 1 || v == 2 || v == 4
  }

  /**
   * `header.endTab`: the constructor's `[0, 0, 0]`, or the one-element list
   * wrapping the trailer triple that the importer stores.
   */
  datatype EndTab = DefaultZeros | Wrapped(a: int32, b: int32, c: int32) {
    /** `len(header.endTab)`. */
    function Length(): nat {
      if DefaultZeros? then 3 else 1
    }
  }

  datatype Header = Header(magic: int32, version: int16, numObjects: int16,
                           numMaterials: int, endTab: EndTab)

  /** `sknHeader.toFile`: magic, version and object count, never the material count. */
  function EncodeHeader(h: Header): (b: seq<byte>)
    ensures |b| == 8
  {
    I32Bytes(h.magic) + I16Bytes(h.version) + I16Bytes(h.numObjects)
  }

  /** The material count that follows the header in counted revisions. */
  function CountBytes(h: Header): (b: seq<byte>)
    ensures |b| == (if Counted(h.version) && InInt32(h.numMaterials) then 4 else 0)
  {
    if Counted(h.version) && InInt32(h.numMaterials) then I32Bytes(h.numMaterials) else []
  }

  function ReadHeader(c: Cursor): (r: Result<Parsed<Header>, Error>)
    ensures c.pos + 8 > |c.data| ==> r == Err(Truncated(c.pos, 8))
    ensures r.Ok? ==> KnownVersion(r.value.value.version) && r.value.value.endTab == DefaultZeros
    ensures r.Ok? ==> r.value.rest == c.Skip(if r.value.value.version == 0 then 8 else 12)
    ensures r.Ok? && r.value.value.version == 0 ==> r.value.value.numMaterials == 1
    ensures r.Ok? ==> InInt32(r.value.value.numMaterials)
    ensures c.pos + 8 <= |c.data| && !KnownVersion(Int16Of(LeU16(c.data[c.pos + 4 .. c.pos + 6])))
            ==> r == Err(UnsupportedVersion(Int16Of(LeU16(c.data[c.pos + 4 .. c.pos + 6]))))
  {
    var base :- Take(c, 8);
    var b := base.value;
    assert b[4..6] == c.data[c.pos + 4 .. c.pos + 6];
    var magic := Int32Of(LeU32(b[..4]));
    var version := Int16Of(LeU16(b[4..6]));
    var numObjects := Int16Of(LeU16(b[6..8]));
    if Counted(version) then
      var count :- ReadInt32(base.rest);
      Ok(Parsed(Header(magic, version, numObjects, count.value, DefaultZeros), count.rest))
    else if version == 0 then
      Ok(Parsed(Header(magic, 0, numObjects, 1, DefaultZeros), base.rest))
    else
      Err(UnsupportedVersion(version))
  }

  /** A header the reader can return: what it guarantees of its result. */
  predicate HeaderFits(h: Header) {
    && KnownVersion(h.version)
    && h.endTab == DefaultZeros
    && InInt32(h.numMaterials)
    && (h.version == 0 ==> h.numMaterials == 1)
  }

  lemma ReadHeaderAt(c: Cursor, h: Header)
    requires HeaderFits(h.(endTab := DefaultZeros))
    requires At(c, EncodeHeader(h) + CountBytes(h))
    ensures ReadHeader(c) == Ok(Parsed(h.(endTab := DefaultZeros), c.Skip(|EncodeHeader(h) + CountBytes(h)|)))
  {
    var e := EncodeHeader(h);
    AtAppend(c, e, CountBytes(h));
    TakeAt(c, e);
    assert e[..4] == I32Bytes(h.magic);
    assert e[4..6] == I16Bytes(h.version);
    assert e[6..8] == I16Bytes(h.numObjects);
    if Counted(h.version) {
      ReadInt32At(c.Skip(8), h.numMaterials);
    }
  }

  // -----------------------------------------------------------------------
  // Materials

  datatype Material = Material(name: seq<byte>, startVertex: int, numVertices: int,
                               startIndex: int, numIndices: int)

  /** "lolMaterial", the name every version-0 material receives. */
  const DefaultMaterialName: seq<byte> :=
    [0x6C, 0x6F, 0x6C, 0x4D, 0x61, 0x74, 0x65, 0x72, 0x69, 0x61, 0x6C]

  function MaterialSize(version: int): nat {
    if version == 0 then 8 else 80
  }

  /**
   * `sknMaterial.fromFile` on one record of `MaterialSize(version)` bytes at
   * `offset`; the name field must decode as UTF-8.
   */
  function DecodeMaterial(b: seq<byte>, version: int, offset: nat): (r: Result<Material, Error>)
    requires KnownVersion(version) && |b| == MaterialSize(version)
    ensures r.Ok? <==> version == 0 || Utf8(b[..64])
    ensures r.Err? ==> r.error == NotUtf8(offset)
    ensures r.Ok? && version == 0 ==> && r.value.name == DefaultMaterialName
                                      && r.value.startVertex == 0 && r.value.startIndex == 0
                                      && 0 <= r.value.numIndices < 0x1_0000_0000
                                      && 0 <= r.value.numVertices < 0x1_0000_0000
    ensures r.Ok? && version != 0 ==> && FitsField(r.value.name, 64)
                                      && InInt32(r.value.startVertex) && InInt32(r.value.numVertices)
                                      && InInt32(r.value.startIndex) && InInt32(r.value.numIndices)
  {
    if version == 0 then
      var w := Words(b);
      Ok(Material(DefaultMaterialName, 0, w[1], 0, w[0]))
    else
      var name :- DecodeName(b[..64], offset);
      var w := Int32s(Words(b[64..]));
      Ok(Material(name, w[0], w[1], w[2], w[3]))
  }

  /** A material that a record of the given revision can carry unchanged. */
  predicate MaterialFits(m: Material, version: int) {
    if version == 0 then
      && m.name == DefaultMaterialName && m.startVertex == 0 && m.startIndex == 0
      && 0 <= m.numIndices < 0x1_0000_0000 && 0 <= m.numVertices < 0x1_0000_0000
    else
      && NameFits(m.name, 64)
      && InInt32(m.startVertex) && InInt32(m.numVertices)
      && InInt32(m.startIndex) && InInt32(m.numIndices)
  }

  /**
   * The record layout the reader expects (`<64s4i`, 80 bytes, or `<2I` with the index
   * count first for version 0). `sknMaterial.toFile` cannot produce it: it
   * packs with an attribute that is not a format string.
   */
  function MaterialLayout(m: Material, version: int): (b: seq<byte>)
    requires MaterialFits(m, version)
    ensures |b| == MaterialSize(version)
  {
    if version == 0 then WordBytes([m.numIndices, m.numVertices])
    else PadNuls(m.name, 64)
         + WordBytes(Uint32s([m.startVertex, m.numVertices, m.startIndex, m.numIndices]))
  }

  lemma DecodeMaterialLayout(m: Material, version: int, offset: nat)
    requires KnownVersion(version) && MaterialFits(m, version)
    ensures DecodeMaterial(MaterialLayout(m, version), version, offset) == Ok(m)
  {
    var b := MaterialLayout(m, version);
    if version == 0 {
      WordsOfWordBytes([m.numIndices, m.numVertices]);
    } else {
      var ws := Uint32s([m.startVertex, m.numVertices, m.startIndex, m.numIndices]);
      assert b[..64] == PadNuls(m.name, 64);
      assert b[64..] == WordBytes(ws);
      WordsOfWordBytes(ws);
      DecodePaddedName(m.name, 64, offset);
    }
  }

  function ReadMaterial(c: Cursor, version: int): (r: Result<Parsed<Material>, Error>)
    requires KnownVersion(version)
    ensures r.Ok? <==> && c.pos + MaterialSize(version) <= |c.data|
                       && (version != 0 ==> Utf8(c.data[c.pos .. c.pos + 64]))
    ensures r.Ok? ==> r.value.rest == c.Skip(MaterialSize(version))
  {
    var b :- Take(c, MaterialSize(version));
    assert version != 0 ==> b.value[..64] == c.data[c.pos .. c.pos + 64];
    var m :- DecodeMaterial(b.value, version, c.pos);
    Ok(Parsed(m, b.rest))
  }

  lemma ReadMaterialAt(c: Cursor, m: Material, version: int)
    requires KnownVersion(version) && MaterialFits(m, version)
    requires At(c, MaterialLayout(m, version))
    ensures ReadMaterial(c, version) == Ok(Parsed(m, c.Skip(MaterialSize(version))))
  {
    TakeAt(c, MaterialLayout(m, version));
    DecodeMaterialLayout(m, version, c.pos);
  }

  function MaterialReader(version: int): Cursor -> Result<Parsed<Material>, Error>
    requires KnownVersion(version)
  {
    d => ReadMaterial(d, version)
  }

  function MaterialEncoder(version: int): Material --> seq<byte> {
    m requires MaterialFits(m, version) => MaterialLayout(m, version)
  }

  /** `n` consecutive materials, as the importer's first loop reads them. */
  function ReadMaterials(c: Cursor, version: int, n: nat): (r: Result<Parsed<seq<Material>>, Error>)
    requires KnownVersion(version)
    ensures r.Ok? ==> |r.value.value| == n
  {
    ReadMany(c, n, MaterialReader(version))
  }

  function MaterialsLayout(ms: seq<Material>, version: int): seq<byte>
    requires forall i :: 0 <= i < |ms| ==> MaterialFits(ms[i], version)
  {
    Concat(ms, MaterialEncoder(version))
  }

  lemma ReadMaterialsAt(c: Cursor, ms: seq<Material>, version: int)
    requires KnownVersion(version)
    requires forall i :: 0 <= i < |ms| ==> MaterialFits(ms[i], version)
    requires At(c, MaterialsLayout(ms, version))
    ensures ReadMaterials(c, version, |ms|)
            == Ok(Parsed(ms, c.Skip(|MaterialsLayout(ms, version)|)))
  {
    var read, enc := MaterialReader(version), MaterialEncoder(version);
    forall i | 0 <= i < |ms| ensures ReadsBack(read, enc, ms[i]) {
      forall d: Cursor | At(d, enc(ms[i])) ensures read(d) == Ok(Parsed(ms[i], d.Skip(|enc(ms[i])|))) {
        ReadMaterialAt(d, ms[i], version);
      }
    }
    ReadManyAt(c, ms, read, enc);
  }

  // -----------------------------------------------------------------------
  // Metadata

  type Vec3 = s: seq<F32> | |s| == 3 witness [0, 0, 0]

  datatype Bounds = Bounds(boxMin: Vec3, boxMax: Vec3, spherePos: Vec3, sphereRadius: F32)

  /**
   * `sknMetaData`. Versions 1 and 2 store only the two counts; the other
   * fields keep the constructor defaults (0, 52, 0, unset bounds).
   */
  datatype MetaData = MetaData(part1: int32, numIndices: int, numVertices: int,
                               vertexBlockSize: uint32, containsVertexColor: int32,
                               bounds: Option<Bounds>)

  const DefaultBlockSize: uint32 := 52

  function MetaSize(version: int): nat {
    if version == 4 then 60 else if version == 1 || version == 2 then 8 else 0
  }

  /** `sknMetaData.fromFile` for the revisions that store a block. */
  function DecodeMetaData(b: seq<byte>, version: int): (m: MetaData)
    requires Counted(version) && |b| == MetaSize(version)
    ensures InInt32(m.numIndices) && InInt32(m.numVertices)
    ensures version != 4 ==> && m.part1 == 0 && m.vertexBlockSize == DefaultBlockSize
                             && m.containsVertexColor == 0 && m.bounds == None
    ensures version == 4 <==> m.bounds.Some?
  {
    if version != 4 then
      var w := Int32s(Words(b));
      MetaData(0, w[0], w[1], DefaultBlockSize, 0, None)
    else
      var w := Words(b);
      MetaData(Int32Of(w[0]), Int32Of(w[1]), Int32Of(w[2]), w[3], Int32Of(w[4]),
               Some(Bounds(w[5..8], w[8..11], w[11..14], w[14])))
  }

  /** The fifteen words of a version-4 block, in `<3iIi10f` order. */
  function MetaWords(m: MetaData): (ws: seq<uint32>)
    requires m.bounds.Some? && InInt32(m.numIndices) && InInt32(m.numVertices)
    ensures |ws| == 15
  {
    var bd := m.bounds.value;
    [Uint32Of(m.part1), Uint32Of(m.numIndices), Uint32Of(m.numVertices),
     m.vertexBlockSize, Uint32Of(m.containsVertexColor)]
    + bd.boxMin + bd.boxMax + bd.spherePos + [bd.sphereRadius]
  }

  /**
   * `sknMetaData.toFile`: the two counts for versions 1 and 2, the whole
   * block for version 4; version 0 and unknown revisions raise.
   */
  function EncodeMetaData(m: MetaData, version: int): (r: Result<seq<byte>, Error>)
    ensures r.Ok? <==> Counted(version) && InInt32(m.numIndices) && InInt32(m.numVertices)
                       && (version == 4 ==> m.bounds.Some?)
    ensures r.Ok? ==> |r.value| == MetaSize(version)
    ensures !Counted(version) ==> r == Err(UnsupportedVersion(version))
  {
    if version == 1 || version == 2 then
      if !InInt32(m.numIndices) then Err(OutOfRange(m.numIndices))
      else if !InInt32(m.numVertices) then Err(OutOfRange(m.numVertices))
      else Ok(WordBytes(Uint32s([m.numIndices, m.numVertices])))
    else if version == 4 then
      if m.bounds.None? then Err(MissingBounds)
      else if !InInt32(m.numIndices) then Err(OutOfRange(m.numIndices))
      else if !InInt32(m.numVertices) then Err(OutOfRange(m.numVertices))
      else Ok(WordBytes(MetaWords(m)))
    else
      Err(UnsupportedVersion(version))
  }

  /** Reading back what `toFile` wrote: the counts for versions 1 and 2, every field for 4. */
  lemma DecodeEncodeMetaData(m: MetaData, version: int)
    requires EncodeMetaData(m, version).Ok?
    ensures DecodeMetaData(EncodeMetaData(m, version).value, version).numIndices == m.numIndices
    ensures DecodeMetaData(EncodeMetaData(m, version).value, version).numVertices == m.numVertices
    ensures version == 4 ==> DecodeMetaData(EncodeMetaData(m, version).value, version) == m
  {
    if version == 4 {
      var ws := MetaWords(m);
      WordsOfWordBytes(ws);
      var bd := m.bounds.value;
      assert ws[5..8] == bd.boxMin;
      assert ws[8..11] == bd.boxMax;
      assert ws[11..14] == bd.spherePos;
    } else {
      WordsOfWordBytes(Uint32s([m.numIndices, m.numVertices]));
    }
  }

  /**
   * Metadata as `importSKN` leaves it for a version-0 file, which stores
   * none: the counts are the one material's, with no colour flag and no
   * bounds.
   */
  function MetaDataV0(mat: Material): (m: MetaData)
    ensures m.numIndices == mat.numIndices && m.numVertices == mat.numVertices
    ensures m.containsVertexColor == 0 && m.bounds.None?
  {
    MetaData(0, mat.numIndices, mat.numVertices, DefaultBlockSize, 0, None)
  }

  function ReadMetaData(c: Cursor, version: int, mats: seq<Material>): (r: Result<Parsed<MetaData>, Error>)
    requires KnownVersion(version) && (version == 0 ==> |mats| >= 1)
    ensures r.Ok? ==> r.value.rest == c.Skip(MetaSize(version))
    ensures r.Ok? && version == 0 ==> r.value.value == MetaDataV0(mats[0])
  {
    if version == 0 then Ok(Parsed(MetaDataV0(mats[0]), c))
    else
      var b :- Take(c, MetaSize(version));
      Ok(Parsed(DecodeMetaData(b.value, version), b.rest))
  }

  // -----------------------------------------------------------------------
  // Indices and vertices

  /** `numIndices` signed 16-bit indices. */
  function ReadIndices(c: Cursor, n: nat): (r: Result<Parsed<seq<int16>>, Error>)
    ensures r.Ok? <==> c.pos + 2 * n <= |c.data|
    ensures r.Ok? ==> |r.value.value| == n && r.value.rest == c.Skip(2 * n)
  {
    var b :- Take(c, 2 * n);
    Ok(Parsed(Int16s(Halves(b.value)), b.rest))
  }

  function IndexBytes(xs: seq<int16>): (b: seq<byte>)
    ensures |b| == 2 * |xs|
  {
    HalfBytes(Uint16s(xs))
  }

  lemma ReadIndicesAt(c: Cursor, xs: seq<int16>)
    requires At(c, IndexBytes(xs))
    ensures ReadIndices(c, |xs|) == Ok(Parsed(xs, c.Skip(2 * |xs|)))
  {
    TakeAt(c, IndexBytes(xs));
    HalvesOfHalfBytes(Uint16s(xs));
  }

  type Quad = s: seq<F32> | |s| == 4 witness [0, 0, 0, 0]
  type BoneIds = s: seq<int8> | |s| == 4 witness [0, 0, 0, 0]
  type TexCoords = s: seq<F32> | |s| == 2 witness [0, 0]
  type Rgba = s: seq<byte> | |s| == 4 witness [0, 0, 0, 0]

  /** `sknVertex`; the colour is the four stored bytes (the source divides them by 255). */
  datatype Vertex = Vertex(position: Vec3, boneIndex: BoneIds, weights: Quad,
                           normal: Vec3, texcoords: TexCoords, color: Rgba)

  /** The colour of a vertex read without a colour block (`reset()`'s zeros). */
  const NoColor: Rgba := [0, 0, 0, 0]

  /**
   * The 52-byte `<3f4b4f3f2f` record. Every field is kept: the record is
   * exactly the colourless encoding of the vertex read from it.
   */
  function DecodeVertex(b: seq<byte>, color: Rgba): (v: Vertex)
    requires |b| == 52
    ensures v.color == color && EncodeVertex(v, 0) == b
  {
    var rest := Words(b[16..]);
    var v := Vertex(Words(b[..12]), Int8s(b[12..16]), rest[..4], rest[4..7], rest[7..9], color);
    WordBytesOfWords(b[..12]);
    WordBytesOfWords(b[16..]);
    assert v.weights + v.normal + v.texcoords == rest;
    assert Uint8s(v.boneIndex) == b[12..16];
    assert b == b[..12] + b[12..16] + b[16..];
    v
  }

  /** `sknVertex.fromFile`: the colour block is read only when the flag is positive. */
  function ReadVertex(c: Cursor, flag: int): (r: Result<Parsed<Vertex>, Error>)
    ensures r.Ok? <==> c.pos + (if flag > 0 then 56 else 52) <= |c.data|
    ensures r.Ok? ==> r.value.rest == c.Skip(if flag > 0 then 56 else 52)
    ensures r.Ok? && flag <= 0 ==> r.value.value.color == NoColor
  {
    var body :- Take(c, 52);
    if flag > 0 then
      var rgba :- Take(body.rest, 4);
      Ok(Parsed(DecodeVertex(body.value, rgba.value), rgba.rest))
    else
      Ok(Parsed(DecodeVertex(body.value, NoColor), body.rest))
  }

  /** `sknVertex.toFile`: the colour block is written whenever the flag is non-zero. */
  function EncodeVertex(v: Vertex, flag: int): (b: seq<byte>)
    ensures |b| == if flag != 0 then 56 else 52
  {
    WordBytes(v.position) + Uint8s(v.boneIndex)
    + WordBytes(v.weights + v.normal + v.texcoords)
    + (if flag != 0 then v.color else [])
  }

  lemma DecodeVertexBody(v: Vertex, flag: int)
    ensures DecodeVertex(EncodeVertex(v, flag)[..52], v.color) == v
  {
    var b := EncodeVertex(v, flag)[..52];
    var tail := v.weights + v.normal + v.texcoords;
    assert b[..12] == WordBytes(v.position);
    assert b[12..16] == Uint8s(v.boneIndex);
    assert b[16..] == WordBytes(tail);
    WordsOfWordBytes(v.position);
    WordsOfWordBytes(tail);
    assert tail[..4] == v.weights && tail[4..7] == v.normal && tail[7..9] == v.texcoords;
  }

  /** What reading a written vertex gives back: the colour survives only with a positive flag. */
  function ReadBack(v: Vertex, flag: int): Vertex {
    if flag > 0 then v else v.(color := NoColor)
  }

  lemma ReadVertexAt(c: Cursor, v: Vertex, flag: int)
    requires flag >= 0
    requires At(c, EncodeVertex(v, flag))
    ensures ReadVertex(c, flag) == Ok(Parsed(ReadBack(v, flag), c.Skip(|EncodeVertex(v, flag)|)))
  {
    var e := EncodeVertex(v, flag);
    AtAppend(c, e[..52], e[52..]);
    TakeAt(c, e[..52]);
    DecodeVertexBody(v, flag);
    if flag > 0 {
      TakeAt(c.Skip(52), e[52..]);
    }
  }

  /** A negative flag: `toFile` writes 56 bytes but `fromFile` consumes 52. */
  lemma NegativeColorFlagDesync(c: Cursor, v: Vertex, flag: int)
    requires flag < 0
    ensures |EncodeVertex(v, flag)| == 56
    ensures ReadVertex(c, flag).Ok? ==> ReadVertex(c, flag).value.rest == c.Skip(52)
  {
  }

  /** The writer as evidently intended: a colour block exactly when the reader takes one. */
  function EncodeVertexMatching(v: Vertex, flag: int): (b: seq<byte>)
    ensures |b| == if flag > 0 then 56 else 52
  {
    EncodeVertex(v, if flag > 0 then flag else 0)
  }

  /** With the matching writer every flag round-trips, negative ones included. */
  lemma ReadVertexMatchingAt(c: Cursor, v: Vertex, flag: int)
    requires At(c, EncodeVertexMatching(v, flag))
    ensures ReadVertex(c, flag)
            == Ok(Parsed(ReadBack(v, flag), c.Skip(|EncodeVertexMatching(v, flag)|)))
  {
    var f := if flag > 0 then flag else 0;
    ReadVertexAt(c, v, f);
    assert ReadVertex(c, flag) == ReadVertex(c, f);
  }

  function VertexReader(flag: int): Cursor -> Result<Parsed<Vertex>, Error> {
    d => ReadVertex(d, flag)
  }

  /** The vertex record the reader expects for this flag. */
  function VertexEncoder(flag: int): Vertex -> seq<byte> {
    v => EncodeVertexMatching(v, flag)
  }

  function ReadVertices(c: Cursor, n: nat, flag: int): (r: Result<Parsed<seq<Vertex>>, Error>)
    ensures r.Ok? ==> |r.value.value| == n
  {
    ReadMany(c, n, VertexReader(flag))
  }

  function VerticesLayout(vs: seq<Vertex>, flag: int): seq<byte> {
    Concat(vs, VertexEncoder(flag))
  }

  /** With a flag that is not positive, every vertex read carries the reset colour. */
  lemma ReadVerticesColorless(c: Cursor, n: nat, flag: int)
    requires flag <= 0
    ensures ReadVertices(c, n, flag).Ok? ==>
              forall i :: 0 <= i < n ==> ReadVertices(c, n, flag).value.value[i].color == NoColor
  {
    var read := VertexReader(flag);
    forall d: Cursor | read(d).Ok? ensures Colorless(read(d).value.value) {
    }
    ReadManyEach(c, n, read, Colorless);
  }

  predicate Colorless(v: Vertex) {
    v.color == NoColor
  }

  lemma ReadVerticesAt(c: Cursor, vs: seq<Vertex>, flag: int)
    requires forall i :: 0 <= i < |vs| ==> ReadBack(vs[i], flag) == vs[i]
    requires At(c, VerticesLayout(vs, flag))
    ensures ReadVertices(c, |vs|, flag) == Ok(Parsed(vs, c.Skip(|VerticesLayout(vs, flag)|)))
  {
    var read, enc := VertexReader(flag), VertexEncoder(flag);
    forall i | 0 <= i < |vs| ensures ReadsBack(read, enc, vs[i]) {
      forall d: Cursor | At(d, enc(vs[i])) ensures read(d) == Ok(Parsed(vs[i], d.Skip(|enc(vs[i])|))) {
        ReadVertexMatchingAt(d, vs[i], flag);
      }
    }
    ReadManyAt(c, vs, read, enc);
  }

  // -----------------------------------------------------------------------
  // Trailer and the whole file

  /** The three int32 that follow the vertices from version 2 on, stored wrapped. */
  function ReadTrailer(c: Cursor, version: int): (r: Result<Parsed<EndTab>, Error>)
    ensures r.Ok? ==> (r.value.value.Wrapped? <==> version >= 2)
    ensures r.Ok? ==> r.value.rest == c.Skip(if version >= 2 then 12 else 0)
  {
    if version >= 2 then
      var w :- ReadWords(c, 3);
      Ok(Parsed(Wrapped(Int32Of(w.value[0]), Int32Of(w.value[1]), Int32Of(w.value[2])), w.rest))
    else
      Ok(Parsed(DefaultZeros, c))
  }

  function TrailerLayout(t: EndTab): (b: seq<byte>)
    ensures |b| == if t.Wrapped? then 12 else 0
  {
    if t.Wrapped? then WordBytes(Uint32s([t.a, t.b, t.c])) else []
  }

  lemma ReadTrailerAt(c: Cursor, t: EndTab, version: int)
    requires t.Wrapped? <==> version >= 2
    requires At(c, TrailerLayout(t))
    ensures ReadTrailer(c, version) == Ok(Parsed(t, c.Skip(|TrailerLayout(t)|)))
  {
    if version >= 2 {
      ReadWordsAt(c, Uint32s([t.a, t.b, t.c]));
    }
  }

  /** What follows the metadata block: indices, vertices and the trailer. */
  datatype Geometry = Geometry(indices: seq<int16>, vertices: seq<Vertex>, endTab: EndTab)

  function ReadGeometry(c: Cursor, version: int, meta: MetaData): (r: Result<Parsed<Geometry>, Error>)
    ensures r.Ok? ==> && |r.value.value.indices| == RangeCount(meta.numIndices)
                      && |r.value.value.vertices| == RangeCount(meta.numVertices)
    ensures r.Ok? ==> (r.value.value.endTab.Wrapped? <==> version >= 2)
  {
    var indices :- ReadIndices(c, RangeCount(meta.numIndices));
    var verts :- ReadVertices(indices.rest, RangeCount(meta.numVertices), meta.containsVertexColor);
    var tab :- ReadTrailer(verts.rest, version);
    Ok(Parsed(Geometry(indices.value, verts.value, tab.value), tab.rest))
  }

  datatype Mesh = Mesh(header: Header, materials: seq<Material>, meta: MetaData,
                       indices: seq<int16>, vertices: seq<Vertex>)

  /** `importSKN`. Bytes after the last expected field are ignored. */
  function ImportSkn(data: seq<byte>): (r: Result<Mesh, Error>)
    ensures r.Ok? ==> KnownVersion(r.value.header.version)
    ensures r.Ok? ==> |r.value.materials| == RangeCount(r.value.header.numMaterials)
    ensures r.Ok? ==> && |r.value.indices| == RangeCount(r.value.meta.numIndices)
                      && |r.value.vertices| == RangeCount(r.value.meta.numVertices)
    ensures r.Ok? ==> (r.value.header.endTab.Wrapped? <==> r.value.header.version >= 2)
    ensures r.Ok? && r.value.header.version == 0 ==>
              |r.value.materials| == 1 && r.value.meta == MetaDataV0(r.value.materials[0])
  {
    var h :- ReadHeader(Cursor(data, 0));
    var version := h.value.version;
    var mats :- ReadMaterials(h.rest, version, RangeCount(h.value.numMaterials));
    var meta :- ReadMetaData(mats.rest, version, mats.value);
    var geo :- ReadGeometry(meta.rest, version, meta.value);
    Ok(Mesh(h.value.(endTab := geo.value.endTab), mats.value, meta.value,
            geo.value.indices, geo.value.vertices))
  }

  /** Without a positive colour flag every imported vertex has the reset colour. */
  lemma ImportSknColorless(data: seq<byte>)
    ensures ImportSkn(data).Ok? && ImportSkn(data).value.meta.containsVertexColor <= 0 ==>
              forall i :: 0 <= i < |ImportSkn(data).value.vertices| ==>
                ImportSkn(data).value.vertices[i].color == NoColor
  {
    var r := ImportSkn(data);
    if r.Ok? && r.value.meta.containsVertexColor <= 0 {
      var h := ReadHeader(Cursor(data, 0)).value;
      var mats := ReadMaterials(h.rest, h.value.version, RangeCount(h.value.numMaterials)).value;
      var meta := ReadMetaData(mats.rest, h.value.version, mats.value).value;
      var idx := ReadIndices(meta.rest, RangeCount(meta.value.numIndices)).value;
      ReadVerticesColorless(idx.rest, RangeCount(meta.value.numVertices), meta.value.containsVertexColor);
    }
  }

  /** The metadata block a mesh of this revision stores. */
  predicate MetaFits(m: MetaData, version: int, mats: seq<Material>) {
    if version == 0 then |mats| >= 1 && m == MetaDataV0(mats[0])
    else
      && InInt32(m.numIndices) && InInt32(m.numVertices)
      && (version == 4 <==> m.bounds.Some?)
      && (version != 4 ==> m.part1 == 0 && m.vertexBlockSize == DefaultBlockSize
                           && m.containsVertexColor == 0)
  }

  /** Indices, vertices and trailer that `ReadGeometry` can return for this metadata. */
  predicate GeometryFits(g: Geometry, version: int, meta: MetaData) {
    && (g.endTab.Wrapped? <==> version >= 2)
    && |g.indices| == RangeCount(meta.numIndices)
    && |g.vertices| == RangeCount(meta.numVertices)
    && (forall i :: 0 <= i < |g.vertices| ==>
          ReadBack(g.vertices[i], meta.containsVertexColor) == g.vertices[i])
  }

  function GeometryOf(m: Mesh): Geometry {
    Geometry(m.indices, m.vertices, m.header.endTab)
  }

  /** A mesh that `ImportSkn` can return, field for field. */
  predicate MeshFits(m: Mesh) {
    var h := m.header;
    && HeaderFits(h.(endTab := DefaultZeros))
    && |m.materials| == RangeCount(h.numMaterials)
    && (forall i :: 0 <= i < |m.materials| ==> MaterialFits(m.materials[i], h.version))
    && MetaFits(m.meta, h.version, m.materials)
    && GeometryFits(GeometryOf(m), h.version, m.meta)
  }

  function MetaLayout(m: MetaData, version: int): (b: seq<byte>)
    requires KnownVersion(version)
    requires version != 0 ==> EncodeMetaData(m, version).Ok?
    ensures |b| == MetaSize(version)
  {
    if version == 0 then [] else EncodeMetaData(m, version).value
  }

  function GeometryLayout(g: Geometry, flag: int): seq<byte> {
    IndexBytes(g.indices) + (VerticesLayout(g.vertices, flag) + TrailerLayout(g.endTab))
  }

  /** The bytes of a mesh in the order `importSKN` reads them. */
  function MeshLayout(m: Mesh): seq<byte>
    requires MeshFits(m)
  {
    var h := m.header;
    var v := h.version;
    EncodeHeader(h) + CountBytes(h)
    + (MaterialsLayout(m.materials, v)
    + (MetaLayout(m.meta, v)
    + GeometryLayout(GeometryOf(m), m.meta.containsVertexColor)))
  }

  lemma ReadMetaDataAt(c: Cursor, m: MetaData, version: int, mats: seq<Material>)
    requires KnownVersion(version) && MetaFits(m, version, mats)
    requires At(c, MetaLayout(m, version))
    ensures ReadMetaData(c, version, mats) == Ok(Parsed(m, c.Skip(|MetaLayout(m, version)|)))
  {
    if version != 0 {
      var b := MetaLayout(m, version);
      TakeAt(c, b);
      DecodeEncodeMetaData(m, version);
    }
  }

  lemma ReadGeometryStages(c: Cursor, g: Geometry, version: int, meta: MetaData, c1: Cursor, c2: Cursor)
    requires ReadIndices(c, RangeCount(meta.numIndices)) == Ok(Parsed(g.indices, c1))
    requires ReadVertices(c1, RangeCount(meta.numVertices), meta.containsVertexColor)
             == Ok(Parsed(g.vertices, c2))
    requires ReadTrailer(c2, version).Ok? && ReadTrailer(c2, version).value.value == g.endTab
    ensures ReadGeometry(c, version, meta).Ok?
    ensures ReadGeometry(c, version, meta).value.value == g
  {
  }

  lemma ReadGeometryAt(c: Cursor, g: Geometry, version: int, meta: MetaData, extra: seq<byte>)
    requires GeometryFits(g, version, meta)
    requires At(c, GeometryLayout(g, meta.containsVertexColor) + extra)
    ensures ReadGeometry(c, version, meta).Ok?
    ensures ReadGeometry(c, version, meta).value.value == g
  {
    var flag := meta.containsVertexColor;
    var pIdx := IndexBytes(g.indices);
    var pVerts := VerticesLayout(g.vertices, flag);
    var pTail := TrailerLayout(g.endTab);
    var c1 := c.Skip(|pIdx|);
    var c2 := c1.Skip(|pVerts|);
    assert GeometryLayout(g, flag) + extra == pIdx + (pVerts + (pTail + extra));
    AtAppend(c, pIdx, pVerts + (pTail + extra));
    AtAppend(c1, pVerts, pTail + extra);
    AtAppend(c2, pTail, extra);
    assert ReadIndices(c, RangeCount(meta.numIndices)) == Ok(Parsed(g.indices, c1)) by {
      ReadIndicesAt(c, g.indices);
    }
    assert ReadVertices(c1, RangeCount(meta.numVertices), flag) == Ok(Parsed(g.vertices, c2)) by {
      ReadVerticesAt(c1, g.vertices, flag);
    }
    assert ReadTrailer(c2, version).Ok? && ReadTrailer(c2, version).value.value == g.endTab by {
      ReadTrailerAt(c2, g.endTab, version);
    }
    ReadGeometryStages(c, g, version, meta, c1, c2);
  }

  /** `ImportSkn` succeeds with `m` once each stage reads its part of `m`. */
  lemma ImportSknStages(data: seq<byte>, m: Mesh, c1: Cursor, c2: Cursor, c3: Cursor)
    requires ReadHeader(Cursor(data, 0)) == Ok(Parsed(m.header.(endTab := DefaultZeros), c1))
    requires ReadMaterials(c1, m.header.version, RangeCount(m.header.numMaterials))
             == Ok(Parsed(m.materials, c2))
    requires KnownVersion(m.header.version)
    requires m.header.version == 0 ==> |m.materials| >= 1
    requires ReadMetaData(c2, m.header.version, m.materials) == Ok(Parsed(m.meta, c3))
    requires ReadGeometry(c3, m.header.version, m.meta).Ok?
    requires ReadGeometry(c3, m.header.version, m.meta).value.value == GeometryOf(m)
    ensures ImportSkn(data) == Ok(m)
  {
  }

  /** `ImportSkn` reads `m` from any data that starts with the layout of `m`. */
  lemma ImportSknAt(data: seq<byte>, m: Mesh, extra: seq<byte>)
    requires MeshFits(m)
    requires At(Cursor(data, 0), EncodeHeader(m.header) + CountBytes(m.header)
                                 + (MaterialsLayout(m.materials, m.header.version)
                                 + (MetaLayout(m.meta, m.header.version)
                                 + (GeometryLayout(GeometryOf(m), m.meta.containsVertexColor) + extra))))
    ensures ImportSkn(data) == Ok(m)
  {
    var h := m.header;
    var v := h.version;
    var pHead := EncodeHeader(h) + CountBytes(h);
    var pMats := MaterialsLayout(m.materials, v);
    var pMeta := MetaLayout(m.meta, v);
    var pGeo := GeometryLayout(GeometryOf(m), m.meta.containsVertexColor);
    var c0 := Cursor(data, 0);
    var c1 := c0.Skip(|pHead|);
    var c2 := c1.Skip(|pMats|);
    var c3 := c2.Skip(|pMeta|);
    AtAppend(c0, pHead, pMats + (pMeta + (pGeo + extra)));
    AtAppend(c1, pMats, pMeta + (pGeo + extra));
    AtAppend(c2, pMeta, pGeo + extra);
    assert ReadHeader(c0) == Ok(Parsed(h.(endTab := DefaultZeros), c1)) by {
      ReadHeaderAt(c0, h);
    }
    assert ReadMaterials(c1, v, RangeCount(h.numMaterials)) == Ok(Parsed(m.materials, c2)) by {
      ReadMaterialsAt(c1, m.materials, v);
    }
    assert ReadMetaData(c2, v, m.materials) == Ok(Parsed(m.meta, c3)) by {
      ReadMetaDataAt(c2, m.meta, v, m.materials);
    }
    assert ReadGeometry(c3, v, m.meta).Ok? && ReadGeometry(c3, v, m.meta).value.value == GeometryOf(m) by {
      ReadGeometryAt(c3, GeometryOf(m), v, m.meta, extra);
    }
    ImportSknStages(data, m, c1, c2, c3);
  }

  /** Reading the layout of a mesh gives the mesh back, whatever follows it. */
  lemma ImportSknLayout(m: Mesh, extra: seq<byte>)
    requires MeshFits(m)
    ensures ImportSkn(MeshLayout(m) + extra) == Ok(m)
  {
    var v := m.header.version;
    var pHead := EncodeHeader(m.header) + CountBytes(m.header);
    var pMats := MaterialsLayout(m.materials, v);
    var pMeta := MetaLayout(m.meta, v);
    var pGeo := GeometryLayout(GeometryOf(m), m.meta.containsVertexColor);
    assert MeshLayout(m) == pHead + (pMats + (pMeta + pGeo));
    AppendAssoc(pHead, pMats, pMeta, pGeo, extra);
    ImportSknAt(MeshLayout(m) + extra, m, extra);
  }
}
