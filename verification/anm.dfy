/**
 * The `.anm` animation codec. Every revision starts with an 8-byte id and
 * an int32 version. Versions 0, 2 and 3 add four int32 fields and then,
 * bone after bone, a 36-byte name record followed by one 28-byte record
 * per frame: a quaternion stored as (x, y, -z, -w) and a position whose z
 * is stored negated. Version 1 is always rejected; version 4 is read as a
 * header with no bones.
 */
module Anm {
  import opened Wrappers
  import opened Errors
  import opened Bytes
  import opened Records
  import Skl

  // -----------------------------------------------------------------------
  // Header

  /**
   * `anmHeader` after `fromFile`. `Header4` keeps the raw `timePerFrame`
   * word next to the frame rate the reader derives from it.
   */
  datatype Header =
    | Header023(id: seq<byte>, version: int, magic: int, numBones: int, numFrames: int,
                playbackFps: int)
    | Header4(id: seq<byte>, version: int, magic: int, unknown: seq<F32>, numBones: int,
              numFrames: int, timePerFrame: F32, playbackFps: int, offsets: seq<int>,
              positionOffset: int, orientationOffset: int, indexOffset: int, offsets2: seq<int>)

  /** Binary32 zero of either sign: `1.0 / t` raises ZeroDivisionError. */
  predicate IsZeroF32(t: F32) {
    t == 0 || t == SignBit
  }

  /** Binary32 NaN: all exponent bits set and a non-zero fraction; `round` raises ValueError. */
  predicate IsNaNF32(t: F32) {
    t % SignBit > 0x7F80_0000
  }

  /** The 64 bytes `<i3f2if9i` of a version-4 header. */
  function DecodeHeader4(id: seq<byte>, b: seq<byte>, fps: int): (h: Header)
    requires |b| == 64
    ensures h.Header4? && h.version == 4 && |h.unknown| == 3 && |h.offsets| == 3 && |h.offsets2| == 3
    ensures h.timePerFrame == Words(b)[6] && h.playbackFps == fps
  {
    var w := Words(b);
    var x := Int32s(w);
    Header4(id, 4, x[0], w[1..4], x[4], x[5], w[6], fps, x[7..10], x[10], x[11], x[12], x[13..16])
  }

  /**
   * `anmHeader.fromFile`, which seeks to the start of the file first.
   * `roundRecip` stands for `round(1.0 / t)` on a time per frame that is
   * neither zero nor NaN.
   */
  function ReadHeader(data: seq<byte>, roundRecip: F32 -> int): (r: Result<Parsed<Header>, Error>)
    ensures |data| < 12 ==> r == Err(Truncated(0, 12))
    ensures r.Ok? ==> |r.value.value.id| == 8 && r.value.value.version in {0, 2, 3, 4}
    ensures r.Ok? && r.value.value.Header023? ==>
              && r.value.rest == Cursor(data, 28)
              && InInt32(r.value.value.numBones) && InInt32(r.value.value.numFrames)
    ensures r.Ok? ==> (r.value.value.Header4? <==> r.value.value.version == 4)
    ensures r.Ok? && r.value.value.Header4? ==>
              && r.value.rest == Cursor(data, 76)
              && !IsZeroF32(r.value.value.timePerFrame) && !IsNaNF32(r.value.value.timePerFrame)
              && r.value.value.playbackFps == roundRecip(r.value.value.timePerFrame)
    ensures |data| >= 12 && Int32Of(LeU32(data[8..12])) == 1 ==>
              r.Err? && (|data| >= 68 ==> r.error == UnsupportedVersion(1))
    ensures |data| >= 12 && Int32Of(LeU32(data[8..12])) !in {0, 1, 2, 3, 4} ==>
              r == Err(UnsupportedVersion(Int32Of(LeU32(data[8..12]))))
    ensures |data| >= 76 && Int32Of(LeU32(data[8..12])) == 4 ==>
              (r.Ok? <==> !IsZeroF32(Words(data[12..76])[6]) && !IsNaNF32(Words(data[12..76])[6]))
  {
    var base :- Take(Cursor(data, 0), 12);
    var id := base.value[..8];
    var version := Int32Of(LeU32(base.value[8..]));
    if version in {0, 2, 3} then
      var rest :- Take(base.rest, 16);
      var x := Int32s(Words(rest.value));
      Ok(Parsed(Header023(id, version, x[0], x[1], x[2], x[3]), rest.rest))
    else if version == 1 then
      var _ :- Take(base.rest, 56);
      Err(UnsupportedVersion(1))
    else if version == 4 then
      var rest :- Take(base.rest, 64);
      var t := Words(rest.value)[6];
      if IsZeroF32(t) || IsNaNF32(t) then Err(BadTimePerFrame(t))
      else Ok(Parsed(DecodeHeader4(id, rest.value, roundRecip(t)), rest.rest))
    else
      Err(UnsupportedVersion(version))
  }

  /** The header fields `toFile` packs as int32, one after another. */
  function WrittenFields(h: Header): seq<int> {
    [h.version] + (if h.version in {0, 2, 3} then [h.magic, h.numBones, h.numFrames, h.playbackFps] else [])
  }

  /** The first field that does not fit `struct.pack('i')`, if any. */
  function FirstUnfit(xs: seq<int>): (r: Option<int>)
    ensures r.None? <==> forall i :: 0 <= i < |xs| ==> InInt32(xs[i])
    ensures r.Some? ==> r.value in xs && !InInt32(r.value)
  {
    if xs == [] then None
    else if !InInt32(xs[0]) then Some(xs[0])
    else FirstUnfit(xs[1..])
  }

  /**
   * `anmHeader.toFile`: the padded id and the version, then magic, bone
   * count, frame count and frame rate for versions 0, 2 and 3 only.
   */
  function EncodeHeader(h: Header): (r: Result<seq<byte>, Error>)
    ensures r.Ok? <==> FirstUnfit(WrittenFields(h)).None?
    ensures r.Ok? ==> |r.value| == 4 * |WrittenFields(h)| + 8
    ensures r.Err? ==> r.error == OutOfRange(FirstUnfit(WrittenFields(h)).value)
  {
    var fields := WrittenFields(h);
    match FirstUnfit(fields)
    case Some(x) => Err(OutOfRange(x))
    case None => Ok(PadNuls(h.id, 8) + WordBytes(Uint32s(fields)))
  }

  /** The 28 bytes of a version-0, -2 or -3 header: id and version, then four int32 fields. */
  lemma EncodeHeader023Parts(h: Header)
    requires h.Header023? && h.version in {0, 2, 3} && |h.id| == 8 && EncodeHeader(h).Ok?
    ensures EncodeHeader(h).value
         == (h.id + I32Bytes(h.version)) + WordBytes(Uint32s([h.magic, h.numBones, h.numFrames, h.playbackFps]))
  {
    var fields := WrittenFields(h);
    assert fields == [h.version, h.magic, h.numBones, h.numFrames, h.playbackFps];
    var tail := Uint32s(fields[1..]);
    assert Uint32s(fields) == [Uint32Of(h.version)] + tail;
    WordBytesAppend([Uint32Of(h.version)], tail);
  }

  /** A version-0, -2 or -3 header with an 8-byte id reads back exactly as written. */
  lemma ReadHeaderAt(data: seq<byte>, h: Header, roundRecip: F32 -> int)
    requires h.Header023? && h.version in {0, 2, 3} && |h.id| == 8
    requires EncodeHeader(h).Ok? && At(Cursor(data, 0), EncodeHeader(h).value)
    ensures ReadHeader(data, roundRecip) == Ok(Parsed(h, Cursor(data, 28)))
  {
    var front := h.id + I32Bytes(h.version);
    var xs := [h.magic, h.numBones, h.numFrames, h.playbackFps];
    var ws := Uint32s(xs);
    EncodeHeader023Parts(h);
    AtAppend(Cursor(data, 0), front, WordBytes(ws));
    TakeAt(Cursor(data, 0), front);
    TakeAt(Cursor(data, 12), WordBytes(ws));
    WordsOfWordBytes(ws);
    assert front[..8] == h.id && front[8..] == I32Bytes(h.version);
    assert Int32s(ws) == xs;
    ReadHeader023OfParts(data, roundRecip, front, WordBytes(ws), xs);
    assert h == Header023(h.id, h.version, xs[0], xs[1], xs[2], xs[3]);
  }

  /** The reader's version-0, -2 or -3 path, given the two blocks it takes. */
  lemma ReadHeader023OfParts(data: seq<byte>, roundRecip: F32 -> int, front: seq<byte>, b: seq<byte>,
                             xs: seq<int32>)
    requires Take(Cursor(data, 0), 12) == Ok(Parsed(front, Cursor(data, 12)))
    requires Int32Of(LeU32(front[8..])) in {0, 2, 3}
    requires Take(Cursor(data, 12), 16) == Ok(Parsed(b, Cursor(data, 28)))
    requires Int32s(Words(b)) == xs
    ensures var r := ReadHeader(data, roundRecip);
      && r.Ok? && r.value.rest == Cursor(data, 28)
      && r.value.value == Header023(front[..8], Int32Of(LeU32(front[8..])), xs[0], xs[1], xs[2], xs[3])
  {
  }

  // -----------------------------------------------------------------------
  // Frames

  /** One sample of a bone: a `mathutils.Quaternion` (w, x, y, z) and a position. */
  datatype Frame = Frame(orientation: Skl.Quat, position: Skl.Vec3)

  /** `position.z *= -1`. */
  function NegZ(p: Skl.Vec3): (r: Skl.Vec3)
    ensures r[0] == p[0] && r[1] == p[1] && r[2] == Neg(p[2])
  {
    [p[0], p[1], Neg(p[2])]
  }

  lemma NegZInvolution(p: Skl.Vec3)
    ensures NegZ(NegZ(p)) == p
  {
    NegNeg(p[2]);
  }

  /**
   * The seven floats `f` of a frame record, as the reader turns them into a
   * sample. Nothing is lost: every record is the encoding of the sample
   * read from it, once z is negated back.
   */
  function DecodeFrame(b: seq<byte>): (f: Frame)
    requires |b| == 28
    ensures EncodeFrame(Frame(f.orientation, NegZ(f.position))) == b
  {
    var w := Words(b);
    var f := Frame([Neg(w[3]), w[0], w[1], Neg(w[2])], NegZ(w[4..7]));
    NegNeg(w[2]);
    NegNeg(w[3]);
    NegZInvolution(w[4..7]);
    assert FrameWords(Frame(f.orientation, NegZ(f.position))) == w;
    WordBytesOfWords(b);
    f
  }

  /** `anmBone.frameDataFromFile`: one 28-byte record, for versions 0, 2 and 3 only. */
  function ReadFrame(c: Cursor, version: int): (r: Result<Parsed<Frame>, Error>)
    ensures version !in {0, 2, 3} ==> r == Err(UnsupportedVersion(version))
    ensures version in {0, 2, 3} ==> (r.Ok? <==> c.pos + 28 <= |c.data|)
    ensures r.Ok? ==> r.value.rest == c.Skip(28)
  {
    if version !in {0, 2, 3} then Err(UnsupportedVersion(version))
    else
      var b :- Take(c, 28);
      Ok(Parsed(DecodeFrame(b.value), b.rest))
  }

  function FrameReader(version: int): Cursor -> Result<Parsed<Frame>, Error> {
    d => ReadFrame(d, version)
  }

  /** The seven floats the writer packs for one frame: (x, y, -z, -w, px, py, pz). */
  function FrameWords(f: Frame): (ws: seq<F32>)
    ensures |ws| == 7
  {
    var o := f.orientation;
    [o[1], o[2], Neg(o[3]), Neg(o[0])] + f.position
  }

  /** The record `toFile` writes for one frame. */
  function EncodeFrame(f: Frame): (b: seq<byte>)
    ensures |b| == 28
  {
    WordBytes(FrameWords(f))
  }

  function FrameEncoder(): Frame -> seq<byte> {
    f => EncodeFrame(f)
  }

  /** Decoding a written frame gives the orientation back and the position with z negated. */
  lemma DecodeEncodeFrame(f: Frame)
    ensures DecodeFrame(EncodeFrame(f)) == Frame(f.orientation, NegZ(f.position))
  {
    WordsOfWordBytes(FrameWords(f));
    NegNeg(f.orientation[0]);
    NegNeg(f.orientation[3]);
    assert FrameWords(f)[4..7] == f.position;
  }

  /** A written frame, wherever it lies, reads back with its position's z negated. */
  lemma ReadFrameAt(c: Cursor, f: Frame, version: int)
    requires version in {0, 2, 3} && At(c, EncodeFrame(f))
    ensures ReadFrame(c, version) == Ok(Parsed(Frame(f.orientation, NegZ(f.position)), c.Skip(28)))
  {
    TakeAt(c, EncodeFrame(f));
    DecodeEncodeFrame(f);
  }

  // -----------------------------------------------------------------------
  // Bone tracks

  /**
   * `anmBone`: the name, the unknown int32 (2 for a root bone in exported
   * files, 0 otherwise) and the samples `add_frame` appended.
   */
  datatype Track = Track(name: seq<byte>, unknown: int32, orientations: seq<Skl.Quat>,
                         positions: seq<Skl.Vec3>)

  /** Both sample lists have one entry per frame. */
  predicate Aligned(t: Track) {
    |t.orientations| == |t.positions|
  }

  /** `add_frame`: appends the position and the orientation together. */
  function AddFrame(t: Track, position: Skl.Vec3, orientation: Skl.Quat): (r: Track)
    ensures Aligned(t) ==> Aligned(r)
    ensures r.name == t.name && r.unknown == t.unknown
    ensures |r.positions| == |t.positions| + 1 && |r.orientations| == |t.orientations| + 1
  {
    t.(orientations := t.orientations + [orientation], positions := t.positions + [position])
  }

  /** `get_frame`: Python indexing into both lists, negative numbers counting from the end. */
  function GetFrame(t: Track, n: int): (r: Result<(Skl.Vec3, Skl.Quat), Error>)
    ensures r.Ok? <==> (-|t.positions| <= n < |t.positions| && -|t.orientations| <= n < |t.orientations|)
    ensures r.Err? ==> r.error == NoSuchFrame(n)
  {
    if -|t.positions| <= n < |t.positions| && -|t.orientations| <= n < |t.orientations| then
      var i := if n < 0 then |t.positions| + n else n;
      var j := if n < 0 then |t.orientations| + n else n;
      Ok((t.positions[i], t.orientations[j]))
    else Err(NoSuchFrame(n))
  }

  /** The frame just added is the last one, at its own number and at -1. */
  lemma GetAddedFrame(t: Track, position: Skl.Vec3, orientation: Skl.Quat)
    requires Aligned(t)
    ensures GetFrame(AddFrame(t, position, orientation), |t.positions|) == Ok((position, orientation))
    ensures GetFrame(AddFrame(t, position, orientation), -1) == Ok((position, orientation))
  {
  }

  /** Adding a frame leaves every earlier frame where it was. */
  lemma GetEarlierFrame(t: Track, position: Skl.Vec3, orientation: Skl.Quat, n: int)
    requires Aligned(t) && 0 <= n < |t.positions|
    ensures GetFrame(AddFrame(t, position, orientation), n) == GetFrame(t, n)
    ensures GetFrame(t, n) == Ok((t.positions[n], t.orientations[n]))
  {
  }

  /** The track that `add_frame` builds from the samples in order. */
  function TrackOf(name: seq<byte>, unknown: int32, fs: seq<Frame>): (t: Track)
    ensures Aligned(t) && |t.positions| == |fs|
    ensures t.name == name && t.unknown == unknown
    ensures forall j :: 0 <= j < |fs| ==> GetFrame(t, j) == Ok((fs[j].position, fs[j].orientation))
  {
    Track(name, unknown, seq(|fs|, j requires 0 <= j < |fs| => fs[j].orientation),
          seq(|fs|, j requires 0 <= j < |fs| => fs[j].position))
  }

  /** `TrackOf` is the `add_frame` loop: one more sample is one more `add_frame`. */
  lemma TrackOfSnoc(name: seq<byte>, unknown: int32, fs: seq<Frame>, f: Frame)
    ensures TrackOf(name, unknown, fs + [f])
         == AddFrame(TrackOf(name, unknown, fs), f.position, f.orientation)
  {
    var a := TrackOf(name, unknown, fs + [f]);
    var b := AddFrame(TrackOf(name, unknown, fs), f.position, f.orientation);
    assert a.orientations == b.orientations;
    assert a.positions == b.positions;
  }

  /**
   * The samples `toFile` writes, one per orientation, each paired with the
   * position of the same number.
   */
  function FramesOf(t: Track): (fs: seq<Frame>)
    requires |t.orientations| <= |t.positions|
    ensures |fs| == |t.orientations|
    ensures forall j :: 0 <= j < |fs| ==> fs[j] == Frame(t.orientations[j], t.positions[j])
    ensures Aligned(t) ==> TrackOf(t.name, t.unknown, fs) == t
  {
    var fs := seq(|t.orientations|, j requires 0 <= j < |t.orientations| => Frame(t.orientations[j], t.positions[j]));
    assert TrackOf(t.name, t.unknown, fs).orientations == t.orientations;
    assert Aligned(t) ==> TrackOf(t.name, t.unknown, fs).positions == t.positions;
    fs
  }

  /**
   * `anmBone.metaDataFromFile`: a 32-byte name that must decode as UTF-8,
   * with trailing NULs stripped, and an int32.
   */
  function ReadMeta(c: Cursor, version: int): (r: Result<Parsed<(seq<byte>, int32)>, Error>)
    ensures version !in {0, 2, 3} ==> r == Err(UnsupportedVersion(version))
    ensures version in {0, 2, 3} ==>
              (r.Ok? <==> c.pos + 36 <= |c.data| && Utf8(c.data[c.pos .. c.pos + 32]))
    ensures version in {0, 2, 3} && c.pos + 36 <= |c.data| && !Utf8(c.data[c.pos .. c.pos + 32]) ==>
              r == Err(NotUtf8(c.pos))
    ensures r.Ok? ==> r.value.rest == c.Skip(36) && |r.value.value.0| <= 32
                      && NoTrailingNul(r.value.value.0)
  {
    if version !in {0, 2, 3} then Err(UnsupportedVersion(version))
    else
      var b :- Take(c, 36);
      assert b.value[..32] == c.data[c.pos .. c.pos + 32];
      var name :- DecodeName(b.value[..32], c.pos);
      Ok(Parsed((name, Int32Of(LeU32(b.value[32..]))), b.rest))
  }

  /** The 36 bytes `toFile` writes before the frames. */
  function EncodeMeta(name: seq<byte>, unknown: int32): (b: seq<byte>)
    ensures |b| == 36
  {
    PadNuls(name, 32) + I32Bytes(unknown)
  }

  /** A UTF-8 name that fits the 32-byte field and does not end in NUL reads back unchanged. */
  lemma ReadMetaAt(c: Cursor, name: seq<byte>, unknown: int32, version: int)
    requires version in {0, 2, 3} && NameFits(name, 32) && At(c, EncodeMeta(name, unknown))
    ensures ReadMeta(c, version) == Ok(Parsed((name, unknown), c.Skip(36)))
  {
    var e := EncodeMeta(name, unknown);
    TakeAt(c, e);
    assert e[..32] == PadNuls(name, 32);
    assert e[32..] == I32Bytes(unknown);
    DecodePaddedName(name, 32, c.pos);
  }

  /** One bone of a version-0, -2 or -3 file: its record, then `numFrames` frames. */
  function ReadTrack(c: Cursor, version: int, numFrames: int): (r: Result<Parsed<Track>, Error>)
    ensures r.Ok? ==> Aligned(r.value.value) && |r.value.value.positions| == RangeCount(numFrames)
    ensures r.Ok? ==> r.value.rest == c.Skip(36 + 28 * RangeCount(numFrames))
  {
    var meta :- ReadMeta(c, version);
    var frames :- ReadMany(meta.rest, RangeCount(numFrames), FrameReader(version));
    RestAfterFrames(meta.rest, RangeCount(numFrames), version);
    Ok(Parsed(TrackOf(meta.value.0, meta.value.1, frames.value), frames.rest))
  }

  /** A run of frame reads advances 28 bytes per frame. */
  lemma {:induction false} RestAfterFrames(c: Cursor, n: nat, version: int)
    ensures ReadMany(c, n, FrameReader(version)).Ok? ==>
              ReadMany(c, n, FrameReader(version)).value.rest == c.Skip(28 * n)
    decreases n
  {
    if n > 0 && ReadFrame(c, version).Ok? {
      RestAfterFrames(c.Skip(28), n - 1, version);
    }
  }

  function TrackReader(version: int, numFrames: int): Cursor -> Result<Parsed<Track>, Error> {
    d => ReadTrack(d, version, numFrames)
  }

  // -----------------------------------------------------------------------
  // Import

  /** What `importANM` returns: the header and the bone list. */
  datatype Animation = Animation(header: Header, tracks: seq<Track>)

  /**
   * `importANM`: the header, then for versions 0, 2 and 3 `numBones`
   * tracks, bone-major; version 4 gives no bones.
   */
  function ImportAnm(data: seq<byte>, roundRecip: F32 -> int): (r: Result<Animation, Error>)
    ensures r.Ok? ==> r.value.header.version in {0, 2, 3, 4}
    ensures r.Ok? && r.value.header.version == 4 ==> r.value.tracks == []
    ensures r.Ok? && r.value.header.version != 4 ==>
              && |r.value.tracks| == RangeCount(r.value.header.numBones)
              && forall i :: 0 <= i < |r.value.tracks| ==>
                   Aligned(r.value.tracks[i]) && |r.value.tracks[i].positions| == RangeCount(r.value.header.numFrames)
  {
    var parsed :- ReadHeader(data, roundRecip);
    var h := parsed.value;
    if h.version in {0, 1, 2, 3} then
      var tracks :- ReadMany(parsed.rest, RangeCount(h.numBones), TrackReader(h.version, h.numFrames));
      ReadManyEach(parsed.rest, RangeCount(h.numBones), TrackReader(h.version, h.numFrames),
                   (t: Track) => Aligned(t) && |t.positions| == RangeCount(h.numFrames));
      Ok(Animation(h, tracks.value))
    else if h.version == 4 then Ok(Animation(h, []))
    else Err(UnsupportedVersion(h.version))
  }

  // -----------------------------------------------------------------------
  // Writing

  /** Every position with its z negated: what reading back a written track gives. */
  function FlipTrack(t: Track): (r: Track)
    ensures r.name == t.name && r.unknown == t.unknown && r.orientations == t.orientations
    ensures |r.positions| == |t.positions|
    ensures forall j :: 0 <= j < |t.positions| ==> r.positions[j] == NegZ(t.positions[j])
  {
    t.(positions := seq(|t.positions|, j requires 0 <= j < |t.positions| => NegZ(t.positions[j])))
  }

  lemma FlipTrackInvolution(t: Track)
    ensures FlipTrack(FlipTrack(t)) == t
  {
    forall j | 0 <= j < |t.positions| ensures FlipTrack(FlipTrack(t)).positions[j] == t.positions[j] {
      NegZInvolution(t.positions[j]);
    }
  }

  /** The bytes `anmBone.toFile` writes for a version-0, -2 or -3 file. */
  function TrackBytes(t: Track): (b: seq<byte>)
    requires |t.orientations| <= |t.positions|
    ensures |b| == 36 + 28 * |t.orientations|
  {
    ConcatLength(FramesOf(t), FrameEncoder(), 28);
    EncodeMeta(t.name, t.unknown) + Concat(FramesOf(t), FrameEncoder())
  }

  function TrackEncoder(): Track --> seq<byte> {
    (t: Track) requires |t.orientations| <= |t.positions| => TrackBytes(t)
  }

  /**
   * `anmBone.toFile`: nothing for a version other than 0, 2 or 3, and an
   * IndexError when there are fewer positions than orientations.
   */
  function EncodeTrack(t: Track, version: int): (r: Result<seq<byte>, Error>)
    ensures version !in {0, 2, 3} ==> r == Ok([])
    ensures version in {0, 2, 3} ==> (r.Ok? <==> |t.orientations| <= |t.positions|)
    ensures r.Err? ==> r.error == NoSuchFrame(|t.positions|)
  {
    if version !in {0, 2, 3} then Ok([])
    else if |t.positions| < |t.orientations| then Err(NoSuchFrame(|t.positions|))
    else Ok(TrackBytes(t))
  }

  /** No bone is short of positions for its orientations. */
  predicate TracksWritable(ts: seq<Track>) {
    forall i :: 0 <= i < |ts| ==> |ts[i].orientations| <= |ts[i].positions|
  }

  /**
   * Every bone's `toFile` in order, stopping at the first that raises:
   * that is some bone short of positions, and only in a version whose
   * bones are written at all.
   */
  function EncodeTracks(ts: seq<Track>, version: int): (r: Result<seq<byte>, Error>)
    ensures r.Ok? <==> (version in {0, 2, 3} ==> TracksWritable(ts))
    ensures version !in {0, 2, 3} ==> r == Ok([])
    decreases |ts|
  {
    if ts == [] then Ok([])
    else
      var first :- EncodeTrack(ts[0], version);
      var rest :- EncodeTracks(ts[1..], version);
      assert forall i :: 1 <= i < |ts| ==> ts[i] == ts[1..][i - 1];
      assert version !in {0, 2, 3} ==> first + rest == [];
      Ok(first + rest)
  }

  /**
   * `importANM`'s counterpart: the header's `toFile`, then every bone's. It
   * raises iff a header field does not fit `<i` or, for versions 0, 2 and
   * 3, some bone has fewer positions than orientations; in the other
   * versions only the header is written.
   */
  function EncodeAnm(a: Animation): (r: Result<seq<byte>, Error>)
    ensures r.Ok? <==> EncodeHeader(a.header).Ok? && (a.header.version in {0, 2, 3} ==> TracksWritable(a.tracks))
    ensures r.Ok? ==> EncodeHeader(a.header).value <= r.value
    ensures r.Ok? && a.header.version !in {0, 2, 3} ==> r.value == EncodeHeader(a.header).value
  {
    var head :- EncodeHeader(a.header);
    var body :- EncodeTracks(a.tracks, a.header.version);
    Ok(head + body)
  }

  /** With no track short of positions, the bones are written back to back. */
  lemma {:induction false} EncodeTracksConcat(ts: seq<Track>, version: int)
    requires version in {0, 2, 3}
    requires forall i :: 0 <= i < |ts| ==> |ts[i].orientations| <= |ts[i].positions|
    ensures EncodeTracks(ts, version) == Ok(Concat(ts, TrackEncoder()))
    decreases |ts|
  {
    if ts != [] {
      assert forall i :: 0 <= i < |ts| - 1 ==> ts[1..][i] == ts[i + 1];
      EncodeTracksConcat(ts[1..], version);
    }
  }

  /** The encoder that writes a read-back frame so that it reads back as itself. */
  function UnflippedFrameEncoder(): Frame -> seq<byte> {
    (f: Frame) => EncodeFrame(Frame(f.orientation, NegZ(f.position)))
  }

  lemma FrameReadsBack(f: Frame, version: int)
    requires version in {0, 2, 3}
    ensures ReadsBack(FrameReader(version), UnflippedFrameEncoder(), f)
  {
    var g := Frame(f.orientation, NegZ(f.position));
    forall d: Cursor | At(d, EncodeFrame(g))
      ensures ReadFrame(d, version) == Ok(Parsed(f, d.Skip(28)))
    {
      ReadFrameAt(d, g, version);
      NegZInvolution(f.position);
    }
  }

  /** The frames of a written track, read back in a run, come out with z negated. */
  lemma ReadFramesAt(c: Cursor, t: Track, version: int)
    requires version in {0, 2, 3} && Aligned(t)
    requires At(c, Concat(FramesOf(t), FrameEncoder()))
    ensures ReadMany(c, |t.positions|, FrameReader(version))
         == Ok(Parsed(FramesOf(FlipTrack(t)), c.Skip(28 * |t.positions|)))
  {
    var xs := FramesOf(FlipTrack(t));
    var ys := FramesOf(t);
    forall j | 0 <= j < |xs| ensures UnflippedFrameEncoder()(xs[j]) == FrameEncoder()(ys[j]) {
      NegZInvolution(t.positions[j]);
    }
    ConcatPointwise(xs, UnflippedFrameEncoder(), ys, FrameEncoder());
    ConcatLength(ys, FrameEncoder(), 28);
    forall j | 0 <= j < |xs| ensures ReadsBack(FrameReader(version), UnflippedFrameEncoder(), xs[j]) {
      FrameReadsBack(xs[j], version);
    }
    ReadManyAt(c, xs, FrameReader(version), UnflippedFrameEncoder());
  }

  /** A name record followed by a run of frames is read as the track `add_frame` builds. */
  lemma ReadTrackOfParts(c: Cursor, name: seq<byte>, unknown: int32, fs: seq<Frame>, version: int,
                         numFrames: int, rest: Cursor)
    requires |fs| == RangeCount(numFrames)
    requires ReadMeta(c, version) == Ok(Parsed((name, unknown), c.Skip(36)))
    requires ReadMany(c.Skip(36), |fs|, FrameReader(version)) == Ok(Parsed(fs, rest))
    ensures ReadTrack(c, version, numFrames) == Ok(Parsed(TrackOf(name, unknown, fs), rest))
  {
  }

  /** A written track reads back whole, with every position's z negated. */
  lemma ReadTrackAt(c: Cursor, t: Track, version: int, numFrames: int)
    requires version in {0, 2, 3} && Aligned(t) && |t.positions| == RangeCount(numFrames)
    requires NameFits(t.name, 32) && At(c, TrackBytes(t))
    ensures ReadTrack(c, version, numFrames) == Ok(Parsed(FlipTrack(t), c.Skip(36 + 28 * |t.positions|)))
  {
    var frames := Concat(FramesOf(t), FrameEncoder());
    AtAppend(c, EncodeMeta(t.name, t.unknown), frames);
    ReadMetaAt(c, t.name, t.unknown, version);
    ReadFramesAt(c.Skip(36), t, version);
    var fs := FramesOf(FlipTrack(t));
    ReadTrackOfParts(c, t.name, t.unknown, fs, version, numFrames, c.Skip(36).Skip(28 * |t.positions|));
    assert c.Skip(36).Skip(28 * |t.positions|) == c.Skip(36 + 28 * |t.positions|);
    assert TrackOf(t.name, t.unknown, fs) == FlipTrack(t);
  }

  /** The shape every imported track has: both lists `numFrames` long. */
  predicate ImportedShape(t: Track, numFrames: int) {
    Aligned(t) && |t.positions| == RangeCount(numFrames) && NameFits(t.name, 32)
  }

  /** The encoder that writes a read-back track so that it reads back as itself. */
  function UnflippedTrackEncoder(): Track -> seq<byte> {
    (t: Track) => if Aligned(t) then TrackBytes(FlipTrack(t)) else []
  }

  lemma TrackReadsBack(t: Track, version: int, numFrames: int)
    requires version in {0, 2, 3} && ImportedShape(t, numFrames)
    ensures ReadsBack(TrackReader(version, numFrames), UnflippedTrackEncoder(), t)
  {
    var u := FlipTrack(t);
    assert UnflippedTrackEncoder()(t) == TrackBytes(u);
    forall d: Cursor | At(d, TrackBytes(u))
      ensures ReadTrack(d, version, numFrames) == Ok(Parsed(t, d.Skip(|TrackBytes(u)|)))
    {
      ReadTrackAt(d, u, version, numFrames);
      FlipTrackInvolution(t);
    }
  }

  function FlipTracks(ts: seq<Track>): (r: seq<Track>)
    ensures |r| == |ts| && forall i :: 0 <= i < |ts| ==> r[i] == FlipTrack(ts[i])
  {
    seq(|ts|, i requires 0 <= i < |ts| => FlipTrack(ts[i]))
  }

  /** Written tracks are the unflipped encodings of the tracks read back from them. */
  lemma FlippedTracksEncode(ts: seq<Track>)
    requires forall i :: 0 <= i < |ts| ==> Aligned(ts[i])
    ensures Concat(FlipTracks(ts), UnflippedTrackEncoder()) == Concat(ts, TrackEncoder())
  {
    var xs := FlipTracks(ts);
    forall i | 0 <= i < |ts| ensures UnflippedTrackEncoder()(xs[i]) == TrackEncoder()(ts[i]) {
      FlipTrackInvolution(ts[i]);
    }
    ConcatPointwise(xs, UnflippedTrackEncoder(), ts, TrackEncoder());
  }

  lemma FlippedTracksReadBack(ts: seq<Track>, version: int, numFrames: int)
    requires version in {0, 2, 3}
    requires forall i :: 0 <= i < |ts| ==> ImportedShape(ts[i], numFrames)
    ensures forall i :: 0 <= i < |ts| ==>
              ReadsBack(TrackReader(version, numFrames), UnflippedTrackEncoder(), FlipTracks(ts)[i])
  {
    forall i | 0 <= i < |ts|
      ensures ReadsBack(TrackReader(version, numFrames), UnflippedTrackEncoder(), FlipTracks(ts)[i])
    {
      TrackReadsBack(FlipTrack(ts[i]), version, numFrames);
    }
  }

  /** Written tracks, read back in a run, come out with every position's z negated. */
  lemma ReadTracksAt(c: Cursor, ts: seq<Track>, version: int, numFrames: int)
    requires version in {0, 2, 3}
    requires forall i :: 0 <= i < |ts| ==> ImportedShape(ts[i], numFrames)
    requires forall i :: 0 <= i < |ts| ==> |ts[i].orientations| <= |ts[i].positions|
    requires At(c, Concat(ts, TrackEncoder()))
    ensures ReadMany(c, |ts|, TrackReader(version, numFrames)).Ok?
    ensures ReadMany(c, |ts|, TrackReader(version, numFrames)).value.value == FlipTracks(ts)
  {
    var xs := FlipTracks(ts);
    FlippedTracksEncode(ts);
    FlippedTracksReadBack(ts, version, numFrames);
    ReadManyAt(c, xs, TrackReader(version, numFrames), UnflippedTrackEncoder());
  }

  /** A well-formed version-0, -2 or -3 animation, as a file can hold it. */
  predicate WellFormed(a: Animation) {
    && a.header.Header023? && a.header.version in {0, 2, 3} && |a.header.id| == 8
    && |a.tracks| == RangeCount(a.header.numBones)
    && forall i :: 0 <= i < |a.tracks| ==> ImportedShape(a.tracks[i], a.header.numFrames)
  }

  /**
   * Importing a written animation gives back its header and every bone,
   * with each position's z negated.
   */
  lemma ImportEncodeAnm(a: Animation, roundRecip: F32 -> int)
    requires WellFormed(a) && EncodeAnm(a).Ok?
    ensures ImportAnm(EncodeAnm(a).value, roundRecip).Ok?
    ensures var b := ImportAnm(EncodeAnm(a).value, roundRecip).value;
      && b.header == a.header && b.tracks == FlipTracks(a.tracks)
  {
    EncodeAnmLayout(a);
    ImportAnmLayout(a, EncodeAnm(a).value, roundRecip);
  }

  /** A well-formed animation is written as its header, then its bones back to back. */
  lemma EncodeAnmLayout(a: Animation)
    requires WellFormed(a) && EncodeAnm(a).Ok?
    ensures EncodeHeader(a.header).Ok?
    ensures EncodeAnm(a).value == EncodeHeader(a.header).value + Concat(a.tracks, TrackEncoder())
  {
    EncodeTracksConcat(a.tracks, a.header.version);
  }

  /** A header followed by a well-formed animation's bones imports as that animation, z negated. */
  lemma ImportAnmLayout(a: Animation, data: seq<byte>, roundRecip: F32 -> int)
    requires WellFormed(a) && EncodeHeader(a.header).Ok?
    requires data == EncodeHeader(a.header).value + Concat(a.tracks, TrackEncoder())
    ensures ImportAnm(data, roundRecip) == Ok(Animation(a.header, FlipTracks(a.tracks)))
  {
    var h := a.header;
    var head := EncodeHeader(h).value;
    var body := Concat(a.tracks, TrackEncoder());
    AtAppend(Cursor(data, 0), head, body);
    ReadHeaderAt(data, h, roundRecip);
    ReadTracksAt(Cursor(data, 28), a.tracks, h.version, h.numFrames);
    ImportAnmParts(data, roundRecip, h, FlipTracks(a.tracks));
  }

  /** A header followed by its tracks is imported as the two together. */
  lemma ImportAnmParts(data: seq<byte>, roundRecip: F32 -> int, h: Header, ts: seq<Track>)
    requires ReadHeader(data, roundRecip) == Ok(Parsed(h, Cursor(data, 28)))
    requires h.version in {0, 2, 3} && |ts| == RangeCount(h.numBones)
    requires ReadMany(Cursor(data, 28), |ts|, TrackReader(h.version, h.numFrames)).Ok?
    requires ReadMany(Cursor(data, 28), |ts|, TrackReader(h.version, h.numFrames)).value.value == ts
    ensures ImportAnm(data, roundRecip) == Ok(Animation(h, ts))
  {
  }

  // -----------------------------------------------------------------------
  // Export

  /**
   * One armature bone as `exportANM` samples it: its name, whether it has
   * a parent, and for every scene frame the orientation and the position
   * before the exporter negates its z.
   */
  datatype PoseBone = PoseBone(name: seq<byte>, hasParent: bool, samples: seq<Frame>)

  /** The track `exportANM` builds: unknown 0 under a parent, 2 for a root, z negated. */
  function ExportTrack(b: PoseBone): (t: Track)
    ensures Aligned(t) && |t.positions| == |b.samples| && t.name == b.name
    ensures t.unknown == if b.hasParent then 0 else 2
    ensures forall j :: 0 <= j < |b.samples| ==>
              GetFrame(t, j) == Ok((NegZ(b.samples[j].position), b.samples[j].orientation))
  {
    var fs := seq(|b.samples|, j requires 0 <= j < |b.samples| =>
                    Frame(b.samples[j].orientation, NegZ(b.samples[j].position)));
    TrackOf(b.name, if b.hasParent then 0 else 2, fs)
  }

  /**
   * `exportANM` on the header imported from the input file: the version
   * replaced when `overwrite` is given, rejected unless 0, 2 or 3, bone
   * and frame counts from the armature and the scene, then every bone.
   */
  function ExportAnm(imported: Result<Header, Error>, overwrite: Option<int>, bones: seq<PoseBone>,
                     frameStart: int, frameEnd: int): (r: Result<seq<byte>, Error>)
    requires forall i :: 0 <= i < |bones| ==> |bones[i].samples| == RangeCount(frameEnd - frameStart + 1)
    ensures imported.Err? ==> r == Err(imported.error)
    ensures imported.Ok? ==>
              var v := if overwrite.Some? then overwrite.value else imported.value.version;
              v !in {0, 2, 3} ==> r == Err(UnsupportedVersion(v))
  {
    var h :- imported;
    var version := if overwrite.Some? then overwrite.value else h.version;
    if version !in {0, 2, 3} then Err(UnsupportedVersion(version))
    else EncodeAnm(ExportedAnimation(h, version, bones, frameStart, frameEnd))
  }

  /** The header and bone list `exportANM` writes. */
  function ExportedAnimation(h: Header, version: int, bones: seq<PoseBone>, frameStart: int, frameEnd: int)
    : Animation
  {
    Animation(Header023(h.id, version, h.magic, |bones|, frameEnd - frameStart + 1, h.playbackFps),
              seq(|bones|, i requires 0 <= i < |bones| => ExportTrack(bones[i])))
  }

  /** Reading back an exported track undoes the exporter's z negation. */
  lemma FlipExportTrack(b: PoseBone)
    ensures FlipTrack(ExportTrack(b)) == TrackOf(b.name, if b.hasParent then 0 else 2, b.samples)
  {
    var u := FlipTrack(ExportTrack(b));
    var v := TrackOf(b.name, if b.hasParent then 0 else 2, b.samples);
    forall j | 0 <= j < |b.samples| ensures u.positions[j] == v.positions[j] {
      NegZInvolution(b.samples[j].position);
    }
    assert u.positions == v.positions;
  }

  /** An animation the exporter writes is well formed when its names fit their field. */
  lemma ExportedWellFormed(h: Header, version: int, bones: seq<PoseBone>, frameStart: int, frameEnd: int)
    requires version in {0, 2, 3} && |h.id| == 8
    requires forall i :: 0 <= i < |bones| ==> |bones[i].samples| == RangeCount(frameEnd - frameStart + 1)
    requires forall i :: 0 <= i < |bones| ==> NameFits(bones[i].name, 32)
    ensures WellFormed(ExportedAnimation(h, version, bones, frameStart, frameEnd))
  {
  }

  /**
   * Importing an exported animation gives the new header and, for every
   * bone, the track `add_frame` builds from its samples: its name, 0 or 2
   * for its parent flag, and every sampled orientation and position
   * exactly, the exporter's z negation and the importer's cancelling out.
   */
  lemma ExportImportAnm(imported: Result<Header, Error>, overwrite: Option<int>, bones: seq<PoseBone>,
                        frameStart: int, frameEnd: int, roundRecip: F32 -> int)
    requires forall i :: 0 <= i < |bones| ==> |bones[i].samples| == RangeCount(frameEnd - frameStart + 1)
    requires ExportAnm(imported, overwrite, bones, frameStart, frameEnd).Ok?
    requires |imported.value.id| == 8
    requires forall i :: 0 <= i < |bones| ==> NameFits(bones[i].name, 32)
    ensures ImportAnm(ExportAnm(imported, overwrite, bones, frameStart, frameEnd).value, roundRecip).Ok?
    ensures var a := ImportAnm(ExportAnm(imported, overwrite, bones, frameStart, frameEnd).value, roundRecip).value;
      var h := imported.value;
      && a.header == Header023(h.id, if overwrite.Some? then overwrite.value else h.version, h.magic,
                               |bones|, frameEnd - frameStart + 1, h.playbackFps)
      && |a.tracks| == |bones|
      && forall i :: 0 <= i < |bones| ==>
           a.tracks[i] == TrackOf(bones[i].name, if bones[i].hasParent then 0 else 2, bones[i].samples)
  {
    var h := imported.value;
    var version := if overwrite.Some? then overwrite.value else h.version;
    var a := ExportedAnimation(h, version, bones, frameStart, frameEnd);
    ExportedWellFormed(h, version, bones, frameStart, frameEnd);
    ImportEncodeAnm(a, roundRecip);
    forall i | 0 <= i < |bones|
      ensures FlipTrack(a.tracks[i]) == TrackOf(bones[i].name, if bones[i].hasParent then 0 else 2, bones[i].samples)
    {
      FlipExportTrack(bones[i]);
    }
  }
}
