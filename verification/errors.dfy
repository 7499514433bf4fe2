/** The exceptions the codecs raise, one constructor per cause. */
module Errors {

  datatype Error =
    /** `struct.unpack` on a read that came back short. */
    | Truncated(offset: nat, wanted: nat)
    /** A `ValueError` for a format revision the codec does not handle. */
    | UnsupportedVersion(version: int)
    /** `seek` to a negative absolute offset. */
    | NegativeSeek(target: int)
    /** `boneList[id]` with `id` outside `-len .. len - 1`. */
    | BadBoneIndex(index: int)
    /** The name-table scan ran off the end of the data; `importSKL`'s name loop never ends. */
    | EndlessNameScan(offset: nat)
    /** A fixed-size name field that is not valid UTF-8 (`bytes.decode` raises). */
    | NotUtf8(offset: nat)
    /** A single byte of 0x80 or above decoded on its own as UTF-8. */
    | NotAscii(offset: nat)
    /** `struct.pack` of an integer that does not fit its field. */
    | OutOfRange(value: int)
    /** `sknMaterial.toFile`, which passes `object.__format__` to `struct.pack` (TypeError). */
    | MaterialNotPackable
    /** `toFile` of version-4 metadata whose bounding fields were never set. */
    | MissingBounds
    /** A float division by a weight total of zero. */
    | ZeroWeightSum
    /** An exported face whose loop count is not 3. */
    | NotTriangle(loops: nat)
    /** A malformed line of a `.sco` file (IndexError or ValueError). */
    | ScoSyntax(line: nat)
    /** A frame number outside a bone's sample lists (IndexError). */
    | NoSuchFrame(frame: int)
    /** A bone looked up by a name the armature does not have (KeyError). */
    | NoSuchBone(name: seq<int>)
    /** `round(1.0 / t)` on a time per frame that is zero (ZeroDivisionError) or NaN (ValueError). */
    | BadTimePerFrame(word: int)
}
