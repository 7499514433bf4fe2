# lolblender file formats, modelled in Dafny

A model of the file-format core of `io_scene_lol`, the Blender add-on for
League of Legends assets:

- the `.skn` skinned-mesh codec: header, material records, metadata block,
  index and vertex runs, and the version-2+ trailer, as `importSKN` reads
  them (`skn.dfy`);
- the parts of `exportSKN` that are pure: the per-vertex weight
  renormalisation, the loop deduplication that builds the vertex and index
  lists material slot by material slot, the approximate bounding sphere,
  the header choice and the trailer (`skn_export.dfy`);
- the `.sco` text importer `importSCO` (`sco.dfy`);
- the `.skl` skeleton codec: `sklHeader`, `sklBone` in both record layouts,
  `importSKL` with the version-0 id map, name table and reorder lists, and
  the byte stream `exportSKL` writes (`skl.dfy`);
- the `.anm` animation codec: `anmHeader`, `anmBone`, `importANM` and the
  byte stream `exportANM` writes (`anm.dfy`).

Underneath lie a byte cursor with little-endian integers, binary32 words,
NUL-padded names and strict UTF-8 (`bytes.dfy`), runs of fixed records
(`records.dfy`), order-preserving de-duplication (`lists.dfy`), the error
values every reader returns instead of raising (`errors.dfy`) and the
`Result`/`Option` wrappers (`wrappers.dfy`).

A file read (`read(n)` then `struct.unpack`) is `Take` on a `Cursor`: it
fails with `Truncated` where the short buffer makes `struct.unpack` raise.
Every other exception the source raises (unknown version, bad index,
non-UTF-8 name, unparsable number) is an `Err` of its own kind. Binary32
floats are kept as their raw 32-bit words, so every codec round trip is
exact. The Blender-side arithmetic of the exporters (weight
renormalisation, bounding sphere, the `1 - v` UV flip) is on `real`.

The main results:

- `Skn.ImportSknLayout`: reading the byte layout of any mesh that fits the
  format gives that mesh back, whatever follows it.
- `Skl.ExportImportSkl`: importing what `exportSKL` writes gives back every
  bone's name, parent position, the 0.1 scale and its matrix (column 2
  negated), plus the bones the vertex groups name.
- `Anm.ExportImportAnm`: importing what `exportANM` writes gives back every
  sampled orientation and position exactly. The exporter's and the
  importer's z negations cancel.
- `SknExport.RenormalizeCorrect` and `SknExport.KeptAreHeaviest`: exported
  weights are the heaviest four, divided by their total, and sum to 1.
- `SknExport.AddLoopsCorrect`: every exported index points at a vertex
  with that loop's own UV and position key.
- `Sco.ApplyFacesGroups`: a `faces=` block groups face numbers by material,
  with the materials in order of first use.

## Model

| member | source | states |
|---|---|---|
| Bytes.Neg | io_scene_lol/lolSkeleton.py:150-151 | Negating a float flips exactly the sign bit: the result is negative iff the input is not, and the other 31 bits are kept. |
| Bytes.NegNeg | io_scene_lol/lolAnimation.py:201 | Negating twice gives the original word back. |
| Bytes.U32Bytes | io_scene_lol/lolMesh.py:576 | Packing an unsigned 32-bit value gives 4 bytes that read back as that value. |
| Bytes.U16Bytes | io_scene_lol/lolMesh.py:585 | Packing an unsigned 16-bit value gives 2 bytes that read back as that value. |
| Bytes.U32BytesOfLe | io_scene_lol/lolMesh.py:41-42 | Every 4-byte block is the packing of the value read from it. |
| Bytes.U16BytesOfLe | io_scene_lol/lolMesh.py:263-264 | Every 2-byte block is the packing of the value read from it. |
| Bytes.Int32Of | io_scene_lol/lolMesh.py:41-42 | The `<i` view of a word: non-negative iff the top bit is clear, and congruent to the word mod 2^32. |
| Bytes.Uint32Of | io_scene_lol/lolMesh.py:576 | Packing a signed 32-bit value as `<i` gives the word whose signed view is that value. |
| Bytes.Int16Of | io_scene_lol/lolMesh.py:263-264 | The `<h` view of a half-word: non-negative iff the top bit is clear, and congruent mod 2^16. |
| Bytes.Uint16Of | io_scene_lol/lolMesh.py:585 | Packing a signed 16-bit index gives the half-word whose signed view is that index. |
| Bytes.Int8Of | io_scene_lol/lolMesh.py:188 | The `b` view of a bone-index byte: non-negative iff below 0x80, and congruent mod 256. |
| Bytes.Uint8Of | io_scene_lol/lolMesh.py:217-219 | Packing a signed byte gives the byte whose signed view is that value. |
| Bytes.Uint32OfInt32 | io_scene_lol/lolMesh.py:41-42 | Reading a word as `<i` and packing it again gives the same word. |
| Bytes.I32Bytes | io_scene_lol/lolMesh.py:576 | `struct.pack('<i', x)` is 4 bytes that read back as `x`. |
| Bytes.I16Bytes | io_scene_lol/lolMesh.py:585 | `struct.pack('<h', x)` is 2 bytes that read back as `x`. |
| Bytes.Words | io_scene_lol/lolAnimation.py:195-196 | A block of whole words splits into one word per 4 bytes. |
| Bytes.WordBytes | io_scene_lol/lolAnimation.py:222 | Writing `n` words takes `4n` bytes. |
| Bytes.WordsOfWordBytes | io_scene_lol/lolAnimation.py:192-222 | Words written back to back read back as the same words. |
| Bytes.WordBytesOfWords | io_scene_lol/lolAnimation.py:192-222 | Every block of whole words is the encoding of the words read from it. |
| Bytes.WordBytesAppend | io_scene_lol/lolAnimation.py:221-222 | Writing two runs of words is writing their concatenation. |
| Bytes.Halves | io_scene_lol/lolSkeleton.py:288-289 | A block of whole half-words splits into one per 2 bytes. |
| Bytes.HalfBytes | io_scene_lol/lolMesh.py:584-586 | Writing `n` half-words takes `2n` bytes. |
| Bytes.HalvesOfHalfBytes | io_scene_lol/lolMesh.py:262-264 | Half-words written back to back read back as the same half-words. |
| Bytes.Int32s | io_scene_lol/lolAnimation.py:102-103 | The signed views of a run of words, element by element. |
| Bytes.Uint32s | io_scene_lol/lolAnimation.py:141 | Packing signed values gives words whose signed views are those values. |
| Bytes.Int16s | io_scene_lol/lolSkeleton.py:288-289 | The signed views of a run of half-words, element by element. |
| Bytes.Uint16s | io_scene_lol/lolMesh.py:584-586 | Packing signed 16-bit values gives half-words whose signed views are those values. |
| Bytes.Int8s | io_scene_lol/lolMesh.py:205 | The signed views of the four bone-index bytes, element by element. |
| Bytes.Uint8s | io_scene_lol/lolMesh.py:219 | Packing signed bytes gives bytes whose signed views are those values. |
| Bytes.StripNuls | io_scene_lol/lolMesh.py:85 | `rstrip('\0')` keeps a prefix that does not end in NUL, and everything it drops is NUL. |
| Bytes.PadNuls | io_scene_lol/lolSkeleton.py:188 | `<32s` packing gives exactly the field width: the name's bytes, then NULs. |
| Bytes.StripPadNuls | io_scene_lol/lolAnimation.py:184-186 | A name that fits its field and does not end in NUL survives padding then stripping. |
| Bytes.Utf8Length | io_scene_lol/lolMesh.py:85 | The length of the well-formed UTF-8 sequence at the front is at most 4, and it is 1 exactly for an ASCII byte. |
| Bytes.EncodeScalar | io_scene_lol/lolAnimation.py:220 | The reference UTF-8 encoder `.encode()` uses for one scalar value: 1 to 4 bytes. |
| Bytes.Utf8LengthOfScalar | io_scene_lol/lolMesh.py:85 | The decoder recognises every scalar's encoding as exactly one sequence, whatever follows it. |
| Bytes.Utf8OfScalars | io_scene_lol/lolAnimation.py:220 | Any text `.encode()` produces is valid UTF-8 to `bytes.decode`. |
| Bytes.Utf8Append | io_scene_lol/lolAnimation.py:220 | Valid UTF-8 followed by valid UTF-8 is valid. |
| Bytes.Utf8LengthPrefix | io_scene_lol/lolMesh.py:85 | A leading sequence is recognised the same way whatever follows it. |
| Bytes.Utf8Nuls | io_scene_lol/lolAnimation.py:220 | The NUL padding `<32s` adds is valid UTF-8. |
| Bytes.DecodeName | io_scene_lol/lolMesh.py:85 | `bytes.decode(field).rstrip('\0')` succeeds iff the whole field is UTF-8; it then returns a prefix that does not end in NUL and is followed in the field only by NULs. Otherwise it fails with `NotUtf8`. |
| Bytes.DecodePaddedName | io_scene_lol/lolAnimation.py:184-186 | A UTF-8 name that fits the field and does not end in NUL, padded then decoded, comes back unchanged. |
| Bytes.Take | io_scene_lol/lolMesh.py:36-38 | `read(n)` then an unpack of `n` bytes succeeds iff `n` bytes remain; it returns them and advances by `n`, else fails with `Truncated`. |
| Bytes.Seek | io_scene_lol/lolSkeleton.py:77 | `seek(off)` succeeds iff `off` is non-negative, even past the end, and moves there. |
| Bytes.TakeAt | io_scene_lol/lolMesh.py:36-38 | Where given bytes lie, taking that many returns them. |
| Bytes.ReadInt32 | io_scene_lol/lolMesh.py:41-42 | Reading `<i` succeeds iff 4 bytes remain, and advances by 4. |
| Bytes.ReadInt32At | io_scene_lol/lolMesh.py:41-42 | A packed `<i` value reads back as itself. |
| Bytes.ReadInt16 | io_scene_lol/lolMesh.py:263-264 | Reading `<h` succeeds iff 2 bytes remain, and advances by 2. |
| Bytes.ReadInt16At | io_scene_lol/lolMesh.py:263-264 | A packed `<h` value reads back as itself. |
| Bytes.ReadWords | io_scene_lol/lolAnimation.py:195-196 | Reading `n` words succeeds iff `4n` bytes remain; it gives `n` words and advances by `4n`. |
| Bytes.ReadWordsAt | io_scene_lol/lolAnimation.py:195-196 | Packed words read back as themselves. |
| Bytes.TakeWordBytes | io_scene_lol/lolAnimation.py:195-196 | Where packed words lie, taking their length returns their bytes. |
| Bytes.ReadWordsOfTake | io_scene_lol/lolAnimation.py:195-196 | Taking the bytes of packed words and splitting them gives the words. |
| Records.ReadMany | io_scene_lol/lolMesh.py:250-252 | `for k in range(n): read one record` yields exactly `n` records when it succeeds. |
| Records.ReadManyCons | io_scene_lol/lolMesh.py:250-252 | A run is its first record followed by the rest of the run. |
| Records.ReadManyAt | io_scene_lol/lolMesh.py:250-252 | Records written back to back, each of which reads back, read back as a run. |
| Records.ReadManyEach | io_scene_lol/lolMesh.py:266-268 | A property of every single successful read holds for every record of a run. |
| Lists.NubCorrect | io_scene_lol/lolMesh.py:531 | The keys of an insertion-ordered dict are distinct and are exactly the keys inserted. |
| Skn.EncodeHeader | io_scene_lol/lolMesh.py:52-56 | `sknHeader.toFile` writes 8 bytes; the material count is not part of them. |
| Skn.CountBytes | io_scene_lol/lolMesh.py:40-42 | The material count the reader takes after the header: 4 bytes for versions 1, 2 and 4, none for version 0. |
| Skn.ReadHeader | io_scene_lol/lolMesh.py:35-46 | An 8-byte header, then an `<i` material count for versions 1, 2 and 4; version 0 has exactly one material; every other version is `UnsupportedVersion`; a short file is `Truncated`. |
| Skn.ReadHeaderAt | io_scene_lol/lolMesh.py:35-56 | A written header and count read back unchanged, with the default trailer. |
| Skn.DecodeMaterial | io_scene_lol/lolMesh.py:80-96 | `sknMaterial.fromFile`: for versions 1, 2 and 4 the record succeeds iff its 64-byte name is UTF-8, else `NotUtf8`; version 0 always gives `lolMaterial` starting at 0, with the index count stored first. |
| Skn.MaterialLayout | io_scene_lol/lolMesh.py:68-71 | The record the reader expects is 80 bytes (`<64s4i`) or 8 bytes (`<2I`). |
| Skn.DecodeMaterialLayout | io_scene_lol/lolMesh.py:80-96 | Every material that fits the record decodes back from its layout. |
| Skn.ReadMaterial | io_scene_lol/lolMesh.py:80-96 | Reading a material succeeds iff the whole record is present and, from version 1 on, its name is UTF-8. |
| Skn.ReadMaterialAt | io_scene_lol/lolMesh.py:80-96 | A material's layout reads back as that material. |
| Skn.ReadMaterials | io_scene_lol/lolMesh.py:250-252 | The importer's material loop gives `n` materials. |
| Skn.ReadMaterialsAt | io_scene_lol/lolMesh.py:250-252 | Materials laid out back to back read back as the same list. |
| Skn.DecodeMetaData | io_scene_lol/lolMesh.py:130-149 | Versions 1 and 2 store only the two counts; the others keep their defaults. Bounds are present exactly for version 4. |
| Skn.MetaWords | io_scene_lol/lolMesh.py:158-164 | A version-4 block is fifteen words. |
| Skn.EncodeMetaData | io_scene_lol/lolMesh.py:152-167 | `sknMetaData.toFile` succeeds iff the version is 1, 2 or 4 and the counts fit `<i` (version 4 needs the bounds). Otherwise versions raise `UnsupportedVersion`. |
| Skn.DecodeEncodeMetaData | io_scene_lol/lolMesh.py:130-167 | Reading what `toFile` wrote gives the counts back, and for version 4 the whole block. |
| Skn.ReadMetaData | io_scene_lol/lolMesh.py:254-258 | Version 0 takes the counts from the first material and reads nothing. |
| Skn.MetaDataV0 | io_scene_lol/lolMesh.py:254-258 | A version-0 file stores no metadata: the counts are its one material's, with no colour flag and no bounds. |
| Skn.MetaLayout | io_scene_lol/lolMesh.py:115-118 | The stored block is 0, 8 or 60 bytes by version. |
| Skn.ReadMetaDataAt | io_scene_lol/lolMesh.py:254-258 | A metadata block laid out for its version reads back unchanged. |
| Skn.ReadIndices | io_scene_lol/lolMesh.py:262-264 | `n` `<h` indices are read iff `2n` bytes remain. |
| Skn.IndexBytes | io_scene_lol/lolMesh.py:584-586 | The exporter's index run takes 2 bytes per index. |
| Skn.ReadIndicesAt | io_scene_lol/lolMesh.py:262-264 | Written indices read back as themselves. |
| Skn.ReadVertex | io_scene_lol/lolMesh.py:200-214 | A vertex takes 56 bytes when the colour flag is positive and 52 otherwise, and without a colour block its colour is the reset zeros. |
| Skn.DecodeVertex | io_scene_lol/lolMesh.py:198-207 | Every field of the 52-byte record is kept: the record is exactly the colourless encoding of the vertex read from it. |
| Skn.EncodeVertex | io_scene_lol/lolMesh.py:216-226 | `sknVertex.toFile` writes 56 bytes when the flag is truthy (non-zero), else 52. |
| Skn.DecodeVertexBody | io_scene_lol/lolMesh.py:200-222 | The 52-byte body written for a vertex decodes back to that vertex. |
| Skn.ReadVertexAt | io_scene_lol/lolMesh.py:200-226 | With a non-negative flag a written vertex reads back, with its colour only when the flag is positive. |
| Skn.NegativeColorFlagDesync | io_scene_lol/lolMesh.py:210-224 | With a negative flag the writer emits 56 bytes but the reader consumes 52. |
| Skn.EncodeVertexMatching | io_scene_lol/lolMesh.py:216-226 | The corrected writer emits the colour block exactly when the reader takes one. |
| Skn.ReadVertexMatchingAt | io_scene_lol/lolMesh.py:200-226 | With the corrected writer a vertex reads back for every flag, negative ones included. |
| Skn.ReadVertices | io_scene_lol/lolMesh.py:266-268 | The importer's vertex loop gives `n` vertices. |
| Skn.ReadVerticesColorless | io_scene_lol/lolMesh.py:192-214 | Without a positive flag every vertex read has the reset colour. |
| Skn.ReadVerticesAt | io_scene_lol/lolMesh.py:266-268 | Vertices laid out back to back as the reader expects read back as the same list, for every flag. |
| Skn.ReadTrailer | io_scene_lol/lolMesh.py:270-272 | From version 2 on, three `<i` follow the vertices and are stored wrapped; earlier versions read nothing. |
| Skn.TrailerLayout | io_scene_lol/lolMesh.py:645 | A wrapped trailer takes 12 bytes. |
| Skn.ReadTrailerAt | io_scene_lol/lolMesh.py:270-272 | A written trailer reads back as itself. |
| Skn.ReadGeometry | io_scene_lol/lolMesh.py:260-272 | The index and vertex counts follow `range()` over the metadata counts, and a trailer is present iff the version is at least 2. |
| Skn.ReadGeometryAt | io_scene_lol/lolMesh.py:260-272 | Written indices, vertices and trailer read back as the same geometry. |
| Skn.ImportSkn | io_scene_lol/lolMesh.py:240-276 | `importSKN` gives a known version, `range()` many materials, indices and vertices; a trailer iff the version is at least 2; and for version 0 one material whose counts are the metadata. |
| Skn.ImportSknColorless | io_scene_lol/lolMesh.py:266-268 | Without a positive colour flag every imported vertex has the reset colour. |
| Skn.ImportSknAt | io_scene_lol/lolMesh.py:240-276 | Any data that starts with a mesh's layout imports as that mesh. |
| Skn.ImportSknLayout | io_scene_lol/lolMesh.py:240-276 | Reading the layout of any mesh that fits the format gives that mesh back, whatever bytes follow. |
| SknExport.InsertDesc | io_scene_lol/lolMesh.py:608 | One insertion step adds exactly one element. |
| SknExport.SortDesc | io_scene_lol/lolMesh.py:608 | The sort keeps the length. |
| SknExport.InsertDescSorted | io_scene_lol/lolMesh.py:608 | Inserting into a descending list keeps it descending. |
| SknExport.InsertDescPermutes | io_scene_lol/lolMesh.py:608 | Inserting adds exactly the one element to the multiset. |
| SknExport.InsertDescStable | io_scene_lol/lolMesh.py:608 | Inserting puts the element behind every element of equal weight. |
| SknExport.SortDescCorrect | io_scene_lol/lolMesh.py:608 | `sorted(key=weight, reverse=True)` is descending, a permutation, and stable: equal weights keep their input order. |
| SknExport.Groups | io_scene_lol/lolMesh.py:618-629 | The four bone slots are the kept groups, then reset zeros. |
| SknExport.Divided | io_scene_lol/lolMesh.py:628-630 | The four weight slots are the kept weights divided by the sum, then zeros. |
| SknExport.Spread | io_scene_lol/lolMesh.py:616-619 | The spread weights fill four slots. |
| SknExport.Renormalize | io_scene_lol/lolMesh.py:605-630 | A vertex always gets four bone and four weight slots. |
| SknExport.Kept | io_scene_lol/lolMesh.py:606-613 | At most four influences are kept. |
| SknExport.SpreadIsDivision | io_scene_lol/lolMesh.py:616-619 | `w + w * (1 - s) / s` is `w / s`: spreading the remainder is dividing by the kept sum. |
| SknExport.DividedSum | io_scene_lol/lolMesh.py:624-630 | The divided weights add up to the kept total over the divisor. |
| SknExport.RenormalizeCorrect | io_scene_lol/lolMesh.py:605-630 | Renormalisation fails iff something is kept and the kept total is 0. Otherwise it gives the kept groups with their weights divided by the kept total, summing to 1. No influences give the reset zeros. |
| SknExport.RenormalizeKept | io_scene_lol/lolMesh.py:606-619 | With more than four influences the spread weights equal the divided ones. |
| SknExport.KeptAreHeaviest | io_scene_lol/lolMesh.py:606-613 | The four kept influences come from the input, and each is at least as heavy as every one dropped. |
| SknExport.Keys | io_scene_lol/lolMesh.py:507 | One dictionary key per loop. |
| SknExport.AddLoop | io_scene_lol/lolMesh.py:507-521 | One loop appends exactly one index, the one the dictionary then holds for the loop's key. |
| SknExport.AddLoops | io_scene_lol/lolMesh.py:505-521 | Walking loops over one dictionary appends one index per loop. |
| SknExport.AddLoopConsistent | io_scene_lol/lolMesh.py:505-521 | One loop keeps the dictionary consistent with the vertex list, and appends its key iff the key is new. |
| SknExport.AddLoopsConsistent | io_scene_lol/lolMesh.py:505-531 | After all loops, the dictionary's keys are the distinct loop keys in order of first use, and there is one index per loop. |
| SknExport.AddLoopShape | io_scene_lol/lolMesh.py:505-521 | One loop appends one index that points at its key's vertex and leaves the earlier entries alone. |
| SknExport.AddLoopsCorrect | io_scene_lol/lolMesh.py:499-521 | Every index points at a vertex with the loop's own key, and a key's first loop supplies that vertex. |
| SknExport.AddLoopsAppend | io_scene_lol/lolMesh.py:491-521 | Walking two loop runs with one shared dictionary is walking their concatenation. |
| SknExport.FirstNonTriangle | io_scene_lol/lolMesh.py:499-503 | There is no face with a corner count other than 3 iff every face is a triangle. |
| SknExport.ExportSlots | io_scene_lol/lolMesh.py:491-525 | The material loop gives one material header per slot. |
| SknExport.FaceLoopsLength | io_scene_lol/lolMesh.py:502-505 | Triangles give three loops each. |
| SknExport.AddLoopsGrows | io_scene_lol/lolMesh.py:505-521 | The index list grows by one per loop, and the vertex list never shrinks. |
| SknExport.ExportSlotsOk | io_scene_lol/lolMesh.py:499-503 | The export succeeds iff every face of every slot is a triangle. |
| SknExport.ExportSlotsState | io_scene_lol/lolMesh.py:491-521 | The shared dictionary ends as the deduplication of all loops in slot order. |
| SknExport.ExportSlotsRanges | io_scene_lol/lolMesh.py:496-525 | The material ranges tile the index list (three per face) and the vertex list in slot order, starting at 0. |
| SknExport.BoundingSphere | io_scene_lol/lolMesh.py:544-554 | The centre is the box midpoint, and the radius is non-negative. The radius is at least every half-extent and equals one of them, or is 0. |
| SknExport.VertexBlockSize | io_scene_lol/lolMesh.py:536-539 | The block size is 56 with vertex colours and 52 without. |
| SknExport.ExportHeader | io_scene_lol/lolMesh.py:452-566 | A version outside 1, 2 and 4 raises unless the export is based on an import. A based export succeeds iff the import does, and takes the imported header. A fresh one is magic 1122867, the version and one object. |
| SknExport.ExportTrailer | io_scene_lol/lolMesh.py:642-645 | The trailer is 12 bytes from version 2 on, else nothing. |
| SknExport.ExportTrailerDropsImport | io_scene_lol/lolMesh.py:642-645 | As written, every imported trailer reads back as zeros. |
| SknExport.ExportTrailerLosesValues | io_scene_lol/lolMesh.py:642-645 | As written, an imported trailer that is not all zeros does not survive the export. |
| SknExport.ExportTrailerPreserving | io_scene_lol/lolMesh.py:642-645 | The corrected trailer is 12 bytes from version 2 on. |
| SknExport.ExportTrailerPreservingRoundTrip | io_scene_lol/lolMesh.py:270-272 | The corrected trailer reads back as the imported triple. |
| SknExport.ExportMaterialBlock | io_scene_lol/lolMesh.py:574-579 | After the header the exporter writes the count iff `numObjects > 0`, whatever the version. It raises at the first material record (`MaterialNotPackable`), or first `OutOfRange` for a count outside `<i`, so it succeeds with a header whose `numObjects > 0` iff there are no material slots. |
| SknExport.ExportMaterialBlockDesync | io_scene_lol/lolMesh.py:40-42 | As written, the reader resumes where the exporter's block ends iff `numObjects > 0` agrees with "version is 1, 2 or 4". A version-1, -2 or -4 header with `numObjects <= 0` has its count taken from the first metadata word. |
| SknExport.ExportCountMatching | io_scene_lol/lolMesh.py:40-42 | The corrected count is written exactly when the reader takes one, and fails only for a count outside `<i`. |
| SknExport.ExportCountMatchingReadsBack | io_scene_lol/lolMesh.py:35-46 | With the corrected count the header block reads back for every version, count included, and the reader resumes right after it. |
| SknExport.FirstOutside | io_scene_lol/lolMesh.py:584-586 | The reference position of the first value outside a range, or none iff all values lie in it. |
| SknExport.ExportIndices | io_scene_lol/lolMesh.py:583-586 | `struct.pack('<h', idx)` succeeds iff every index is below 0x8000. Otherwise the first index that is not raises `OutOfRange`. On success the output is 2 bytes per index. |
| SknExport.ExportIndicesReadBack | io_scene_lol/lolMesh.py:262-264 | Packed indices read back as the same indices. |
| SknExport.ExportSlotsIndicesFit | io_scene_lol/lolMesh.py:505-586 | With at most 32768 exported vertices, every index is packed. |
| SknExport.ExportBoneIds | io_scene_lol/lolMesh.py:215-220 | The `b` packing of the four bone ids keeps them unchanged, and succeeds iff all lie in -128..127. Otherwise the first that does not raises `OutOfRange`. |
| SknExport.ExportBoneIdsReadBack | io_scene_lol/lolMesh.py:198-220 | Packed bone ids read back as the groups, with or without the colour block. |
| SknExport.FlipV | io_scene_lol/lolMesh.py:634 | `1 - v` keeps `u`, and the old and new `v` add up to 1. |
| SknExport.FlipVInvolution | io_scene_lol/lolMesh.py:720-722 | Flipping twice gives the UV back. |
| Skl.DecodeHeaderV0 | io_scene_lol/lolSkeleton.py:72-76 | The version-0 block gives a version-0 header. |
| Skl.ReadHeader | io_scene_lol/lolSkeleton.py:64-83 | Versions 1 and 2 take 20 bytes. Version 0 takes 44 and seeks to `offsetVertexData`, which must be non-negative. Any other version stops after 12. A file shorter than 12 bytes is `Truncated`. |
| Skl.EncodeHeader | io_scene_lol/lolSkeleton.py:86-92 | `toFile` writes 20 bytes for versions 1 and 2, else 12. |
| Skl.ReadHeaderAt | io_scene_lol/lolSkeleton.py:64-92 | A written version-1 or -2 header reads back unchanged. |
| Skl.EncodeHeaderV12Parts | io_scene_lol/lolSkeleton.py:86-92 | A written header holds the id, version, hash and bone count in that order. |
| Skl.HeaderV0Layout | io_scene_lol/lolSkeleton.py:55 | The version-0 block is 32 bytes. |
| Skl.DecodeHeaderV0Layout | io_scene_lol/lolSkeleton.py:72-76 | Every version-0 header decodes back from its block. |
| Skl.ReadHeaderV0At | io_scene_lol/lolSkeleton.py:64-77 | A version-0 header reads back and leaves the cursor at `offsetVertexData`. |
| Skl.Negs | io_scene_lol/lolSkeleton.py:150-151 | Negates every entry of a row. |
| Skl.NegsNegs | io_scene_lol/lolSkeleton.py:150-151 | Negating a row twice gives it back. |
| Skl.FlipRow2 | io_scene_lol/lolSkeleton.py:149-151 | The reader's z flip negates row 2 and keeps rows 0 and 1. |
| Skl.FlipRow2Involution | io_scene_lol/lolSkeleton.py:149-151 | Flipping twice gives the matrix back. |
| Skl.DecodeBone12 | io_scene_lol/lolSkeleton.py:135-151 | A version-1/2 record succeeds iff its 32-byte name is UTF-8, else `NotUtf8`; the name then has no trailing NUL. |
| Skl.EncodeBone12 | io_scene_lol/lolSkeleton.py:185-193 | `sklBone.toFile` writes 88 bytes. |
| Skl.DecodeEncodeBone12 | io_scene_lol/lolSkeleton.py:135-193 | A written bone with a fitting UTF-8 name reads back with name, parent and scale, and row 2 negated. |
| Skl.DecodeBone0 | io_scene_lol/lolSkeleton.py:152-175 | A version-0 record gives a version-0 bone with eight trailing floats and no name yet. |
| Skl.Bone0Words | io_scene_lol/lolSkeleton.py:127 | The float fields of a version-0 record. |
| Skl.Bone0Layout | io_scene_lol/lolSkeleton.py:127 | A version-0 record is 100 bytes. |
| Skl.DecodeBone0Layout | io_scene_lol/lolSkeleton.py:152-175 | The version-0 reader exactly undoes the stored reordering and negations of position, quaternion and `ct`. |
| Skl.ReadBone | io_scene_lol/lolSkeleton.py:135-183 | A version other than 0, 1 or 2 raises `UnsupportedVersion`. Otherwise a bone read succeeds iff the record is present and, for versions 1 and 2, its name is UTF-8. It advances by the record size, and the layout follows the version. |
| Skl.FirstNul | io_scene_lol/lolSkeleton.py:259-262 | The reference position of the first NUL at or after `p`, or none. |
| Skl.ScanChunks | io_scene_lol/lolSkeleton.py:259-261 | The chunk scan, when it stops, stops past its start. |
| Skl.ChunkEnd | io_scene_lol/lolSkeleton.py:259-261 | The chunk holding a position ends after it, within 4 bytes. |
| Skl.ScanChunksFindsNul | io_scene_lol/lolSkeleton.py:259-262 | The scan stops iff a NUL follows, right after the chunk holding the first one; otherwise it is `EndlessNameScan`. |
| Skl.IndexOfNul | io_scene_lol/lolSkeleton.py:262 | `name.index(b'\0')`: every byte before it is non-NUL, and it is a NUL when inside. |
| Skl.FirstNonAscii | io_scene_lol/lolSkeleton.py:263-264 | The first byte that `v.decode()` on its own rejects, or none when all are ASCII. |
| Skl.ReadName | io_scene_lol/lolSkeleton.py:257-264 | A name read stays on the same data. |
| Skl.NameOfChunks | io_scene_lol/lolSkeleton.py:262-264 | Decoding the chunks read stays on the same data. |
| Skl.IndexOfNulInChunks | io_scene_lol/lolSkeleton.py:259-262 | `name.index` in the chunks read finds the file's first NUL. |
| Skl.ReadNameFindsNul | io_scene_lol/lolSkeleton.py:258-264 | A name is read iff a NUL follows and every byte before it is ASCII. It is the bytes up to the NUL, and reading resumes at the end of the NUL's chunk; with no NUL the scan never ends. |
| Skl.PadLength | io_scene_lol/lolSkeleton.py:259-261 | A stored name ends in 1 to 4 NULs. |
| Skl.NameLayout | io_scene_lol/lolSkeleton.py:259-261 | A stored name is its bytes plus its padding. |
| Skl.ReadNameAt | io_scene_lol/lolSkeleton.py:257-264 | A stored name reads back, and reading resumes after its padding. |
| Skl.ScanOfLayout | io_scene_lol/lolSkeleton.py:259-261 | The scan over a stored name stops at the end of its padding. |
| Skl.NameInLayout | io_scene_lol/lolSkeleton.py:262-264 | The name in a stored name's chunks is the name. |
| Skl.NulOfLayout | io_scene_lol/lolSkeleton.py:262 | The first NUL of a stored name is right after it. |
| Skl.ReadNameOfChunks | io_scene_lol/lolSkeleton.py:258-264 | Once the scan stops after some chunks, the name read is the one they hold. |
| Skl.ReadNamesAt | io_scene_lol/lolSkeleton.py:257-264 | A name table written name after name reads back name by name. |
| Skl.ReadIdPair | io_scene_lol/lolSkeleton.py:250-251 | An id pair is read iff 8 bytes remain. |
| Skl.IdMap | io_scene_lol/lolSkeleton.py:247-252 | Every animation id that occurs is a key of the map, and the last pair's assignment stands. |
| Skl.IdMapLastWins | io_scene_lol/lolSkeleton.py:247-252 | The id map has exactly the animation ids that occur, each mapped to the skeleton id of its last pair. |
| Skl.BoneAt | io_scene_lol/lolSkeleton.py:237 | `boneList[id]` succeeds iff `-len <= id < len`, else `BadBoneIndex`. |
| Skl.BoneAtNegative | io_scene_lol/lolSkeleton.py:237 | A negative id names the bone one list length higher. |
| Skl.Copy | io_scene_lol/lolSkeleton.py:195-205 | `copy()` keeps name, parent, scale and matrix; a version-0 bone also keeps its quaternion. |
| Skl.ReadReorderV2 | io_scene_lol/lolSkeleton.py:229-237 | The version-2 list holds at most the stored count. |
| Skl.ReadReorderV0 | io_scene_lol/lolSkeleton.py:287-290 | The version-0 list holds exactly the stored count. |
| Skl.TailWordsAtEnd | io_scene_lol/lolSkeleton.py:231-236 | The first of the ids that end the file reads back, and the rest follow it. |
| Skl.ReadReorderV2AtEnd | io_scene_lol/lolSkeleton.py:231-237 | Ids written at the end of the file give copies of the bones they name, however large the count: the loop stops at the end of the data. |
| Skl.ReadReorderV0At | io_scene_lol/lolSkeleton.py:287-290 | Written int16 ids give copies of the bones they name. |
| Skl.SetNames | io_scene_lol/lolSkeleton.py:263 | Naming every bone keeps the list length. |
| Skl.ImportSkl | io_scene_lol/lolSkeleton.py:208-296 | `importSKL` gives `range()` many bones of the version's layout. Version 1 has no reorder list, version 0 has the id map and `numBoneIDs` reordered copies, and any other version is `UnsupportedVersion`. |
| Skl.IndexOfName | io_scene_lol/lolSkeleton.py:445-450 | The first bone with a name, or none when no bone has it. |
| Skl.ParentIndex | io_scene_lol/lolSkeleton.py:419-425 | The stored parent is the parent's position in the armature, or -1 for a root; the lookup fails iff no bone has the parent's name. |
| Skl.ExportParents | io_scene_lol/lolSkeleton.py:416-425 | Every bone's parent, looked up; it fails iff some lookup fails. |
| Skl.GroupIndices | io_scene_lol/lolSkeleton.py:445-452 | The bone position of every vertex group; it fails iff some group names no bone. |
| Skl.ExportMatrix | io_scene_lol/lolSkeleton.py:429-432 | The exporter negates an entry iff it is in row 2 or column 2 but not both. |
| Skl.ReadBackExportMatrix | io_scene_lol/lolSkeleton.py:429-432 | The reader's row flip of an exported matrix is the matrix with column 2 negated. |
| Skl.ExportBones | io_scene_lol/lolSkeleton.py:416-432 | One version-1/2 bone per armature bone. |
| Skl.ExportSkl | io_scene_lol/lolSkeleton.py:405-467 | The export succeeds iff every parent and group is found, the imported version is 1 or 2, and the counts fit `<i`. A version other than 1 or 2 is `UnsupportedVersion`. The file is `20 + 88 n + 4 + 4 g` bytes. |
| Skl.ImportedBones | io_scene_lol/lolSkeleton.py:427-432 | What the importer makes of the exported bones: one version-1/2 bone each. |
| Skl.BoneReadsBack | io_scene_lol/lolSkeleton.py:135-193 | A bone with a fitting UTF-8 name, written pre-flipped, reads back as itself. |
| Skl.ExportedBonesEncode | io_scene_lol/lolSkeleton.py:460-461 | The exported bone run is 88 bytes per bone. It is the pre-flipped encoding of the bones the importer makes. |
| Skl.ReadExportedBones | io_scene_lol/lolSkeleton.py:460-461 | The exported bones read back in a run with column 2 negated. |
| Skl.ReadPreFlippedBones | io_scene_lol/lolSkeleton.py:221-223 | Bones written pre-flipped read back in a run as themselves. |
| Skl.ExportImportSkl | io_scene_lol/lolSkeleton.py:405-467 | Importing an exported skeleton gives the new header and every bone: name, parent position, scale 0.1 and matrix with column 2 negated. Version 2 also gives the bones the vertex groups name. |
| Anm.DecodeHeader4 | io_scene_lol/lolAnimation.py:117-129 | A version-4 header keeps `timePerFrame` and the frame rate derived from it. |
| Anm.ReadHeader | io_scene_lol/lolAnimation.py:94-131 | Versions 0, 2 and 3 take 28 bytes. Version 1 always fails. Version 4 takes 76 bytes and fails iff `timePerFrame` is zero or NaN. Other versions are `UnsupportedVersion`. |
| Anm.FirstUnfit | io_scene_lol/lolAnimation.py:137-141 | The first field that does not fit `<i`, or none iff all fit. |
| Anm.EncodeHeader | io_scene_lol/lolAnimation.py:135-142 | `anmHeader.toFile` succeeds iff every written field fits `<i`. It writes id and version, plus four fields for versions 0, 2 and 3. |
| Anm.EncodeHeader023Parts | io_scene_lol/lolAnimation.py:135-142 | A version-0/2/3 header is id, version, magic, bones, frames and fps in that order. |
| Anm.ReadHeaderAt | io_scene_lol/lolAnimation.py:94-142 | A written version-0/2/3 header reads back exactly. |
| Anm.ReadHeader023OfParts | io_scene_lol/lolAnimation.py:96-103 | The reader's version-0/2/3 path takes the two blocks it reads in order. |
| Anm.NegZ | io_scene_lol/lolAnimation.py:201 | `position.z *= -1` negates z and keeps x and y. |
| Anm.NegZInvolution | io_scene_lol/lolAnimation.py:201 | Negating z twice gives the position back. |
| Anm.ReadFrame | io_scene_lol/lolAnimation.py:192-204 | A frame is 28 bytes for versions 0, 2 and 3; other versions are `UnsupportedVersion`. |
| Anm.FrameWords | io_scene_lol/lolAnimation.py:222 | A frame is seven floats. |
| Anm.DecodeFrame | io_scene_lol/lolAnimation.py:195-201 | The reader loses nothing: every 28-byte record is the encoding of the sample read from it, once z is negated back. |
| Anm.EncodeFrame | io_scene_lol/lolAnimation.py:222 | A written frame is 28 bytes. |
| Anm.DecodeEncodeFrame | io_scene_lol/lolAnimation.py:192-222 | Decoding a written frame gives the orientation back and the position with z negated. |
| Anm.ReadFrameAt | io_scene_lol/lolAnimation.py:192-204 | A written frame reads back with z negated. |
| Anm.AddFrame | io_scene_lol/lolAnimation.py:206-210 | `add_frame` appends to both lists together and keeps them aligned. |
| Anm.GetFrame | io_scene_lol/lolAnimation.py:212-215 | `get_frame` succeeds iff the number indexes both lists, negative numbers counting from the end; otherwise `NoSuchFrame`. |
| Anm.GetAddedFrame | io_scene_lol/lolAnimation.py:206-215 | The frame just added is at its own number and at -1. |
| Anm.GetEarlierFrame | io_scene_lol/lolAnimation.py:206-215 | Adding a frame leaves every earlier frame in place. |
| Anm.TrackOf | io_scene_lol/lolAnimation.py:241-243 | The track `add_frame` builds from samples holds sample `j` at frame `j`. |
| Anm.TrackOfSnoc | io_scene_lol/lolAnimation.py:206-210 | One more sample is one more `add_frame`. |
| Anm.FramesOf | io_scene_lol/lolAnimation.py:221-222 | The writer pairs each orientation with the position of the same number; for an aligned track this is the inverse of `TrackOf`. |
| Anm.ReadMeta | io_scene_lol/lolAnimation.py:171-190 | For versions 0, 2 and 3, the bone record is read iff 36 bytes remain and the 32-byte name is UTF-8, else `NotUtf8`. The name has no trailing NUL. Other versions are `UnsupportedVersion`. |
| Anm.EncodeMeta | io_scene_lol/lolAnimation.py:220 | The bone record is 36 bytes. |
| Anm.ReadMetaAt | io_scene_lol/lolAnimation.py:171-190 | A fitting UTF-8 name and its field read back unchanged. |
| Anm.ReadTrack | io_scene_lol/lolAnimation.py:237-243 | A bone is its record and `range(numFrames)` frames, aligned, `36 + 28 n` bytes. |
| Anm.RestAfterFrames | io_scene_lol/lolAnimation.py:241-243 | A run of frames advances 28 bytes per frame. |
| Anm.ImportAnm | io_scene_lol/lolAnimation.py:226-254 | `importANM` gives version 0, 2, 3 or 4. Version 4 has no bones; the others have `range(numBones)` aligned bones of `range(numFrames)` frames each. |
| Anm.FlipTrack | io_scene_lol/lolAnimation.py:201 | Every position's z negated, everything else kept. |
| Anm.FlipTrackInvolution | io_scene_lol/lolAnimation.py:201 | Flipping a track twice gives it back. |
| Anm.TrackBytes | io_scene_lol/lolAnimation.py:217-223 | A written bone is `36 + 28` bytes per orientation. |
| Anm.EncodeTrack | io_scene_lol/lolAnimation.py:217-223 | `anmBone.toFile` writes nothing for other versions. For 0, 2 and 3 it fails with an `IndexError` iff there are fewer positions than orientations. |
| Anm.EncodeTracks | io_scene_lol/lolAnimation.py:217-223 | Writing the bones raises iff, in versions 0, 2 and 3, some bone has fewer positions than orientations; other versions write nothing. |
| Anm.EncodeAnm | io_scene_lol/lolAnimation.py:395-398 | The header, then the bones: raises iff a header field does not fit `<i` or, in versions 0, 2 and 3, a bone is short of positions. The output starts with the header, and is only the header in other versions. |
| Anm.EncodeTracksConcat | io_scene_lol/lolAnimation.py:397-398 | Bones that all write are written back to back. |
| Anm.FrameReadsBack | io_scene_lol/lolAnimation.py:192-222 | Every frame written unflipped reads back as itself. |
| Anm.ReadFramesAt | io_scene_lol/lolAnimation.py:241-243 | A written track's frames read back in a run with z negated. |
| Anm.ReadTrackAt | io_scene_lol/lolAnimation.py:237-243 | A written track with a fitting UTF-8 name reads back whole, with every z negated. |
| Anm.TrackReadsBack | io_scene_lol/lolAnimation.py:237-243 | Every track of the imported shape, written unflipped, reads back as itself. |
| Anm.FlipTracks | io_scene_lol/lolAnimation.py:201 | Flips every track. |
| Anm.ReadTracksAt | io_scene_lol/lolAnimation.py:237-243 | Written tracks read back in a run with every z negated. |
| Anm.ImportEncodeAnm | io_scene_lol/lolAnimation.py:226-254 | Importing a written animation gives its header and every bone back, with each z negated. |
| Anm.EncodeAnmLayout | io_scene_lol/lolAnimation.py:395-398 | A written animation is its header, then its bones back to back. |
| Anm.ImportAnmLayout | io_scene_lol/lolAnimation.py:226-254 | A header followed by its bones imports as that animation, z negated. |
| Anm.ExportTrack | io_scene_lol/lolAnimation.py:357-391 | The exported bone has the armature bone's name and unknown 0 under a parent, 2 for a root. Frame `j` is sample `j` with z negated. |
| Anm.ExportAnm | io_scene_lol/lolAnimation.py:328-403 | A failed import fails the export. The version is overwritten when asked, and a version other than 0, 2 and 3 is `UnsupportedVersion`. |
| Anm.FlipExportTrack | io_scene_lol/lolAnimation.py:389-391 | Reading back an exported track undoes the exporter's z negation. |
| Anm.ExportedWellFormed | io_scene_lol/lolAnimation.py:349-391 | What the exporter writes is well formed when the names fit their field. |
| Anm.ExportImportAnm | io_scene_lol/lolAnimation.py:328-403 | Importing an exported animation gives the new header and, per bone, its name, 0 or 2 by parent, and every sampled orientation and position exactly. |
| Sco.StripLeft | io_scene_lol/lolMesh.py:665 | `lstrip()` keeps a suffix that starts with no whitespace, and drops only whitespace. |
| Sco.StripRight | io_scene_lol/lolMesh.py:665 | `rstrip()` keeps a prefix that ends with no whitespace, and drops only whitespace. |
| Sco.Strip | io_scene_lol/lolMesh.py:665 | `strip()` neither starts nor ends with whitespace. |
| Sco.StripIsSlice | io_scene_lol/lolMesh.py:665 | The stripped text is a slice of the line between two all-whitespace margins. |
| Sco.StripIdempotent | io_scene_lol/lolMesh.py:703 | Stripping twice is stripping once. |
| Sco.LowerChar | io_scene_lol/lolMesh.py:665 | The ASCII reference for `lower()`: capitals move down by 32, everything else is kept. |
| Sco.Lower | io_scene_lol/lolMesh.py:665 | Lowering ASCII text works character by character. |
| Sco.LowerIdempotent | io_scene_lol/lolMesh.py:665 | Lowering twice is lowering once. |
| Sco.WordAt | io_scene_lol/lolMesh.py:692 | The first word of `split()` is the longest whitespace-free prefix. |
| Sco.Words | io_scene_lol/lolMesh.py:692 | `split()` gives non-empty words without whitespace. |
| Sco.WordsEmpty | io_scene_lol/lolMesh.py:692 | A line splits into no words iff it is all whitespace. |
| Sco.WordsJoinWords | io_scene_lol/lolMesh.py:692 | Splitting words joined by spaces gives the words back. |
| Sco.ParseAll | io_scene_lol/lolMesh.py:704 | `[p(x) for x in ws]` succeeds iff every word parses, element by element, and otherwise fails on its line. |
| Sco.ReadLines | io_scene_lol/lolMesh.py:702-705 | A block of `count` lines succeeds iff each parses. Line `p` gives element `p - j`. |
| Sco.LineAt | io_scene_lol/lolMesh.py:703-711 | `readline()` gives line `j`, or past the end of the file a line with no fields. |
| Sco.Fields | io_scene_lol/lolMesh.py:692 | `line.strip().split()` gives non-empty words without whitespace. |
| Sco.ParseFace | io_scene_lol/lolMesh.py:711-722 | A face line needs 11 fields, with four integers then six floats. It gives three vertex ids, the material word and three UVs with `v` flipped; `nVtx` is parsed but not checked. |
| Sco.Names | io_scene_lol/lolMesh.py:732-734 | The material names in dict order. |
| Sco.AddToGroup | io_scene_lol/lolMesh.py:731-734 | One face adds at most one entry to the dictionary, and a new entry, for the face's material with just that face, goes last. |
| Sco.AddToGroupCorrect | io_scene_lol/lolMesh.py:731-734 | Adding face `k` appends it to its material's list only, and a new material goes last. |
| Sco.AddFaces | io_scene_lol/lolMesh.py:707-734 | A block of faces adds at most one dictionary entry per face. |
| Sco.Occurrences | io_scene_lol/lolMesh.py:710-734 | The reference list of positions where a material occurs. |
| Sco.AddFacesNames | io_scene_lol/lolMesh.py:707-734 | A block lists materials in order of first use after those present, and keeps them distinct. |
| Sco.AddFacesGroups | io_scene_lol/lolMesh.py:707-734 | Each material's list gains the block positions where it occurs. |
| Sco.ApplyFacesDistinct | io_scene_lol/lolMesh.py:707-737 | A block keeps the material names distinct. |
| Sco.ApplyFaces | io_scene_lol/lolMesh.py:707-737 | A `faces=` block leaves the object's name, central point, pivot point and vertices alone, and adds at most one material per face. |
| Sco.ApplyFacesGroups | io_scene_lol/lolMesh.py:707-737 | A block groups its faces by material, with new materials in order of first use. |
| Sco.ApplyFacesLists | io_scene_lol/lolMesh.py:707-737 | A block appends its faces' vertex ids. It stores face `k`'s UVs under `k`, replacing an earlier block's entry, and keeps the other UVs. |
| Sco.LastWordJoin | io_scene_lol/lolMesh.py:692 | `split()[-1]` of joined words is the last word. |
| Sco.BlockCount | io_scene_lol/lolMesh.py:701-702 | `int(line.split()[-1])` succeeds iff the last word parses, and the loop runs `range()` of it. |
| Sco.Block | io_scene_lol/lolMesh.py:700-705 | A block succeeds iff the count and each of its lines parse; line `p` gives element `p - i - 1`. |
| Sco.EditObject | io_scene_lol/lolMesh.py:690-737 | A keyword line inside an object moves the loop forward and keeps the material names distinct. |
| Sco.EditVerts | io_scene_lol/lolMesh.py:700-705 | A `verts=` block leaves the materials alone. |
| Sco.EditFaces | io_scene_lol/lolMesh.py:707-737 | A `faces=` block keeps the material names distinct. |
| Sco.Step | io_scene_lol/lolMesh.py:657-737 | One pass of the main loop moves forward, keeps an open object, and never changes a closed object. |
| Sco.KeywordLines | io_scene_lol/lolMesh.py:665 | Every line's keyword form, stripped and lowered. |
| Sco.Scan | io_scene_lol/lolMesh.py:657-737 | The main loop leaves objects closed before it unchanged. |
| Sco.ImportSco | io_scene_lol/lolMesh.py:650-741 | Every imported object keeps its material names distinct. |
| Sco.ScanOutside | io_scene_lol/lolMesh.py:670-690 | Outside an object, every line that does not open one is skipped. |
| Sco.NoBeginNoObjects | io_scene_lol/lolMesh.py:650-741 | A file without `[objectbegin]` yields no objects. |
| Sco.BeginOutsideOpens | io_scene_lol/lolMesh.py:670-673 | Outside an object, `[objectbegin]` opens a fresh one. |
| Sco.EditOtherLine | io_scene_lol/lolMesh.py:690-698 | A line inside an object that starts with no field keyword changes nothing. |
| Sco.BeginInsideIgnored | io_scene_lol/lolMesh.py:670-690 | Inside an object a second `[objectbegin]` opens nothing. |
| Sco.EndOutsideIgnored | io_scene_lol/lolMesh.py:676-690 | Outside an object `[objectend]` is ignored. |
| Sco.EndInsideCloses | io_scene_lol/lolMesh.py:676-678 | Inside an object `[objectend]` closes it. |
| Sco.FacesEdit | io_scene_lol/lolMesh.py:707-737 | `faces=N` reads the next N lines (none when N < 0) as faces, applies them, and resumes after them. |
| Sco.VertsEdit | io_scene_lol/lolMesh.py:700-705 | `verts=N` appends the next N lines' coordinates and resumes after them. |
| Sco.InsideEdits | io_scene_lol/lolMesh.py:690-737 | Inside an object any line but `[objectend]` edits the open object and keeps it open. |
| Sco.StripLeftPad | io_scene_lol/lolMesh.py:665 | `lstrip()` drops exactly the leading whitespace. |
| Sco.StripRightKeepsWord | io_scene_lol/lolMesh.py:665 | `rstrip()` keeps a leading word. |
| Sco.LowerPrefix | io_scene_lol/lolMesh.py:670 | Lowering keeps prefixes. |
| Sco.LowerUpper | io_scene_lol/lolMesh.py:665 | Lowering undoes raising on a lower-case word. |
| Sco.KeywordIgnoresCase | io_scene_lol/lolMesh.py:665-670 | Keywords are found whatever their case, after any leading whitespace. |
| Sco.Upper | io_scene_lol/lolMesh.py:665 | The ASCII capitalisation used to state case-insensitivity. |
| Sco.KeywordLineIgnoresCase | io_scene_lol/lolMesh.py:665-670 | With a `lower` that agrees with the reference on ASCII, an ASCII line holding a keyword in any case is recognised by it. |
| Sco.StripAscii | io_scene_lol/lolMesh.py:665 | Stripping ASCII text leaves ASCII text. |

## Left out

- Bytes are integers in 0..255, not `bv8`, because conversions between bit-vectors and integers are very slow for the solver. Every operation on them is explicit arithmetic.
- Bytes.Neg: binary32 values are kept as raw words. NaN quieting on a float round trip, and the sign of a negated NaN (`position.z *= -1`, lolAnimation.py:201), are not modelled: `Neg` always flips the sign bit.
- SknExport.Renormalize: weights are `real`, not doubles, so rounding is not modelled. The result is not converted to binary32.
- SknExport.BoundingSphere: on `real`, as above; the box corners are given.
- SknExport.FlipV: `1 - v` is on `real`, in the exporter and in the `.sco` importer alike.
- Anm.ReadHeader: `roundRecip` stands for `round(1.0 / timePerFrame)`. It is an arbitrary function parameter with no constraint, because float division and rounding are not modelled.
- Sco.KeywordLines: `int()`, `float()` and `str.lower()` are parameters (`Builtins`). Their exact Python syntax and Unicode case mapping are not modelled. `Lower` is the ASCII reference, and `KeywordLineIgnoresCase` assumes only that `lower` agrees with it on ASCII text.
- Sco.ImportSco: the file arrives already decoded and split into lines, without terminators. Text decoding errors and newline handling are not modelled; the end of the sequence is the end of the file.
- Skn.DecodeMaterial: the 80-byte `<64s4i` record the code reads is followed. A format description with a different size is not.
- Skn.MaterialLayout: `sknMaterial.toFile` packs with `self.__format__`, which is `object.__format__` and not a format string, so it always raises. The exporter's material block is modelled only up to that error (`MaterialNotPackable` in SknExport.ExportMaterialBlock); the layout given is the one the reader expects.
- Skn.ReadVertex: the colour is the four stored bytes. The reader's division by 255 and the writer's `int(c * 255.0)` are float conversions and are not modelled.
- Skn.ImportSkn: the material ranges are not checked against the metadata counts or against each other, as in the code.
- Bytes.DecodeName: a name that is not UTF-8 is reported at the field's offset, not at the byte where decoding fails.
- Skl.ScanChunks: the version-0 name scan loops forever when no NUL follows, because `read(1)` at the end returns nothing. Here it is the error `EndlessNameScan`.
- Skl.DecodeBone0: the name hash is read and dropped, as in the code. The name comes from the name table.
- Sco.ParseFace: `nVtx` is parsed but not required to be 3, as in the code.
- Anm.ImportAnm: versions 1 and 4 have no bone bodies to read (version 1 raises in the header, version 4 reads none).
- Anm.ExportAnm: the per-frame pose maths (parent offsets, matrix products, quaternion rotations) is Blender's. The samples arrive as given positions and orientations; only the z negation is modelled.
- SknExport.ExportSlots: the assembled `exportSKN` byte stream is not one function. These pieces are modelled with their `struct.pack` range errors: the header choice, the material block with its count, the metadata, the index packing, the bone-id packing and the trailer. The float fields of a vertex and the colour's `int(c * 255.0)` are not packed from reals, because floats are kept as raw words.
- The Blender glue is not part of this model: `buildMesh`, `buildSKL`, `buildSCO`, `applyANM`, `exportSCO`, `skn2obj` and `addDefaultWeights`, and the `bpy`/`bmesh` reads in the exporters.
- A file left half-written when a `toFile` raises during an export is not modelled. Exports are whole results or errors.
- The `print` logging is left out.

## Findings

| source | as written | input that shows it | evidently intended | confidence | as-written member | corrected member |
|---|---|---|---|---|---|---|
| io_scene_lol/lolMesh.py:642-645 | `importSKN` stores the trailer wrapped in a one-element list (lolMesh.py:272). The exporter replaces any `endTab` shorter than 3 with zeros, so an imported trailer is always written as zeros. | Base an export on a version-2 file whose trailer is (1, 2, 3), with no material slots or with `numObjects <= 0` (otherwise `sknMaterial.toFile` raises before the trailer is written): the written trailer is (0, 0, 0). | The imported triple is written back. | not executed | SknExport.ExportTrailerDropsImport, SknExport.ExportTrailerLosesValues | SknExport.ExportTrailerPreserving, SknExport.ExportTrailerPreservingRoundTrip |
| io_scene_lol/lolMesh.py:210-224 | `fromFile` reads the colour block when the flag is `> 0`, but `toFile` writes it when the flag is truthy. | A direct `sknVertex.toFile` call with a negative int flag, e.g. -1: each vertex is written as 56 bytes but read as 52, so every later vertex is misaligned. `exportSKN` itself passes a bool (lolMesh.py:461, 640), so it cannot produce this. | The colour block is written exactly when it is read; the mesh layout the model reads back uses this writer. | not executed | Skn.NegativeColorFlagDesync | Skn.EncodeVertexMatching, Skn.ReadVertexMatchingAt |
| io_scene_lol/lolMesh.py:574-576 | `exportSKN` writes the material count iff `header.numObjects > 0`, but `importSKN` reads one iff the version is 1, 2 or 4 (lolMesh.py:40-42). | Base an export, with no material slots, on a version-2 file whose header has `numObjects` 0: no count is written, and the reader takes the first metadata word (`numIndices`) as the material count and reads everything after it 4 bytes late. A version-0 import with `numObjects` 1 gives the opposite: a count is written that the reader never takes (the export then raises at `sknMetaData.toFile`, lolMesh.py:166-167, leaving a half-written file). | The count is written exactly when the reader takes one. | not executed | SknExport.ExportMaterialBlock, SknExport.ExportMaterialBlockDesync | SknExport.ExportCountMatching, SknExport.ExportCountMatchingReadsBack |
