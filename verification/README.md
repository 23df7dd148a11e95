# casacore-mini in Dafny: formats, lattices, transforms

A Dafny 4.11 model of the parts of casacore-mini whose correctness is hardest to see in the code, with proofs that they do
what their design promises.

- **Incremental storage manager.** `IsmWriter` collects a matrix of cells and `flush` compresses every column into runs,
  packs entry records greedily into 32768-byte buckets, lays out data and per-column indices, and adds header and bucket
  index. `IsmReader` parses the bytes back and answers `read_cell` by binary search. The specification is the matrix.
- **AipsIO records.** A recursive writer (schema first, values after, object lengths patched backwards) and a recursive
  reader for nested records, arrays, table references and table records.
- **LinearXform.** In-place Gauss-Jordan inversion with partial pivoting and the two pixel/world maps, over reals.
- **Lattice expressions.** Shapes and strides, the evaluator with broadcasting and masks, the type dispatch and the
  recursive-descent parser.
- **Lattice regions.** Compound regions through bounding boxes and local masks, polygon and ellipsoid rasterizers over reals.
- **Measurement-set concatenation, composite coordinates, column index.** Identifier renumbering, axis maps, ordered lookup.

Each component has pure functions that say what the bytes, trees or sets mean; classes and loops in the form of the source,
proved equal to those functions; and lemmas about the functions: round trips, exactness, invariants, inverses. The functions
are also tied to definitions that share nothing with them: byte layouts written out and strict readers (`IsmIndex`, `IsmForms`,
`RecordWire`, `RecordForms`), the value of an expression said on its text (`LelMeaning`), points of edges and sides of triangles
(`ShapeGeometry`).

## Files

| files | component |
|---|---|
| `IsmCells`, `IsmRuns`, `IsmLayout`, `IsmFile`, `IsmIndex`, `IsmForms`, `IsmRoundTrip`, `IsmWriting`, `IsmReading` | incremental storage manager |
| `AipsIo`, `Records`, `RecordFormat`, `RecordRoundTrip`, `RecordWire`, `RecordForms`, `RecordWriter`, `RecordReader` | AipsIO records |
| `Matrix`, `GaussJordan`, `PivotThreshold`, `LinearXform` | linear transform |
| `LatticeShape`, `LatticeArray`, `LelNodes`, `LelEval`, `LelTyping`, `LelGrammar`, `LelSyntax`, `LelText`, `LelRoundTrip`, `LelDerivation`, `LelParens`, `LelMeaning`, `LelParser`, `LelSound` | lattices and expressions |
| `LatticeRegion`, `RegionShapes`, `ShapeGeometry` | regions |
| `MsConcat`, `CoordinateSystem`, `LinearCoordinate`, `ColumnsIndex` | concatenation, coordinates, index |
| `Wrappers`, `Arithmetic`, `Bytes` | shared |

`dafny verify dfyconfig.toml` checks everything.

## Where the code and its promise differ

The model keeps the code as it is. Where a promise holds only under a condition, the condition is stated as an if and only if
and an input that fails is given.

- **Negative zero.** Run compression compares cells with `==`, so a -0.0 after a +0.0 reads back as +0.0
  (`IsmRoundTrip.ExactIff`, `IsmRoundTrip.NegativeZeroIsLost`). A NaN compares unequal to itself and starts a run in every row,
  so it survives.
- **Magic-sized objects.** The reader of embedded objects treats a leading 0xBEBEBEBE as the optional magic word; an embedded
  object of exactly that length is written and then rejected (`RecordRoundTrip.RootRoundTrip`, `RecordRoundTrip.LongNameIsLost`).
- **8-bit arrays.** The guard on array elements counts two bytes for an 8-bit element, so an array of 8-bit values reads back if
  and only if at least as many bytes follow it as it has elements (`RecordForms.OctetArrayRound`).
- **Long bucket indices.** The length of the bucket index is cast to 32 bits; an independent reader finds the index if and only
  if 70 plus eight times the number of buckets fits (`IsmIndex.FileIndex`).
- **Small matrices.** The absolute pivot threshold 1e-15 rejects invertible matrices with small entries
  (`GaussJordan.SmallInvertibleIsRejected`). A matrix is accepted exactly when it has an inverse and elimination meets no
  non-zero pivot below the threshold (`PivotThreshold.AcceptedIff`); a diagonal one exactly when its entries reach the threshold
  (`PivotThreshold.DiagonalReduce`, and `LinearXform.Xform.PlainPixelFound` for a transform without PC matrix). Every invertible
  matrix has a threshold of its own: exactly its multiples by at least that magnitude are accepted
  (`PivotThreshold.AcceptedFrom`).
- **Conditional shapes.** `LelIif` compares no shapes and takes the first one there is. Operands that every other node reports as a
  mismatch evaluate (`LelEval.NarrowConditional`), and a selected branch or a mask that is too short is read past its end
  (`LelEval.ShortBranch`, `LelEval.ShortMask`). `LelNodes.InRange` says exactly when all reads stay inside, and `LelEval.Eval`
  shows it; `LelNodes.CoveredInRange` gives a sufficient condition on sizes alone, which is not necessary
  (`LelEval.UnselectedBranch`).
- **Polygons off the lattice.** Construction fails exactly when the lengths of the box have opposite signs, as they have off the
  lattice along one axis; off along both axes an empty region results (`RegionShapes.LcPolygon.Make`).
- **Empty lattices.** The box of a union starts from a corner at zero, so with an extent of zero a union of complements has a
  larger mask than the complement of the intersection (`LatticeRegion.DeMorganIntersection`).
- **Observations, polarizations, missing windows.** Concatenation copies observation identifiers unmapped
  (`MsConcat.ObservationsKeptIff`, `MsConcat.ObservationIsLost`), copies only the first set's polarizations
  (`MsConcat.PolarizationKept`), and a data description whose spectral window does not exist may find one in the output
  (`MsConcat.FirstKeepsReferences`, `MsConcat.SecondKeepsReferences`).

## Model

| member | source | states |
|---|---|---|
| IsmCells.CellRound | src/incremental_stman.cpp:541-605 | reading the bytes written for a cell gives the value its column type stores (the type's zero for another alternative), whatever follows |
| IsmCells.FloatComparison | src/incremental_stman.cpp:655-669 | single-precision cells compare equal exactly when neither is a NaN and they are the same pattern or the two zeros |
| IsmCells.DoubleComparison | src/incremental_stman.cpp:655-669 | the same for double precision |
| IsmCells.OtherComparison | src/incremental_stman.cpp:655-669 | complex cells compare by both parts, all others by identity, different alternatives never equal |
| IsmRuns.RunEqualsHead | src/incremental_stman.cpp:655-719 | every row of a run compares equal to the row that starts it |
| IsmRuns.HeadByRun | src/incremental_stman.cpp:694-706 | comparing with the previous entry decides the same as comparing with the row before |
| IsmRuns.HeadsAscend | src/incremental_stman.cpp:673-719 | a column's entries are exactly its run starts, strictly ascending |
| IsmRuns.KeptAreHeads | src/incremental_stman.cpp:655-719 | the first pass's filter on neighbouring rows skips no row any column needs: the second pass keeps exactly the run starts |
| IsmRuns.SelectEntryRows | src/incremental_stman.cpp:782-806 | the entries a column selects from the entry rows are exactly its run starts |
| IsmRuns.PlanFits | src/incremental_stman.cpp:753-778 | if one entry fits, the worst case of every planned bucket stays within 32768 bytes |
| IsmRuns.PlanTotal | src/incremental_stman.cpp:753-778 | the plan covers every entry row |
| IsmRuns.PlanIsGreedy | src/incremental_stman.cpp:753-778 | every planned bucket but the last is full: its fixed part and the worst case of one more entry exceed 32768 bytes |
| IsmRuns.CutJoins | src/incremental_stman.cpp:753-778 | the buckets are consecutive runs of the entry rows, nothing lost or repeated |
| IsmLayout.ContentFits | src/incremental_stman.cpp:812-842 | free-offset word, data and index together stay inside a planned bucket |
| IsmLayout.ParseBucketRound | src/incremental_stman.cpp:220-272 | parse_ism_bucket_indices recovers exactly the row numbers and data offsets of a built bucket |
| IsmLayout.CellAt | src/incremental_stman.cpp:277-330 | a stored data offset leads to that column's value of that row's packed record |
| IsmLayout.ReadEntriesRound | src/incremental_stman.cpp:388-398 | reading a column's entries from a bucket gives its run starts there with their stored values |
| IsmFile.BucketRowsFit | src/incremental_stman.cpp:753-778 | every planned bucket is non-empty and fits; there are at most as many as rows |
| IsmFile.HeaderRound | src/incremental_stman.cpp:132-204 | the written header is recognised as little-endian and gives back version, bucket size and bucket count |
| IsmFile.BucketInFile | src/incremental_stman.cpp:373-381 | bucket b of the file lies at 512 plus b times the bucket size |
| IsmFile.FileEntriesRound | src/incremental_stman.cpp:371-399 | parsing the first b buckets gives the run starts of their rows for every column |
| IsmFile.FileRound | src/incremental_stman.cpp:337-410 | opening a flushed file recovers the header and exactly the runs of every column |
| IsmIndex.IndexTaken | src/incremental_stman.cpp:897-957 | a reader of little-endian objects takes the written index apart: start rows with the row count as sentinel, bucket numbers 0, 1, 2 and so on, nothing left over |
| IsmIndex.FileIndex | src/incremental_stman.cpp:609-968 | in a flushed file that reader finds the index behind the last bucket, with the start row and number of every bucket, if and only if its length fits 32 bits |
| IsmIndex.IndexFindsBucket | src/incremental_stman.cpp:897-957 | the number beside the last start row at or before a row is the bucket whose rows hold the last entry row at or before it |
| IsmForms.CellForm | src/incremental_stman.cpp:277-330 | a value of any type, strings included, written out in either byte order reads back, whatever follows |
| IsmForms.StoredForm | src/incremental_stman.cpp:541-605 | the writer stores two's complement or the bit pattern least significant byte first, real before imaginary part, zeros for another alternative |
| IsmForms.FrameOrderIff | src/incremental_stman.cpp:137-149 | a header is taken as big-endian exactly when its length is below 512 in that order and not in the other |
| IsmForms.HeaderParsed | src/incremental_stman.cpp:132-204 | a header of any version, framed in either byte order, gives its fields and the byte order of the content |
| IsmForms.BucketParsed | src/incremental_stman.cpp:220-272 | in a block of any data and any entries, in either byte order, the index behind the data is found and taken apart exactly |
| IsmForms.FileForm | src/incremental_stman.cpp:371-399 | from a file of any such blocks, entries at any offsets, the reader collects every column's entries in order |
| IsmForms.FlushedHeader | src/incremental_stman.cpp:847-895 | the written header field by field: version 5, little-endian, no free buckets, -1 as the first of them, zeros up to 512 bytes |
| IsmForms.FlushedBucket | src/incremental_stman.cpp:782-842 | a flushed block is its rows' values row by row and column by column, then each column's run starts with the place of their values, then zeros |
| IsmForms.FlushedFile | src/incremental_stman.cpp:959-968 | a flushed file byte for byte: header, these blocks in order, bucket index |
| IsmRoundTrip.LookupHeads | src/incremental_stman.cpp:445-458 | the last entry at or before a row is the start of that row's run |
| IsmRoundTrip.CellOfRun | src/incremental_stman.cpp:609-968 | every cell of a flushed file reads as the stored value of the start of its run |
| IsmRoundTrip.ExactIff | src/incremental_stman.cpp:609-968 | a column comes back exactly if and only if neighbouring cells that compare equal are stored alike |
| IsmRoundTrip.NoZerosIsExact | src/incremental_stman.cpp:655-669 | only zeros can compare equal without being identical |
| IsmRoundTrip.NegativeZeroIsLost | src/incremental_stman.cpp:655-669 | the column [+0.0, -0.0] reads back as [+0.0, +0.0] |
| IsmRoundTrip.WrittenCell | src/incremental_stman.cpp:497-509 | after any sequence of write_cell calls a cell holds the last value written to it |
| IsmRoundTrip.ReadBack | src/incremental_stman.cpp:497-968 | after any writes the flushed bytes give back the last value written to every cell, in stored form |
| IsmRoundTrip.HeadsAreMinimal | src/incremental_stman.cpp:655-719 | no set of rows that stands for a whole column is smaller than its run starts |
| IsmRoundTrip.HeadsCover | src/incremental_stman.cpp:655-719 | the run starts stand for the whole column |
| IsmRoundTrip.BucketsInOrder | src/incremental_stman.cpp:782-788 | bucket start rows strictly increase and each bucket's rows lie between its start and the next |
| IsmRoundTrip.UnfittingOverflows | src/incremental_stman.cpp:764-768 | without the fitting condition flush puts the first row alone into a bucket whose content exceeds its block |
| IsmWriting.WriteLe32 | src/incremental_stman.cpp:28-33 | overwrites exactly four bytes with the little-endian word |
| IsmWriting.MarkRows | src/incremental_stman.cpp:655-669 | marks exactly the rows at which some column changes |
| IsmWriting.ColumnEntries | src/incremental_stman.cpp:671-719 | builds for every column exactly its run starts |
| IsmWriting.CollectRows | src/incremental_stman.cpp:739-744 | collects the marked rows in order |
| IsmWriting.FillBucket | src/incremental_stman.cpp:756-769 | takes as many entries as the greedy count says |
| IsmWriting.PlanBuckets | src/incremental_stman.cpp:753-778 | the planned slices are the cut of the entry rows by the plan |
| IsmWriting.PackBucket | src/incremental_stman.cpp:782-810 | data area and per-column entries of a bucket, records and offsets matching |
| IsmWriting.WriteIndices | src/incremental_stman.cpp:815-840 | the in-place bucket holds free-offset word, data and index, zero beyond |
| IsmWriting.BuildBucket | src/incremental_stman.cpp:782-842 | the built block is the bucket of its rows |
| IsmWriting.BuildHeader | src/incremental_stman.cpp:847-895 | the 512-byte header with its patched length |
| IsmWriting.BuildIndex | src/incremental_stman.cpp:897-957 | the ISMIndex object with both patched blocks |
| IsmWriting.IsmWriter.Setup | src/incremental_stman.cpp:479-495 | fresh columns of default cells |
| IsmWriting.IsmWriter.WriteCell | src/incremental_stman.cpp:497-509 | changes exactly the addressed cell, fails exactly when out of range or not set up |
| IsmWriting.IsmWriter.Flush | src/incremental_stman.cpp:609-968 | yields exactly the specified file, fails exactly for unsupported types or when not set up |
| IsmReading.ReadIndices | src/incremental_stman.cpp:220-272 | the cursor loops of parse_ism_bucket_indices agree with the bucket grammar, failures included |
| IsmReading.ReadColumn | src/incremental_stman.cpp:390-397 | collects a column's entries of a bucket in order |
| IsmReading.SortEntries | src/incremental_stman.cpp:401-408 | sorted by start row, the same entries |
| IsmReading.SortUnique | src/incremental_stman.cpp:401-408 | entries with distinct start rows have only one sorted order |
| IsmReading.UpperBound | src/incremental_stman.cpp:450-454 | the first entry that starts after the row |
| IsmReading.IsmReader.Open | src/incremental_stman.cpp:337-411 | succeeds exactly when every part parses, and then holds exactly the sorted entries of the file |
| IsmReading.IsmReader.ReadCell | src/incremental_stman.cpp:422-459 | the value of the last entry at or before the row in the column of that name, or an error |
| IsmReading.ColumnsResolved | src/incremental_stman.cpp:360-377 | the reader's columns are those set up for the manager, in order, each with the type described first under its name; opening fails exactly when one is not described |
| IsmReading.CellAnswered | src/incremental_stman.cpp:422-459 | a cell has an answer exactly when the row exists and some entry of the first column of that name starts at or before it; the answer is the value of the last such entry |
| IsmReading.OpenFlushed | src/incremental_stman.cpp:337-411 | a fresh reader opens a flushed file and finds exactly the runs of every column |
| IsmReading.ReadAfterOpen | src/incremental_stman.cpp:422-459 | read_cell gives the stored value of the row's run |
| IsmReading.WriteThenRead | src/incremental_stman.cpp:337-509 | set up, any writes, flush, open, read: the value last written, through the real calls |
| AipsIo.AipsIoWriter.WriteUnsigned | src/aipsio_writer.cpp:15-25 | appends the big-endian bytes |
| AipsIo.AipsIoWriter.WriteString | src/aipsio_writer.cpp:93-98 | appends length and bytes |
| AipsIo.AipsIoWriter.PatchU32 | src/aipsio_writer.cpp:117-125 | overwrites exactly four bytes, or fails and changes nothing |
| AipsIo.AipsIoReader.ReadUnsigned | src/aipsio_reader.cpp:15-29 | decodes the next bytes big-endian and advances past them, or fails at the end |
| AipsIo.AipsIoReader.ReadString | src/aipsio_reader.cpp:108-119 | reads length and bytes, or fails when they are not there |
| AipsIo.ParseUnsignedEncode | src/aipsio_reader.cpp:15-29 | decoding an encoded integer gives it back with the rest |
| AipsIo.ParseStringEncode | src/aipsio_reader.cpp:108-119 | reading a written string gives it back with the rest |
| RecordWriter.BeginObject | src/aipsio_record_writer.cpp:169-183 | appends the header with a zero length and returns where the length is |
| RecordWriter.EndObject | src/aipsio_record_writer.cpp:185-188 | patches the number of bytes from the length field to the end, and nothing else |
| RecordWriter.CloseObject | src/aipsio_record_writer.cpp:169-188 | the patched buffer equals the pure object with its exact length; earlier bytes are untouched |
| RecordWriter.WriteIPosition | src/aipsio_record_writer.cpp:190-208 | appends the shape object, or fails for an extent above int32 |
| RecordWriter.WriteRecordDesc | src/aipsio_record_writer.cpp:258-291 | appends the schema, or fails as the source does |
| RecordWriter.WriteArray | src/aipsio_record_writer.cpp:293-310 | appends the array object |
| RecordWriter.WriteFieldValue | src/aipsio_record_writer.cpp:312-412 | appends a field value, sub-records as plain or table records |
| RecordWriter.WriteRecord | src/aipsio_record_writer.cpp:387-426 | the patched buffer equals the pure serialization of the record |
| RecordWriter.WriteAipsIoRecord | src/aipsio_record_writer.cpp:428-430 | a root record with the magic word |
| RecordReader.ReadHeader | src/aipsio_record_reader.cpp:71-84 | reads an embedded header, the magic word optional |
| RecordReader.ReadRecordDesc | src/aipsio_record_reader.cpp:110-155 | reads the schema as the grammar says, guards included |
| RecordReader.ReadArray | src/aipsio_record_reader.cpp:162-206 | reads an array as the grammar says, guards included |
| RecordReader.ReadBoolArray | src/aipsio_record_reader.cpp:209-242 | unpacks a bit array as the grammar says, guards included |
| RecordReader.ReadFieldValue | src/aipsio_record_reader.cpp:249-338 | reads a field value by its type code |
| RecordReader.ReadAipsIoRecord | src/aipsio_record_reader.cpp:340-372 | the recursive reader agrees with the record grammar, failures included |
| RecordRoundTrip.HeaderRound | src/aipsio_record_reader.cpp:71-84 | a written header reads back when its length is not the magic word |
| RecordRoundTrip.HeaderMistaken | src/aipsio_record_reader.cpp:71-84 | a header whose length is the magic word is read with a shifted name |
| RecordRoundTrip.ElementRound | src/aipsio_record_reader.cpp:249-292 | every element reads back exactly |
| RecordRoundTrip.CountedRound | src/aipsio_record_reader.cpp:185-205 | the plausibility guard never rejects written elements |
| RecordRoundTrip.DescRound | src/aipsio_record_reader.cpp:110-155 | the schema reads back, or is rejected exactly when its length is the magic word |
| RecordRoundTrip.ArrayRound | src/aipsio_record_reader.cpp:162-206 | an array reads back, or is rejected exactly when its length is the magic word |
| RecordRoundTrip.ValueRound | src/aipsio_record_reader.cpp:249-338 | a field value reads back, table references included |
| RecordRoundTrip.FieldsRound | src/aipsio_record_reader.cpp:340-350 | the fields read back in order |
| RecordRoundTrip.RecordRound | src/aipsio_record_reader.cpp:352-376 | an embedded or table record reads back, if and only if no object has the magic length |
| RecordRoundTrip.RootRoundTrip | src/aipsio_record_reader.cpp:352-372 | every accepted record reads back with exactly its bytes consumed, if and only if no embedded object has the magic length |
| RecordRoundTrip.LongNameIsLost | src/aipsio_record_reader.cpp:71-84 | a record with one field name of 0xBEBEBEBE - 38 bytes is written but not read back |
| RecordWire.WrittenIff | src/aipsio_record_writer.cpp:190-430 | a record is accepted exactly when it holds no list, no unsigned 64-bit value and no extent above the largest int32, nests at most 256 deep and takes less than 2^32 bytes, counted field by field |
| RecordWire.WireRound | src/aipsio_record_writer.cpp:387-430 | a strict reader, in which every object's length is its extent and every version, type code, type name and count is fixed, takes the bytes of every accepted record apart into that record, magic lengths included |
| RecordWire.WireIsInjective | src/aipsio_record_writer.cpp:428-430 | two accepted records never have the same bytes |
| RecordForms.PackedBit | src/aipsio_record_reader.cpp:236-240 | element i of a bit array is the bit with weight 1, 2, 4 and so on of byte i / 8 |
| RecordForms.BitArrayRound | src/aipsio_record_reader.cpp:209-242 | booleans packed eight to a byte behind an array head of any version read back as exactly those, whatever follows |
| RecordForms.BoolByte | src/aipsio_record_reader.cpp:157-159 | a single boolean is true for any byte but zero |
| RecordForms.OctetArrayRound | src/aipsio_record_reader.cpp:162-206 | an array of 8-bit values reads back widened if and only if at least as many bytes follow as it has elements |
| RecordForms.ElementArrayRound | src/aipsio_record_reader.cpp:162-206 | an array under a head of any version, with any suffix of its type name, reads back |
| RecordForms.DimsRound | src/aipsio_record_reader.cpp:86-108 | shapes with 4-byte and 8-byte dimensions read back, the magic word optional |
| RecordForms.FormRound | src/aipsio_record_reader.cpp:249-338 | a value in any form the writer never emits reads back exactly when it is accepted where it stands |
| RecordForms.RootFormRound | src/aipsio_record_reader.cpp:352-372 | a record in any mixture of these forms, descriptors without comments and fixed sub-records included, reads back with its bytes consumed if and only if each value is accepted where it stands |
| Records.SetInPlace | src/record.cpp:164-174 | setting an existing field replaces its value in place |
| Records.CountIsProduct | src/record.cpp:14-35 | the element count is the product of the extents; there is none exactly if it overflows before the first empty extent |
| GaussJordan.PivotRow | src/linear_xform.cpp:36-45 | the first row of largest magnitude from the diagonal down |
| GaussJordan.ReduceKeeps | src/linear_xform.cpp:35-69 | after every column: right block times input equals left block, the elimination can be undone, cleared columns are unit columns |
| GaussJordan.InverseIsTwoSided | src/linear_xform.cpp:25-78 | whenever the elimination succeeds its result is the inverse from both sides |
| GaussJordan.StopAtZeroIsSingular | src/linear_xform.cpp:46-48 | stopping with no non-zero pivot left means the input has no inverse |
| GaussJordan.SmallInvertibleIsRejected | src/linear_xform.cpp:46-48 | an invertible matrix below the threshold is rejected |
| PivotThreshold.AcceptedIff | src/linear_xform.cpp:46-48 | a matrix is accepted exactly when it has an inverse and elimination meets no non-zero pivot below the threshold |
| PivotThreshold.PivotOfMultiple | src/linear_xform.cpp:36-69 | multiplying the matrix by k multiplies every pivot by the magnitude of k and keeps the pivot rows |
| PivotThreshold.MultipleAccepted | src/linear_xform.cpp:46-48 | a multiple of an accepted matrix is accepted exactly when its smallest pivot still reaches the threshold |
| PivotThreshold.AcceptedFrom | src/linear_xform.cpp:46-48 | for every invertible matrix there is a threshold from which on exactly all its multiples are accepted |
| PivotThreshold.DiagonalReduce | src/linear_xform.cpp:35-69 | a diagonal matrix is reduced exactly as far as its entries reach the threshold |
| LinearXform.FindPivot | src/linear_xform.cpp:36-45 | the loop finds the pivot row and its magnitude |
| LinearXform.EliminateStep | src/linear_xform.cpp:35-69 | one round of the in-place loop is one column of the elimination |
| LinearXform.InvertMatrix | src/linear_xform.cpp:25-78 | true exactly when the elimination runs through, and then the array holds the two-sided inverse; otherwise it is untouched |
| LinearXform.Xform.PixelToWorld | src/linear_xform.cpp:82-98 | crval plus the matrix applied to pixel minus crpix |
| LinearXform.Xform.WorldToPixel | src/linear_xform.cpp:100-130 | crpix plus the inverse applied to world minus crval, or an error; without a PC matrix it succeeds exactly when every increment reaches the threshold |
| LinearXform.Xform.PixelFound | src/linear_xform.cpp:100-130 | a pixel is found exactly when the matrix has an inverse and no non-zero pivot is below the threshold |
| LinearXform.Xform.PlainPixelFound | src/linear_xform.cpp:13-23 | without a PC matrix a pixel is found exactly when every increment reaches the threshold |
| LinearXform.Xform.StretchedPixelFound | src/linear_xform.cpp:100-130 | for an invertible matrix there is a threshold for a common factor of the increments from which on pixels are found |
| LinearXform.Xform.WorldThenPixel | src/linear_xform.cpp:82-130 | when world_to_pixel does not fail it undoes pixel_to_world |
| LinearXform.Xform.PixelThenWorld | src/linear_xform.cpp:82-130 | pixel_to_world undoes world_to_pixel |
| LinearXform.Xform.ReferenceMaps | src/linear_xform.cpp:82-98 | the reference pixel maps to the reference value |
| LinearXform.Xform.PixelMoves | src/linear_xform.cpp:15-98 | from any pixel, a step of t along axis j moves world axis i by t times cdelt[i] times pc[i * n + j], or by t times cdelt[i] on its own axis alone when pc is empty |
| LatticeShape.FortranStrides | src/lattice_shape.cpp:86-94 | each stride is the product of the extents before it |
| LatticeShape.Delinearize | src/lattice_shape.cpp:105-112 | the mixed-radix digits of the offset |
| LatticeShape.ValidateIndex | src/lattice_shape.cpp:114-129 | succeeds exactly for valid indices and names the first bad axis otherwise |
| LatticeShape.DelinearizeThenLinear | src/lattice_shape.cpp:86-112 | every offset is the offset of the index it is split into |
| LatticeShape.LinearThenDelinearize | src/lattice_shape.cpp:86-112 | every valid index lies in [0, product) and is recovered from its offset |
| LatticeShape.FirstAxisFastest | src/lattice_shape.cpp:86-103 | a step along the first axis moves by one element, along each next axis by a whole extent of steps along the one before |
| LatticeShape.TruncatedDivision | src/lattice_shape.cpp:105-112 | quotient and remainder are those of division toward zero |
| LatticeArray.LatticeArray.Put | include/casacore_mini/lattice_array.hpp:228-238 | changes exactly the addressed element, fails exactly for invalid indices |
| LatticeArray.LatticeArray.At | include/casacore_mini/lattice_array.hpp:219-226 | reads the addressed element, fails exactly for invalid indices |
| LatticeArray.LatticeArray.PutFlat | src/lattice_expr.cpp:113-115 | put at the delinearized index writes exactly flat element i |
| LelEval.CombineMasks | src/lattice_expr.cpp:45-60 | the conjunction of two masks in the result's shape, a lone mask unchanged; fails exactly when a read leaves a mask, the second one read only where the first is true |
| LelNodes.ScalarPoint | src/lattice_expr.cpp:37-42 | a scalar has the same value at every element, so broadcasting loses nothing |
| LelNodes.ScalarHasNoMask | src/lattice_expr.cpp:117-121 | scalars are single elements and never carry a mask, so dropping theirs loses nothing |
| LelEval.MaskIsConjunction | src/lattice_expr.cpp:45-60 | the mask of a result is the conjunction of the contributing leaf masks, present exactly if some leaf has one |
| LelEval.Map2 | src/lattice_expr.cpp:95-115 | the element-wise loop writing through delinearize; fails exactly when an operand is too short |
| LelEval.Choose | src/lattice_expr.cpp:374-379 | the loop of the conditional reads the condition and the selected branch; fails exactly when one of these reads leaves its array |
| LelEval.ReductionStays | src/lattice_expr.cpp:441-613 | a reduction stays inside its mask unless the mask is shorter than the values; any and all may return before its end |
| LelEval.EvalBinary | src/lattice_expr.cpp:78-228 | binary, comparison, logical and two-argument nodes against the pointwise meaning |
| LelEval.EvalIif | src/lattice_expr.cpp:361-392 | the conditional against the pointwise meaning |
| LelEval.Eval | src/lattice_expr.cpp:78-392 | for every tree: leaves its arrays, throws for a shape mismatch, or gives the pointwise values and the conjunction of the masks, as InRange and Evaluable say |
| LelNodes.OneShapeEvaluates | src/lattice_expr.cpp:78-392 | a tree whose lattice leaves share one shape never fails nor leaves its arrays, and gives that shape or a scalar |
| LelNodes.CoveredInRange | src/lattice_expr.cpp:359-392 | if masks are as long as their lattices and no operand of a conditional is smaller than its first shape, all reads stay inside |
| LelEval.IifMaskShape | src/lattice_expr.cpp:382-391 | the mask of a conditional has the shape of its values exactly if two operands have masks or a mask of that shape is among them |
| LelEval.NarrowConditional | src/lattice_expr.cpp:349-392 | a condition of one element over branches of two gives one element, where every operator and two-argument function throws |
| LelEval.ShortBranch | src/lattice_expr.cpp:377-379 | a selected branch that is too short is read past its end |
| LelEval.UnselectedBranch | src/lattice_expr.cpp:377-379 | a branch that is too short but never selected does no harm |
| LelEval.ShortMask | src/lattice_expr.cpp:49-50 | a lone mask keeps its own shape, so a reduction over the conditional can leave it |
| LelTyping.CallTyped | src/lattice_expr.cpp:1008-1161 | a dispatched call on typed arguments gives a node of the type it declares |
| LelTyping.BinaryTyped | src/lattice_expr.cpp:1199-1281 | operator dispatch with promotion gives well-typed nodes |
| LelRoundTrip.OperatorStep | src/lattice_expr.cpp:818-906 | after a left operand each level's loop takes its operators and their right operands |
| LelRoundTrip.TailQuiet | src/lattice_expr.cpp:818-906 | each level's loop leaves operators of looser levels and terminators alone |
| LelRoundTrip.Round | src/lattice_expr.cpp:818-1006 | at every grammar level the text of an expression parses to what it denotes |
| LelRoundTrip.ParseInvertsSpell | src/lattice_expr.cpp:761-1006 | parsing any text of the grammar, with any white space between tokens and any further parentheses, gives exactly the tree of the expression it stands for, all input consumed; it fails exactly when that expression denotes nothing |
| LelRoundTrip.ParseInvertsShow | src/lattice_expr.cpp:761-1006 | parsing the text of an expression, with parentheses only around operands of looser levels and any white space before every token, gives exactly the tree it denotes, all input consumed; it fails exactly when the expression denotes nothing |
| LelDerivation.AcceptedIsDerived | src/lattice_expr.cpp:761-1006 | conversely, whatever text is accepted is a text of the grammar, and the tree is that of the expression it stands for |
| LelMeaning.Dispatched | src/lattice_expr.cpp:1008-1130 | a call builds the node that a table of function names and argument counts gives, and fails where the table has none |
| LelMeaning.TreeAgrees | src/lattice_expr.cpp:1008-1292 | an expression has a tree exactly when it is well typed, and then the tree has its type, shape and masks |
| LelMeaning.TreeHasValue | src/lattice_expr.cpp:1008-1292 | at every element the tree has the value of the expression: each name its operation, iif its second argument exactly where the first is true, min and max reducing one argument and comparing two, floats promoted beside doubles |
| LelMeaning.ParsedMeaning | src/lattice_expr.cpp:761-1292 | the text of an expression is accepted exactly when it is well typed, and the tree parsed from it has the expression's type, shape, masks and values |
| LelMeaning.AcceptedMeaning | src/lattice_expr.cpp:761-1292 | the tree of any accepted text has the type, shape, masks and values of the expression the text stands for |
| LelParens.PairsAreNeeded | src/lattice_expr.cpp:818-928 | without the pair around an operand of its operation, the text of an expression that denotes something parses to another tree or not at all |
| LelParser.AcceptedIsTyped | src/lattice_expr.cpp:761-1292 | whatever text is accepted, the tree is well typed in its declared type |
| LelSound.ValuesHaveType | src/lattice_expr.cpp:62-760 | every value a well-typed tree evaluates to has the tree's element type, if the scalar functions respect types and nothing empty is reduced |
| LelSound.AcceptedValuesTyped | src/lattice_expr.cpp:761-1292 | the values of whatever text is accepted have the type its tree declares, wherever it evaluates |
| LelParser.LelParser.Parse | src/lattice_expr.cpp:761-773 | the cursor-moving parser accepts exactly the grammar and builds the same tree |
| LelParser.LelParser.ParseOrs | src/lattice_expr.cpp:818-830 | the left-associative loop for "or" |
| LelParser.LelParser.MatchAddOp | src/lattice_expr.cpp:867-887 | the lookahead behind a minus makes no difference |
| LelParser.LelParser.ParseCompare | src/lattice_expr.cpp:848-864 | at most one comparison |
| LelParser.LelParser.ParsePrefix | src/lattice_expr.cpp:908-928 | not takes a unary, minus a primary |
| LelParser.LelParser.ParseDigits | src/lattice_expr.cpp:958-976 | the number scanner with its exponent sign |
| LelParser.LelParser.ParseCall | src/lattice_expr.cpp:1008-1020 | argument list and dispatch |
| LatticeRegion.BoxHoldsMembers | src/lattice_region.cpp:381-428 | no computed bounding box drops a member of its region |
| LatticeRegion.CornersBelong | src/lattice_region.cpp:77-90 | both corners belong to a box, and with them exactly the positions between |
| LatticeRegion.ComputeUnionBox | src/lattice_region.cpp:381-401 | smallest starts and largest ends, accumulated in place |
| LatticeRegion.ComputeIntersectionBox | src/lattice_region.cpp:403-428 | clipped to the lattice and to every box, never negative |
| LatticeRegion.UnionBoxTight | src/lattice_region.cpp:381-401 | on each axis the box of a union starts where one of its boxes does and ends where one does, or at the first pixel |
| LatticeRegion.IntersectionBoxIs | src/lattice_region.cpp:403-428 | the box of an intersection holds exactly the lattice pixels that all boxes hold |
| LatticeRegion.PixelInRegion | src/lattice_region.cpp:430-447 | agrees with set membership for arbitrarily nested regions, boxes of negative length included |
| LatticeRegion.GetMask | src/lattice_region.cpp:468-605 | element i of the mask says whether the pixel it stands for is a member |
| LatticeRegion.UnionMask | src/lattice_region.cpp:468-488 | the mask loop of a union |
| LatticeRegion.IntersectionMask | src/lattice_region.cpp:510-529 | the mask loop of an intersection |
| LatticeRegion.DifferenceMask | src/lattice_region.cpp:550-567 | the mask loop of a difference |
| LatticeRegion.ComplementMask | src/lattice_region.cpp:587-603 | the mask loop of a complement |
| LatticeRegion.DeMorganUnion | src/lattice_region.cpp:468-603 | the computed masks of the complement of a union and of the intersection of the complements are equal |
| LatticeRegion.DeMorganIntersection | src/lattice_region.cpp:468-603 | the computed masks of the complement of an intersection and of the union of the complements are equal exactly if nothing is united or no extent is zero |
| LatticeRegion.DifferenceIsIntersection | src/lattice_region.cpp:550-567 | for a first region inside the lattice, the computed mask of a difference is that of the intersection with the complement |
| RegionShapes.StraddleParity | src/lattice_region.cpp:293-298 | walking a closed polygon, the parity of straddling edges tells the side |
| RegionShapes.LeftIsOutside | src/lattice_region.cpp:268-304 | left of the polygon the ray crosses an even number of edges |
| RegionShapes.OutsideBoxIsOutside | src/lattice_region.cpp:268-281 | a lattice pixel the polygon's box leaves out fails the even-odd test |
| RegionShapes.TestPixel | src/lattice_region.cpp:292-299 | the toggling loop is the parity of crossings |
| RegionShapes.LcPolygon.constructor | src/lattice_region.cpp:268-304 | a lattice pixel is in the region if and only if its centre passes the even-odd test over all edges |
| RegionShapes.LcPolygon.Make | src/lattice_region.cpp:254-304 | succeeds exactly for a flat lattice, three or more vertices and box lengths not of opposite signs; off the lattice no pixel is inside |
| ShapeGeometry.CrossesIff | src/lattice_region.cpp:294-296 | an edge is crossed exactly when one end is above the pixel centre, the other is not, and a point of the edge at that height lies to the right |
| ShapeGeometry.TriangleInside | src/lattice_region.cpp:292-299 | a pixel whose centre is on no edge of a triangle is inside if and only if the centre is on the same side of all three edges |
| ShapeGeometry.PolygonIsFan | src/lattice_region.cpp:292-299 | the even-odd test of any polygon is that of its fan of triangles |
| ShapeGeometry.PolygonInside | src/lattice_region.cpp:292-299 | in any polygon a pixel is inside if and only if an odd number of the triangles of its fan hold the centre, off their edges |
| ShapeGeometry.PolygonBoxHolds | src/lattice_region.cpp:268-281 | the box of a polygon holds exactly the lattice pixels less than one beyond its vertices on both axes |
| RegionShapes.EllipsoidInBox | src/lattice_region.cpp:178-200 | the ellipsoid's box leaves out none of its pixels, axes that are not positive being limited by the box alone |
| RegionShapes.EllipsoidOffLattice | src/lattice_region.cpp:178-200 | an ellipsoid whose box has a negative length covers no lattice pixel |
| RegionShapes.LcEllipsoid.GetMask | src/lattice_region.cpp:202-224 | a lattice pixel is in the region if and only if it lies within the ellipsoid |
| ShapeGeometry.EllipsoidBoxHolds | src/lattice_region.cpp:178-200 | the box of an ellipsoid holds exactly the lattice pixels less than one beyond its axes |
| ShapeGeometry.EllipsoidIsBall | src/lattice_region.cpp:210-219 | a pixel passes the distance test if and only if its offset is the image of a point of the unit ball under the semi-axes |
| MsConcat.RenumberedKeepsName | src/ms_concat.cpp:55-80 | the renumbered row of the output carries the name the row had |
| MsConcat.MergeKeepsDistinct | src/ms_concat.cpp:55-80 | names unique in both tables stay unique |
| MsConcat.MergedTable | src/ms_concat.cpp:55-80 | a merged table begins with the first one; a row whose name is there takes the number of the last row of that name, any other row stands unchanged behind |
| MsConcat.NewRowsInOrder | src/ms_concat.cpp:55-80 | added rows keep their order |
| MsConcat.NewRowsCome | src/ms_concat.cpp:55-80 | every row behind the first table is a row of the second one with a new name |
| MsConcat.MergedDescs | src/ms_concat.cpp:152-187 | a data description, its window renumbered, takes the number of the first equal one or stands behind the first set's |
| MsConcat.NewDescsInOrder | src/ms_concat.cpp:152-187 | added data descriptions keep their order |
| MsConcat.NewDescsCome | src/ms_concat.cpp:152-187 | every data description behind the first set's is one of the second set that the first lacks |
| MsConcat.RowsInPlace | src/ms_concat.cpp:241-298 | the first set's rows as they were, then the second set's with their identifiers replaced and every other column kept |
| MsConcat.FirstKeepsReferences | src/ms_concat.cpp:241-265 | rows of the first set refer to the same antennas, field, window, polarization number and state in the output, exactly unless a missing window appears |
| MsConcat.SecondKeepsReferences | src/ms_concat.cpp:267-298 | renumbered rows of the second set refer to the same antennas, field and window by name, polarization number and state, exactly unless a missing window appears |
| MsConcat.JoinKeepsForeignKeys | src/ms_concat.cpp:42-308 | if both inputs satisfy the foreign-key check so does the output; row counts add |
| MsConcat.ObservationsKeptIff | src/ms_concat.cpp:284-284 | all rows of the second set keep their observations if and only if each one they use is also the one of that number in the joined list |
| MsConcat.ObservationsRepeatIff | src/ms_concat.cpp:198-211 | where all observations are used, that is the case exactly if the second set's list begins the joined list |
| MsConcat.ObservationIsLost | src/ms_concat.cpp:284-284 | with one observation each, rows of the second set end up with the first set's |
| MsConcat.PolarizationKept | src/ms_concat.cpp:189-193 | a description keeps its polarization if and only if the first set has the same one under that number |
| MsConcat.MergeByName | src/ms_concat.cpp:55-80 | the loop with its name map, for antennas, fields and spectral windows |
| MsConcat.MergeDescs | src/ms_concat.cpp:152-187 | the loop over data descriptions |
| MsConcat.KeyNumbersRow | src/ms_writer.cpp:67-106 | a key holds exactly when it numbers a row of the table its column refers to |
| MsConcat.ValidateForeignKeys | src/ms_writer.cpp:67-106 | reports exactly the keys that are out of range |
| MsConcat.Concat | src/ms_concat.cpp:42-308 | yields exactly the joined set with its remaps, fails exactly when a foreign key does not hold; says when the observations of the second set survive |
| CoordinateSystem.WorldAxesPartition | src/coordinate_system.cpp:65-99 | every world axis belongs to exactly one axis of one coordinate |
| CoordinateSystem.PixelAxesPartition | src/coordinate_system.cpp:65-99 | every pixel axis belongs to exactly one axis of one coordinate |
| CoordinateSystem.SystemInverts | src/coordinate_system.cpp:136-197 | if each coordinate undoes its own conversion so does the system |
| CoordinateSystem.WorldValue | src/coordinate_system.cpp:136-166 | the value of the world axis that a coordinate's map names is that coordinate's own conversion of the pixel values its map names |
| CoordinateSystem.PixelValue | src/coordinate_system.cpp:168-197 | the same for pixel axes |
| CoordinateSystem.AxesInOrder | src/coordinate_system.cpp:65-99 | the maps number the axes of the coordinates one after another from zero |
| CoordinateSystem.CoordinateSystem.AddCoordinate | src/coordinate_system.cpp:65-99 | keeps the maps consecutive, fails exactly on overflow |
| CoordinateSystem.CoordinateSystem.FindWorldAxis | src/coordinate_system.cpp:108-120 | inverts the world map: found exactly for axes the system has |
| CoordinateSystem.CoordinateSystem.FindPixelAxis | src/coordinate_system.cpp:122-134 | inverts the pixel map: found exactly for axes the system has |
| CoordinateSystem.CoordinateSystem.ToWorld | src/coordinate_system.cpp:136-166 | gather, convert, scatter gives each coordinate's values at its axes |
| CoordinateSystem.CoordinateSystem.ToPixel | src/coordinate_system.cpp:168-197 | gather, convert, scatter gives each coordinate's values at its axes |
| LinearCoordinate.LinearSystemInverts | src/linear_coordinate.cpp:15-21 | a system of any number of linear coordinates whose matrices are not rejected gives back every pixel position |
| ColumnsIndex.CompareKeys | src/columns_index.cpp:47-56 | the loop is the lexicographic order, a proper prefix first |
| ColumnsIndex.Trichotomy | src/columns_index.cpp:13-56 | exactly one of two keys comes first unless they are equal |
| ColumnsIndex.Transitive | src/columns_index.cpp:13-56 | the key order is transitive |
| ColumnsIndex.CellByKindAndValue | src/columns_index.cpp:13-42 | cells are ordered by kind, then false before true, numbers by size, complex numbers by real part first, text by its first difference |
| ColumnsIndex.KeyByFirstDifference | src/columns_index.cpp:47-56 | keys are ordered by their first difference, a proper prefix first |
| ColumnsIndex.RowsFound | src/columns_index.cpp:100-106 | the scan for a record's key finds exactly the rows with the record's values in all key columns |
| ColumnsIndex.ScanIsExact | src/columns_index.cpp:100-106 | the scan lists exactly the matching rows, ascending |
| ColumnsIndex.LowerBound | src/columns_index.cpp:100-106 | binary search for a key in the ordered index |
| ColumnsIndex.ColumnsIndex.Build | src/columns_index.cpp:66-72 | after building, the index holds for every key exactly its rows |
| ColumnsIndex.ColumnsIndex.GetRowNumbers | src/columns_index.cpp:100-106 | exactly the ascending list of rows whose key columns all equal the record's; none exactly when the record lacks one |
| ColumnsIndex.ColumnsIndex.GetRowNumber | src/columns_index.cpp:108-119 | succeeds if and only if exactly one row matches |

## Left out

- Files, directories and table handling: the models start from byte sequences and in-memory tables.
- Errors: exceptions become `Option`, `Result` or a boolean; messages, and which of several errors is reported, are not kept.
- Integer widths: bytes, 16-, 32- and 64-bit values are modelled where they are stored; counters and positions in memory are unbounded.
- IsmWriting.IsmWriter.Setup: the byte-order flag and the manager's name are not kept; flush does not read them.
- IsmWriting.IsmWriter.Flush: requires at most 2^32 rows and an entry that fits a bucket, because the source casts rows to 32 bits and writes outside the bucket otherwise.
- IsmWriting.ColumnEntries: the data buffer and offsets of flush's second pass are never used afterwards and are not kept.
- IsmReading.IsmReader.Open: after a failed call nothing is said about the columns; a read beyond the file counts as a failure.
- IsmReading.IsmReader.ReadCell: after a failed second open the source keeps unsorted entries; reads of such a reader are not modelled.
- IsmReading.SortEntries: stands for std::sort, whose own code is not part of this model.
- The storage manager blob of `make_blob` and table files of `write_file`.
- RecordWriter.WriteRecord: the plain and the table-record variants share one body with a flag.
- Records: reference identity of nested records; null record pointers cannot occur.
- LinearXform.InvertMatrix: over reals, without rounding, overflow or NaN.
- LatticeArray.LatticeArray.Put: copy-on-write sharing is not modelled; results are values, the array being filled is exclusive.
- LelEval.Eval: scalar functions and reductions are parameters; an array read past its end is an outcome here and undefined in the source.
- LelParser.LelParser.Parse: error positions are dropped; `std::stod` is a parameter; characters outside ASCII count as neither letters nor digits.
- LelRoundTrip.ParseInvertsSpell: for numbers that do not end in an exponent letter; the scanner takes a sign directly behind one into the number.
- LelParens.PairsAreNeeded: speaks of the pairs around the operands of an expression's own operation; a pair further inside is one of the subexpression it belongs to.
- LelSound.ValuesHaveType: a count or test of a boolean lattice is the float instance of its template, the only one the parser builds; a reduction of no elements is left out.
- Complex expression nodes: not reachable from the parser, present in the evaluator only.
- LatticeRegion.PixelInRegion: for masks, boxes and lattice of one rank, because the source indexes them unchecked.
- LatticeRegion.GetMask: for a box without negative length; pixel_in_region never asks for another mask.
- RegionShapes.LcPolygon.constructor: over reals, for corners that fit 64 bits; limits of memory are not modelled.
- RegionShapes.LcEllipsoid.GetMask: over reals, for a box without negative length; otherwise the region covers no pixel and nothing is said about its mask.
- `LcPagedMask`, `LcExtension`, cloning and saving of regions.
- MsConcat.Concat: columns the source leaves empty in the output (positions, frequencies, correlation types, data, flags) are not in the model's rows.
- CoordinateSystem.CoordinateSystem.AddCoordinate: systems restored from records with removed axes are not modelled; a coordinate's own conversion is a parameter.
- ColumnsIndex.ColumnsIndex.Build: floating-point keys are reals, so without NaN; the tree behind std::map is an ordered sequence.
- Measures, quanta, spectral and direction coordinates, image and table access: foreign or trigonometric content, or easier than the above.
