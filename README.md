# fake_gas in Dafny

`fake_gas` converts a Gadget "format 1" snapshot in two steps. First it
relabels the dark matter (type 1) as gas (type 0), so that a tree code
computes densities and smoothing lengths for it. Then it adds the
internal-energy (U) block that gas requires. The program has four parts, and
this project models and proves each of them:

- **Block container.** A block is `int size | payload | int size`.
  `get_block_size` is the size a block must have under a header, and
  `block_check` refuses a block whose markers differ from each other or from
  that size (module `Blocks`).
- **Reader.** `read_snapshot` reads the 256-byte header, then the Position,
  Velocity and Id blocks, then the Mass block, which is present only when
  some type has a zero header mass. It fills the particle table in place, in
  type-major order. The model is a method over an input stream and an array
  (module `Reader`). It is proved equal to a function of the file's words
  (`Snapshot.ParseSnapshot`).
- **Header mutation** (module `Transform`). `npart[0]`, `npartTotal[0]` and
  `mass[0]` are overwritten with the type 1 values, and the type 1 entries
  are zeroed.
- **Writer.** `fake_gas` writes the mutated header, the Position, Velocity
  and Id payloads of the first `NumPart` records, the Mass block when
  `nwithmass > 0`, and a U block of `npart[0]` zeros. The model is a method
  appending to an output stream (module `Writer`). It is proved equal to
  `Writer.EncodeSnapshot`.
- **Output name.** The output name is built with `strtok` (module `Naming`).

Module `RoundTrip` connects the writer to the reader. A file the writer
produces reads back block by block. A snapshot that was read and then
rewritten under its own header reads back unchanged. The rewritten file
repeats the input word for word up to the end of its last particle block,
followed by the U block. For a snapshot without gas, the converted
file reads back as the same records with type 1 relabelled as type 0.

A file is a sequence of 4-byte words (`Words.Word`). A size marker or an id
is a word read as a C `int` (two's complement). A float is its bit pattern,
because the program only copies floats. A double is its two words, low word
first.

The header mass comparison `mass[k] == 0` is `Words.IsZero`. It is true for
+0.0 and for -0.0. The conversion of a header mass (a double) to a record
mass (a float) is the parameter `narrow`.

### What the code does at its edges

- **Type 0 counts are overwritten, not added to** (fake_gas.c:463-466). The
  model follows the code. `Transform.ReclassifyTotal` shows that `NumPart`
  drops by the old `npart[0]`, so the total is kept only when the input has
  no gas.
- **Running `fake_gas` on its own output is not a no-op.** The second
  mutation leaves the header unchanged only when the file it reads has no
  gas: `npart[0]` and `npartTotal[0]` zero and `mass[0]` exactly +0.0. On a
  converted file with gas it sets `npart[0]` to 0. `NumPart` then becomes
  the count of types 2..5, and the writer emits that many records from the
  front of the table. These begin with the converted gas records, which
  a reader then files under the later types (`Transform.ReclassifyTwice`).
- **No type field is written.** The file format has no per-record type.
  The relabelling of dark matter as gas shows only in what a reader makes
  of the file (`RoundTrip.ConvertedReadsBack`).
- **Size markers are C `int`s.** They are read and written as signed
  32-bit values, and compared as such.

## Model

| member | source | states |
|---|---|---|
| IoHeader.EncodeHeader | fake_gas.c:474 | the header written by `my_fwrite(&m_header, ...)` is 64 words, the fields of `IO_HEADER` in declaration order |
| IoHeader.DecodeHeader | fake_gas.c:146 | the header `my_fread` fills in from 64 words: the fields in declaration order, ints as two's complement, doubles as word pairs (no contract of its own: `IoHeader.DecodeEncodeHeader` and `IoHeader.EncodeDecodeHeader` state that it inverts `EncodeHeader`) |
| IoHeader.DecodeEncodeHeader | fake_gas.c:19-35 | the 256 bytes written for a header (`my_fwrite(&m_header, ...)`) read back as that header |
| IoHeader.EncodeDecodeHeader | fake_gas.c:19-35 | any 256 bytes read as a header are written back byte for byte, padding included |
| Layout.TotalIsSum | fake_gas.c:153-156 | `NumPart` is the six-term sum of `npart` |
| Layout.StartMono | fake_gas.c:172-179 | where the buckets start (the running `pc_new`) never decreases and stays within 0..`NumPart` under sane counts |
| Layout.MassCountBounds | fake_gas.c:157-160 | `nwithmass` is between 0 and `NumPart` |
| Layout.TypeAt | fake_gas.c:220-224 | the type of record i is the bucket whose index range holds i |
| Layout.TypeAtIff | fake_gas.c:220-224 | record i has type k exactly when it lies in bucket k |
| Layout.TypeAtMono | fake_gas.c:220-235 | types never decrease along the table |
| Layout.MassBeforeAt | fake_gas.c:220-228 | the n-th record of bucket k takes Mass word `nwithmass`-prefix(k) + n |
| Layout.MassBeforeCounts | fake_gas.c:225-228 | this closed-form word index equals the number of stored-mass records before i, counted one by one |
| Layout.StoredBeforeTotal | fake_gas.c:157-160 | over the whole table the stored-mass records number `nwithmass` |
| Blocks.BlockSize | fake_gas.c:329-373 | the closed form of `get_block_size`: 256, 12·NumPart, 12·NumPart, 4·NumPart, 4·nwithmass and 4·npart[0] bytes (no contract of its own: `Blocks.GetBlockSize` is proved equal to it, `Blocks.BlockSizeShape` bounds it) |
| Blocks.BlockSizeShape | fake_gas.c:338-372 | under sane counts every expected size is between 0 and INT_MAX and a multiple of its element size |
| Blocks.BlockCheck | fake_gas.c:308-321 | "Paddings don't match" exactly when the markers differ; a size mismatch exactly when they agree but differ from `get_block_size`; a pass exactly when both equal it |
| Blocks.GetBlockSize | fake_gas.c:329-373 | the loop and switch compute 256, 12·NumPart, 12·NumPart, 4·NumPart, 4·nwithmass and 4·npart[0] for the six kinds |
| Blocks.CheckBlock | fake_gas.c:299-322 | `block_check` with `get_block_size` gives the outcome `BlockCheck` specifies |
| Blocks.Frame | fake_gas.c:473-475 | a written block is its payload plus two marker words |
| Blocks.ReadBlock | fake_gas.c:171-183 | a block read succeeds exactly when the file holds it and both markers equal the expected size; the payload is the words in between; a file too short for the block fails as truncated, and otherwise the error is `block_check`'s |
| Blocks.ReadFramed | fake_gas.c:299-322 | a block framed by the expected size reads back as its payload |
| Blocks.WrongSizeRefused | fake_gas.c:317-320 | a framed block whose marker differs from the expected size is refused as a size mismatch |
| Blocks.ReadBlockFramed | fake_gas.c:299-322 | a block that passes is, word for word, its payload framed by the marker it carries, and that marker is `get_block_size` |
| Blocks.ReadBlockPrefix | fake_gas.c:255-270 | a block read looks only at the words of the block |
| Snapshot.Table | fake_gas.c:170-235 | the table holds `NumPart` records, record i assembled from words 3i..3i+3 of the Position and Velocity payloads, Id word i, its bucket's type and its mass |
| Snapshot.ParseSnapshot | fake_gas.c:120-248 | `read_snapshot` on a file: the header block first, the counts refused when the model cannot represent them, then the particle blocks (no contract of its own: `Reader.ReadSnapshot` is proved equal to it, and the `RoundTrip` lemmas state what it returns) |
| Snapshot.ParseBody | fake_gas.c:170-242 | a successful read of the blocks after the header yields `NumPart` records |
| Streams.InStream.Open | fake_gas.c:138-142 | an opened input starts at word 0 of the file |
| Streams.InStream.Read | fake_gas.c:255-270 | `my_fread` of n words succeeds exactly when n words remain, returns those words and moves past them |
| Streams.OutStream.Create | fake_gas.c:456-460 | an opened output file is empty |
| Streams.OutStream.Write | fake_gas.c:277-292 | `my_fwrite` appends its words |
| Reader.ReadMarker | fake_gas.c:171 | a marker read succeeds exactly when one word remains, and yields it as an `int` |
| Reader.ReadBucketPositions | fake_gas.c:174-178 | the inner Position loop sets the positions of records `first`.. from consecutive triples, and leaves the other records alone |
| Reader.ReadPositions | fake_gas.c:172-179 | the Position loop sets the position of every record i from words 3i..3i+3, and reads exactly 3·NumPart words |
| Reader.ReadBucketVelocities | fake_gas.c:189-193 | the same for the inner Velocity loop |
| Reader.ReadVelocities | fake_gas.c:187-194 | the same for the Velocity loop |
| Reader.ReadBucketIds | fake_gas.c:204-208 | the inner Id loop sets the ids of records `first`.. from consecutive words, read as `int` |
| Reader.ReadIds | fake_gas.c:202-209 | the Id loop sets the id of every record i from word i |
| Reader.ReadBucketMasses | fake_gas.c:222-234 | the inner Mass loop gives the records of bucket k type k, and either consecutive Mass words (zero header mass) or the header mass; it reads words only in the first case |
| Reader.ReadMasses | fake_gas.c:220-235 | the Mass loop sets every record's type and mass, and consumes exactly `nwithmass` words |
| Reader.CloseBlock | fake_gas.c:180-183 | reading the trailing marker and calling `block_check` passes exactly when the block checks, and fails with `block_check`'s error otherwise |
| Reader.ReadPosBlock | fake_gas.c:170-183 | the Position block passes exactly when it checks, and then the table holds the read positions |
| Reader.ReadVelBlock | fake_gas.c:185-198 | the same for the Velocity block |
| Reader.ReadIdsBlock | fake_gas.c:200-213 | the same for the Id block |
| Reader.ReadMassBlock | fake_gas.c:215-242 | the Mass markers are read and checked only when `nwithmass > 0`; on success the stream advances by `nwithmass + 2` words, or by none when `nwithmass` is 0; types and masses are set in either case |
| Reader.AssembledTable | fake_gas.c:170-235 | the four passes over the table together build the assembled table |
| Reader.ReadBody | fake_gas.c:170-242 | reading the blocks after the header fails exactly when the body fails to parse, with the same error; on success the array holds the parsed table and the stream stands at the end of the Mass block (or of the Id block) |
| Reader.ReadSnapshot | fake_gas.c:120-248 | `read_snapshot` returns exactly the error or the header and table `ParseSnapshot` gives for the file, in a freshly allocated array |
| Transform.Reclassify | fake_gas.c:463-468 | `npart[0]`, `npartTotal[0]` and `mass[0]` take the type 1 values; the type 1 entries become 0 and 0.0; types 2..5 and all other fields are unchanged |
| Transform.ReclassifyTotal | fake_gas.c:463-466 | the new `NumPart` is the old one minus the old `npart[0]` |
| Transform.ReclassifySane | fake_gas.c:463-466 | sane counts stay sane, and the table does not grow |
| Transform.ReclassifyMassCount | fake_gas.c:463-468 | the new `nwithmass` loses the old type 0 records exactly when their masses were stored |
| Transform.ReclassifyTwice | fake_gas.c:463-468 | a second mutation leaves the header unchanged exactly when the first one's result has no gas (original type 1 count, total count zero and mass exactly +0.0); it always leaves `npart[0]` zero, and `NumPart` becomes the old one minus the old types 0 and 1 |
| Transform.ReclassifyStart | fake_gas.c:463-466 | with no old gas, bucket 0 of the new header is the old bucket 1, and the other buckets keep their places |
| Transform.ReclassifyTypeAt | fake_gas.c:463-466 | with no old gas, a record of type 1 is now of type 0 and every other record keeps its type |
| Naming.SkipDelims | fake_gas.c:405 | the delimiters `strtok` skips: the longest run of delimiters at the start |
| Naming.TokenEnd | fake_gas.c:405 | the end of the token: the longest run of non-delimiters |
| Naming.StrTok | fake_gas.c:405-426 | `strtok` returns NULL exactly when only delimiters remain; otherwise a non-empty token free of delimiters |
| Naming.StrTokRest | fake_gas.c:405-426 | the token follows the leading delimiters directly, and the next `strtok(NULL, ...)` resumes after the one delimiter that ends it, or at the end of the string |
| Naming.SplitFields | fake_gas.c:402-405 | the reference split yields non-empty fields free of delimiters |
| Naming.StrTokSplit | fake_gas.c:405-426 | `strtok` returns NULL exactly when there are no fields; otherwise its token is the first field and it resumes at the rest |
| Naming.OutputNameSingle | fake_gas.c:405-442 | for one file the name is field 1 + `-fakegas_` + field 2 of the `_` split, and exists exactly when there are two fields |
| Naming.OutputNameMulti | fake_gas.c:405-453 | for several files the name is field 1 + `-fakegas_` + the first `_.` field after it + `.` + the first `_` field after that, and exists exactly when all three fields exist |
| Writer.StoredMasses | fake_gas.c:534-544 | the Mass payload of the first n records has one word per stored-mass record among them |
| Writer.Zeros | fake_gas.c:551-557 | the U payload is `npart[0]` floats 0.0 |
| Writer.Marker | fake_gas.c:471-552 | each marker the writer computes, as a C `int`, equals `get_block_size` of the header being written |
| Writer.EncodeSnapshot | fake_gas.c:470-558 | the words `fake_gas` writes for a header and table: header block, Position, Velocity and Id blocks of the first `NumPart` records, the Mass block when `nwithmass > 0`, the U block (no contract of its own: `Writer.WriteSnapshot` is proved equal to it) |
| Writer.WriteMarker | fake_gas.c:473 | writing a marker appends its `int` bytes |
| Writer.WriteBucketPositions | fake_gas.c:484-488 | the inner Position loop appends the positions of records `first`.., in order |
| Writer.WriteBucketVelocities | fake_gas.c:496-500 | the same for velocities |
| Writer.WriteBucketIds | fake_gas.c:511-515 | the same for ids |
| Writer.WriteBucketMasses | fake_gas.c:536-543 | the inner Mass loop appends the masses of bucket k only when its header mass is zero |
| Writer.WritePositions | fake_gas.c:482-489 | the Position loop over six buckets appends the positions of the first `NumPart` records, in table order |
| Writer.WriteVelocities | fake_gas.c:494-501 | the same for velocities |
| Writer.WriteIds | fake_gas.c:509-516 | the same for ids |
| Writer.WritePosBlock | fake_gas.c:477-490 | the Position block is the first `NumPart` positions framed by 12·NumPart, the marker the Velocity block reuses |
| Writer.WriteVelBlock | fake_gas.c:492-502 | the Velocity block is the first `NumPart` velocities framed by that marker |
| Writer.WriteIdsBlock | fake_gas.c:504-517 | the Id block is the first `NumPart` ids framed by 4·NumPart |
| Writer.WriteMasses | fake_gas.c:534-544 | the Mass loop appends the stored masses of the first `NumPart` records |
| Writer.WriteMassBlock | fake_gas.c:519-548 | the Mass block is framed by 4·nwithmass when `nwithmass > 0`, and absent, markers included, otherwise |
| Writer.WriteUBlock | fake_gas.c:550-558 | the U block is `npart[0]` zeros framed by 4·npart[0], written even when `npart[0]` is 0 |
| Writer.WriteSnapshot | fake_gas.c:470-558 | the writes append exactly `EncodeSnapshot` of the mutated header and the table |
| Writer.FakeGas | fake_gas.c:380-562 | the output name is `OutputName`, the header is the mutated one, and the file written is its encoding with the table |
| RoundTrip.PositionOf | fake_gas.c:482-489 | record i's position sits at words 3i..3i+3 of the Position payload |
| RoundTrip.VelocityOf | fake_gas.c:494-501 | record i's velocity sits at words 3i..3i+3 of the Velocity payload |
| RoundTrip.IdOf | fake_gas.c:509-516 | word i of the Id payload, read as `int`, is record i's id |
| RoundTrip.StoredMassesAt | fake_gas.c:534-544 | a stored-mass record's mass is the Mass payload word counted by the stored-mass records before it |
| RoundTrip.EncodedFrames | fake_gas.c:470-558 | cut at the offsets the reader uses, the written file is one frame per block, with the U block last |
| RoundTrip.EncodedBlocks | fake_gas.c:470-558 | every block written, the U block included, passes `block_check` under the header written and reads back as its payload |
| RoundTrip.WrittenRecord | fake_gas.c:482-544 | the record assembled from the written payloads is the written record with its bucket's type and mass rule |
| RoundTrip.ReadBackWritten | fake_gas.c:470-558 | reading the written file gives the header and the first `NumPart` records, typed by bucket, each with the header mass unless its type stores masses |
| RoundTrip.ParsedTable | fake_gas.c:153-161 | after a read the counts are sane, the file reaches the end of the Mass block, and the table has `NumPart` records with their bucket's type and the reader's mass |
| RoundTrip.ParsedTypes | fake_gas.c:220-224 | after a read a record has type k exactly when it lies in bucket k, and types never decrease |
| RoundTrip.ParsedFixedMasses | fake_gas.c:229-232 | after a read a record of a type with a nonzero header mass holds that mass |
| RoundTrip.ParsedStoredMasses | fake_gas.c:225-228 | after a read a record of a type with a zero header mass holds the Mass block word after those of the stored-mass records before it |
| RoundTrip.ParsedIsNormal | fake_gas.c:170-235 | a table that was read is already in the form reading gives |
| RoundTrip.RewriteReadsSame | fake_gas.c:120-248 | writing a snapshot that was read, under its own header, and reading it again gives the same snapshot |
| RoundTrip.TableEncodes | fake_gas.c:477-548 | the Position, Velocity, Id and Mass payloads written for a table the reader assembled are the payloads it was assembled from |
| RoundTrip.RewriteBytes | fake_gas.c:120-558 | writing a snapshot that was read, under its own header, reproduces the file word for word up to the end of the Mass block (or of the Id block), then appends the U block |
| RoundTrip.ConvertedRecord | fake_gas.c:463-468 | with no old gas, a read record seen under the mutated header is the record relabelled from type 1 to 0 |
| RoundTrip.ConvertedTable | fake_gas.c:463-468 | the same for the whole table |
| RoundTrip.ConvertedReadsBack | fake_gas.c:463-558 | for a snapshot without gas, the converted file reads back as the mutated header and the same records, with type 1 relabelled as type 0 |
| RoundTrip.ParseIgnoresTail | fake_gas.c:215-248 | reading looks no further than the end of the Mass block (or of the Id block), so the appended U block changes nothing |

## Left out

- `main` is not modelled: argument checking, the loop over `argv`, the `sprintf` copy into a 256-character buffer, and `free`. The model handles one file.
- Failures of `fopen` and `malloc` are not modelled. Opening is `InStream.Open` or `OutStream.Create`, and the table is a fresh array of `NumPart` records.
- Reader.ReadSnapshot: where the program prints a message and exits, the model returns an error (`Blocks.Error`). This covers a short read in `my_fread` and a failed `block_check`.
- Writer.FakeGas: writes always succeed, because the `my_fwrite` failure path is not modelled.
- Floats are never computed on, so they are opaque words.
  - The conversion of a header mass to a float is the parameter `narrow`.
  - The `* 3.0` double product on line 480 is modelled as the exact integer 12·NumPart.
- Byte order is not modelled. Words are taken in the machine's native order, and a double is its low word then its high word.
- A file whose length is not a multiple of 4 bytes cannot be represented: a trailing partial word does not exist in the model.
- The struct is assumed to have no padding. The header record is 64 words, or 256 bytes.
- Reader.ReadSnapshot: counts that are negative, or whose 12·NumPart overflows a C `int`, are refused with `BadCounts` after the header check. The C code computes sizes that wrap, or allocates a negative count; the model does not follow it there.
- Writer.FakeGas: requires the same sane counts of the mutated header (`Sane`), for the same reason.
- Writer.FakeGas: requires every `strtok` call to find a token. Otherwise the C code passes NULL to `strcpy` or `strcat`, which is undefined behaviour.
- The 256-byte bound of `newname` is not modelled: a longer name overflows it in C, and the model's name has no length limit.
- `strtok`'s hidden static state is not modelled. The string it resumes at is returned explicitly (`Naming.Token.rest`).
- Naming.OutputName: has no `ensures` of its own. Its meaning is stated by `Naming.OutputNameSingle` and `Naming.OutputNameMulti`.
- The global `m_header` is not modelled as a global. `Reader.ReadSnapshot` returns the header it read, and `Writer.FakeGas` returns the mutated one.
- The `U` field of `PARTICLE_DATA` is not modelled. The reader never sets it and the writer never reads it; the U block is written from a constant 0.0.
- The commented-out redshift file (lines 429-439) is not modelled.
- When the input has gas (`npart[0] > 0`), the writer still emits records by position: the first `NumPart − npart[0]` records of the old table, in table order. The last `npart[0]` records are dropped, whatever their types. The model writes exactly this, and `RoundTrip.ConvertedReadsBack` is stated only for inputs without gas.
