# A toy fdisk: MBR layout, partition allocation and the disk report

This project models the core of a small Go command processor that simulates a disk in
one flat file. The file starts with a NUL sentinel byte. A 176-byte master boot record
(MBR) follows it: the disk size, a 20-byte creation date, a signature, and four partition
slots. Each 35-byte slot holds status, type, fit, start, size and a 16-byte name.

The processor understands three commands:

- `MKDISK ->size=N [->unit=K|M]` creates the file.
- `FDISK ->size=N [->unit=B|K|M] ->letter=X ->name=S` adds a partition to the first
  free slot.
- `REP` renders the slot table as Graphviz text.

The model covers these parts:

- **Layout**: the record as Dafny datatypes, with the little-endian, unpadded encoding
  `encoding/binary` gives it written out byte by byte (`Int64`, `Layout`). Round trips are
  proved in both directions (record → bytes → record, and bytes → record → bytes).
- **Disk image**: a class over a byte array (`Image.DiskImage`) with `readMBR`,
  `writeMBR` and `createDiskWithSize` as methods, each proved against a function on the
  file's bytes.
- **Allocator**: `createPartition` is a method that updates the caller's record through
  a reference (`Allocator.MbrRef`), as Go's `*MBR` argument does. It is proved equal to
  the pure function `Allocation`. Lemmas about `Allocation` cover the error order, the
  choice of the lowest free slot, space accounting, the capacity invariant, and the
  consequences of the raw-name comparison.
- **Parameters**: `strings.Fields`, `parseCommand`, `extractMKDISKParams`,
  `extractFDISKParams`, `calculateDiskSize`, and `strconv.ParseInt` in base 10 for 64 bits
  (`Params`, `Decimal`, `Units`).
- **Report**: `cleanPartitionName` and `generateDotCode` (`Report`).
- **Commands**: the `mkdisk`, `fdisk` and `rep` handlers, and the line dispatch of a
  script (`Commands`).

**int64 arithmetic** follows Go: products and sums wrap modulo 2^64 (`Int64.Wrap`). This
matters in four places:

- the unit products `size * 1024` and `size * 1024 * 1024` (main.go:145-147, 298-300);
- the `totalUsedSpace` sum (main.go:322-327);
- the `totalUsedSpace + sizeInBytes > MbrTamano` space check (main.go:328);
- the new entry's `Start = totalUsedSpace + 1` (main.go:337).

A positive FDISK size times 1024 or 1048576 can wrap to zero or to a negative byte
count, and that count then passes the space check (`Allocator.WrappedRequestAccepted`).
A sum that wraps negative lets an oversized partition through
(`Allocator.OverflowAdmitsOversizedPartition`).

**Behaviour worth knowing**:

- The duplicate-name check compares an occupied slot's raw 16-byte name field with the
  requested name (main.go:312). It does not compare the name with its padding stripped.
  This is where the code differs from its design description, and the model follows the
  code. A stored field is always 16 bytes, so only a requested name of exactly 16 bytes
  can ever match. A second request with the same shorter name is not refused as a
  duplicate, though it can still fail for want of space or of a free slot
  (`Allocator.ShortNameNeverTaken`, `Allocator.RepeatedName`).
- The first partition on a new disk starts at byte 1, inside the record itself. Start
  offsets are `totalUsedSpace + 1`, computed from the sum of the occupied sizes.
- MKDISK accepts only the units K and M. FDISK also accepts B.

## Model

| member | source | states |
|---|---|---|
| Int64.Wrap | main.go:145-147 | the result is congruent to its argument modulo 2^64, lies in the int64 range, and equals the argument when the argument is in range |
| Int64.Int64RoundTrip | main.go:16-30 | decoding the 8 little-endian two's-complement bytes of an int64 gives it back |
| Int64.Int64BytesRoundTrip | main.go:16-30 | every 8-byte block is the encoding of the value it decodes to |
| Int64.EncodeInt64At | main.go:16-30 | byte k of the encoding is digit k, in base 256, of the value modulo 2^64 (little-endian) |
| Int64.DecodeEncodeUnsigned | main.go:16-30 | decoding the n-byte little-endian encoding of u < 256^n gives u |
| Int64.EncodeDecodeUnsigned | main.go:16-30 | encoding the decoded value of an n-byte block gives the block back |
| Bytes.CopyPadded | main.go:341 | Go's `copy` into a zeroed array: the result has length n, starts with the first min(n, len) source bytes, and is zero after them |
| Bytes.TrimPrefix | main.go:121 | when s has the prefix, prefix + result == s; otherwise the result is s |
| Layout.MbrLayout | main.go:16-30 | field offsets of the 176-byte record: size [0,8), date [8,28), signature [28,36), slot k at 36+35k, with status, type, fit, start, size and name in declaration order |
| Layout.EncodeTableAt | main.go:20 | slot k of the table occupies bytes [35k, 35k+35) of the table encoding |
| Layout.PartitionRoundTrip | main.go:23-30 | decoding an encoded slot gives the slot back |
| Layout.PartitionBytesRoundTrip | main.go:23-30 | every 35-byte block re-encodes to itself |
| Layout.TableRoundTrip | main.go:20 | decoding an encoded table gives it back |
| Layout.TableBytesRoundTrip | main.go:20 | every 140-byte block re-encodes to itself |
| Layout.MbrRoundTrip | main.go:16-30 | decoding an encoded record gives back every field |
| Layout.MbrBytesRoundTrip | main.go:16-30 | every 176-byte block re-encodes to itself, so a read followed by a write changes no byte |
| Image.WrittenAt | main.go:288 | writing at an offset puts the bytes there, keeps every other byte, zero-fills a gap, and grows the file only when the write ends past its end |
| Image.DiskImage.WriteAt | main.go:288 | the array after the write is `WrittenAt` of the array before it |
| Image.DiskImage.Truncate | main.go:178-182 | a negative length fails with NegativeLength and changes nothing; otherwise the file is cut or zero-extended to exactly that length |
| Image.DiskImage.CreateDiskWithSize | main.go:153-186 | the file holds the sentinel and the initial record (size, date, signature, four free slots), truncated to `size`; a negative size reports the truncation error |
| Image.DiskImage.ReadMbr | main.go:256-273 | a file shorter than 177 bytes fails with ShortImage; otherwise the result is the decoding of bytes [1,177) |
| Image.DiskImage.WriteMbr | main.go:275-290 | the record's encoding replaces bytes [1,177), and nothing else changes |
| Image.ReadAfterWrite | main.go:256-290 | reading after writing a record gives that record back |
| Image.WriteFrame | main.go:275-290 | a write keeps the sentinel and every byte after offset 177, and its length is max(length, 177) |
| Image.WriteBackWhatWasRead | main.go:256-290 | writing back the record just read leaves the file unchanged |
| Image.CreatedDisk | main.go:153-186 | a disk of at least 177 bytes has exactly that length, a NUL sentinel, zeros after the record, and reads back as the initial record |
| Image.CreatedSmallDisk | main.go:178-182 | a smaller non-negative size cuts the record off, so reading fails; a negative size leaves the untruncated 177-byte file, which still reads back |
| Units.CalculateDiskSizeUnits | main.go:142-151 | K multiplies by 1024 and M by 1048576 modulo 2^64 (exactly, when there is no overflow); every other unit fails with InvalidUnit, and the error happens exactly then |
| Units.CalculateDiskSizeExamples | main.go:142-151 | 10 K is 10240 bytes, 5 M is 5242880 bytes, and unit B is rejected |
| Allocator.RequestBytes | main.go:293-303 | B, K and M give size, size·1024 and size·1048576 with int64 wrap; any other unit fails with InvalidUnit, and fails exactly then |
| Allocator.FirstFree | main.go:306-311 | -1 exactly when every slot is occupied; otherwise the index of a free slot with only occupied slots before it |
| Allocator.FirstFreeUnique | main.go:306-311 | any free slot with only occupied slots before it is the one FirstFree returns |
| Allocator.Allocation | main.go:292-345 | the checks in source order: bad unit → InvalidUnit; a raw name match → DuplicateName; no free slot → NoFreeSlot; otherwise success iff the wrapped used + bytes ≤ disk size, else NoSpace. On success the lowest free slot gets status 1, type 0, fit 0, start = wrapped used + 1, the requested bytes and the padded name; the other slots and the header are unchanged |
| Allocator.CreatePartition | main.go:292-345 | on success the caller's record becomes `Allocation`'s result; on failure the record is unchanged and the error is `Allocation`'s |
| Allocator.ScanSlots | main.go:306-315 | reports a duplicate exactly when an occupied slot's raw name equals the request; otherwise returns the first free slot |
| Allocator.UsedSpaceOf | main.go:322-327 | the int64 sum of the occupied sizes is the exact sum modulo 2^64 |
| Allocator.UsedSpaceUpdate | main.go:322-327 | replacing one slot changes the used space by the new slot's contribution minus the old slot's |
| Allocator.OccupiedCountUpdate | main.go:308 | replacing a free slot with an occupied one adds one to the count of occupied slots |
| Allocator.FullCountMeansNoFreeSlot | main.go:317-319 | when the occupied count equals the number of slots, every slot is occupied |
| Allocator.OccupiedCountBound | main.go:20 | the occupied count never exceeds the number of slots |
| Allocator.AllocationAccounting | main.go:322-342 | success occupies exactly one more slot, adds exactly the requested bytes to the used space, and leaves the wrapped total within the disk size |
| Allocator.AllocationKeepsCapacity | main.go:322-342 | success with a non-negative size keeps "non-negative sizes summing to at most the disk size" when used + bytes does not overflow int64 |
| Allocator.OverflowAdmitsOversizedPartition | main.go:328 | with 500 of 1000 bytes used, a request of 2^63-1 bytes wraps the sum negative and is accepted, which breaks the capacity invariant |
| Allocator.WrappedRequestAccepted | main.go:297-298 | 2^53 K wraps to -2^63 bytes, and on an empty 1000-byte disk that request is accepted, starting at byte 1, with size -2^63 |
| Allocator.ShortNameNeverTaken | main.go:312 | a name that is not exactly 16 bytes long never matches an occupied slot |
| Allocator.RepeatedName | main.go:312-313 | after a success, a second request for the same name is refused as a duplicate iff the name has 16 bytes |
| Allocator.FifthPartitionRefused | main.go:317-319 | with four occupied slots, a valid request with an unused name fails with NoFreeSlot |
| Allocator.FourAllocationsFillTheTable | main.go:306-342 | four successful requests on an empty table occupy all four slots |
| Allocator.SpaceAccountingExample | main.go:322-342 | on a 1024-byte disk, 600 bytes start at 1, then 500 bytes fail with NoSpace, and 400 bytes start at 601 |
| Decimal.FormatNat | main.go:365 | the decimal digits of a natural: non-empty, all digits, no leading zero, with value n |
| Decimal.ParseFormat | main.go:123 | parsing the decimal text of an int64 gives it back |
| Decimal.ParseInt64Syntax | main.go:123 | parsing succeeds only on an optional sign followed by at least one digit |
| Decimal.ParseInt64Value | main.go:123 | unsigned digits parse to their value when it is below 2^63, and fail otherwise |
| Decimal.ParseInt64Negative | main.go:123 | a minus sign gives the negated value when it is at least -2^63, and fails otherwise |
| Decimal.ParseInt64Plus | main.go:123 | a leading plus sign does not change the result |
| Params.Word | main.go:79 | the longest prefix without white space; the byte after it, if any, is white space |
| Params.FieldsSplit | main.go:79 | every field is non-empty and free of white space, and the fields concatenate to the input with its white space removed |
| Params.WordOf | main.go:79 | a space-free run followed by white space or by the end of the input is the whole first word |
| Params.FieldsJoin | main.go:79 | fields are maximal: splitting non-empty, space-free words joined by single spaces gives back exactly those words |
| Params.ParseCommand | main.go:78-95 | fewer than two fields give two empty strings; otherwise the command is the first field and the path is the value of the first later "->path=" field, or empty when none exists |
| Params.LastWith | main.go:119-133 | the index of the last parameter with the key, or -1 when none has it |
| Params.KeysDisjoint | main.go:193-212 | no parameter starts with two different keys |
| Params.ExtractMkdiskParams | main.go:115-140 | returns `MkdiskParams` of the parameters: the request on success; on error, zero, an empty unit, and the error |
| Params.MkdiskScanStops | main.go:124-131 | once a parameter has failed, later parameters change nothing |
| Params.MkdiskScanState | main.go:119-133 | while scanning, the size is the last one given (0 when none), and the unit is the last one given (M when none) and is K or M |
| Params.MkdiskParamsResult | main.go:115-140 | a successful parse has a positive size that is the last one given, and the unit K or M, the last one given or M by default |
| Params.MkdiskNeedsSize | main.go:135-137 | without a size parameter MKDISK fails |
| Params.MkdiskRejectsBadSize | main.go:120-126 | a size that is not a positive int64 fails MKDISK, whatever follows it |
| Params.MkdiskRejectsBadUnit | main.go:127-131 | a unit other than K and M fails MKDISK, whatever follows it |
| Params.ExtractFdiskParams | main.go:188-225 | returns `FdiskParams` of the parameters: the request on success; on error, zeros, empty strings, and the error |
| Params.FdiskScanStops | main.go:198-205 | once a parameter has failed, later parameters change nothing |
| Params.FdiskScanSizeUnit | main.go:192-205 | while scanning, size and unit are the last ones given (0 and empty when none), and a unit that was given is B, K or M |
| Params.FdiskScanLetterName | main.go:206-211 | while scanning, letter and name are the last ones given (empty when none) |
| Params.FdiskParamsResult | main.go:188-225 | a successful parse has a positive size, a unit among B, K and M (the last one given, or K when none is), and a non-empty letter and name; size, letter and name are each the last one given |
| Params.FdiskNeedsSizeLetterName | main.go:215-217 | a missing size, letter or name fails FDISK |
| Params.FdiskRejectsBadSize | main.go:194-200 | a size that is not a positive int64 fails FDISK, whatever follows it |
| Params.FdiskRejectsBadUnit | main.go:201-205 | a unit other than B, K and M fails FDISK, whatever follows it |
| Report.IndexByte | main.go:414 | `bytes.IndexByte`: -1 exactly when the byte is absent; otherwise the first position that holds it |
| Report.CleanPartitionName | main.go:413-419 | a prefix of the name field free of NUL bytes that ends at the first NUL or at the end of the field |
| Report.Label | main.go:363-366 | the label is never empty |
| Report.GenerateDotCode | main.go:347-378 | the builder's text is `DotCode`: the header with the yellow MBR cell, one green cell per occupied slot in slot order, then the closing lines |
| Report.LabelsStep | main.go:361-369 | adding a slot to the scanned prefix adds its label exactly when the slot is occupied |
| Report.CellsAppend | main.go:367 | one more label appends exactly its cell |
| Report.DotCodeFrame | main.go:350-375 | the text starts with "digraph G {\n" and ends with "}\n" |
| Report.LabelsCount | main.go:361-369 | there is one label per occupied slot |
| Report.LabelsAt | main.go:361-369 | occupied slot i's label comes after the labels of the occupied slots before it |
| Report.EmptyTableReport | main.go:347-378 | a table with no occupied slot shows only the MBR cell |
| Report.UnnamedSlotLabel | main.go:364-366 | a slot whose name field is all zeros is labelled "Partition" followed by its position, counting from 1 |
| Commands.Mkdisk | main.go:97-113 | the file becomes `MkdiskImage`: unchanged after a parameter or unit error, otherwise newly created; the reported error is `MkdiskError` |
| Commands.MkdiskFormatsDisk | main.go:97-113 | a successful MKDISK of at least 177 bytes gives a file of exactly that size that reads back as the initial record |
| Commands.MkdiskWithoutSize | main.go:97-102 | MKDISK without a size reports an error and leaves the file unchanged |
| Commands.Fdisk | main.go:227-254 | the file becomes `FdiskImage`: the updated record written back after a success, otherwise unchanged; the error is the one from parsing, reading or `createPartition` |
| Commands.FdiskPersists | main.go:241-252 | after a successful FDISK the file keeps its length and reads back as the updated record |
| Commands.FdiskNeedsFormattedDisk | main.go:235-239 | on a file shorter than the record, FDISK with valid parameters fails with ShortImage and changes nothing |
| Commands.FirstAllocation | main.go:306-342 | the first request on four free slots takes slot 0, starts at byte 1, and leaves the other slots free |
| Commands.FirstPartitionOnNewDisk | main.go:97-113 | after MKDISK, an FDISK request that fits goes to slot 0, starts at byte 1, leaves slots 1-3 free, and reads back |
| Commands.Rep | main.go:380-387 | the report is `DotCode` of the record read from the file, or the read error |
| Commands.FdiskAddsOneCell | main.go:361-369 | a successful FDISK adds exactly one green cell to the report |
| Commands.WordPrefix | main.go:79 | a prefix free of white space is also a prefix of the line's first field |
| Commands.FdiskLineFields | main.go:66-68 | an FDISK line's first field starts with "FDISK", and the handler gets exactly the fields after it |
| Commands.MkdiskLineFields | main.go:69-71 | on an MKDISK line the FDISK test has failed, the first field starts with "MKDISK", and the handler gets the fields after it |
| Commands.ExecuteLine | main.go:65-75 | one line's effect on the file and on the list of reports is `Step` |
| Commands.RunScript | main.go:65-75 | the file and the reports after the loop are `Script` of the lines, each run with its own clock reading |
| Commands.SkippedLines | main.go:72 | lines such as "rep" or "REP " (with a trailing space) change nothing, because only the exact line "REP" runs the report |

## Left out

- The interactive prompt, `EXECUTE ->path=` handling, reading and splitting the script
  file, and the CRLF conversion (main.go:34-63). `Commands.RunScript` takes the script's
  lines as they are.
- The console helpers and every message printed (`limpiarConsola`, `lineaDoble`,
  `PrintCopyright`, the `fmt.Println` reports). Errors are modelled as `Outcomes.Error`
  values, not as message text.
- Rendering the report (the `reportes` package: creating the .dot file, running Graphviz,
  opening the image). `Commands.Rep` stops at the text it would hand over.
- Real files: open, create and write failures, `Seek` and `Close`. The file is a byte
  array that always exists. `Truncate` can fail only on a negative length; a memory
  limit on growing the file is not modelled.
- The clock: `time.Now().Format(...)` is a parameter `timestamp`. A script gets one clock
  reading per line.
- `letter` is accepted and passed on, as in the source, and never used.
- The `letter` and `name` validation markers in `extractFDISKParams` are TODOs in the
  source, so the model does not validate them either.
- Params.Fields: white space is ASCII only (tab, LF, VT, FF, CR, space). `strings.Fields`
  also splits on Unicode spaces, which the model does not.
- Decimal.ParseInt64: this is `strconv.ParseInt(s, 10, 64)` restricted to the bytes it
  accepts and its range. The kinds of syntax and range errors are not told apart.
- Allocator.AllocationKeepsCapacity: holds only when used + bytes does not overflow int64,
  because the source admits oversized partitions after a wrap
  (`Allocator.OverflowAdmitsOversizedPartition`).
- Commands.MkdiskWithoutSize: states only that an error is reported. An invalid unit can
  come first and is reported instead of the missing size.
