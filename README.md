# dfuse-pack, modelled in Dafny

`dfuse-pack.py` builds and reads firmware containers in ST's DfuSe format (ST document
UM0391, "DfuSe File Format Specification", DFU revision 1.1a). A DfuSe file has four parts:

- an 11-byte prefix: "DfuSe", version 1, the file length, the number of targets;
- per target, a 274-byte target prefix ("Target", alternate setting, named flag, a
  255-byte name, byte size, element count);
- per element of a target, an 8-byte address/length header and then the data;
- a 16-byte DFU suffix whose last field is a checksum of every byte before it.

This project models the following parts of the tool:

- the writer `build` and the reader `parse`;
- the suffix detector `checkbin` and the checksum `compute_crc`;
- the input shaping of the main block:
  - in the `-b address:file[@alt]` mode, the argument parsing, the device option and
    the grouping of images into targets by alternate setting;
  - in the `-s file.s19` mode, the reading of S-record lines and the merging of
    contiguous data records into segments.

Modules:

- `Bytes`: little-endian fields as `struct` packs and unpacks them, fixed-width strings,
  C strings and Python slices.
- `Crc`: the CRC-32 zlib computes, given bit by bit, and `compute_crc`.
- `Literals`: what the tool relies on from Python:
  - `int(s, 0)`, `int(s)` and `int(s, 16)`;
  - `binascii.unhexlify`, `str.rstrip` and `str.split(sep, 1)`.
- `DfuFile`: the specification functions.
  - `Encode` gives the bytes `build` writes, or the exception that stops it.
  - `Decode` gives everything `parse` reports, or the `struct.error` that stops it.
  - `CheckBin` tells whether `checkbin` refuses a file.
- `DfuBuild`, `DfuParse`: the loops of `build` and `parse` as methods, each proved to
  compute exactly its specification function.
- `DfuRoundTrip`: the layout of every file `build` writes, what `parse` reports for it,
  and what the two "PARSE ERROR" reports mean for any file.
- `BinaryInputs`: the `-b` mode, ending in the file it writes and what `parse` reads
  back from it.
- `SRecords`: the `-s` mode, ending in the same way.

Some things are parameters instead of being performed:

- The file system is a map from path to contents.
- The S-record file is its list of lines.
- What the tool prints, and its `sys.exit(1)` paths, become error values.

The model keeps these behaviours of the code as they are:

- `build`'s `ealt` carries over from one target to the next.
  - An empty first target stops `build` with a NameError (`UnboundAlt`).
  - An empty later target repeats the previous alternate setting.
- `parse` cuts an image short, without a report, when its target ends first.
- In the `-s` mode, address 0 stands for "no segment being filled".
  - A data record at address 0 is dropped.
  - A segment is emitted only when a later line does not continue it. The last segment
    is therefore emitted only if a terminator line (read as address 0) follows it.

The device string is checked twice, as in the tool:

- `BinaryInputs.Device` is the main block's check, which refuses the `-D` option when
  it cannot be read.
- `DfuFile.Encode` is `build`'s own reading, which fails with `InvalidDevice`.

`Device` only accepts a string that `ParseDevice` reads, so in the `-b` and `-s` modes
the `InvalidDevice` failure of `Encode` is never reached.

The checksum `zlib.crc32` is external code. It is given as the reflected CRC-32 with
polynomial 0xEDB88320, register preset to all ones and final inversion. `compute_crc` is
then proved to be the CRC register before that final inversion.

## Model

| member | source | states |
|---|---|---|
| Bytes.FromLittleEndianOfLittleEndian | source/dfuse-pack.py:28-30 | a field `struct.unpack` reads back from what `struct.pack` wrote is the packed value |
| Bytes.LittleEndianOfFromLittleEndian | source/dfuse-pack.py:28-30 | packing the value read from a field gives the field's bytes back |
| Bytes.Pad | source/dfuse-pack.py:122 | a `255s` field is exactly 255 bytes: the name's bytes, then zeros; a longer name is truncated |
| Bytes.CString | source/dfuse-pack.py:33-34 | `cstring` is the longest prefix without a zero byte, and a zero byte follows it unless it is the whole input |
| Bytes.CStringOfPad | source/dfuse-pack.py:33-34 | a name with no zero byte that fits in 255 bytes is read back whole from its padded field |
| Bytes.Slice | source/dfuse-pack.py:64 | Python slicing with clamped bounds: its length and that each element is the source element at the offset |
| Bytes.DropLast | source/dfuse-pack.py:44 | `data[:-4]` is a prefix of the data, four bytes shorter, or empty for a shorter input |
| Crc.ComputeCrc | source/dfuse-pack.py:37-38 | the checksum always lies in [0, 2^32) |
| Crc.ComputeCrcIsComplement | source/dfuse-pack.py:37-38 | `0xFFFFFFFF & -crc32(d) - 1` equals `0xFFFFFFFF - crc32(d)`, the CRC register before zlib's final inversion |
| Literals.Mask | source/dfuse-pack.py:232 | `& 0xFFFFFFFF` gives a value below 2^32 that differs from the input by a multiple of 2^32, and leaves a value already in range unchanged |
| Literals.ParseLiteralOfHex | source/dfuse-pack.py:232 | `int("0x…", 0)` of the hexadecimal digits of n reads back n |
| Literals.ParseLiteralOfDecimal | source/dfuse-pack.py:232 | `int(str(n), 0)` reads back n |
| Literals.ParseDecimalOfDecimal | source/dfuse-pack.py:220-224 | `int(s)` reads back n from `str(n)` and -n from `"-" + str(n)` |
| Literals.ParseDecimalRejects | source/dfuse-pack.py:220-226 | `int(s)` fails on text that ends in a non-digit |
| Literals.Unhexlify | source/dfuse-pack.py:303 | `unhexlify` succeeds exactly on an even number of hexadecimal digits, and gives half as many bytes |
| Literals.UnhexlifyOfHexlify | source/dfuse-pack.py:303 | the hexadecimal text of bytes decodes back to the bytes |
| Literals.RStrip | source/dfuse-pack.py:292 | `rstrip()` removes exactly the trailing white space: a prefix remains, it does not end in white space, and everything removed was white space |
| Literals.SplitOnce | source/dfuse-pack.py:215 | `split(sep, 1)` unpacks into two parts exactly when sep occurs, and then the first part has no sep and the parts rejoin to the input |
| DfuFile.ParseDevice | source/dfuse-pack.py:133 | a device string that is read has a colon, and both ids are masked below 2^16 |
| DfuFile.ParseDeviceOf | source/dfuse-pack.py:133 | the text before the first colon is the vendor literal and the rest the product literal, each masked to 16 bits |
| DfuFile.ParseDeviceOfHex | source/dfuse-pack.py:133 | "0x…:0x…" reads back as the two numbers reduced to their low 16 bits |
| DfuFile.DefaultDeviceIds | source/dfuse-pack.py:16 | the default device "0x0483:0xdf11" is vendor 0x0483 and product 0xDF11 |
| DfuFile.EncodeElements | source/dfuse-pack.py:115-118 | a target's element data has exactly the length of its elements' headers and data |
| DfuFile.Assemble | source/dfuse-pack.py:127-136 | a file is exactly prefix, target blocks and 16-byte suffix long |
| DfuFile.DecodePrefix | source/dfuse-pack.py:45 | reading the prefix fails exactly on fewer than 11 bytes, and otherwise leaves the bytes after them |
| DfuFile.DecodeElements | source/dfuse-pack.py:65-70 | reading `elements` headers reports exactly that many elements and never more bytes than the target has |
| DfuFile.DecodeTarget | source/dfuse-pack.py:51-76 | what is left after reading a target is shorter than the input |
| DfuFile.DecodeTargets | source/dfuse-pack.py:50-76 | reading the targets reports exactly as many as the prefix declares |
| DfuFile.CheckBin | source/dfuse-pack.py:92-108 | a file is refused exactly when it has at least 16 bytes, bytes [-8:-5] are "UFD" and its last four bytes are the checksum of the rest |
| DfuBuild.Build | source/dfuse-pack.py:111-137 | the loops of `build` write exactly the bytes `Encode` specifies, or stop with the same error |
| DfuBuild.ElementData | source/dfuse-pack.py:114-119 | the inner loop builds the specified element data and leaves `ealt` at the last image's alternate setting |
| DfuBuild.Finish | source/dfuse-pack.py:127-136 | prefix, suffix and checksum complete the specified file, or the prefix fields or the device string stop it |
| DfuParse.Parse | source/dfuse-pack.py:41-89 | the loops of `parse` report exactly what `Decode` specifies, or stop with the same `struct.error` |
| DfuParse.ReadElements | source/dfuse-pack.py:65-70 | the element loop reports exactly the specified elements and leftover bytes |
| DfuRoundTrip.DecodeEncodedElements | source/dfuse-pack.py:65-70 | reading back a target's element data gives each image's address, length and data, in order, with nothing left over |
| DfuRoundTrip.DecodeEncodedTarget | source/dfuse-pack.py:51-76 | reading back a target block gives "Target", the alternate setting, named 1, the name, the size, the count and the elements |
| DfuRoundTrip.DecodeEncodedTargets | source/dfuse-pack.py:50-76 | reading back all target blocks reports each one with the alternate setting `ealt` has after its images |
| DfuRoundTrip.EncodeDecode | source/dfuse-pack.py:41-89 | `parse` reads back what `build` writes: the prefix, every target and element, and the suffix fields, with no "CRC ERROR" and no "PARSE ERROR" |
| DfuRoundTrip.EncodeLayout | source/dfuse-pack.py:127-136 | the size field is the file length, the count byte is the number of targets, and the suffix holds 0, product, vendor, 0x011A, "UFD", 16 and the checksum of all bytes before it |
| DfuRoundTrip.CheckBinFlagsEncoded | source/dfuse-pack.py:101 | `checkbin` would refuse every file `build` writes |
| DfuRoundTrip.EncodeUnboundAlt | source/dfuse-pack.py:119-122 | `build` stops on the unbound `ealt` exactly when its first target is empty |
| DfuRoundTrip.EncodeTargetsUnbound | source/dfuse-pack.py:113-122 | an empty target is an error only while no image has set `ealt` yet |
| DfuRoundTrip.DecodeElementsConsumes | source/dfuse-pack.py:65-70 | the element headers and the image bytes taken account for every byte of the target, and only the last image can be cut short |
| DfuRoundTrip.ParseErrorOfTarget | source/dfuse-pack.py:75-76 | the target "PARSE ERROR" appears exactly when the element sizes declared add up to less than the target |
| DfuRoundTrip.DecodeTargetRest | source/dfuse-pack.py:51-76 | reading a target takes its 274-byte prefix and then bytes from the front of the rest, and what is left is a suffix of the input, at most the input minus 274 bytes long |
| DfuRoundTrip.DecodeTargetConsumes | source/dfuse-pack.py:63-76 | a target followed by more bytes took its whole declared size |
| DfuRoundTrip.DecodeTargetsConsumes | source/dfuse-pack.py:50-76 | when bytes remain after the targets, each took its declared size and its "PARSE ERROR" has the meaning above |
| DfuRoundTrip.DecodeTargetsLength | source/dfuse-pack.py:50-76 | when bytes remain after the targets, the input is exactly the targets' prefixes and declared sizes followed by those bytes |
| DfuRoundTrip.DecodeTargetsErrors | source/dfuse-pack.py:75-76 | when bytes remain after the targets, each target's "PARSE ERROR" appears exactly when its elements declare fewer bytes than its size |
| DfuRoundTrip.ParseErrors | source/dfuse-pack.py:87-89 | the final "PARSE ERROR" appears exactly when the file is longer than its prefix, declared targets and suffix |
| BinaryInputs.DefaultAltOfDecimal | source/dfuse-pack.py:199-206 | `-a` given as `str(n)` or `"-" + str(n)` sets the default alternate setting to n or -n |
| BinaryInputs.DefaultAltRejects | source/dfuse-pack.py:199-206 | `-a` ending in a non-digit is the "invalid" exit, naming the option |
| BinaryInputs.ParseBinArg | source/dfuse-pack.py:214-235 | no colon is the "couple invalid" exit; on success the path is everything after the first colon and the address is below 2^32 |
| BinaryInputs.ParseBinArgWithoutAlt | source/dfuse-pack.py:214-235 | `address:path` and `address@:path` give the address literal masked to 32 bits, the default alternate setting and the path |
| BinaryInputs.ParseBinArgWithAlt | source/dfuse-pack.py:214-235 | `address@alt:path` gives the masked address, the decimal alternate setting and the path |
| BinaryInputs.ParseBinArgErrors | source/dfuse-pack.py:218-234 | a non-decimal alternate setting is the "Alternate interface number … invalid" exit, and an unreadable address the "Address … invalid" exit |
| BinaryInputs.WrappedAddress | source/dfuse-pack.py:232 | the address -1 is taken as 0xFFFFFFFF |
| BinaryInputs.AddressAndAlt | source/dfuse-pack.py:220-231 | without `@` the default alternate setting; otherwise the text before the first `@` is the address, and the rest is the default when empty, its decimal value, or the "invalid" exit |
| BinaryInputs.ParseImage | source/dfuse-pack.py:214-249 | an image has the address and alternate setting its argument gives, and as data the contents of the file at the argument's path, which exists |
| BinaryInputs.ImageOfArg | source/dfuse-pack.py:214-249 | an argument gives an image exactly when it reads, its file exists and `checkbin` does not refuse that file; otherwise the argument's error, the "Unreadable file" exit or the `checkbin` exit |
| BinaryInputs.ImagesOfArgs | source/dfuse-pack.py:213-249 | the arguments are read exactly when each one is, and then the i-th image is the i-th argument's |
| BinaryInputs.FirstFailingArg | source/dfuse-pack.py:213-238 | when the arguments are not read, the error is that of an argument all of whose predecessors are read |
| BinaryInputs.Group | source/dfuse-pack.py:240-251 | there is always at least one target, the one being filled |
| BinaryInputs.Device | source/dfuse-pack.py:274-283 | `-D` absent or empty gives the default device; otherwise the option, or the "Invalid device" exit exactly when it cannot be read |
| BinaryInputs.CollectTargets | source/dfuse-pack.py:209-251 | the loop over the arguments, with `targets`, `target` and `old_ealt`, gives exactly the grouped images or the first argument's error |
| BinaryInputs.FirstErrorStays | source/dfuse-pack.py:213-238 | the first argument that fails decides the outcome, whatever follows it |
| BinaryInputs.GroupKeepsOrder | source/dfuse-pack.py:240-251 | the targets hold the images in command-line order, none lost or repeated |
| BinaryInputs.GroupsNonEmpty | source/dfuse-pack.py:240-251 | for at least one image every target is non-empty and the last target has the last image's alternate setting |
| BinaryInputs.GroupsSingleAlt | source/dfuse-pack.py:240-251 | all images of a target have the same alternate setting |
| BinaryInputs.GroupsAdjacentDiffer | source/dfuse-pack.py:240-251 | adjacent targets have different alternate settings |
| BinaryInputs.TargetAlt | source/dfuse-pack.py:119 | for grouped targets, the `ealt` `build` writes for a target is its own images' alternate setting |
| BinaryInputs.NoImagesUnbound | source/dfuse-pack.py:251 | the grouping of no image is one empty target, on which `build` stops on the unbound `ealt`; the `-b` mode itself always has an image |
| BinaryInputs.BinaryModeDecodes | source/dfuse-pack.py:208-283 | the `-b` output reads back as one target per run of equal alternate settings, each with its images' alternate setting, addresses and file contents, with no error reported |
| BinaryInputs.GroupsDecode | source/dfuse-pack.py:240-251 | the file `build` writes for grouped images reads back target by target with their images' alternate settings |
| SRecords.RecordOf | source/dfuse-pack.py:291-319 | only S1, S2 and S3 lines give an address or data; S0 gives a name only; any other line gives address 0 and no data; addresses are below 2^32 |
| SRecords.DataRecord | source/dfuse-pack.py:296-319 | a data record has no name and its address is masked below 2^32 |
| SRecords.RecordsOfLines | source/dfuse-pack.py:290-319 | the lines are read exactly when each one is, and then the i-th record is the i-th line's |
| SRecords.FirstFailingLine | source/dfuse-pack.py:290-319 | when the lines are not read, the error is that of a line all of whose predecessors are read |
| SRecords.Step | source/dfuse-pack.py:320-328 | with no segment being filled the line starts one at its address; a line at the end of the segment extends it; any other line emits the segment and starts a new one at its own address and data; an S0 line sets the name |
| SRecords.SegmentAddresses | source/dfuse-pack.py:320-328 | every emitted segment, and the segment being filled, starts at the address of one of the records |
| SRecords.ReadLines | source/dfuse-pack.py:285-328 | the loop over the lines, with `address`, `data`, `target` and `name`, gives exactly the specified state, or the first line's error |
| SRecords.RecordErrorStays | source/dfuse-pack.py:296-319 | a line that stops the tool stops it whatever follows |
| SRecords.SegmentsNonZero | source/dfuse-pack.py:320-325 | every emitted segment has a non-zero address and the default alternate setting |
| SRecords.MergeKeepsData | source/dfuse-pack.py:320-328 | the emitted segments and the segment being filled hold exactly the data of the records at non-zero addresses, in file order |
| SRecords.LastRecordPending | source/dfuse-pack.py:320-328 | the last record at a non-zero address ends the segment still being filled, so it is in no emitted segment |
| SRecords.SegmentsApart | source/dfuse-pack.py:320-328 | without records at address 0, adjacent emitted segments are not contiguous, nor is the last one with the segment being filled |
| SRecords.ContiguousAfterTerminator | source/dfuse-pack.py:320-328 | with a terminator between them, two emitted segments can be contiguous |
| SRecords.FromBigEndianOfBigEndian | source/dfuse-pack.py:297 | a big-endian address field reads back as the address |
| SRecords.HexlifyValue | source/dfuse-pack.py:297 | the hexadecimal text of bytes, read as one number, is their big-endian value |
| SRecords.ParseHexOfHexlify | source/dfuse-pack.py:297 | `int(h, 16)` of the hexadecimal text of an address field is the address |
| SRecords.ParseDataLine | source/dfuse-pack.py:295-319 | an S1, S2 or S3 line, in upper- or lower-case hexadecimal, reads back as its address and data, whatever its count and checksum |
| SRecords.ParseNameLine | source/dfuse-pack.py:293-294 | an S0 line, in upper- or lower-case hexadecimal, reads back as its name |
| SRecords.RecordsModeDecodes | source/dfuse-pack.py:284-338 | the `-s` output reads back as one target with the default alternate setting, the last S0 name and the emitted segments as elements, each at a non-zero address, with no error reported |
| SRecords.OneTargetDecodes | source/dfuse-pack.py:338 | a one-target file whose images share an alternate setting reads back as that target, which is non-empty |
| SRecords.UnterminatedFile | source/dfuse-pack.py:320-338 | a file of one data record and no terminator emits no segment, so `build` stops on the unbound `ealt` |

## Left out

- Reading and writing files, the image dumps of `parse -d`, and everything printed. `parse` returns a report of what it would print instead.
- The `optparse` command line. The `-a` and `-D` options are optional strings and the `-b` arguments a list.
- The Intel HEX mode (`-i`). It depends on the external `intelhex` package.
- The check that exactly one positional argument (the output file) is given.
- Python's `int()` is modelled for an optional sign, the `0x`/`0o`/`0b` prefixes and digits. Surrounding white space, underscores between digits and non-ASCII digits are not modelled.
- `rstrip()` is modelled for ASCII white space only.
- `binascii.unhexlify` raises on non-hexadecimal text. This is modelled as the error `NotHex`. The exception type and its message are not.
- SRecords.RecordOf: "Address … invalid." prints the address of the segment being filled, not the text read. Only the exit is modelled.
- The S-record loop starts `data` as the text `""` and later uses bytes. This mixing never fails here, because a line concatenates data only onto a segment at a non-zero address, which already holds bytes. The model uses bytes throughout.
- SRecords.SegmentsApart: stated only for files with no record at address 0. "A segment is never contiguous with the next one" does not hold in general: SRecords.ContiguousAfterTerminator exhibits two contiguous emitted segments. What does hold in general is stated by SRecords.Step: an emitted segment is never contiguous with the line that emitted it.
- CRC-32 is specified bit by bit. No value of it is computed for a test vector.
