/**
 * The DfuSe container format as `build` writes it and `parse` reads it
 * (source/dfuse-pack.py:41-137): an 11-byte file prefix, one 274-byte target
 * prefix per target followed by that target's image elements (an 8-byte
 * address/size header and the data), and the 16-byte DFU suffix whose last field
 * is the file checksum. All fields are little-endian and unaligned (`struct`'s "<").
 *
 * Encode and Decode are the specifications of the loops in `build` and `parse`;
 * the methods that run those loops are in DfuBuild and DfuParse.
 */
module DfuFile {
  import opened Wrappers
  import opened Bytes
  import opened Crc
  import opened Literals

  const PrefixSize: nat := 11          // "<5sBIB"
  const SuffixSize: nat := 16          // "<4H3sBI"
  const TargetPrefixSize: nat := 274   // "<6sBI255s2I"
  const ElementHeaderSize: nat := 8    // "<2I"
  const NameSize: nat := 255
  const DfuVersion: nat := 0x011A
  const FormatVersion: byte := 1

  const DfuSeSignature: seq<byte> := [0x44, 0x66, 0x75, 0x53, 0x65]      // "DfuSe"
  const TargetSignature: seq<byte> := [0x54, 0x61, 0x72, 0x67, 0x65, 0x74] // "Target"
  const UfdSignature: seq<byte> := [0x55, 0x46, 0x44]                    // "UFD"
  const DefaultName: seq<byte> := [0x53, 0x54, 0x2E, 0x2E, 0x2E]         // "ST..."
  const DefaultDevice: string := "0x0483:0xdf11"

  /** One image to be loaded: its load address, its alternate setting and its bytes. */
  datatype Image = Image(address: int, alt: int, data: seq<byte>)

  /** Why `build` stops: `ealt` read before any image set it (a Python NameError), a
      value that does not fit its `struct` field (struct.error), or a device string
      that is not two integer literals separated by a colon. */
  datatype BuildError = UnboundAlt | FieldOutOfRange | InvalidDevice

  /** `v, d = [int(x, 0) & 0xFFFF for x in device.split(":", 1)]`: vendor and product,
      each an integer literal masked to 16 bits; no colon or a bad literal is `None`. */
  function ParseDevice(device: string): (r: Option<(nat, nat)>)
    ensures r.Some? ==> r.value.0 < U16Limit && r.value.1 < U16Limit
    ensures r.Some? ==> ':' in device
  {
    match SplitOnce(device, ':')
    case None => None
    case Some((vendor, product)) =>
      match (ParseLiteral(vendor), ParseLiteral(product))
      case (Some(v), Some(p)) => Some((Mask(v, U16Limit), Mask(p, U16Limit)))
      case _ => None
  }

  /** The text before the first colon and the text after it are read as two literals. */
  lemma ParseDeviceOf(device: string, v: string, p: string, vendor: int, product: int)
    requires ':' !in v && device == v + [':'] + p
    requires ParseLiteral(v) == Some(vendor) && ParseLiteral(p) == Some(product)
    ensures ParseDevice(device) == Some((Mask(vendor, U16Limit), Mask(product, U16Limit)))
  {
    SplitOnceUnique(device, ':', v, p);
  }

  /** A device string written as two hexadecimal literals reads back as the two numbers,
      each reduced to its low 16 bits. */
  lemma ParseDeviceOfHex(vendor: nat, product: nat)
    ensures ParseDevice("0x" + HexString(vendor) + ":" + "0x" + HexString(product))
            == Some((vendor % U16Limit, product % U16Limit))
  {
    var v, p := "0x" + HexString(vendor), "0x" + HexString(product);
    NoColonInDigits(HexString(vendor));
    ParseLiteralOfHex(vendor);
    ParseLiteralOfHex(product);
    var device := "0x" + HexString(vendor) + ":" + "0x" + HexString(product);
    assert device == v + [':'] + p;
    ParseDeviceOf(device, v, p, vendor, product);
    assert Mask(vendor, U16Limit) == vendor % U16Limit && Mask(product, U16Limit) == product % U16Limit;
  }

  lemma {:induction false} SplitOnceUnique(s: string, sep: char, before: string, after: string)
    requires sep !in before && s == before + [sep] + after
    ensures SplitOnce(s, sep) == Some((before, after))
  {
    if before == [] {
      assert s[0] == sep && s[1..] == after;
    } else {
      assert s[0] == before[0] && s[0] != sep;
      assert s[1..] == before[1..] + [sep] + after;
      SplitOnceUnique(s[1..], sep, before[1..], after);
      assert [before[0]] + before[1..] == before;
    }
  }

  lemma NoColonInDigits(s: string)
    requires forall i :: 0 <= i < |s| ==> IsDigit(s[i], 16)
    ensures ':' !in s
  {
    assert !IsDigit(':', 16);
  }

  lemma FourDigits(a: char, b: char, c: char, d: char)
    requires IsDigit(a, 16) && IsDigit(b, 16) && IsDigit(c, 16) && IsDigit(d, 16)
    ensures DigitsValue([a, b, c, d], 16)
            == ((DigitValue(a).value * 16 + DigitValue(b).value) * 16 + DigitValue(c).value) * 16 + DigitValue(d).value
  {
    assert [a][..0] == [];
    assert DigitsValue([a], 16) == DigitValue(a).value;
    assert [a, b][..1] == [a];
    assert DigitsValue([a, b], 16) == DigitValue(a).value * 16 + DigitValue(b).value;
    assert [a, b, c][..2] == [a, b];
    assert DigitsValue([a, b, c], 16) == DigitsValue([a, b], 16) * 16 + DigitValue(c).value;
    assert [a, b, c, d][..3] == [a, b, c];
  }

  /** `0x` and four hexadecimal digits, as an `int(x, 0)` literal. */
  lemma FourDigitLiteral(a: char, b: char, c: char, d: char)
    requires IsDigit(a, 16) && IsDigit(b, 16) && IsDigit(c, 16) && IsDigit(d, 16)
    ensures ParseLiteral(['0', 'x', a, b, c, d])
            == Some(((DigitValue(a).value * 16 + DigitValue(b).value) * 16 + DigitValue(c).value) * 16 + DigitValue(d).value)
  {
    FourDigits(a, b, c, d);
    assert ['0', 'x', a, b, c, d][2..] == [a, b, c, d];
  }

  /** The default device reads as ST's vendor 0x0483 and the DFU-mode product 0xDF11. */
  lemma DefaultDeviceIds()
    ensures ParseDevice(DefaultDevice) == Some((0x0483, 0xDF11))
  {
    FourDigitLiteral('0', '4', '8', '3');
    FourDigitLiteral('d', 'f', '1', '1');
    ParseDeviceOf(DefaultDevice, ['0', 'x', '0', '4', '8', '3'], ['0', 'x', 'd', 'f', '1', '1'], 0x0483, 0xDF11);
  }

  /** Prepends fixed bytes to a successful encoding. */
  function Prepend<E>(prefix: seq<byte>, r: Result<seq<byte>, E>): Result<seq<byte>, E>
  {
    match r
    case Success(rest) => Success(prefix + rest)
    case Failure(e) => Failure(e)
  }

  /** The bytes an image element occupies: its header and its data. */
  function ElementLength(img: Image): nat
  {
    ElementHeaderSize + |img.data|
  }

  /** The bytes all the elements of a target occupy. */
  function BodyLength(target: seq<Image>): nat
  {
    if target == [] then 0 else ElementLength(target[0]) + BodyLength(target[1..])
  }

  /** `struct.pack("<2I", address, len(data)) + data`. */
  function EncodeElement(img: Image): Result<seq<byte>, BuildError>
  {
    if 0 <= img.address < U32Limit && |img.data| < U32Limit then
      Success(U32(img.address) + U32(|img.data|) + img.data)
    else
      Failure(FieldOutOfRange)
  }

  /** The element data of one target (`tdata` before its header is added). */
  function EncodeElements(target: seq<Image>): (r: Result<seq<byte>, BuildError>)
    ensures r.Success? ==> |r.value| == BodyLength(target)
  {
    if target == [] then Success([])
    else
      var element :- EncodeElement(target[0]);
      Prepend(element, EncodeElements(target[1..]))
  }

  /** The alternate setting last assigned to `ealt` after the given images, starting from `ealt`. */
  function LastAlt(ealt: Option<int>, images: seq<Image>): (r: Option<int>)
    ensures images != [] ==> r == Some(images[|images| - 1].alt)
    ensures images == [] ==> r == ealt
  {
    if images == [] then ealt else Some(images[|images| - 1].alt)
  }

  /** `struct.pack("<6sBI255s2I", b"Target", ealt, 1, name, len(tdata), len(target))`. */
  function TargetHeader(ealt: Option<int>, name: seq<byte>, bodySize: nat, elements: nat): Result<seq<byte>, BuildError>
  {
    match ealt
    case None => Failure(UnboundAlt)
    case Some(alt) =>
      if 0 <= alt < 256 && bodySize < U32Limit && elements < U32Limit then
        Success(TargetSignature + [alt] + U32(1) + Pad(name, NameSize) + U32(bodySize) + U32(elements))
      else
        Failure(FieldOutOfRange)
  }

  /** The target blocks, each its header followed by its element data; `ealt` carries
      over from one target to the next, so an empty target repeats the previous alt. */
  function EncodeTargets(targets: seq<seq<Image>>, ealt: Option<int>, name: seq<byte>): Result<seq<byte>, BuildError>
  {
    if targets == [] then Success([])
    else
      var body :- EncodeElements(targets[0]);
      var alt := LastAlt(ealt, targets[0]);
      var header :- TargetHeader(alt, name, |body|, |targets[0]|);
      Prepend(header + body, EncodeTargets(targets[1..], alt, name))
  }

  /** The 16-byte DFU suffix without its checksum: bcdDevice, idProduct, idVendor, bcdDFU, "UFD", bLength. */
  function SuffixFields(vendor: nat, product: nat): (r: seq<byte>)
    requires vendor < U16Limit && product < U16Limit
    ensures |r| == SuffixSize - 4
  {
    U16(0) + U16(product) + U16(vendor) + U16(DfuVersion) + UfdSignature + [SuffixSize]
  }

  /** The file prefix, the target blocks, the suffix and the checksum of all that precedes it. */
  function Assemble(count: nat, blocks: seq<byte>, vendor: nat, product: nat): (r: seq<byte>)
    requires count < 256 && PrefixSize + |blocks| + SuffixSize < U32Limit
    requires vendor < U16Limit && product < U16Limit
    ensures |r| == PrefixSize + |blocks| + SuffixSize
  {
    var body := DfuSeSignature + [FormatVersion] + U32(PrefixSize + |blocks| + SuffixSize) + [count]
                + blocks + SuffixFields(vendor, product);
    body + U32(ComputeCrc(body))
  }

  /** The whole file `build` writes, or why it stops. */
  function Encode(targets: seq<seq<Image>>, name: seq<byte>, device: string): Result<seq<byte>, BuildError>
  {
    var blocks :- EncodeTargets(targets, None, name);
    if PrefixSize + |blocks| + SuffixSize >= U32Limit || |targets| >= 256 then Failure(FieldOutOfRange)
    else
      match ParseDevice(device)
      case None => Failure(InvalidDevice)
      case Some((vendor, product)) => Success(Assemble(|targets|, blocks, vendor, product))
  }

  // ---------------------------------------------------------------------------
  // Decoding, as `parse` reads a file.

  /** The file prefix: signature, version, image size, number of targets. */
  datatype DfuPrefix = DfuPrefix(signature: seq<byte>, version: byte, size: nat, targets: byte)

  /** One element as `parse` reports it: the header's address and size, and the image
      bytes taken for it (fewer than `size` when the target ends first). */
  datatype ElementInfo = ElementInfo(address: nat, size: nat, image: seq<byte>)

  /** One target prefix as `parse` reports it, with its elements and whether the
      elements left bytes of the target unread ("target N: PARSE ERROR"). */
  datatype TargetInfo = TargetInfo(signature: seq<byte>, alt: byte, named: nat, name: seq<byte>,
                                   size: nat, elements: nat, images: seq<ElementInfo>, parseError: bool)

  /** The DFU suffix fields, in file order. */
  datatype DfuSuffix = DfuSuffix(device: nat, product: nat, vendor: nat, dfu: nat, ufd: seq<byte>,
                                 length: byte, crc: nat)

  /** Everything `parse` prints about a file: the checksum it computed, the prefix, the
      targets, the suffix, "CRC ERROR" and the final "PARSE ERROR" for trailing bytes. */
  datatype Report = Report(computedCrc: nat, prefix: DfuPrefix, targets: seq<TargetInfo>,
                           suffix: DfuSuffix, crcError: bool, trailingError: bool)

  /** `struct.unpack` given fewer bytes than its format needs raises struct.error. */
  datatype ParseError = Truncated

  function DecodePrefix(data: seq<byte>): (r: Result<(DfuPrefix, seq<byte>), ParseError>)
    ensures r.Success? <==> |data| >= PrefixSize
    ensures r.Success? ==> r.value.1 == data[PrefixSize..]
  {
    if |data| < PrefixSize then Failure(Truncated)
    else Success((DfuPrefix(data[..5], data[5], FromLittleEndian(data[6..10]), data[10]), data[PrefixSize..]))
  }

  /** `count` elements read from the front of a target's bytes, and what is left of them. */
  function DecodeElements(target: seq<byte>, count: nat): (r: Result<(seq<ElementInfo>, seq<byte>), ParseError>)
    ensures r.Success? ==> |r.value.0| == count && |r.value.1| <= |target|
  {
    if count == 0 then Success(([], target))
    else if |target| < ElementHeaderSize then Failure(Truncated)
    else
      var size := FromLittleEndian(target[4..8]);
      var rest := target[ElementHeaderSize..];
      var image := Slice(rest, 0, size);
      var element := ElementInfo(FromLittleEndian(target[..4]), size, image);
      var more :- DecodeElements(rest[|image|..], count - 1);
      Success(([element] + more.0, more.1))
  }

  /** One target prefix and the `size` bytes after it, or as many as there are. */
  function DecodeTarget(data: seq<byte>): (r: Result<(TargetInfo, seq<byte>), ParseError>)
    ensures r.Success? ==> |r.value.1| < |data|
  {
    if |data| < TargetPrefixSize then Failure(Truncated)
    else
      var named := FromLittleEndian(data[7..11]);
      var size := FromLittleEndian(data[266..270]);
      var elements := FromLittleEndian(data[270..274]);
      var rest := data[TargetPrefixSize..];
      var target := Slice(rest, 0, size);
      var read :- DecodeElements(target, elements);
      var name := if named != 0 then CString(data[11..266]) else [];
      var info := TargetInfo(data[..6], data[6], named, name, size, elements, read.0, |read.1| > 0);
      Success((info, rest[|target|..]))
  }

  function DecodeTargets(data: seq<byte>, count: nat): (r: Result<(seq<TargetInfo>, seq<byte>), ParseError>)
    ensures r.Success? ==> |r.value.0| == count && |r.value.1| <= |data|
  {
    if count == 0 then Success(([], data))
    else
      var first :- DecodeTarget(data);
      var more :- DecodeTargets(first.1, count - 1);
      Success(([first.0] + more.0, more.1))
  }

  /** The suffix fields of a 16-byte (or longer) string, read from its start. */
  function DecodeSuffix(data: seq<byte>): DfuSuffix
    requires |data| >= SuffixSize
  {
    DfuSuffix(FromLittleEndian(data[0..2]), FromLittleEndian(data[2..4]), FromLittleEndian(data[4..6]),
              FromLittleEndian(data[6..8]), data[8..11], data[11], FromLittleEndian(data[12..16]))
  }

  /** What `parse` reports about a file, or the struct.error that stops it. */
  function Decode(file: seq<byte>): Result<Report, ParseError>
  {
    var crc := ComputeCrc(DropLast(file, 4));
    var prefix :- DecodePrefix(file);
    var targets :- DecodeTargets(prefix.1, prefix.0.targets);
    if |targets.1| < SuffixSize then Failure(Truncated)
    else
      var suffix := DecodeSuffix(targets.1);
      Success(Report(crc, prefix.0, targets.0, suffix, crc != suffix.crc, |targets.1| > SuffixSize))
  }

  /** `checkbin`: whether a raw binary already ends in a DFU suffix, in which case the
      tool refuses it. A file is flagged exactly when it has at least 16 bytes, bytes
      [-8:-5] are "UFD" and its last four bytes hold the checksum of all the others. */
  function CheckBin(data: seq<byte>): (flagged: bool)
    ensures flagged <==> |data| >= SuffixSize
                          && data[|data| - 8..|data| - 5] == UfdSignature
                          && FromLittleEndian(data[|data| - 4..]) == ComputeCrc(data[..|data| - 4])
  {
    if |data| < SuffixSize then false
    else
      var suffix := DecodeSuffix(data[|data| - SuffixSize..]);
      assert data[|data| - SuffixSize..][12..16] == data[|data| - 4..];
      assert data[|data| - SuffixSize..][8..11] == data[|data| - 8..|data| - 5];
      ComputeCrc(data[..|data| - 4]) == suffix.crc && suffix.ufd == UfdSignature
  }
}
