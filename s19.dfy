/**
 * The `-s file.s19` mode of the tool (source/dfuse-pack.py:284-328): each line of a
 * Motorola S-record file is read as a name (S0) or a data record (S1, S2, S3 with a
 * 2-, 3- or 4-byte address), and contiguous data records are merged into segments that
 * become the images of a single target. The lines are given as a parameter, standing
 * for the file.
 *
 * The merging is kept exactly as the loop does it: address 0 marks "no segment", so a
 * record at address 0 is dropped, and a segment is only emitted when a later line is
 * not contiguous with it, so the last one is emitted only when a terminator record
 * (S5, S7, S8, S9, or any line that is not a data record, read as address 0) follows.
 */
module SRecords {
  import opened Wrappers
  import opened Bytes
  import opened Literals
  import opened DfuFile
  import opened DfuRoundTrip
  import BinaryInputs

  /** What one line gives the loop: `name` for an S0 line, and `curaddress`/`curdata`,
      which stay 0 and empty for any line that is not a data record. */
  datatype Record = Record(name: Option<seq<byte>>, address: nat, data: seq<byte>)

  /** Why reading a line stops the tool: "Address ... invalid.", or the exception
      `binascii.unhexlify` raises on text that is not pairs of hexadecimal digits. */
  datatype RecordError = InvalidAddress | NotHex

  /** `line.startswith(tag)` for a two-character tag. */
  predicate StartsWith(line: string, tag: string)
    requires |tag| == 2
  {
    |line| >= 2 && line[..2] == tag
  }

  /** One line of the file, read after `rstrip()`. */
  function ParseRecord(raw: string): Result<Record, RecordError>
  {
    RecordOf(RStrip(raw))
  }

  /** A line without trailing white space: S0 gives a name, S3, S2 and S1 an address and
      data, and any other line neither. */
  function RecordOf(line: string): (r: Result<Record, RecordError>)
    ensures r.Success? ==> r.value.address < U32Limit
    ensures r.Success? && r.value.name.Some? ==> r.value.address == 0 && r.value.data == []
    ensures r.Success? && (r.value.address != 0 || r.value.data != []) ==>
              StartsWith(line, "S1") || StartsWith(line, "S2") || StartsWith(line, "S3")
    ensures !StartsWith(line, "S0") && !StartsWith(line, "S1") && !StartsWith(line, "S2") && !StartsWith(line, "S3")
            ==> r == Success(Record(None, 0, []))
  {
    var end := if |line| >= 2 then |line| - 2 else 0;
    if StartsWith(line, "S0") then
      match Unhexlify(Slice(line, 8, end))
      case None => Failure(NotHex)
      case Some(name) => Success(Record(Some(name), 0, []))
    else if StartsWith(line, "S3") then DataRecord(line, 12, end)
    else if StartsWith(line, "S2") then DataRecord(line, 10, end)
    else if StartsWith(line, "S1") then DataRecord(line, 8, end)
    else Success(Record(None, 0, []))
  }

  /** A data record whose address digits are `line[4:start]` and whose data digits are
      `line[start:end]`, the two characters of the checksum being left out unchecked.
      The address is read before the data, and masked to 32 bits. */
  function DataRecord(line: string, start: nat, end: nat): (r: Result<Record, RecordError>)
    ensures r.Success? ==> r.value.name.None? && r.value.address < U32Limit
  {
    match ParseHex(Slice(line, 4, start))
    case None => Failure(InvalidAddress)
    case Some(address) =>
      match Unhexlify(Slice(line, start, end))
      case None => Failure(NotHex)
      case Some(data) => Success(Record(None, Mask(address, U32Limit), data))
  }

  /** The lines in order, or the error of the first line that stops the tool. */
  function ParseRecords(lines: seq<string>): (r: Result<seq<Record>, RecordError>)
    ensures r.Success? ==> |r.value| == |lines|
  {
    if lines == [] then Success([])
    else
      var records :- ParseRecords(lines[..|lines| - 1]);
      var record :- ParseRecord(lines[|lines| - 1]);
      Success(records + [record])
  }

  // ---------------------------------------------------------------------------
  // Merging records into segments.

  /** The variables of the loop: the segment being filled (`address` 0 meaning none),
      the segments emitted so far (`target`), and the name. */
  datatype Reader = Reader(address: nat, data: seq<byte>, segments: seq<Image>, name: seq<byte>)

  const Start: Reader := Reader(0, [], [], DefaultName)

  /** One line's record applied to the loop's variables. With no segment being filled
      the record starts one; a record that continues the segment is appended to it; any
      other record emits the segment and starts a new one at its own address. */
  function Step(alt: int, st: Reader, record: Record): (r: Reader)
    ensures r.name == if record.name.Some? then record.name.value else st.name
    ensures st.address == 0 ==>
              r.address == record.address && r.data == record.data && r.segments == st.segments
    ensures st.address != 0 && st.address + |st.data| == record.address ==>
              r.address == st.address && r.data == st.data + record.data && r.segments == st.segments
    ensures st.address != 0 && st.address + |st.data| != record.address ==>
              && r.address == record.address && r.data == record.data
              && r.segments == st.segments + [Image(st.address, alt, st.data)]
  {
    var name := if record.name.Some? then record.name.value else st.name;
    if st.address == 0 then Reader(record.address, record.data, st.segments, name)
    else if st.address + |st.data| != record.address then
      Reader(record.address, record.data, st.segments + [Image(st.address, alt, st.data)], name)
    else Reader(st.address, st.data + record.data, st.segments, name)
  }

  /** The loop's variables after all the records, from the start. */
  function Merge(alt: int, records: seq<Record>): Reader
  {
    if records == [] then Start
    else Step(alt, Merge(alt, records[..|records| - 1]), records[|records| - 1])
  }

  /** The whole file read: the loop's variables at its end, or the line error. */
  function Read(alt: int, lines: seq<string>): Result<Reader, RecordError>
  {
    var records :- ParseRecords(lines);
    Success(Merge(alt, records))
  }

  /** Why the `-s` mode stops: the `-a` option, a line of the file, or `build`. */
  datatype RecordsModeError =
    | BadOption(argError: BinaryInputs.ArgError)
    | BadRecord(recordError: RecordError)
    | BuildFailed(buildError: BuildError)

  /** The whole `-s` mode: the file the tool writes, with the emitted segments as the
      images of one target under the name of the last S0 line, or why it stops. */
  function BuildFromRecords(lines: seq<string>, altOption: Option<string>, deviceOption: Option<string>)
    : Result<seq<byte>, RecordsModeError>
  {
    match BinaryInputs.DefaultAlt(altOption)
    case Failure(e) => Failure(BadOption(e))
    case Success(alt) =>
      match Read(alt, lines)
      case Failure(e) => Failure(BadRecord(e))
      case Success(st) =>
        match BinaryInputs.Device(deviceOption)
        case Failure(e) => Failure(BadOption(e))
        case Success(device) =>
          match Encode([st.segments], st.name, device)
          case Failure(e) => Failure(BuildFailed(e))
          case Success(out) => Success(out)
  }

  // ---------------------------------------------------------------------------
  // The loop over the lines.

  /** The loop of the `-s` mode, updating `address`, `data`, `target` and `name` line by line. */
  method ReadLines(lines: seq<string>, alt: int) returns (r: Result<Reader, RecordError>)
    ensures r == Read(alt, lines)
  {
    var address: nat := 0;
    var data: seq<byte> := [];
    var target: seq<Image> := [];
    var name := DefaultName;
    ghost var records: seq<Record> := [];
    for i := 0 to |lines|
      invariant ParseRecords(lines[..i]) == Success(records)
      invariant Merge(alt, records) == Reader(address, data, target, name)
    {
      ParseRecordsStep(lines, i);
      var record := ParseRecord(lines[i]);
      if record.Failure? {
        RecordErrorStays(lines, i + 1);
        return Failure(record.error);
      }
      var current := record.value;
      if current.name.Some? {
        name := current.name.value;
      }
      if address == 0 {
        address, data := current.address, current.data;
      } else if address + |data| != current.address {
        target := target + [Image(address, alt, data)];
        address, data := current.address, current.data;
      } else {
        data := data + current.data;
      }
      assert (records + [current])[..|records|] == records;
      records := records + [current];
    }
    assert lines[..|lines|] == lines;
    return Success(Reader(address, data, target, name));
  }

  lemma ParseRecordsStep(lines: seq<string>, i: nat)
    requires i < |lines|
    ensures var records := ParseRecords(lines[..i]);
            var record := ParseRecord(lines[i]);
            ParseRecords(lines[..i + 1])
            == if records.Failure? then Failure(records.error)
               else if record.Failure? then Failure(record.error)
               else Success(records.value + [record.value])
  {
    assert lines[..i + 1][..i] == lines[..i];
  }

  /** The lines are read each on its own: the file is read exactly when every line is,
      and the i-th record is then the i-th line's. */
  lemma {:induction false} RecordsOfLines(lines: seq<string>)
    ensures ParseRecords(lines).Success? <==> forall i :: 0 <= i < |lines| ==> ParseRecord(lines[i]).Success?
    ensures ParseRecords(lines).Success? ==>
              forall i :: 0 <= i < |lines| ==> ParseRecord(lines[i]) == Success(ParseRecords(lines).value[i])
    decreases |lines|
  {
    if lines != [] {
      var front, last := lines[..|lines| - 1], lines[|lines| - 1];
      assert lines == front + [last];
      RecordsOfLines(front);
      var records := ParseRecords(front);
      var record := ParseRecord(last);
      if records.Failure? {
        var k :| 0 <= k < |front| && !ParseRecord(front[k]).Success?;
        assert lines[k] == front[k];
      } else if record.Success? {
        LinesReadSnoc(front, last, records.value, record.value);
      }
    }
  }

  /** Every line read, in order, as the records. */
  predicate LinesRead(lines: seq<string>, records: seq<Record>)
  {
    |records| == |lines| && forall i :: 0 <= i < |lines| ==> ParseRecord(lines[i]) == Success(records[i])
  }

  lemma LinesReadSnoc(front: seq<string>, last: string, records: seq<Record>, record: Record)
    requires |records| == |front| && ParseRecord(last) == Success(record)
    requires forall i :: 0 <= i < |front| ==> ParseRecord(front[i]) == Success(records[i])
    ensures LinesRead(front + [last], records + [record])
  {
    var lines, all := front + [last], records + [record];
    forall i | 0 <= i < |lines|
      ensures ParseRecord(lines[i]) == Success(all[i])
    {
      if i < |front| {
        assert lines[i] == front[i] && all[i] == records[i];
      }
    }
  }

  /** A file that cannot be read stops on the error of its first bad line. */
  lemma {:induction false} FirstFailingLine(lines: seq<string>)
    requires ParseRecords(lines).Failure?
    ensures exists i :: && 0 <= i < |lines|
                        && ParseRecord(lines[i]) == Failure(ParseRecords(lines).error)
                        && forall j :: 0 <= j < i ==> ParseRecord(lines[j]).Success?
    decreases |lines|
  {
    var front := lines[..|lines| - 1];
    var records := ParseRecords(front);
    assert forall i :: 0 <= i < |front| ==> front[i] == lines[i];
    if records.Failure? {
      FirstFailingLine(front);
      var i :| && 0 <= i < |front|
               && ParseRecord(front[i]) == Failure(records.error)
               && forall j :: 0 <= j < i ==> ParseRecord(front[j]).Success?;
      assert ParseRecord(lines[i]) == Failure(ParseRecords(lines).error);
    } else {
      RecordsOfLines(front);
      assert ParseRecord(lines[|lines| - 1]) == Failure(ParseRecords(lines).error);
    }
  }

  /** A line that stops the tool stops it whatever follows. */
  lemma {:induction false} RecordErrorStays(lines: seq<string>, n: nat)
    requires 0 < n <= |lines|
    requires ParseRecords(lines[..n]).Failure?
    ensures ParseRecords(lines) == ParseRecords(lines[..n])
    decreases |lines| - n
  {
    if n < |lines| {
      ParseRecordsStep(lines, n);
      RecordErrorStays(lines, n + 1);
    } else {
      assert lines[..n] == lines;
    }
  }

  // ---------------------------------------------------------------------------
  // What the merging guarantees.

  /** The data of the images, one after the other. */
  function ImagesData(images: seq<Image>): seq<byte>
  {
    if images == [] then [] else ImagesData(images[..|images| - 1]) + images[|images| - 1].data
  }

  /** The data of the records at a non-zero address, one after the other. */
  function KeptData(records: seq<Record>): seq<byte>
  {
    if records == [] then []
    else
      var last := records[|records| - 1];
      KeptData(records[..|records| - 1]) + (if last.address != 0 then last.data else [])
  }

  /** The data of the segment being filled, when there is one. */
  function Pending(st: Reader): seq<byte>
  {
    if st.address != 0 then st.data else []
  }

  /** Every emitted segment has a non-zero address and the default alternate setting. */
  lemma {:induction false} SegmentsNonZero(alt: int, records: seq<Record>)
    ensures forall i :: 0 <= i < |Merge(alt, records).segments| ==>
              Merge(alt, records).segments[i].address != 0 && Merge(alt, records).segments[i].alt == alt
  {
    if records != [] {
      var previous := records[..|records| - 1];
      SegmentsNonZero(alt, previous);
      var st := Merge(alt, previous);
      assert Merge(alt, records) == Step(alt, st, records[|records| - 1]);
      var s := Merge(alt, records).segments;
      assert forall i :: 0 <= i < |st.segments| ==> st.segments[i].address != 0 && st.segments[i].alt == alt;
      if s != st.segments {
        assert s == st.segments + [Image(st.address, alt, st.data)];
        forall i | 0 <= i < |s|
          ensures s[i].address != 0 && s[i].alt == alt
        {
          if i < |st.segments| {
            assert s[i] == st.segments[i];
          }
        }
      }
    }
  }

  /** Every emitted segment, and the segment being filled, starts at the address of one
      of the records. */
  lemma {:induction false} SegmentAddresses(alt: int, records: seq<Record>)
    ensures forall i :: 0 <= i < |Merge(alt, records).segments| ==>
              exists j :: 0 <= j < |records| && records[j].address == Merge(alt, records).segments[i].address
    ensures Merge(alt, records).address != 0 ==>
              exists j :: 0 <= j < |records| && records[j].address == Merge(alt, records).address
  {
    if records != [] {
      var previous := records[..|records| - 1];
      var record := records[|records| - 1];
      SegmentAddresses(alt, previous);
      var st := Merge(alt, previous);
      var next := Merge(alt, records);
      assert next == Step(alt, st, record);
      assert forall j :: 0 <= j < |previous| ==> previous[j] == records[j];
      assert records[|records| - 1].address == record.address;
      forall i | 0 <= i < |next.segments|
        ensures exists j :: 0 <= j < |records| && records[j].address == next.segments[i].address
      {
        if i < |st.segments| {
          assert next.segments[i] == st.segments[i];
          var k :| 0 <= k < |previous| && previous[k].address == st.segments[i].address;
          assert records[k].address == next.segments[i].address;
        } else {
          assert st.address != 0 && next.segments[i].address == st.address;
          var k :| 0 <= k < |previous| && previous[k].address == st.address;
          assert records[k].address == next.segments[i].address;
        }
      }
      if next.address != 0 && next.address == st.address {
        var k :| 0 <= k < |previous| && previous[k].address == st.address;
        assert records[k].address == next.address;
      }
      assert forall i :: 0 <= i < |Merge(alt, records).segments| ==>
              exists j :: 0 <= j < |records| && records[j].address == Merge(alt, records).segments[i].address;
    } else {
      assert Merge(alt, records).segments == [];
    }
  }

  /** No data is lost or reordered except that of records at address 0: the emitted
      segments and the segment being filled hold exactly the data of the other records,
      in file order. */
  lemma {:induction false} MergeKeepsData(alt: int, records: seq<Record>)
    ensures var st := Merge(alt, records);
            ImagesData(st.segments) + Pending(st) == KeptData(records)
  {
    if records != [] {
      var previous := records[..|records| - 1];
      var record := records[|records| - 1];
      var st := Merge(alt, previous);
      MergeKeepsData(alt, previous);
      var next := Step(alt, st, record);
      var added := if record.address != 0 then record.data else [];
      if st.address == 0 {
        assert Pending(next) == added;
      } else if st.address + |st.data| != record.address {
        var segments := st.segments + [Image(st.address, alt, st.data)];
        assert segments[..|segments| - 1] == st.segments;
        assert ImagesData(segments) == ImagesData(st.segments) + st.data;
        assert Pending(next) == added;
      } else {
        assert Pending(next) == st.data + record.data;
        AppendAssoc(ImagesData(st.segments), st.data, record.data);
      }
    }
  }

  /** The last record, when its address is not 0, ends the segment being filled, so its
      data is in no emitted segment. */
  lemma LastRecordPending(alt: int, records: seq<Record>)
    requires records != [] && records[|records| - 1].address != 0
    ensures var st := Merge(alt, records);
            var last := records[|records| - 1];
            && st.address != 0
            && |last.data| <= |st.data|
            && st.data[|st.data| - |last.data|..] == last.data
  {
  }

  /** When no record has address 0, adjacent emitted segments are not contiguous, nor is
      the last emitted segment with the segment being filled. */
  lemma {:induction false} SegmentsApart(alt: int, records: seq<Record>)
    requires forall i :: 0 <= i < |records| ==> records[i].address != 0
    ensures var st := Merge(alt, records);
            var s := st.segments;
            && (forall i :: 0 < i < |s| ==> s[i - 1].address + |s[i - 1].data| != s[i].address)
            && (s != [] ==> s[|s| - 1].address + |s[|s| - 1].data| != st.address)
            && (records != [] ==> st.address != 0)
  {
    if records != [] {
      var previous := records[..|records| - 1];
      var record := records[|records| - 1];
      SegmentsApart(alt, previous);
      var st := Merge(alt, previous);
      var next := Step(alt, st, record);
      if st.address != 0 && st.address + |st.data| != record.address {
        var s := next.segments;
        assert s[..|s| - 1] == st.segments;
        assert s[|s| - 1] == Image(st.address, alt, st.data);
      }
    }
  }

  /** With a terminator between them, two emitted segments can be contiguous: a segment
      at 0x100 of one byte is emitted by an S9 line (address 0), and a record at 0x101
      then starts a new segment, emitted by the record at 0x200 that follows. */
  lemma ContiguousAfterTerminator(alt: int)
    ensures var records := [Record(None, 0x100, [1]), Record(None, 0, []), Record(None, 0x101, [2]), Record(None, 0x200, [3])];
            var s := Merge(alt, records).segments;
            && s == [Image(0x100, alt, [1]), Image(0x101, alt, [2])]
            && s[0].address + |s[0].data| == s[1].address
  {
    var records := [Record(None, 0x100, [1]), Record(None, 0, []), Record(None, 0x101, [2]), Record(None, 0x200, [3])];
    assert records[..1][..0] == [];
    assert Merge(alt, records[..1]) == Reader(0x100, [1], [], DefaultName);
    assert records[..2][..1] == records[..1];
    assert Merge(alt, records[..2]) == Reader(0, [], [Image(0x100, alt, [1])], DefaultName);
    assert records[..3][..2] == records[..2];
    assert Merge(alt, records[..3]) == Reader(0x101, [2], [Image(0x100, alt, [1])], DefaultName);
    assert records[..3] == records[..|records| - 1];
  }

  // ---------------------------------------------------------------------------
  // S-record lines as a writer produces them.

  /** The k-byte big-endian encoding of n, the order of an S-record address. */
  function BigEndian(n: nat, k: nat): (r: seq<byte>)
    requires n < Pow256(k)
    ensures |r| == k
  {
    if k == 0 then [] else BigEndian(n / 256, k - 1) + [n % 256]
  }

  function FromBigEndian(b: seq<byte>): nat
  {
    if b == [] then 0 else FromBigEndian(b[..|b| - 1]) * 256 + b[|b| - 1]
  }

  lemma {:induction false} FromBigEndianOfBigEndian(n: nat, k: nat)
    requires n < Pow256(k)
    ensures FromBigEndian(BigEndian(n, k)) == n
  {
    if k > 0 {
      var b := BigEndian(n, k);
      assert b[..|b| - 1] == BigEndian(n / 256, k - 1);
      FromBigEndianOfBigEndian(n / 256, k - 1);
    }
  }

  lemma {:induction false} HexlifyAppend(a: seq<byte>, b: seq<byte>, upper: bool)
    ensures Hexlify(a + b, upper) == Hexlify(a, upper) + Hexlify(b, upper)
  {
    if a != [] {
      assert (a + b)[0] == a[0];
      assert (a + b)[1..] == a[1..] + b;
      assert Hexlify(a, upper) == [HexChar(a[0] / 16, upper), HexChar(a[0] % 16, upper)] + Hexlify(a[1..], upper);
      assert Hexlify(a + b, upper) == [HexChar(a[0] / 16, upper), HexChar(a[0] % 16, upper)] + Hexlify(a[1..] + b, upper);
      HexlifyAppend(a[1..], b, upper);
      AppendAssoc([HexChar(a[0] / 16, upper), HexChar(a[0] % 16, upper)], Hexlify(a[1..], upper), Hexlify(b, upper));
    } else {
      assert a + b == b;
    }
  }

  lemma {:induction false} HexlifyDigits(b: seq<byte>, upper: bool)
    ensures forall i :: 0 <= i < |Hexlify(b, upper)| ==> IsDigit(Hexlify(b, upper)[i], 16)
  {
    if b != [] {
      HexlifyDigits(b[1..], upper);
      var s := Hexlify(b, upper);
      assert s == [HexChar(b[0] / 16, upper), HexChar(b[0] % 16, upper)] + Hexlify(b[1..], upper);
    }
  }

  /** The hexadecimal digits of bytes read as one number: the bytes in big-endian order. */
  lemma {:induction false} HexlifyValue(b: seq<byte>, upper: bool)
    ensures forall i :: 0 <= i < |Hexlify(b, upper)| ==> IsDigit(Hexlify(b, upper)[i], 16)
    ensures DigitsValue(Hexlify(b, upper), 16) == FromBigEndian(b)
  {
    HexlifyDigits(b, upper);
    if b != [] {
      var front, x := b[..|b| - 1], b[|b| - 1];
      assert front + [x] == b;
      HexlifyAppend(front, [x], upper);
      HexlifyValue(front, upper);
      HexlifyDigits(front, upper);
      var s := Hexlify(front, upper);
      var hi, lo := HexChar(x / 16, upper), HexChar(x % 16, upper);
      assert Hexlify([x], upper) == [hi, lo];
      var t := s + [hi, lo];
      assert t[..|t| - 1] == s + [hi];
      assert (s + [hi])[..|s|] == s;
    }
  }

  /** `int(h, 16)` of the hexadecimal text of at least one byte is their big-endian value. */
  lemma ParseHexOfHexlify(b: seq<byte>, upper: bool)
    requires b != []
    ensures ParseHex(Hexlify(b, upper)) == Some(FromBigEndian(b))
  {
    var s := Hexlify(b, upper);
    HexlifyDigits(b, upper);
    HexlifyValue(b, upper);
    assert IsDigit(s[0], 16) && IsDigit(s[1], 16);
    assert SplitSign(s) == (false, s);
    assert !HasRadixPrefix(s, 'x', 'X');
  }

  /** A data record as a writer prints it: `S1`, `S2` or `S3`, then in hexadecimal the
      byte count, the address on 2, 3 or 4 bytes, the data and the checksum, then a line
      break; the hexadecimal letters are in upper or in lower case. */
  function DataLine(kind: nat, count: byte, address: nat, data: seq<byte>, checksum: byte, upper: bool): string
    requires 1 <= kind <= 3 && address < Pow256(kind + 1)
  {
    Tag(kind) + Hexlify([count], upper) + Hexlify(BigEndian(address, kind + 1), upper) + Hexlify(data, upper)
    + Hexlify([checksum], upper) + "\n"
  }

  /** The two characters a data record starts with, for an address of kind + 1 bytes. */
  function Tag(kind: nat): string
  {
    if kind == 1 then "S1" else if kind == 2 then "S2" else "S3"
  }

  /** An S0 line as a writer prints it: the byte count, the address 0000, the name and
      the checksum, in upper- or lower-case hexadecimal. */
  function NameLine(count: byte, name: seq<byte>, checksum: byte, upper: bool): string
  {
    "S0" + Hexlify([count], upper) + "0000" + Hexlify(name, upper) + Hexlify([checksum], upper) + "\n"
  }

  /** A line without its line break is what `rstrip()` leaves when it ends in a digit. */
  lemma RStripLineBreak(s: string)
    requires s != [] && IsDigit(s[|s| - 1], 16)
    ensures RStrip(s + "\n") == s
  {
    assert (s + "\n")[..|s|] == s;
  }

  /** Where the four fields of a record line lie. */
  lemma LineFields(tag: string, count: string, address: string, data: string, checksum: string)
    requires |tag| == 2 && |count| == 2 && |checksum| == 2
    ensures var line := tag + count + address + data + checksum;
            var start := 4 + |address|;
            && |line| == start + |data| + 2
            && line[..2] == tag
            && line[4..start] == address
            && line[start..|line| - 2] == data
            && line[|line| - 1] == checksum[1]
  {
  }

  /** A data record reads back as its address and data, whatever its count and checksum. */
  lemma ParseDataLine(kind: nat, count: byte, address: nat, data: seq<byte>, checksum: byte, upper: bool)
    requires 1 <= kind <= 3 && address < Pow256(kind + 1)
    ensures ParseRecord(DataLine(kind, count, address, data, checksum, upper)) == Success(Record(None, address, data))
  {
    var line := Tag(kind) + Hexlify([count], upper) + Hexlify(BigEndian(address, kind + 1), upper) + Hexlify(data, upper)
                + Hexlify([checksum], upper);
    DataLineFields(kind, count, address, data, checksum, upper);
    RStripLineBreak(line);
    assert DataLine(kind, count, address, data, checksum, upper) == line + "\n";
  }

  /** A data record without its line break: its fields read back. */
  lemma DataLineFields(kind: nat, count: byte, address: nat, data: seq<byte>, checksum: byte, upper: bool)
    requires 1 <= kind <= 3 && address < Pow256(kind + 1)
    ensures var line := Tag(kind) + Hexlify([count], upper) + Hexlify(BigEndian(address, kind + 1), upper)
                        + Hexlify(data, upper) + Hexlify([checksum], upper);
            && line != [] && IsDigit(line[|line| - 1], 16)
            && RecordOf(line) == Success(Record(None, address, data))
  {
    var a := BigEndian(address, kind + 1);
    var line := Tag(kind) + Hexlify([count], upper) + Hexlify(a, upper) + Hexlify(data, upper) + Hexlify([checksum], upper);
    HexlifyDigits([checksum], upper);
    LineFields(Tag(kind), Hexlify([count], upper), Hexlify(a, upper), Hexlify(data, upper), Hexlify([checksum], upper));
    FromBigEndianOfBigEndian(address, kind + 1);
    AddressWidth(kind);
    ParseDataRecord(line, kind, a, data, upper);
  }

  /** A data-record tag followed by the text of an address and of data. */
  lemma ParseDataRecord(line: string, kind: nat, address: seq<byte>, data: seq<byte>, upper: bool)
    requires 1 <= kind <= 3 && |address| == kind + 1 && FromBigEndian(address) < U32Limit
    requires |line| == 4 + 2 * |address| + 2 * |data| + 2
    requires line[..2] == Tag(kind)
    requires line[4..4 + 2 * |address|] == Hexlify(address, upper)
    requires line[4 + 2 * |address|..|line| - 2] == Hexlify(data, upper)
    ensures RecordOf(line) == Success(Record(None, FromBigEndian(address), data))
  {
    var start := 4 + 2 * |address|;
    var end := |line| - 2;
    DataRecordOf(line, start, end, address, data, upper);
    assert !StartsWith(line, "S0");
    if kind == 3 {
      assert StartsWith(line, "S3");
    } else if kind == 2 {
      assert !StartsWith(line, "S3") && StartsWith(line, "S2");
    } else {
      assert !StartsWith(line, "S3") && !StartsWith(line, "S2") && StartsWith(line, "S1");
    }
  }

  /** A 2-, 3- or 4-byte address fits in 32 bits. */
  lemma AddressWidth(kind: nat)
    requires 1 <= kind <= 3
    ensures Pow256(kind + 1) <= U32Limit
  {
    FieldLimits();
    assert Pow256(3) == 256 * Pow256(2);
  }

  /** The fields of a data record given as the hexadecimal text of an address and data. */
  lemma DataRecordOf(line: string, start: nat, end: nat, address: seq<byte>, data: seq<byte>, upper: bool)
    requires address != [] && FromBigEndian(address) < U32Limit
    requires 4 <= start <= end <= |line|
    requires line[4..start] == Hexlify(address, upper) && line[start..end] == Hexlify(data, upper)
    ensures DataRecord(line, start, end) == Success(Record(None, FromBigEndian(address), data))
  {
    var text, digits := Slice(line, 4, start), Slice(line, start, end);
    assert text == Hexlify(address, upper) && digits == Hexlify(data, upper);
    ParseHexOfHexlify(address, upper);
    UnhexlifyOfHexlify(data, upper);
    var value := FromBigEndian(address);
    assert ParseHex(text) == Some(value);
    assert Unhexlify(digits) == Some(data);
    assert Mask(value, U32Limit) == value;
  }

  /** An S0 line reads back as its name. */
  lemma ParseNameLine(count: byte, name: seq<byte>, checksum: byte, upper: bool)
    ensures ParseRecord(NameLine(count, name, checksum, upper)) == Success(Record(Some(name), 0, []))
  {
    var line := "S0" + Hexlify([count], upper) + "0000" + Hexlify(name, upper) + Hexlify([checksum], upper);
    HexlifyDigits([checksum], upper);
    LineFields("S0", Hexlify([count], upper), "0000", Hexlify(name, upper), Hexlify([checksum], upper));
    RStripLineBreak(line);
    ParseNameRecord(line, name, upper);
  }

  /** `S0`, then four characters, the text of a name and two more characters. */
  lemma ParseNameRecord(line: string, name: seq<byte>, upper: bool)
    requires |line| == 8 + 2 * |name| + 2 && line[..2] == "S0"
    requires line[8..|line| - 2] == Hexlify(name, upper)
    ensures RecordOf(line) == Success(Record(Some(name), 0, []))
  {
    assert Slice(line, 8, |line| - 2) == Hexlify(name, upper);
    UnhexlifyOfHexlify(name, upper);
    assert StartsWith(line, "S0");
  }

  // ---------------------------------------------------------------------------
  // What the `-s` mode writes.

  /** The file the `-s` mode writes reads back, through `parse`, as one target with the
      default alternate setting, the name of the last S0 line (padded to 255 bytes and
      read up to its first zero byte), and the emitted segments as its elements, each
      at a non-zero address; no error is reported. */
  lemma RecordsModeDecodes(lines: seq<string>, altOption: Option<string>, deviceOption: Option<string>)
    requires BuildFromRecords(lines, altOption, deviceOption).Success?
    ensures var alt := BinaryInputs.DefaultAlt(altOption).value;
            var st := Read(alt, lines).value;
            var report := Decode(BuildFromRecords(lines, altOption, deviceOption).value);
            && st.segments != []
            && report.Success?
            && |report.value.targets| == 1
            && report.value.targets[0].alt == alt
            && report.value.targets[0].name == CString(Pad(st.name, NameSize))
            && ElementsMatch(report.value.targets[0].images, st.segments)
            && (forall i :: 0 <= i < |st.segments| ==> st.segments[i].address != 0)
            && !report.value.crcError && !report.value.trailingError
  {
    var alt := BinaryInputs.DefaultAlt(altOption).value;
    var records := ParseRecords(lines).value;
    var st := Merge(alt, records);
    var device := BinaryInputs.Device(deviceOption).value;
    assert BuildFromRecords(lines, altOption, deviceOption) == Success(Encode([st.segments], st.name, device).value);
    SegmentsNonZero(alt, records);
    OneTargetDecodes(st.segments, alt, st.name, device);
  }

  /** A file of one target whose images all have alternate setting `alt` reads back as
      that target, which cannot be empty. */
  lemma OneTargetDecodes(images: seq<Image>, alt: int, name: seq<byte>, device: string)
    requires Encode([images], name, device).Success?
    requires forall i :: 0 <= i < |images| ==> images[i].alt == alt
    ensures var report := Decode(Encode([images], name, device).value);
            && images != []
            && report.Success?
            && |report.value.targets| == 1
            && report.value.targets[0].alt == alt
            && report.value.targets[0].name == CString(Pad(name, NameSize))
            && ElementsMatch(report.value.targets[0].images, images)
            && !report.value.crcError && !report.value.trailingError
  {
    if images == [] {
      EncodeUnboundAlt([images], name, device);
      assert false;
    }
    EncodeDecode([images], name, device);
    assert [images][..1] == [images];
    assert Flatten([images]) == images;
    assert images[|images| - 1].alt == alt;
  }

  /** A file of one data record and no terminator: its segment is never emitted, so the
      only target is empty and `build` stops on the unbound alternate setting. */
  lemma UnterminatedFile(count: byte, data: seq<byte>, checksum: byte, upper: bool)
    ensures BuildFromRecords([DataLine(1, count, 0x100, data, checksum, upper)], None, None)
            == Failure(BuildFailed(UnboundAlt))
  {
    FieldLimits();
    var lines := [DataLine(1, count, 0x100, data, checksum, upper)];
    ParseDataLine(1, count, 0x100, data, checksum, upper);
    assert lines[..0] == [];
    assert ParseRecords(lines[..0]) == Success([]);
    assert [] + [Record(None, 0x100, data)] == [Record(None, 0x100, data)];
    assert ParseRecords(lines) == Success([Record(None, 0x100, data)]);
    assert [Record(None, 0x100, data)][..0] == [];
    assert Merge(0, [Record(None, 0x100, data)]) == Step(0, Start, Record(None, 0x100, data));
    assert Read(0, lines) == Success(Reader(0x100, data, [], DefaultName));
    DefaultDeviceIds();
    EncodeUnboundAlt([[]], DefaultName, DefaultDevice);
  }
}
