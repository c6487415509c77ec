/**
 * What `parse` makes of a file `build` wrote (source/dfuse-pack.py:41-89 against
 * 111-137), the exact layout of that file, and what `parse`'s two "PARSE ERROR"
 * reports mean for any file.
 */
module DfuRoundTrip {
  import opened Wrappers
  import opened Bytes
  import opened Crc
  import opened DfuFile

  /** The elements `parse` reports are the images, in order, each with its address,
      its length as size and its data as image. */
  predicate ElementsMatch(infos: seq<ElementInfo>, target: seq<Image>)
  {
    && |infos| == |target|
    && forall j :: 0 <= j < |target| ==>
         && infos[j].address == target[j].address
         && infos[j].size == |target[j].data|
         && infos[j].image == target[j].data
  }

  /** The target prefix `parse` reports for a target `build` wrote with alternate setting `alt`. */
  predicate TargetMatches(info: TargetInfo, target: seq<Image>, alt: Option<int>, name: seq<byte>)
  {
    && alt.Some?
    && info.signature == TargetSignature
    && info.alt == alt.value
    && info.named == 1
    && info.name == CString(Pad(name, NameSize))
    && info.size == BodyLength(target)
    && info.elements == |target|
    && ElementsMatch(info.images, target)
    && !info.parseError
  }

  lemma LastAltAppend(ealt: Option<int>, a: seq<Image>, b: seq<Image>)
    ensures LastAlt(ealt, a + b) == LastAlt(LastAlt(ealt, a), b)
  {
    if b != [] {
      assert (a + b)[|a + b| - 1] == b[|b| - 1];
    }
  }

  lemma {:induction false} DecodeEncodedElements(target: seq<Image>, tail: seq<byte>)
    requires EncodeElements(target).Success?
    ensures var r := DecodeElements(EncodeElements(target).value + tail, |target|);
            r.Success? && r.value.1 == tail && ElementsMatch(r.value.0, target)
  {
    if target != [] {
      var img := target[0];
      var more := EncodeElements(target[1..]).value;
      assert EncodeElements(target).value == EncodeElement(img).value + more;
      var b := U32(img.address) + U32(|img.data|) + img.data + (more + tail);
      assert EncodeElements(target).value + tail == b;
      ElementLayout(img.address, img.data, more + tail);
      DecodeEncodedElements(target[1..], tail);
      DecodeElementsStep(b, |target|);
      var infos := DecodeElements(b, |target|).value.0;
      assert infos[1..] == DecodeElements(more + tail, |target| - 1).value.0;
    }
  }

  /** Where the address, the size and the image of an element header lie. */
  lemma ElementLayout(address: nat, data: seq<byte>, rest: seq<byte>)
    requires address < U32Limit && |data| < U32Limit
    ensures var b := U32(address) + U32(|data|) + data + rest;
            && |b| >= ElementHeaderSize
            && b[..4] == U32(address) && b[4..8] == U32(|data|)
            && b[ElementHeaderSize..][..|data|] == data && b[ElementHeaderSize..][|data|..] == rest
  {
    var b := U32(address) + U32(|data|) + data + rest;
    assert b[ElementHeaderSize..] == data + rest;
  }

  /** Reading `count` elements whose first one fits: that one, then `count - 1` from where it ends. */
  lemma DecodeElementsStep(b: seq<byte>, count: nat)
    requires count > 0 && |b| >= ElementHeaderSize
    requires FromLittleEndian(b[4..8]) <= |b| - ElementHeaderSize
    requires DecodeElements(b[ElementHeaderSize..][FromLittleEndian(b[4..8])..], count - 1).Success?
    ensures var size := FromLittleEndian(b[4..8]);
            var rest := b[ElementHeaderSize..];
            var more := DecodeElements(rest[size..], count - 1).value;
            DecodeElements(b, count)
            == Success(([ElementInfo(FromLittleEndian(b[..4]), size, rest[..size])] + more.0, more.1))
  {
    var size := FromLittleEndian(b[4..8]);
    var rest := b[ElementHeaderSize..];
    assert Slice(rest, 0, size) == rest[..size];
  }

  /** `parse` on a target prefix whose declared size fits in what follows it. */
  lemma DecodeTargetAt(d: seq<byte>)
    requires |d| >= TargetPrefixSize
    requires FromLittleEndian(d[266..270]) <= |d| - TargetPrefixSize
    requires DecodeElements(d[TargetPrefixSize..][..FromLittleEndian(d[266..270])],
                            FromLittleEndian(d[270..274])).Success?
    ensures var size := FromLittleEndian(d[266..270]);
            var rest := d[TargetPrefixSize..];
            var read := DecodeElements(rest[..size], FromLittleEndian(d[270..274])).value;
            var n := FromLittleEndian(d[7..11]);
            DecodeTarget(d)
            == Success((TargetInfo(d[..6], d[6], n, if n != 0 then CString(d[11..266]) else [], size,
                                   FromLittleEndian(d[270..274]), read.0, |read.1| > 0), rest[size..]))
  {
    var size := FromLittleEndian(d[266..270]);
    var rest := d[TargetPrefixSize..];
    assert Slice(rest, 0, size) == rest[..size];
  }

  /** Where each field of a target prefix and what follows it lies. */
  lemma TargetLayout(signature: seq<byte>, alt: byte, named: seq<byte>, rawName: seq<byte>,
                     size: seq<byte>, count: seq<byte>, body: seq<byte>, tail: seq<byte>)
    requires |signature| == 6 && |named| == 4 && |rawName| == NameSize && |size| == 4 && |count| == 4
    ensures var d := signature + [alt] + named + rawName + size + count + body + tail;
            && |d| == TargetPrefixSize + |body| + |tail|
            && d[..6] == signature && d[6] == alt && d[7..11] == named && d[11..266] == rawName
            && d[266..270] == size && d[270..274] == count
            && d[TargetPrefixSize..][..|body|] == body && d[TargetPrefixSize..][|body|..] == tail
  {
    var d := signature + [alt] + named + rawName + size + count + (body + tail);
    assert signature + [alt] + named + rawName + size + count + body + tail == d;
    Fields6(signature, [alt], named, rawName, size, count, body + tail);
    var rest := d[TargetPrefixSize..];
    assert rest == body + tail;
  }

  /** `parse` on a target prefix with the given fields, followed by exactly `size` bytes of elements. */
  lemma DecodeTargetOf(signature: seq<byte>, alt: byte, named: seq<byte>, rawName: seq<byte>,
                       size: seq<byte>, count: seq<byte>, body: seq<byte>, tail: seq<byte>)
    requires |signature| == 6 && |named| == 4 && |rawName| == NameSize && |size| == 4 && |count| == 4
    requires FromLittleEndian(size) == |body|
    requires DecodeElements(body, FromLittleEndian(count)).Success?
    ensures var header := signature + [alt] + named + rawName + size + count;
            var elements := DecodeElements(body, FromLittleEndian(count)).value;
            var n := FromLittleEndian(named);
            DecodeTarget(header + body + tail)
            == Success((TargetInfo(signature, alt, n, if n != 0 then CString(rawName) else [], |body|,
                                   FromLittleEndian(count), elements.0, |elements.1| > 0), tail))
  {
    var d := signature + [alt] + named + rawName + size + count + body + tail;
    TargetLayout(signature, alt, named, rawName, size, count, body, tail);
    DecodeTargetAt(d);
  }

  lemma DecodeEncodedTarget(target: seq<Image>, alt: int, name: seq<byte>, tail: seq<byte>)
    requires EncodeElements(target).Success?
    requires TargetHeader(Some(alt), name, |EncodeElements(target).value|, |target|).Success?
    ensures var body := EncodeElements(target).value;
            var header := TargetHeader(Some(alt), name, |body|, |target|).value;
            var r := DecodeTarget(header + body + tail);
            r.Success? && r.value.1 == tail && TargetMatches(r.value.0, target, Some(alt), name)
  {
    var body := EncodeElements(target).value;
    DecodeEncodedElements(target, []);
    assert body + [] == body;
    DecodeTargetOf(TargetSignature, alt, U32(1), Pad(name, NameSize), U32(|body|), U32(|target|), body, tail);
  }

  /** The blocks of a non-empty list of targets: the first one's header and elements, then the others'. */
  lemma EncodeTargetsStep(targets: seq<seq<Image>>, ealt: Option<int>, name: seq<byte>)
    requires targets != [] && EncodeTargets(targets, ealt, name).Success?
    ensures var alt := LastAlt(ealt, targets[0]);
            && EncodeElements(targets[0]).Success?
            && TargetHeader(alt, name, |EncodeElements(targets[0]).value|, |targets[0]|).Success?
            && EncodeTargets(targets[1..], alt, name).Success?
            && EncodeTargets(targets, ealt, name).value
               == TargetHeader(alt, name, |EncodeElements(targets[0]).value|, |targets[0]|).value
                  + EncodeElements(targets[0]).value + EncodeTargets(targets[1..], alt, name).value
  {
  }

  /** Reading `count` targets: the first one, then `count - 1` from where it ends. */
  lemma DecodeTargetsStep(data: seq<byte>, count: nat)
    requires count > 0 && DecodeTarget(data).Success?
    requires DecodeTargets(DecodeTarget(data).value.1, count - 1).Success?
    ensures var first := DecodeTarget(data).value;
            var more := DecodeTargets(first.1, count - 1).value;
            DecodeTargets(data, count) == Success(([first.0] + more.0, more.1))
  {
  }

  lemma {:induction false} DecodeEncodedTargets(targets: seq<seq<Image>>, ealt: Option<int>, name: seq<byte>,
                                               tail: seq<byte>)
    requires EncodeTargets(targets, ealt, name).Success?
    ensures var r := DecodeTargets(EncodeTargets(targets, ealt, name).value + tail, |targets|);
            && r.Success? && r.value.1 == tail
            && forall i :: 0 <= i < |targets| ==>
                 TargetMatches(r.value.0[i], targets[i], LastAlt(ealt, Flatten(targets[..i + 1])), name)
  {
    if targets != [] {
      EncodeTargetsStep(targets, ealt, name);
      var body := EncodeElements(targets[0]).value;
      var alt := LastAlt(ealt, targets[0]);
      var header := TargetHeader(alt, name, |body|, |targets[0]|).value;
      var more := EncodeTargets(targets[1..], alt, name).value;
      var data := EncodeTargets(targets, ealt, name).value + tail;
      AppendAssoc(header + body, more, tail);
      assert alt == Some(alt.value);
      DecodeEncodedTarget(targets[0], alt.value, name, more + tail);
      var first := DecodeTarget(data).value;
      assert first.1 == more + tail;
      DecodeEncodedTargets(targets[1..], alt, name, tail);
      assert |targets[1..]| == |targets| - 1;
      assert DecodeTarget(data).Success?;
      assert DecodeTargets(more + tail, |targets| - 1).Success?;
      DecodeTargetsStep(data, |targets|);
      var rest := DecodeTargets(more + tail, |targets| - 1).value;
      ShiftMatches(rest.0, first.0, targets, ealt, name);
    }
  }

  /** The matches of the first target and of the others, read as matches of all targets. */
  lemma ShiftMatches(infos: seq<TargetInfo>, first: TargetInfo, targets: seq<seq<Image>>, ealt: Option<int>,
                     name: seq<byte>)
    requires |targets| > 0 && |infos| == |targets| - 1
    requires TargetMatches(first, targets[0], LastAlt(ealt, targets[0]), name)
    requires forall i :: 0 <= i < |infos| ==>
               TargetMatches(infos[i], targets[1..][i], LastAlt(LastAlt(ealt, targets[0]), Flatten(targets[1..][..i + 1])), name)
    ensures forall i :: 0 <= i < |targets| ==>
              TargetMatches(([first] + infos)[i], targets[i], LastAlt(ealt, Flatten(targets[..i + 1])), name)
  {
    forall i | 0 <= i < |targets|
      ensures TargetMatches(([first] + infos)[i], targets[i], LastAlt(ealt, Flatten(targets[..i + 1])), name)
    {
      assert targets[..i + 1] == [targets[0]] + targets[1..][..i];
      assert Flatten(targets[..i + 1]) == targets[0] + Flatten(targets[1..][..i]);
      LastAltAppend(ealt, targets[0], Flatten(targets[1..][..i]));
      if i == 0 {
        assert targets[1..][..0] == [];
      } else {
        assert ([first] + infos)[i] == infos[i - 1] && targets[i] == targets[1..][i - 1];
        assert targets[1..][..i] == targets[1..][..i - 1 + 1];
      }
    }
  }

  /** Reading back a file `build` wrote recovers the target count, each target's alternate
      setting (that of its last image, or the previous target's when it has none), size
      and element count, the padded name up to its first zero byte, each element's
      address and data in order, and the device ids; it reports neither "CRC ERROR" nor
      any "PARSE ERROR". */
  lemma EncodeDecode(targets: seq<seq<Image>>, name: seq<byte>, device: string)
    requires Encode(targets, name, device).Success?
    ensures var out := Encode(targets, name, device).value;
            var ids := ParseDevice(device).value;
            && Decode(out).Success?
            && var report := Decode(out).value;
            && report.prefix == DfuPrefix(DfuSeSignature, FormatVersion, |out|, |targets|)
            && |report.targets| == |targets|
            && (forall i :: 0 <= i < |targets| ==>
                  TargetMatches(report.targets[i], targets[i], LastAlt(None, Flatten(targets[..i + 1])), name))
            && report.suffix == DfuSuffix(0, ids.1, ids.0, DfuVersion, UfdSignature, SuffixSize as byte,
                                          ComputeCrc(out[..|out| - 4]))
            && report.computedCrc == ComputeCrc(out[..|out| - 4])
            && !report.crcError
            && !report.trailingError
  {
    var out := Encode(targets, name, device).value;
    var blocks := EncodeTargets(targets, None, name).value;
    var ids := ParseDevice(device).value;
    assert out == Assemble(|targets|, blocks, ids.0, ids.1);
    AssembleLayout(|targets|, blocks, ids.0, ids.1);
    var crc := ComputeCrc(out[..|out| - 4]);
    var suffix := out[|out| - SuffixSize..];
    DecodeEncodedTargets(targets, None, name, suffix);
    SuffixOf(ids.0, ids.1, crc);
    var prefix := DecodePrefix(out).value;
    assert prefix.1 == blocks + suffix;
    assert prefix.0 == DfuPrefix(DfuSeSignature, FormatVersion, |out|, |targets|);
  }

  /** Where the prefix fields, the target blocks, the suffix and the checksum lie in a file. */
  lemma AssembleLayout(count: nat, blocks: seq<byte>, vendor: nat, product: nat)
    requires count < 256 && PrefixSize + |blocks| + SuffixSize < U32Limit
    requires vendor < U16Limit && product < U16Limit
    ensures var out := Assemble(count, blocks, vendor, product);
            var total := PrefixSize + |blocks| + SuffixSize;
            && out[..5] == DfuSeSignature && out[5] == FormatVersion && out[6..10] == U32(total) && out[10] == count
            && out[..|out| - 4] == DfuSeSignature + [FormatVersion] + U32(total) + [count] + blocks
                                   + SuffixFields(vendor, product)
            && out[|out| - SuffixSize..] == SuffixFields(vendor, product) + U32(ComputeCrc(out[..|out| - 4]))
            && out[PrefixSize..] == blocks + out[|out| - SuffixSize..]
  {
    var total := PrefixSize + |blocks| + SuffixSize;
    var fields := SuffixFields(vendor, product);
    var body := DfuSeSignature + [FormatVersion] + U32(total) + [count] + blocks + fields;
    var crc := U32(ComputeCrc(body));
    assert Assemble(count, blocks, vendor, product) == body + crc;
    Layout7(DfuSeSignature, [FormatVersion], U32(total), [count], blocks, fields, crc);
  }

  /** The layout of a file made of the given prefix fields, blocks, suffix fields and checksum. */
  lemma Layout7(signature: seq<byte>, version: seq<byte>, total: seq<byte>, count: seq<byte>,
                blocks: seq<byte>, fields: seq<byte>, crc: seq<byte>)
    requires |signature| == 5 && |version| == 1 && |total| == 4 && |count| == 1 && |fields| == 12 && |crc| == 4
    ensures var out := signature + version + total + count + blocks + fields + crc;
            && out[..5] == signature && out[5] == version[0] && out[6..10] == total && out[10] == count[0]
            && out[..|out| - 4] == signature + version + total + count + blocks + fields
            && out[|out| - SuffixSize..] == fields + crc
            && out[PrefixSize..] == blocks + out[|out| - SuffixSize..]
  {
    var out := signature + version + total + count + blocks + fields + crc;
    Fields6(signature, version, total, count, blocks, fields, crc);
    assert out[PrefixSize..] == blocks + (fields + crc);
  }

  /** The suffix `build` writes reads back as its own fields. */
  lemma SuffixOf(vendor: nat, product: nat, crc: nat)
    requires vendor < U16Limit && product < U16Limit && crc < U32Limit
    ensures DecodeSuffix(SuffixFields(vendor, product) + U32(crc))
            == DfuSuffix(0, product, vendor, DfuVersion, UfdSignature, SuffixSize as byte, crc)
  {
    var s := SuffixFields(vendor, product) + U32(crc);
    Fields6(U16(0), U16(product), U16(vendor), U16(DfuVersion), UfdSignature, [SuffixSize], U32(crc));
    assert s[12..16] == s[12..] == U32(crc);
    assert s[11] == s[11..12][0] == SuffixSize;
  }

  /** The layout of every file `build` writes: "DfuSe", version 1, the file's own length
      as a little-endian u32, the number of targets; and at the end bcdDevice 0, the
      product and vendor ids, bcdDFU 0x011A, "UFD", bLength 16 and the checksum of every
      byte before it. */
  lemma EncodeLayout(targets: seq<seq<Image>>, name: seq<byte>, device: string)
    requires Encode(targets, name, device).Success?
    ensures var out := Encode(targets, name, device).value;
            var ids := ParseDevice(device).value;
            && |out| >= PrefixSize + SuffixSize
            && out[..5] == DfuSeSignature && out[5] == FormatVersion
            && FromLittleEndian(out[6..10]) == |out| && out[10] == |targets|
            && out[|out| - 16..|out| - 4] == U16(0) + U16(ids.1) + U16(ids.0) + U16(DfuVersion) + UfdSignature + [16]
            && FromLittleEndian(out[|out| - 4..]) == ComputeCrc(out[..|out| - 4])
  {
    var out := Encode(targets, name, device).value;
    var blocks := EncodeTargets(targets, None, name).value;
    var ids := ParseDevice(device).value;
    assert out == Assemble(|targets|, blocks, ids.0, ids.1);
    AssembleLayout(|targets|, blocks, ids.0, ids.1);
    var suffix := out[|out| - SuffixSize..];
    assert out[|out| - 16..|out| - 4] == suffix[..12];
    assert out[|out| - 4..] == suffix[12..];
  }

  /** `checkbin` would refuse every file `build` writes as already carrying a DFU suffix. */
  lemma CheckBinFlagsEncoded(targets: seq<seq<Image>>, name: seq<byte>, device: string)
    requires Encode(targets, name, device).Success?
    ensures CheckBin(Encode(targets, name, device).value)
  {
    var out := Encode(targets, name, device).value;
    EncodeLayout(targets, name, device);
    assert out[|out| - 8..|out| - 5] == out[|out| - 16..|out| - 4][8..11];
  }

  /** `build` stops with the NameError on `ealt` exactly when its first target has no image:
      every later empty target takes the alternate setting of the one before it. */
  lemma EncodeUnboundAlt(targets: seq<seq<Image>>, name: seq<byte>, device: string)
    ensures Encode(targets, name, device) == Failure(UnboundAlt) <==> |targets| > 0 && targets[0] == []
  {
    if |targets| > 0 && targets[0] == [] {
      assert EncodeElements(targets[0]) == Success([]);
    }
    EncodeTargetsUnbound(targets, None, name);
  }

  lemma {:induction false} EncodeTargetsUnbound(targets: seq<seq<Image>>, ealt: Option<int>, name: seq<byte>)
    ensures EncodeTargets(targets, ealt, name) == Failure(UnboundAlt) <==> ealt.None? && |targets| > 0 && targets[0] == []
  {
    if targets != [] {
      var alt := LastAlt(ealt, targets[0]);
      EncodeElementsNeverUnbound(targets[0]);
      EncodeTargetsUnbound(targets[1..], alt, name);
    }
  }

  lemma {:induction false} EncodeElementsNeverUnbound(target: seq<Image>)
    ensures EncodeElements(target) != Failure(UnboundAlt)
  {
    if target != [] {
      EncodeElementsNeverUnbound(target[1..]);
    }
  }

  // ---------------------------------------------------------------------------
  // The two "PARSE ERROR" reports of `parse`, for any file.

  /** Bytes the elements were given: each header and the image bytes actually taken. */
  function ReadLength(infos: seq<ElementInfo>): nat
  {
    if infos == [] then 0 else ElementHeaderSize + |infos[0].image| + ReadLength(infos[1..])
  }

  /** Bytes the element headers claim: each header and its declared size. */
  function DeclaredLength(infos: seq<ElementInfo>): nat
  {
    if infos == [] then 0 else ElementHeaderSize + infos[0].size + DeclaredLength(infos[1..])
  }

  /** Bytes the target prefixes claim: each prefix and its declared size. */
  function TargetsLength(targets: seq<TargetInfo>): nat
  {
    if targets == [] then 0 else TargetPrefixSize + targets[0].size + TargetsLength(targets[1..])
  }

  /** Reading elements consumes the target's bytes exactly; an image is cut short only
      when the target ends inside it, and then it is the last one and nothing is left. */
  lemma {:induction false} DecodeElementsConsumes(target: seq<byte>, count: nat)
    requires DecodeElements(target, count).Success?
    ensures var r := DecodeElements(target, count).value;
            && |target| == ReadLength(r.0) + |r.1|
            && (forall j :: 0 <= j < |r.0| ==> |r.0[j].image| <= r.0[j].size)
            && (forall j :: 0 <= j < |r.0| && |r.0[j].image| < r.0[j].size ==> j == |r.0| - 1 && r.1 == [])
  {
    if count > 0 {
      var size := FromLittleEndian(target[4..8]);
      var rest := target[ElementHeaderSize..];
      var image := Slice(rest, 0, size);
      var more := DecodeElements(rest[|image|..], count - 1).value;
      var infos := [ElementInfo(FromLittleEndian(target[..4]), size, image)] + more.0;
      assert DecodeElements(target, count).value == (infos, more.1);
      DecodeElementsConsumes(rest[|image|..], count - 1);
      assert infos[1..] == more.0;
      forall j | 0 <= j < |infos| && |infos[j].image| < infos[j].size
        ensures j == |infos| - 1 && more.1 == []
      {
        if j == 0 {
          assert rest[|image|..] == [];
        } else {
          assert infos[j] == more.0[j - 1];
        }
      }
    }
  }

  /** Given its full size, a target is reported with a parse error exactly when the
      sizes its element headers declare add up to less than the target's size: an
      element claiming more bytes than remain is cut short without any report. */
  lemma ParseErrorOfTarget(target: seq<byte>, count: nat)
    requires DecodeElements(target, count).Success?
    ensures var r := DecodeElements(target, count).value;
            |r.1| > 0 <==> DeclaredLength(r.0) < |target|
  {
    DecodeElementsConsumes(target, count);
    var r := DecodeElements(target, count).value;
    if forall j :: 0 <= j < |r.0| ==> |r.0[j].image| == r.0[j].size {
      SameLengthWhenWhole(r.0);
    } else {
      var j :| 0 <= j < |r.0| && |r.0[j].image| != r.0[j].size;
      LongerWhenCut(r.0, j);
    }
  }

  lemma {:induction false} SameLengthWhenWhole(infos: seq<ElementInfo>)
    requires forall j :: 0 <= j < |infos| ==> |infos[j].image| == infos[j].size
    ensures DeclaredLength(infos) == ReadLength(infos)
  {
    if infos != [] {
      SameLengthWhenWhole(infos[1..]);
    }
  }

  lemma {:induction false} LongerWhenCut(infos: seq<ElementInfo>, k: nat)
    requires k < |infos| && |infos[k].image| < infos[k].size
    requires forall j :: 0 <= j < |infos| ==> |infos[j].image| <= infos[j].size
    ensures DeclaredLength(infos) > ReadLength(infos)
  {
    if k > 0 {
      LongerWhenCut(infos[1..], k - 1);
    } else {
      NotShorter(infos[1..]);
    }
  }

  lemma {:induction false} NotShorter(infos: seq<ElementInfo>)
    requires forall j :: 0 <= j < |infos| ==> |infos[j].image| <= infos[j].size
    ensures DeclaredLength(infos) >= ReadLength(infos)
  {
    if infos != [] {
      NotShorter(infos[1..]);
    }
  }

  /** Reading a target takes its whole prefix and then some bytes from the front of
      what follows it, and hands back the rest unchanged. */
  lemma DecodeTargetRest(data: seq<byte>)
    requires DecodeTarget(data).Success?
    ensures TargetPrefixSize + |DecodeTarget(data).value.1| <= |data|
    ensures DecodeTarget(data).value.1 == data[|data| - |DecodeTarget(data).value.1|..]
  {
    var rest := data[TargetPrefixSize..];
    var target := Slice(rest, 0, FromLittleEndian(data[266..270]));
    assert rest[|target|..] == data[TargetPrefixSize + |target|..];
  }

  /** A target followed by more bytes got all the bytes it declared. */
  lemma DecodeTargetConsumes(data: seq<byte>)
    requires DecodeTarget(data).Success? && DecodeTarget(data).value.1 != []
    ensures |data| == TargetPrefixSize + DecodeTarget(data).value.0.size + |DecodeTarget(data).value.1|
    ensures DecodeTarget(data).value.0.parseError
            <==> DeclaredLength(DecodeTarget(data).value.0.images) < DecodeTarget(data).value.0.size
  {
    var rest := data[TargetPrefixSize..];
    var size := FromLittleEndian(data[266..270]);
    var target := Slice(rest, 0, size);
    assert |target| == size;
    ParseErrorOfTarget(target, FromLittleEndian(data[270..274]));
  }

  /** When bytes remain after the targets, every target got all the bytes it declared,
      and its "PARSE ERROR" means its elements declare fewer bytes than it. */
  lemma DecodeTargetsConsumes(data: seq<byte>, count: nat)
    requires DecodeTargets(data, count).Success? && DecodeTargets(data, count).value.1 != []
    ensures var r := DecodeTargets(data, count).value;
            && |data| == TargetsLength(r.0) + |r.1|
            && forall i :: 0 <= i < |r.0| ==> (r.0[i].parseError <==> DeclaredLength(r.0[i].images) < r.0[i].size)
  {
    DecodeTargetsLength(data, count);
    DecodeTargetsErrors(data, count);
    assert ParseErrorsMean(DecodeTargets(data, count).value.0);
  }

  /** A read of `count > 0` targets followed by more bytes: the first target, which
      got all the bytes it declared, then `count - 1` targets read from where it ends. */
  lemma DecodeTargetsSplit(data: seq<byte>, count: nat) returns (info: TargetInfo, rest: seq<byte>)
    requires count > 0 && DecodeTargets(data, count).Success? && DecodeTargets(data, count).value.1 != []
    ensures DecodeTargets(rest, count - 1).Success?
    ensures DecodeTargets(rest, count - 1).value.1 == DecodeTargets(data, count).value.1
    ensures DecodeTargets(data, count).value.0 == [info] + DecodeTargets(rest, count - 1).value.0
    ensures |data| == TargetPrefixSize + info.size + |rest|
    ensures info.parseError <==> DeclaredLength(info.images) < info.size
  {
    var first := DecodeTarget(data).value;
    info, rest := first.0, first.1;
    assert DecodeTargets(data, count).value.1 == DecodeTargets(rest, count - 1).value.1;
    DecodeTargetConsumes(data);
  }

  lemma {:induction false} DecodeTargetsLength(data: seq<byte>, count: nat)
    requires DecodeTargets(data, count).Success? && DecodeTargets(data, count).value.1 != []
    ensures |data| == TargetsLength(DecodeTargets(data, count).value.0) + |DecodeTargets(data, count).value.1|
    decreases count
  {
    if count > 0 {
      var info, rest := DecodeTargetsSplit(data, count);
      var more := DecodeTargets(rest, count - 1).value;
      DecodeTargetsLength(rest, count - 1);
      var infos := [info] + more.0;
      assert infos[1..] == more.0;
      assert TargetsLength(infos) == TargetPrefixSize + info.size + TargetsLength(more.0);
    }
  }

  /** Each target's "PARSE ERROR" is reported exactly when its elements declare fewer
      bytes than the target's size. */
  predicate ParseErrorsMean(infos: seq<TargetInfo>)
  {
    forall i :: 0 <= i < |infos| ==> (infos[i].parseError <==> DeclaredLength(infos[i].images) < infos[i].size)
  }

  lemma ParseErrorsMeanCons(info: TargetInfo, others: seq<TargetInfo>)
    requires info.parseError <==> DeclaredLength(info.images) < info.size
    requires ParseErrorsMean(others)
    ensures ParseErrorsMean([info] + others)
  {
    var infos := [info] + others;
    forall i | 0 <= i < |infos|
      ensures infos[i].parseError <==> DeclaredLength(infos[i].images) < infos[i].size
    {
      if i > 0 {
        assert infos[i] == others[i - 1];
      }
    }
  }

  lemma {:induction false} DecodeTargetsErrors(data: seq<byte>, count: nat)
    requires DecodeTargets(data, count).Success? && DecodeTargets(data, count).value.1 != []
    ensures ParseErrorsMean(DecodeTargets(data, count).value.0)
    decreases count
  {
    if count > 0 {
      var info, rest := DecodeTargetsSplit(data, count);
      DecodeTargetsErrors(rest, count - 1);
      ParseErrorsMeanCons(info, DecodeTargets(rest, count - 1).value.0);
    }
  }

  /** For a file `parse` reads to the end: the final "PARSE ERROR" is reported exactly
      when the file is longer than its prefix, its targets as declared and the suffix;
      and a target's "PARSE ERROR" exactly when its element headers declare fewer bytes
      than the target's size. */
  lemma ParseErrors(file: seq<byte>)
    requires Decode(file).Success?
    ensures var report := Decode(file).value;
            && (report.trailingError <==> |file| > PrefixSize + TargetsLength(report.targets) + SuffixSize)
            && |file| >= PrefixSize + TargetsLength(report.targets) + SuffixSize
            && forall i :: 0 <= i < |report.targets| ==>
                 (report.targets[i].parseError <==> DeclaredLength(report.targets[i].images) < report.targets[i].size)
  {
    var prefix := DecodePrefix(file).value;
    DecodeTargetsConsumes(prefix.1, prefix.0.targets);
  }
}
