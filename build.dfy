/**
 * `build` (source/dfuse-pack.py:111-137): the loops that append each image element
 * to its target's data and each target block to the file, proved to produce exactly
 * the bytes DfuFile.Encode specifies, or to stop with the same error.
 */
module DfuBuild {
  import opened Wrappers
  import opened Bytes
  import opened Crc
  import opened DfuFile

  /** The bytes `build` writes to its output file for these targets, name and device
      string, or the exception that stops it before anything is written. */
  method Build(targets: seq<seq<Image>>, name: seq<byte>, device: string) returns (r: Result<seq<byte>, BuildError>)
    ensures r == Encode(targets, name, device)
  {
    var data: seq<byte> := [];
    var ealt: Option<int> := None;
    PrependEmpty(EncodeTargets(targets, None, name));
    assert targets[0..] == targets;
    for t := 0 to |targets|
      invariant EncodeTargets(targets, None, name) == Prepend(data, EncodeTargets(targets[t..], ealt, name))
    {
      var target := targets[t];
      TargetStep(targets, t, ealt, name);
      var tdata;
      tdata, ealt := ElementData(target, ealt);
      if tdata.Failure? {
        return Failure(tdata.error);
      }
      if ealt.None? {
        return Failure(UnboundAlt);
      }
      var alt := ealt.value;
      if !(0 <= alt < 256 && |tdata.value| < U32Limit && |target| < U32Limit) {
        return Failure(FieldOutOfRange);
      }
      var header := TargetSignature + [alt] + U32(1) + Pad(name, NameSize) + U32(|tdata.value|) + U32(|target|);
      PrependPrepend(data, header + tdata.value, EncodeTargets(targets[t + 1..], ealt, name));
      data := data + (header + tdata.value);
    }
    assert targets[|targets|..] == [];
    assert data + [] == data;
    r := Finish(targets, name, device, data);
  }

  /** The inner loop of `build` over one target's images: the element data `tdata` it
      accumulates, and `ealt` as the last image leaves it. */
  method ElementData(target: seq<Image>, ealt: Option<int>) returns (tdata: Result<seq<byte>, BuildError>, alt: Option<int>)
    ensures tdata == EncodeElements(target)
    ensures tdata.Success? ==> alt == LastAlt(ealt, target)
  {
    var data: seq<byte> := [];
    alt := ealt;
    PrependEmpty(EncodeElements(target));
    assert target[0..] == target;
    for i := 0 to |target|
      invariant EncodeElements(target) == Prepend(data, EncodeElements(target[i..]))
      invariant alt == LastAlt(ealt, target[..i])
    {
      var image := target[i];
      ElementStep(target, i);
      if !(0 <= image.address < U32Limit && |image.data| < U32Limit) {
        return Failure(FieldOutOfRange), alt;
      }
      var element := U32(image.address) + U32(|image.data|) + image.data;
      PrependPrepend(data, element, EncodeElements(target[i + 1..]));
      data := data + element;
      alt := Some(image.alt);
      assert target[..i + 1][i] == image;
    }
    assert target[..|target|] == target;
    assert target[|target|..] == [];
    assert data + [] == data;
    return Success(data), alt;
  }

  /** What `build` does once every target block is in `data`: the prefix, the suffix
      and the checksum, or the error that the prefix fields or the device string raise. */
  method Finish(targets: seq<seq<Image>>, name: seq<byte>, device: string, blocks: seq<byte>)
    returns (r: Result<seq<byte>, BuildError>)
    requires EncodeTargets(targets, None, name) == Success(blocks)
    ensures r == Encode(targets, name, device)
  {
    var size := PrefixSize + |blocks| + SuffixSize;
    if size >= U32Limit || |targets| >= 256 {
      return Failure(FieldOutOfRange);
    }
    var ids := ParseDevice(device);
    if ids.None? {
      return Failure(InvalidDevice);
    }
    var (vendor, product) := ids.value;
    assert Encode(targets, name, device) == Success(Assemble(|targets|, blocks, vendor, product));
    var count: byte := |targets|;
    var data: seq<byte> := DfuSeSignature + [FormatVersion] + U32(size) + [count] + blocks;
    data := data + SuffixFields(vendor, product);
    assert data == DfuSeSignature + [FormatVersion] + U32(PrefixSize + |blocks| + SuffixSize) + [|targets|]
                   + blocks + SuffixFields(vendor, product);
    var crc: nat := ComputeCrc(data);
    data := data + U32(crc);
    return Success(data);
  }

  /** The element data from image `i` on: image `i`'s element, then the rest. */
  lemma ElementStep(target: seq<Image>, i: nat)
    requires i < |target|
    ensures var img := target[i];
            EncodeElements(target[i..])
            == if 0 <= img.address < U32Limit && |img.data| < U32Limit
               then Prepend(U32(img.address) + U32(|img.data|) + img.data, EncodeElements(target[i + 1..]))
               else Failure(FieldOutOfRange)
  {
    assert target[i..][1..] == target[i + 1..];
  }

  /** The blocks from target `t` on: target `t`'s block, then the rest. */
  lemma TargetStep(targets: seq<seq<Image>>, t: nat, ealt: Option<int>, name: seq<byte>)
    requires t < |targets|
    ensures var target := targets[t];
            var alt := LastAlt(ealt, target);
            var body := EncodeElements(target);
            var header := if body.Success? then TargetHeader(alt, name, |body.value|, |target|) else Failure(body.error);
            EncodeTargets(targets[t..], ealt, name)
            == if header.Failure? then Failure(header.error)
               else Prepend(header.value + body.value, EncodeTargets(targets[t + 1..], alt, name))
  {
    assert targets[t..][1..] == targets[t + 1..];
  }

  lemma PrependEmpty<E>(r: Result<seq<byte>, E>)
    ensures Prepend([], r) == r
  {
    if r.Success? {
      assert [] + r.value == r.value;
    }
  }

  lemma PrependPrepend<E>(a: seq<byte>, b: seq<byte>, r: Result<seq<byte>, E>)
    ensures Prepend(a, Prepend(b, r)) == Prepend(a + b, r)
  {
    if r.Success? {
      AppendAssoc(a, b, r.value);
    }
  }
}
