/**
 * `parse` (source/dfuse-pack.py:41-89): the loops that consume the target prefixes
 * and the element headers of a DfuSe file one after the other, proved to report
 * exactly what DfuFile.Decode specifies, or to stop with the same struct.error.
 */
module DfuParse {
  import opened Wrappers
  import opened Bytes
  import opened Crc
  import opened DfuFile

  /** Items already read, in front of those a successful read of the remaining input yields. */
  function PrependItems<T>(items: seq<T>, r: Result<(seq<T>, seq<byte>), ParseError>): Result<(seq<T>, seq<byte>), ParseError>
  {
    match r
    case Success((more, rest)) => Success((items + more, rest))
    case Failure(e) => Failure(e)
  }

  /** Everything `parse` reports about a file, or the struct.error that stops it. */
  method Parse(file: seq<byte>) returns (r: Result<Report, ParseError>)
    ensures r == Decode(file)
  {
    var crc := ComputeCrc(DropLast(file, 4));
    if |file| < PrefixSize {
      return Failure(Truncated);
    }
    var prefix := DfuPrefix(file[..5], file[5], FromLittleEndian(file[6..10]), file[10]);
    var data := file[PrefixSize..];
    var targets: seq<TargetInfo> := [];
    ghost var count: nat := file[10];
    PrependNothing(DecodeTargets(data, count));
    ghost var left: nat := count;
    for t := 0 to prefix.targets
      invariant left == count - t
      invariant DecodeTargets(file[PrefixSize..], count) == PrependItems(targets, DecodeTargets(data, left))
    {
      ghost var next: nat := left - 1;
      TargetsStep(data, left, next);
      if |data| < TargetPrefixSize {
        return Failure(Truncated);
      }
      var named := FromLittleEndian(data[7..11]);
      var size := FromLittleEndian(data[266..270]);
      var elements := FromLittleEndian(data[270..274]);
      var name := if named != 0 then CString(data[11..266]) else [];
      var signature, alt := data[..6], data[6];
      data := data[TargetPrefixSize..];
      var target := Slice(data, 0, size);
      data := data[|target|..];
      var read := ReadElements(target, elements);
      if read.Failure? {
        return Failure(read.error);
      }
      var info := TargetInfo(signature, alt, named, name, size, elements, read.value.0, |read.value.1| > 0);
      PrependItemsTwice(targets, [info], DecodeTargets(data, next));
      targets := targets + [info];
      left := next;
    }
    assert targets + [] == targets;
    DecodeOf(file, targets, data);
    if |data| < SuffixSize {
      return Failure(Truncated);
    }
    var suffix := DecodeSuffix(data);
    return Success(Report(crc, prefix, targets, suffix, crc != suffix.crc, |data| > SuffixSize));
  }

  /** The loop of `parse` over one target's elements: the elements it reports and the
      bytes of the target left over after the last one. */
  method ReadElements(target: seq<byte>, count: nat) returns (r: Result<(seq<ElementInfo>, seq<byte>), ParseError>)
    ensures r == DecodeElements(target, count)
  {
    var rest := target;
    var infos: seq<ElementInfo> := [];
    ghost var left := count;
    PrependNothing(DecodeElements(target, count));
    for e := 0 to count
      invariant left == count - e
      invariant DecodeElements(target, count) == PrependItems(infos, DecodeElements(rest, left))
    {
      ghost var next: nat := left - 1;
      ElementsStep(rest, left, next);
      if |rest| < ElementHeaderSize {
        return Failure(Truncated);
      }
      var address := FromLittleEndian(rest[..4]);
      var size := FromLittleEndian(rest[4..8]);
      rest := rest[ElementHeaderSize..];
      var image := Slice(rest, 0, size);
      rest := rest[|image|..];
      PrependItemsTwice(infos, [ElementInfo(address, size, image)], DecodeElements(rest, next));
      infos := infos + [ElementInfo(address, size, image)];
      left := next;
    }
    assert infos + [] == infos;
    return Success((infos, rest));
  }

  /** The targets from the current position on: the one there, then the others. */
  lemma TargetsStep(data: seq<byte>, count: nat, next: nat)
    requires count == next + 1
    ensures DecodeTargets(data, count)
            == if |data| < TargetPrefixSize then Failure(Truncated)
               else
                 var named := FromLittleEndian(data[7..11]);
                 var size := FromLittleEndian(data[266..270]);
                 var elements := FromLittleEndian(data[270..274]);
                 var target := Slice(data[TargetPrefixSize..], 0, size);
                 var read := DecodeElements(target, elements);
                 if read.Failure? then Failure(read.error)
                 else
                   var name := if named != 0 then CString(data[11..266]) else [];
                   var info := TargetInfo(data[..6], data[6], named, name, size, elements, read.value.0, |read.value.1| > 0);
                   PrependItems([info], DecodeTargets(data[TargetPrefixSize..][|target|..], next))
  {
    if |data| >= TargetPrefixSize {
      var size := FromLittleEndian(data[266..270]);
      var target := Slice(data[TargetPrefixSize..], 0, size);
      var read := DecodeElements(target, FromLittleEndian(data[270..274]));
      if read.Success? {
        var first := DecodeTarget(data).value;
        assert first.1 == data[TargetPrefixSize..][|target|..];
      }
    }
  }

  /** A file whose prefix and targets were read: the suffix, or struct.error when fewer than 16 bytes remain. */
  lemma DecodeOf(file: seq<byte>, targets: seq<TargetInfo>, rest: seq<byte>)
    requires |file| >= PrefixSize && DecodeTargets(file[PrefixSize..], file[10]) == Success((targets, rest))
    ensures var crc := ComputeCrc(DropLast(file, 4));
            var prefix := DfuPrefix(file[..5], file[5], FromLittleEndian(file[6..10]), file[10]);
            Decode(file)
            == if |rest| < SuffixSize then Failure(Truncated)
               else
                 var suffix := DecodeSuffix(rest);
                 Success(Report(crc, prefix, targets, suffix, crc != suffix.crc, |rest| > SuffixSize))
  {
  }

  /** The elements from the current position on: the one there, then the others. */
  lemma ElementsStep(target: seq<byte>, count: nat, next: nat)
    requires count == next + 1
    ensures DecodeElements(target, count)
            == if |target| < ElementHeaderSize then Failure(Truncated)
               else
                 var size := FromLittleEndian(target[4..8]);
                 var image := Slice(target[ElementHeaderSize..], 0, size);
                 PrependItems([ElementInfo(FromLittleEndian(target[..4]), size, image)],
                              DecodeElements(target[ElementHeaderSize..][|image|..], next))
  {
  }

  lemma PrependNothing<T>(r: Result<(seq<T>, seq<byte>), ParseError>)
    ensures PrependItems([], r) == r
  {
    if r.Success? {
      assert [] + r.value.0 == r.value.0;
    }
  }

  lemma PrependItemsTwice<T>(a: seq<T>, b: seq<T>, r: Result<(seq<T>, seq<byte>), ParseError>)
    ensures PrependItems(a, PrependItems(b, r)) == PrependItems(a + b, r)
  {
    if r.Success? {
      AppendAssoc(a, b, r.value.0);
    }
  }
}
