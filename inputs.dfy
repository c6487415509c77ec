/**
 * The input shaping of the `-b address:file[@alt]` mode of the tool
 * (source/dfuse-pack.py:197-206, 208-251, 274-283): reading the alternate-setting
 * option, each binary argument and the device option, refusing files that already
 * carry a DFU suffix, and grouping the images into targets by alternate setting.
 * The files are given as a map from path to contents, standing for the file system.
 */
module BinaryInputs {
  import opened Wrappers
  import opened Bytes
  import opened Literals
  import opened DfuFile
  import DfuBuild
  import opened DfuRoundTrip

  /** Why the tool exits with status 1 before building. */
  datatype ArgError =
    | InvalidAltOption(alt: string)        // "Alternate interface option argument %s invalid."
    | InvalidCouple(arg: string)           // "Address:file couple '%s' invalid."
    | InvalidAlt(alts: string)             // "Alternate interface number %s invalid."
    | InvalidAddress(address: string)      // "Address %s invalid."
    | UnreadableFile(path: string)         // "Unreadable file '%s'."
    | HasDfuSuffix(path: string)           // checkbin: "It looks like the file %s has a DFU suffix!"
    | InvalidDeviceOption(device: string)  // "Invalid device '%s'."

  /** What stops the `-b` mode: an argument error, or the exception `build` raises. */
  datatype ModeError = Argument(argError: ArgError) | Building(buildError: BuildError)

  /** `-a ALTINTF`: the default alternate setting, 0 when the option is absent or empty. */
  function DefaultAlt(option: Option<string>): (r: Result<int, ArgError>)
    ensures option.None? || option.value == [] ==> r == Success(0)
    ensures option.Some? && option.value != [] ==>
              (r.Success? <==> ParseDecimal(option.value).Some?)
              && (r.Success? ==> r.value == ParseDecimal(option.value).value)
              && (r.Failure? ==> r.error == InvalidAltOption(option.value))
  {
    if option.None? || option.value == [] then Success(0)
    else if ParseDecimal(option.value).None? then Failure(InvalidAltOption(option.value))
    else Success(ParseDecimal(option.value).value)
  }

  /** One `-b` argument read as (address, alternate setting, path): the text before the
      first colon is the address, optionally followed by `@` and a decimal alternate
      setting (the default one when nothing follows the `@`), and the rest is the path.
      The address is an integer literal masked to 32 bits. */
  function ParseBinArg(arg: string, defaultAlt: int): (r: Result<(nat, int, string), ArgError>)
    ensures r.Success? ==> r.value.0 < U32Limit
    ensures ':' !in arg ==> r == Failure(InvalidCouple(arg))
    ensures r.Success? ==> exists before :: arg == before + [':'] + r.value.2 && ':' !in before
  {
    match SplitOnce(arg, ':')
    case None => Failure(InvalidCouple(arg))
    case Some((address, path)) =>
      var (text, alt) := AddressAndAlt(address, defaultAlt);
      if alt.Failure? then Failure(alt.error)
      else if ParseLiteral(text).None? then Failure(InvalidAddress(text))
      else Success((Mask(ParseLiteral(text).value, U32Limit), alt.value, path))
  }

  /** The address text of a `-b` argument split at its first `@`: the text before it,
      and the decimal alternate setting after it, or the default one when there is no
      `@` or nothing follows it. */
  function AddressAndAlt(address: string, defaultAlt: int): (r: (string, Result<int, ArgError>))
    ensures '@' !in address ==> r == (address, Success(defaultAlt))
    ensures '@' in address ==>
              && '@' !in r.0
              && (exists alts :: address == r.0 + ['@'] + alts
                                 && r.1 == if alts == [] then Success(defaultAlt)
                                           else if ParseDecimal(alts).None? then Failure(InvalidAlt(alts))
                                           else Success(ParseDecimal(alts).value))
  {
    match SplitOnce(address, '@')
    case None => (address, Success(defaultAlt))
    case Some((text, alts)) =>
      if alts == [] then (text, Success(defaultAlt))
      else if ParseDecimal(alts).None? then (text, Failure(InvalidAlt(alts)))
      else (text, Success(ParseDecimal(alts).value))
  }

  /** `-a` given as a decimal number, with or without a minus sign, is that number. */
  lemma DefaultAltOfDecimal(n: nat)
    ensures DefaultAlt(Some(DecimalString(n))) == Success(n)
    ensures DefaultAlt(Some("-" + DecimalString(n))) == Success(-(n as int))
  {
    ParseDecimalOfDecimal(n);
  }

  /** `-a` ending in anything but a digit is refused. */
  lemma DefaultAltRejects(option: string)
    requires option != [] && !IsDigit(option[|option| - 1], 10)
    ensures DefaultAlt(Some(option)) == Failure(InvalidAltOption(option))
  {
    ParseDecimalRejects(option);
  }

  /** `ADDRESS:FILE` and `ADDRESS@:FILE`: the address literal's value masked to 32 bits,
      the default alternate setting, and the path, whatever characters it holds. */
  lemma ParseBinArgWithoutAlt(text: string, path: string, defaultAlt: int, address: int)
    requires ':' !in text && '@' !in text && ParseLiteral(text) == Some(address)
    ensures ParseBinArg(text + ":" + path, defaultAlt) == Success((Mask(address, U32Limit), defaultAlt, path))
    ensures ParseBinArg(text + "@:" + path, defaultAlt) == Success((Mask(address, U32Limit), defaultAlt, path))
  {
    SplitOnceUnique(text + ":" + path, ':', text, path);
    assert text + "@:" + path == (text + "@") + [':'] + path;
    SplitOnceUnique(text + "@:" + path, ':', text + "@", path);
    assert text + "@" == text + ['@'] + [];
    SplitOnceUnique(text + "@", '@', text, []);
  }

  /** `ADDRESS@ALT:FILE`: the address literal's value masked to 32 bits, the decimal
      alternate setting, and the path. */
  lemma ParseBinArgWithAlt(text: string, alt: nat, path: string, defaultAlt: int, address: int)
    requires ':' !in text && '@' !in text && ParseLiteral(text) == Some(address)
    ensures ParseBinArg(text + "@" + DecimalString(alt) + ":" + path, defaultAlt)
            == Success((Mask(address, U32Limit), alt, path))
  {
    var alts := DecimalString(alt);
    NoColonInDigits(alts);
    var before := text + "@" + alts;
    assert text + "@" + alts + ":" + path == before + [':'] + path;
    SplitOnceUnique(before + [':'] + path, ':', before, path);
    assert before == text + ['@'] + alts;
    SplitOnceUnique(before, '@', text, alts);
    ParseDecimalOfDecimal(alt);
  }

  /** An alternate setting that is not a decimal number, or an address that is not a
      literal, stops the tool with its own message. */
  lemma ParseBinArgErrors(text: string, alts: string, path: string, defaultAlt: int)
    requires ':' !in text && ':' !in alts && '@' !in text
    ensures alts != [] && ParseDecimal(alts).None? ==>
              ParseBinArg(text + "@" + alts + ":" + path, defaultAlt) == Failure(InvalidAlt(alts))
    ensures ParseLiteral(text).None? ==> ParseBinArg(text + ":" + path, defaultAlt) == Failure(InvalidAddress(text))
  {
    var before := text + "@" + alts;
    assert text + "@" + alts + ":" + path == before + [':'] + path;
    SplitOnceUnique(before + [':'] + path, ':', before, path);
    assert before == text + ['@'] + alts;
    SplitOnceUnique(before, '@', text, alts);
    SplitOnceUnique(text + ":" + path, ':', text, path);
  }

  /** `-1:FILE` loads at 0xFFFFFFFF: `& 0xFFFFFFFF` wraps a negative address around. */
  lemma WrappedAddress(path: string)
    ensures ParseBinArg("-1:" + path, 0) == Success((0xFFFF_FFFF, 0, path))
  {
    MinusOne();
    assert ':' !in "-1" && '@' !in "-1";
    ParseBinArgWithoutAlt("-1", path, 0, -1);
    assert Mask(-1, U32Limit) == 0xFFFF_FFFF;
    assert "-1" + ":" + path == "-1:" + path;
  }

  lemma MinusOne()
    ensures ParseLiteral("-1") == Some(-1)
  {
    assert SplitSign("-1") == (true, "1");
    assert LiteralMagnitude("1") == Some(1);
  }

  /** One image from a `-b` argument: its file must exist and must not already end in
      a DFU suffix; its contents become the image data. */
  function ParseImage(arg: string, defaultAlt: int, files: map<string, seq<byte>>): (r: Result<Image, ArgError>)
    ensures r.Success? ==> 0 <= r.value.address < U32Limit
    ensures r.Success? ==> && ParseBinArg(arg, defaultAlt).Success? && ParseBinArg(arg, defaultAlt).value.2 in files
                           && r.value.address == ParseBinArg(arg, defaultAlt).value.0
                           && r.value.alt == ParseBinArg(arg, defaultAlt).value.1
                           && r.value.data == files[ParseBinArg(arg, defaultAlt).value.2]
  {
    var (address, alt, path) :- ParseBinArg(arg, defaultAlt);
    if path !in files then Failure(UnreadableFile(path))
    else if CheckBin(files[path]) then Failure(HasDfuSuffix(path))
    else Success(Image(address, alt, files[path]))
  }

  /** The image of an argument is made of the address, alternate setting and path the
      argument gives: the file at that path is the data; the argument's own error, a
      missing file or a file with a DFU suffix stops the tool. */
  lemma ImageOfArg(arg: string, defaultAlt: int, files: map<string, seq<byte>>)
    ensures ParseBinArg(arg, defaultAlt).Failure? ==>
              ParseImage(arg, defaultAlt, files) == Failure(ParseBinArg(arg, defaultAlt).error)
    ensures ParseBinArg(arg, defaultAlt).Success? && ParseBinArg(arg, defaultAlt).value.2 !in files ==>
              ParseImage(arg, defaultAlt, files) == Failure(UnreadableFile(ParseBinArg(arg, defaultAlt).value.2))
    ensures ParseImage(arg, defaultAlt, files).Success? <==>
              && ParseBinArg(arg, defaultAlt).Success?
              && ParseBinArg(arg, defaultAlt).value.2 in files
              && !CheckBin(files[ParseBinArg(arg, defaultAlt).value.2])
    ensures ParseImage(arg, defaultAlt, files).Success? ==>
              ParseImage(arg, defaultAlt, files).value
              == Image(ParseBinArg(arg, defaultAlt).value.0, ParseBinArg(arg, defaultAlt).value.1,
                       files[ParseBinArg(arg, defaultAlt).value.2])
  {
  }

  /** The images of all `-b` arguments in command-line order, or the first argument's error. */
  function ParseImages(args: seq<string>, defaultAlt: int, files: map<string, seq<byte>>): (r: Result<seq<Image>, ArgError>)
    ensures r.Success? ==> |r.value| == |args|
  {
    if args == [] then Success([])
    else
      var images :- ParseImages(args[..|args| - 1], defaultAlt, files);
      var image :- ParseImage(args[|args| - 1], defaultAlt, files);
      Success(images + [image])
  }

  /** The targets the loop over the images forms: an image whose alternate setting
      differs from the previous image's starts a new target. The list always ends with
      the target being filled, so no images give one empty target. */
  function Group(images: seq<Image>): (r: seq<seq<Image>>)
    ensures |r| > 0
  {
    if images == [] then [[]]
    else
      var previous := images[..|images| - 1];
      var image := images[|images| - 1];
      var groups := Group(previous);
      if previous != [] && image.alt != previous[|previous| - 1].alt then groups + [[image]]
      else groups[..|groups| - 1] + [groups[|groups| - 1] + [image]]
  }

  /** The device string the tool builds for: the `-D` option when given and non-empty,
      otherwise the default; it is refused up front unless `build` can read it. */
  function Device(option: Option<string>): (r: Result<string, ArgError>)
    ensures r.Success? ==> ParseDevice(r.value).Some?
    ensures option.None? || option.value == [] ==> r == Success(DefaultDevice)
    ensures option.Some? && option.value != [] ==>
              r == if ParseDevice(option.value).Some? then Success(option.value) else Failure(InvalidDeviceOption(option.value))
  {
    var device := if option.Some? && option.value != [] then option.value else DefaultDevice;
    DefaultDeviceIds();
    if ParseDevice(device).None? then Failure(InvalidDeviceOption(device)) else Success(device)
  }

  /** The targets of the `-b` mode for these arguments. */
  function BinTargets(args: seq<string>, defaultAlt: int, files: map<string, seq<byte>>): Result<seq<seq<Image>>, ArgError>
  {
    var images :- ParseImages(args, defaultAlt, files);
    Success(Group(images))
  }

  /** The whole `-b` mode: the file the tool writes, or why it stops. */
  function BuildFromBinaries(args: seq<string>, altOption: Option<string>, deviceOption: Option<string>,
                             files: map<string, seq<byte>>): Result<seq<byte>, ModeError>
  {
    match DefaultAlt(altOption)
    case Failure(e) => Failure(Argument(e))
    case Success(defaultAlt) =>
      match BinTargets(args, defaultAlt, files)
      case Failure(e) => Failure(Argument(e))
      case Success(targets) =>
        match Device(deviceOption)
        case Failure(e) => Failure(Argument(e))
        case Success(device) =>
          match Encode(targets, DefaultName, device)
          case Failure(e) => Failure(Building(e))
          case Success(out) => Success(out)
  }

  // ---------------------------------------------------------------------------
  // The loop of the `-b` mode.

  /** The loop over the `-b` arguments: `targets`, `target` and `old_ealt` updated image
      by image, and the target being filled appended at the end. */
  method CollectTargets(args: seq<string>, defaultAlt: int, files: map<string, seq<byte>>)
    returns (r: Result<seq<seq<Image>>, ArgError>)
    ensures r == BinTargets(args, defaultAlt, files)
  {
    var targets: seq<seq<Image>> := [];
    var target: seq<Image> := [];
    var oldAlt: Option<int> := None;
    ghost var images: seq<Image> := [];
    for i := 0 to |args|
      invariant ParseImages(args[..i], defaultAlt, files) == Success(images)
      invariant Group(images) == targets + [target]
      invariant oldAlt == if images == [] then None else Some(images[|images| - 1].alt)
    {
      ParseImagesStep(args, i, defaultAlt, files);
      var image := ParseImage(args[i], defaultAlt, files);
      if image.Failure? {
        ImageErrorStops(args, i, defaultAlt, files);
        return Failure(image.error);
      }
      GroupStep(images, targets, target, image.value);
      if oldAlt.Some? && image.value.alt != oldAlt.value {
        targets := targets + [target];
        target := [];
      }
      target := target + [image.value];
      oldAlt := Some(image.value.alt);
      images := images + [image.value];
    }
    assert args[..|args|] == args;
    return Success(targets + [target]);
  }

  lemma ParseImagesStep(args: seq<string>, i: nat, defaultAlt: int, files: map<string, seq<byte>>)
    requires i < |args|
    ensures var images := ParseImages(args[..i], defaultAlt, files);
            var image := ParseImage(args[i], defaultAlt, files);
            ParseImages(args[..i + 1], defaultAlt, files)
            == if images.Failure? then Failure(images.error)
               else if image.Failure? then Failure(image.error)
               else Success(images.value + [image.value])
  {
    assert args[..i + 1][..i] == args[..i];
  }

  /** An argument that cannot be read stops the loop with its error, whatever follows it. */
  lemma {:induction false} FirstErrorStays(args: seq<string>, n: nat, defaultAlt: int, files: map<string, seq<byte>>)
    requires 0 < n <= |args|
    requires ParseImages(args[..n], defaultAlt, files).Failure?
    ensures ParseImages(args, defaultAlt, files) == ParseImages(args[..n], defaultAlt, files)
    decreases |args| - n
  {
    if n < |args| {
      ParseImagesStep(args, n, defaultAlt, files);
      FirstErrorStays(args, n + 1, defaultAlt, files);
    } else {
      assert args[..n] == args;
    }
  }

  /** The first argument that cannot be read gives the loop's error. */
  lemma ImageErrorStops(args: seq<string>, i: nat, defaultAlt: int, files: map<string, seq<byte>>)
    requires i < |args| && ParseImages(args[..i], defaultAlt, files).Success?
    requires ParseImage(args[i], defaultAlt, files).Failure?
    ensures ParseImages(args, defaultAlt, files) == Failure(ParseImage(args[i], defaultAlt, files).error)
  {
    ParseImagesStep(args, i, defaultAlt, files);
    FirstErrorStays(args, i + 1, defaultAlt, files);
  }

  /** The loop reads each argument on its own: it succeeds exactly when every argument
      does, and the i-th image is then the i-th argument's. */
  lemma {:induction false} ImagesOfArgs(args: seq<string>, defaultAlt: int, files: map<string, seq<byte>>)
    ensures ParseImages(args, defaultAlt, files).Success?
            <==> forall i :: 0 <= i < |args| ==> ParseImage(args[i], defaultAlt, files).Success?
    ensures ParseImages(args, defaultAlt, files).Success? ==>
              forall i :: 0 <= i < |args| ==> ParseImage(args[i], defaultAlt, files) == Success(ParseImages(args, defaultAlt, files).value[i])
    decreases |args|
  {
    if args != [] {
      var front, last := args[..|args| - 1], args[|args| - 1];
      assert args == front + [last];
      ImagesOfArgs(front, defaultAlt, files);
      var images := ParseImages(front, defaultAlt, files);
      var image := ParseImage(last, defaultAlt, files);
      if images.Failure? {
        var k :| 0 <= k < |front| && !ParseImage(front[k], defaultAlt, files).Success?;
        assert args[k] == front[k];
      } else if image.Success? {
        ArgsReadSnoc(front, last, images.value, image.value, defaultAlt, files);
      }
    }
  }

  /** Every argument read, in order, as the images. */
  predicate ArgsRead(args: seq<string>, images: seq<Image>, defaultAlt: int, files: map<string, seq<byte>>)
  {
    |images| == |args| && forall i :: 0 <= i < |args| ==> ParseImage(args[i], defaultAlt, files) == Success(images[i])
  }

  lemma ArgsReadSnoc(front: seq<string>, last: string, images: seq<Image>, image: Image,
                     defaultAlt: int, files: map<string, seq<byte>>)
    requires |images| == |front| && ParseImage(last, defaultAlt, files) == Success(image)
    requires forall i :: 0 <= i < |front| ==> ParseImage(front[i], defaultAlt, files) == Success(images[i])
    ensures ArgsRead(front + [last], images + [image], defaultAlt, files)
  {
    var args, all := front + [last], images + [image];
    forall i | 0 <= i < |args|
      ensures ParseImage(args[i], defaultAlt, files) == Success(all[i])
    {
      if i < |front| {
        assert args[i] == front[i] && all[i] == images[i];
      }
    }
  }

  /** A loop that fails reports the error of the first argument that fails. */
  lemma {:induction false} FirstFailingArg(args: seq<string>, defaultAlt: int, files: map<string, seq<byte>>)
    requires ParseImages(args, defaultAlt, files).Failure?
    ensures exists i :: && 0 <= i < |args|
                        && ParseImage(args[i], defaultAlt, files) == Failure(ParseImages(args, defaultAlt, files).error)
                        && forall j :: 0 <= j < i ==> ParseImage(args[j], defaultAlt, files).Success?
    decreases |args|
  {
    var front := args[..|args| - 1];
    var images := ParseImages(front, defaultAlt, files);
    assert forall i :: 0 <= i < |front| ==> front[i] == args[i];
    if images.Failure? {
      FirstFailingArg(front, defaultAlt, files);
      var i :| && 0 <= i < |front|
               && ParseImage(front[i], defaultAlt, files) == Failure(images.error)
               && forall j :: 0 <= j < i ==> ParseImage(front[j], defaultAlt, files).Success?;
      assert ParseImage(args[i], defaultAlt, files) == Failure(ParseImages(args, defaultAlt, files).error);
    } else {
      ImagesOfArgs(front, defaultAlt, files);
      assert ParseImage(args[|args| - 1], defaultAlt, files) == Failure(ParseImages(args, defaultAlt, files).error);
    }
  }

  // ---------------------------------------------------------------------------
  // What the grouping guarantees.

  /** One more image: a new target when its alternate setting differs from the previous
      image's, otherwise it joins the last target. */
  lemma GroupAppend(images: seq<Image>, image: Image)
    ensures var groups := Group(images);
            Group(images + [image])
            == if images != [] && image.alt != images[|images| - 1].alt then groups + [[image]]
               else groups[..|groups| - 1] + [groups[|groups| - 1] + [image]]
  {
    assert (images + [image])[..|images|] == images;
  }

  /** One more image, for targets kept as those finished and the one being filled. */
  lemma GroupStep(images: seq<Image>, targets: seq<seq<Image>>, target: seq<Image>, image: Image)
    requires Group(images) == targets + [target]
    ensures images != [] && image.alt != images[|images| - 1].alt ==>
              Group(images + [image]) == (targets + [target]) + [[] + [image]]
    ensures images == [] || image.alt == images[|images| - 1].alt ==>
              Group(images + [image]) == targets + [target + [image]]
  {
    GroupAppend(images, image);
    var groups := targets + [target];
    assert groups[..|groups| - 1] == targets && groups[|groups| - 1] == target;
    assert [] + [image] == [image];
  }

  /** The targets hold the images in command-line order, none lost or repeated. */
  lemma {:induction false} GroupKeepsOrder(images: seq<Image>)
    ensures Flatten(Group(images)) == images
  {
    if images != [] {
      var previous := images[..|images| - 1];
      var image := images[|images| - 1];
      assert previous + [image] == images;
      GroupAppend(previous, image);
      var groups := Group(previous);
      GroupKeepsOrder(previous);
      if previous != [] && image.alt != previous[|previous| - 1].alt {
        FlattenAppend(groups, [image]);
      } else {
        var last := groups[|groups| - 1];
        assert groups == groups[..|groups| - 1] + [last];
        FlattenAppend(groups[..|groups| - 1], last);
        FlattenAppend(groups[..|groups| - 1], last + [image]);
      }
    }
  }

  /** The targets of one more image, target by target. */
  lemma GroupShape(previous: seq<Image>, image: Image)
    ensures var groups := Group(previous);
            var g := Group(previous + [image]);
            if previous != [] && image.alt != previous[|previous| - 1].alt then
              && |g| == |groups| + 1 && g[|groups|] == [image]
              && forall i :: 0 <= i < |groups| ==> g[i] == groups[i]
            else
              && |g| == |groups| && g[|groups| - 1] == groups[|groups| - 1] + [image]
              && forall i :: 0 <= i < |groups| - 1 ==> g[i] == groups[i]
  {
    GroupAppend(previous, image);
  }

  /** For a non-empty list of images every target is non-empty, and the last target has
      the alternate setting of the last image. */
  lemma {:induction false} GroupsNonEmpty(images: seq<Image>)
    requires images != []
    ensures var g := Group(images);
            forall i :: 0 <= i < |g| ==> g[i] != []
    ensures var g := Group(images);
            g[|g| - 1][0].alt == images[|images| - 1].alt
  {
    var previous := images[..|images| - 1];
    var image := images[|images| - 1];
    assert previous + [image] == images;
    GroupShape(previous, image);
    if previous != [] {
      GroupsNonEmpty(previous);
    }
  }

  /** All images of a target have the same alternate setting. */
  lemma {:induction false} GroupsSingleAlt(images: seq<Image>)
    requires images != []
    ensures var g := Group(images);
            forall i, j :: 0 <= i < |g| && 0 <= j < |g[i]| ==> g[i][j].alt == g[i][0].alt
  {
    GroupsNonEmpty(images);
    var previous := images[..|images| - 1];
    var image := images[|images| - 1];
    assert previous + [image] == images;
    GroupShape(previous, image);
    var groups := Group(previous);
    var g := Group(images);
    if previous != [] {
      GroupsSingleAlt(previous);
      GroupsNonEmpty(previous);
      if image.alt == previous[|previous| - 1].alt {
        var last := groups[|groups| - 1];
        var extended := last + [image];
        forall j | 0 <= j < |extended|
          ensures extended[j].alt == extended[0].alt
        {
          if j < |last| {
            assert extended[j] == last[j];
          }
        }
      }
    }
  }

  /** Two adjacent targets have different alternate settings: with the previous lemma,
      the targets are the maximal runs of images with equal alternate settings. */
  lemma {:induction false} GroupsAdjacentDiffer(images: seq<Image>)
    requires images != []
    ensures var g := Group(images);
            && (forall i :: 0 <= i < |g| ==> g[i] != [])
            && (forall i :: 0 < i < |g| ==> g[i - 1][0].alt != g[i][0].alt)
  {
    GroupsNonEmpty(images);
    var previous := images[..|images| - 1];
    var image := images[|images| - 1];
    assert previous + [image] == images;
    GroupShape(previous, image);
    if previous != [] {
      GroupsAdjacentDiffer(previous);
      GroupsNonEmpty(previous);
      var groups := Group(previous);
      var g := Group(images);
      if image.alt == previous[|previous| - 1].alt {
        assert g[|groups| - 1][0] == groups[|groups| - 1][0];
      }
    }
  }

  // ---------------------------------------------------------------------------
  // What the `-b` mode writes.

  /** With every target non-empty and of one alternate setting, the alternate setting
      `build` writes for target `i` is that of its own images. */
  lemma TargetAlt(g: seq<seq<Image>>, i: nat)
    requires i < |g|
    requires forall k :: 0 <= k < |g| ==> g[k] != []
    requires forall k, j :: 0 <= k < |g| && 0 <= j < |g[k]| ==> g[k][j].alt == g[k][0].alt
    ensures LastAlt(None, Flatten(g[..i + 1])) == Some(g[i][0].alt)
  {
    assert g[..i + 1] == g[..i] + [g[i]];
    FlattenAppend(g[..i], g[i]);
    var s := Flatten(g[..i]) + g[i];
    assert s[|s| - 1] == g[i][|g[i]| - 1];
  }

  /** Without any image the grouping leaves one empty target, and `build` stops on the
      unbound alternate setting. This is a property of `build` and `Group`: the tool
      itself only runs the `-b` loop when at least one `-b` argument is given, so the
      mode never hands `build` this empty target. */
  lemma NoImagesUnbound(name: seq<byte>, device: string)
    ensures Encode(Group([]), name, device) == Failure(UnboundAlt)
  {
    EncodeUnboundAlt(Group([]), name, device);
  }

  /** The file the `-b` mode writes reads back, through `parse`, as one target per run
      of images with equal alternate settings, in command-line order: each target has
      the alternate setting of its images and reports their addresses and file contents,
      and no error is reported. */
  lemma BinaryModeDecodes(args: seq<string>, altOption: Option<string>, deviceOption: Option<string>,
                          files: map<string, seq<byte>>)
    requires BuildFromBinaries(args, altOption, deviceOption, files).Success?
    ensures var defaultAlt := DefaultAlt(altOption).value;
            var images := ParseImages(args, defaultAlt, files).value;
            var targets := Group(images);
            var report := Decode(BuildFromBinaries(args, altOption, deviceOption, files).value);
            && images != []
            && Flatten(targets) == images
            && report.Success?
            && |report.value.targets| == |targets|
            && (forall i :: 0 <= i < |targets| ==>
                  && targets[i] != []
                  && report.value.targets[i].alt == targets[i][0].alt
                  && ElementsMatch(report.value.targets[i].images, targets[i]))
            && !report.value.crcError && !report.value.trailingError
  {
    var defaultAlt := DefaultAlt(altOption).value;
    var images := ParseImages(args, defaultAlt, files).value;
    var device := Device(deviceOption).value;
    assert BuildFromBinaries(args, altOption, deviceOption, files) == Success(Encode(Group(images), DefaultName, device).value);
    GroupsDecode(images, DefaultName, device);
  }

  /** The file `build` writes for the grouped images reads back target by target. */
  lemma GroupsDecode(images: seq<Image>, name: seq<byte>, device: string)
    requires Encode(Group(images), name, device).Success?
    ensures var targets := Group(images);
            var report := Decode(Encode(targets, name, device).value);
            && images != []
            && Flatten(targets) == images
            && report.Success?
            && |report.value.targets| == |targets|
            && (forall i :: 0 <= i < |targets| ==>
                  && targets[i] != []
                  && report.value.targets[i].alt == targets[i][0].alt
                  && ElementsMatch(report.value.targets[i].images, targets[i]))
            && !report.value.crcError && !report.value.trailingError
  {
    var targets := Group(images);
    if images == [] {
      NoImagesUnbound(name, device);
      assert false;
    }
    GroupKeepsOrder(images);
    GroupsNonEmpty(images);
    GroupsSingleAlt(images);
    EncodeDecode(targets, name, device);
    var report := Decode(Encode(targets, name, device).value).value;
    forall i | 0 <= i < |targets|
      ensures report.targets[i].alt == targets[i][0].alt
    {
      TargetAlt(targets, i);
    }
  }
}
