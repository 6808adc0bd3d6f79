/** `HeicConverter` (src/heic_converter.py): the HEIC/HEIF test, where the
    JPEG goes, the colour-mode and EXIF decisions, and the bookkeeping of
    one conversion. The image libraries are an `Environment` of outcomes. */
module HeicConverter {

  import opened Results
  import opened Text
  import opened Paths
  import ExifHandler

  /** The JPEG quality a converter gets when none is given. */
  const DefaultQuality: int := 95

  /** The suffixes, lower-cased, of the files the converter accepts. */
  const HeicExtensions: set<string> := {".heic", ".heif"}

  /** The suffix every output file gets. */
  const JpegExtension: string := ".jpg"

  /** The colour modes the encoder is handed unchanged; any other mode is
      converted to `RGB` first. */
  const KeptModes: set<string> := {"RGB", "L"}

  /** The converter's state: its quality and the two lists it appends to,
      `(source, output)` pairs and `(source, error text)` pairs. */
  datatype Converter = Converter(quality: int,
                                 converted: seq<(string, string)>,
                                 failed: seq<(string, string)>)

  function NewConverter(quality: int): Converter {
    Converter(quality, [], [])
  }

  // ---------------------------------------------------------------------
  // The extension test.

  predicate IsHeicFile(path: string) {
    Lower(SuffixOf(path)) in HeicExtensions
  }

  /** The test ignores letter case anywhere in the path. */
  lemma HeicDetectionIgnoresCase(a: string, b: string)
    requires Lower(a) == Lower(b)
    ensures IsHeicFile(a) <==> IsHeicFile(b)
  {
    LowerSuffixCaseBlind(a, b);
  }

  /** A HEIC file is never a video for the timestamp extractor. */
  lemma HeicIsNotVideo(path: string)
    ensures IsHeicFile(path) ==> !ExifHandler.IsVideoFile(path)
  {
  }

  // ---------------------------------------------------------------------
  // Where the JPEG goes.

  /** The folder of the output: `output_dir` when it is given and not
      empty, otherwise the folder of the source. */
  function OutputDirectory(heicPath: string, outputDir: Option<string>): (d: PurePath)
    ensures WellFormed(d)
  {
    if outputDir.Some? && outputDir.value != "" then Parse(outputDir.value)
    else Parent(Parse(heicPath))
  }

  /** `f"{stem}.jpg"` for the source's final component. */
  function JpegName(heicPath: string): string {
    Stem(Name(Parse(heicPath))) + JpegExtension
  }

  /** The output name of a HEIC source is a single component whose stem is
      the source's stem and whose suffix is `.jpg`. */
  lemma JpegNameFacts(heicPath: string)
    requires IsHeicFile(heicPath)
    ensures IsPart(JpegName(heicPath))
    ensures Suffix(JpegName(heicPath)) == JpegExtension
    ensures Stem(JpegName(heicPath)) == Stem(Name(Parse(heicPath)))
  {
    var p := Parse(heicPath);
    var name := Name(p);
    assert |Lower(Suffix(name))| == |Suffix(name)|;
    assert Suffix(name) != "";
    var i := SuffixDot(name).value;
    assert name != "" && IsPart(name);
    var stem := name[..i];
    assert Stem(name) == stem && stem != [];
    assert forall k | 0 <= k < |stem| :: stem[k] == name[k];
    assert '/' !in stem;
    var out := stem + JpegExtension;
    assert out[|stem| + 1] == 'j';
    assert '/' !in JpegExtension;
    assert '/' !in out;
    StemSuffixAppend(stem, JpegExtension);
  }

  /** `str(Path(output_dir) / f"{stem}.jpg")`, or the same beside the
      source: the printed path names a file `<stem>.jpg` whose folder is
      the output directory. */
  function OutputPath(heicPath: string, outputDir: Option<string>): (r: string)
    requires IsHeicFile(heicPath)
    ensures Parent(Parse(r)) == OutputDirectory(heicPath, outputDir)
    ensures Name(Parse(r)) == JpegName(heicPath)
    ensures Suffix(Name(Parse(r))) == JpegExtension
    ensures Stem(Name(Parse(r))) == Stem(Name(Parse(heicPath)))
  {
    var dir := OutputDirectory(heicPath, outputDir);
    var name := JpegName(heicPath);
    JpegNameFacts(heicPath);
    ParseOnePart(name);
    var q := Join(dir, name);
    assert q == PurePath(dir.root, dir.parts + [name]);
    ParseToString(q);
    ToString(q)
  }

  /** Without an output directory the JPEG lands beside its source. */
  lemma OutputBesideSource(heicPath: string, outputDir: Option<string>)
    requires IsHeicFile(heicPath)
    requires outputDir == None || outputDir == Some("")
    ensures Parent(Parse(OutputPath(heicPath, outputDir))) == Parent(Parse(heicPath))
  {
  }

  /** Two sources with the same stem and folder share an output path: the
      suffix of the source does not reach the output. */
  lemma OutputIgnoresSourceSuffix(a: string, b: string, outputDir: Option<string>)
    requires IsHeicFile(a) && IsHeicFile(b)
    requires Stem(Name(Parse(a))) == Stem(Name(Parse(b)))
    requires Parent(Parse(a)) == Parent(Parse(b))
    ensures OutputPath(a, outputDir) == OutputPath(b, outputDir)
  {
  }

  // ---------------------------------------------------------------------
  // The libraries.

  /** A decoded image: its colour mode and the entries `getexif()` gives. */
  datatype Image = Image(mode: string, exif: seq<ExifHandler.ExifEntry>)

  /** `Image.open` either raises or gives an image. */
  datatype Opened = OpenError(reason: string) | Opened(image: Image)

  /** The keyword arguments of `image.save`: always JPEG, the converter's
      quality and `optimize`, and EXIF only when there is some. */
  datatype SaveRequest = SaveRequest(target: string, image: Image, format: string,
                                     quality: int, optimize: bool,
                                     exif: Option<seq<ExifHandler.ExifEntry>>)

  /** What the libraries do, as the outcome of each call: creating the
      output folder, opening the source, converting to `RGB`, and encoding. */
  datatype Environment = Environment(makeDirs: PurePath -> Outcome,
                                     open: string -> Opened,
                                     toRgb: Image -> Outcome,
                                     save: SaveRequest -> Outcome)

  /** The colour-mode step either raises or gives the image to encode. */
  datatype Normalized = ConvertError(reason: string) | Ready(image: Image)

  /** The image handed to the encoder: unchanged in a kept mode, else the
      `RGB` conversion, which keeps the image's EXIF. */
  function Normalize(env: Environment, image: Image): (r: Normalized)
    ensures r.Ready? ==> r.image.mode in KeptModes && r.image.exif == image.exif
    ensures image.mode in KeptModes ==> r == Ready(image)
    ensures r.ConvertError? <==> image.mode !in KeptModes && env.toRgb(image).Fail?
    ensures r.ConvertError? ==> env.toRgb(image) == Fail(r.reason)
  {
    if image.mode in KeptModes then Ready(image)
    else match env.toRgb(image)
      case Pass => Ready(Image("RGB", image.exif))
      case Fail(e) => ConvertError(e)
  }

  /** Reading the EXIF back from a request gives the image's entries, and a
      request never carries an empty EXIF block. */
  function Request(quality: int, target: string, image: Image): (r: SaveRequest)
    ensures (if r.exif.Some? then r.exif.value else []) == image.exif
    ensures r.exif != Some([])
    ensures r.format == "JPEG" && r.quality == quality && r.optimize
    ensures r.target == target && r.image == image
  {
    SaveRequest(target, image, "JPEG", quality, true,
                if image.exif != [] then Some(image.exif) else None)
  }

  /** The outcome of the steps inside the `try` for a HEIC source. */
  datatype AttemptResult = Written(path: string) | Raised(reason: string)

  /** The steps run in order; the first that raises gives its reason,
      and when every step passes the output path is written. */
  function Attempt(env: Environment, quality: int, heicPath: string,
                   outputDir: Option<string>): (r: AttemptResult)
    requires IsHeicFile(heicPath)
    ensures r.Written? ==> r.path == OutputPath(heicPath, outputDir)
    ensures env.makeDirs(OutputDirectory(heicPath, outputDir)).Fail? ==>
              r == Raised(env.makeDirs(OutputDirectory(heicPath, outputDir)).reason)
    ensures && env.makeDirs(OutputDirectory(heicPath, outputDir)) == Pass
            && env.open(heicPath).OpenError?
            ==> r == Raised(env.open(heicPath).reason)
    ensures && env.makeDirs(OutputDirectory(heicPath, outputDir)) == Pass
            && env.open(heicPath).Opened?
            && Normalize(env, env.open(heicPath).image).ConvertError?
            ==> r == Raised(Normalize(env, env.open(heicPath).image).reason)
    ensures && env.makeDirs(OutputDirectory(heicPath, outputDir)) == Pass
            && env.open(heicPath).Opened?
            && Normalize(env, env.open(heicPath).image).Ready?
            ==> match env.save(Request(quality, OutputPath(heicPath, outputDir),
                                       Normalize(env, env.open(heicPath).image).image))
                case Pass => r == Written(OutputPath(heicPath, outputDir))
                case Fail(e) => r == Raised(e)
  {
    var out := OutputPath(heicPath, outputDir);
    match env.makeDirs(Parent(Parse(out)))
    case Fail(e) => Raised(e)
    case Pass =>
      match env.open(heicPath)
      case OpenError(e) => Raised(e)
      case Opened(image) => Encode(env, quality, out, image)
  }

  /** The steps after the source is open: bring it to a kept mode and save
      it as a JPEG at `out`. */
  function Encode(env: Environment, quality: int, out: string, image: Image): (r: AttemptResult)
    ensures r.Written? ==> r.path == out
    ensures Normalize(env, image).ConvertError? ==> r == Raised(Normalize(env, image).reason)
    ensures Normalize(env, image).Ready? ==>
              match env.save(Request(quality, out, Normalize(env, image).image))
              case Pass => r == Written(out)
              case Fail(e) => r == Raised(e)
  {
    match Normalize(env, image)
    case ConvertError(e) => Raised(e)
    case Ready(ready) =>
      match env.save(Request(quality, out, ready))
      case Fail(e) => Raised(e)
      case Pass => Written(out)
  }

  /** A written JPEG was encoded from the opened source in a kept mode,
      with the converter's quality and with the source's EXIF exactly when
      it had some. */
  lemma WrittenRequest(env: Environment, quality: int, heicPath: string,
                       outputDir: Option<string>)
    requires IsHeicFile(heicPath)
    requires Attempt(env, quality, heicPath, outputDir).Written?
    ensures env.makeDirs(OutputDirectory(heicPath, outputDir)) == Pass
    ensures env.open(heicPath).Opened?
    ensures Normalize(env, env.open(heicPath).image).Ready?
    ensures var image := Normalize(env, env.open(heicPath).image).image;
            var req := Request(quality, OutputPath(heicPath, outputDir), image);
            && env.save(req) == Pass
            && image.mode in KeptModes
            && image.exif == env.open(heicPath).image.exif
            && req.quality == quality
            && (req.exif.Some? <==> env.open(heicPath).image.exif != [])
  {
  }

  /** A source already in `RGB` or `L` never goes through the converter:
      whatever `convert` would do does not change the result. */
  lemma KeptModeSkipsConversion(env: Environment, toRgb: Image -> Outcome, quality: int,
                                out: string, image: Image)
    requires image.mode in KeptModes
    ensures Encode(env.(toRgb := toRgb), quality, out, image) == Encode(env, quality, out, image)
  {
    assert Normalize(env.(toRgb := toRgb), image) == Normalize(env, image);
  }

  // ---------------------------------------------------------------------
  // One conversion with its bookkeeping.

  /** `convert_heic_to_jpeg`: the new converter state and the returned
      path. A non-HEIC source changes nothing; a HEIC source adds exactly
      one entry, to `converted` when a path is returned and to `failed`
      otherwise; nothing escapes as an exception. */
  function Convert(c: Converter, env: Environment, heicPath: string,
                   outputDir: Option<string>): (r: (Converter, Option<string>))
    ensures r.0.quality == c.quality
    ensures !IsHeicFile(heicPath) ==> r == (c, None)
    ensures r.1.Some? ==>
              && IsHeicFile(heicPath)
              && r.1.value == OutputPath(heicPath, outputDir)
              && r.0.converted == c.converted + [(heicPath, r.1.value)]
              && r.0.failed == c.failed
    ensures IsHeicFile(heicPath) ==>
              (r.1.Some? <==> Attempt(env, c.quality, heicPath, outputDir).Written?)
    ensures IsHeicFile(heicPath) && r.1.None? ==>
              && r.0.converted == c.converted
              && |r.0.failed| == |c.failed| + 1
              && r.0.failed[..|c.failed|] == c.failed
              && r.0.failed[|c.failed|].0 == heicPath
    ensures IsHeicFile(heicPath) ==>
              match Attempt(env, c.quality, heicPath, outputDir)
              case Raised(e) => r.0.failed == c.failed + [(heicPath, e)]
              case Written(_) => true
  {
    if !IsHeicFile(heicPath) then (c, None)
    else
      match Attempt(env, c.quality, heicPath, outputDir)
      case Written(out) => (c.(converted := c.converted + [(heicPath, out)]), Some(out))
      case Raised(e) => (c.(failed := c.failed + [(heicPath, e)]), None)
  }

  /** A `converted` entry: a HEIC source and its `<stem>.jpg`. */
  predicate IsConversion(e: (string, string)) {
    IsHeicFile(e.0) && Name(Parse(e.1)) == JpegName(e.0)
  }

  /** A `failed` entry: a HEIC source. */
  predicate IsFailure(e: (string, string)) {
    IsHeicFile(e.0)
  }

  /** What the two lists of a converter promise. */
  predicate Consistent(c: Converter) {
    && (forall i | 0 <= i < |c.converted| :: IsConversion(c.converted[i]))
    && (forall i | 0 <= i < |c.failed| :: IsFailure(c.failed[i]))
  }

  lemma NewConverterConsistent(quality: int)
    ensures Consistent(NewConverter(quality))
    ensures NewConverter(DefaultQuality).quality == 95
  {
  }

  /** A conversion keeps the converter consistent. */
  lemma ConvertKeepsConsistent(c: Converter, env: Environment, heicPath: string,
                               outputDir: Option<string>)
    requires Consistent(c)
    ensures Consistent(Convert(c, env, heicPath, outputDir).0)
  {
    if IsHeicFile(heicPath) {
      match Attempt(env, c.quality, heicPath, outputDir)
      case Written(out) =>
        assert out == OutputPath(heicPath, outputDir);
        AppendConversionConsistent(c, (heicPath, out));
      case Raised(e) =>
        AppendFailureConsistent(c, (heicPath, e));
    }
  }

  /** Appending a conversion of a HEIC source keeps the promise. */
  lemma AppendConversionConsistent(c: Converter, e: (string, string))
    requires Consistent(c) && IsConversion(e)
    ensures Consistent(c.(converted := c.converted + [e]))
  {
  }

  /** Appending a failure of a HEIC source keeps the promise. */
  lemma AppendFailureConsistent(c: Converter, e: (string, string))
    requires Consistent(c) && IsFailure(e)
    ensures Consistent(c.(failed := c.failed + [e]))
  {
  }

  /** One conversion adds one entry for a HEIC source and none otherwise,
      and only appends. */
  lemma ConvertGrows(c: Converter, env: Environment, heicPath: string,
                     outputDir: Option<string>)
    ensures var r := Convert(c, env, heicPath, outputDir).0;
            && |r.converted| + |r.failed| == |c.converted| + |c.failed| + (if IsHeicFile(heicPath) then 1 else 0)
            && c.converted <= r.converted && c.failed <= r.failed
  {
  }

  /** The converter after converting each path of `paths` in turn. */
  function ConvertEach(c: Converter, env: Environment, paths: seq<string>,
                       outputDir: Option<string>): Converter
    decreases |paths|
  {
    if paths == [] then c
    else ConvertEach(Convert(c, env, paths[0], outputDir).0, env, paths[1..], outputDir)
  }

  function CountHeic(paths: seq<string>): nat {
    if paths == [] then 0
    else (if IsHeicFile(paths[0]) then 1 else 0) + CountHeic(paths[1..])
  }

  /** Over any run of conversions the lists only grow, by one entry per
      HEIC source. */
  lemma {:induction false} ConvertEachGrows(c: Converter, env: Environment, paths: seq<string>,
                                            outputDir: Option<string>)
    ensures var r := ConvertEach(c, env, paths, outputDir);
            && |r.converted| + |r.failed| == |c.converted| + |c.failed| + CountHeic(paths)
            && c.converted <= r.converted && c.failed <= r.failed
    decreases |paths|
  {
    if paths != [] {
      var c' := Convert(c, env, paths[0], outputDir).0;
      assert ConvertEach(c, env, paths, outputDir) == ConvertEach(c', env, paths[1..], outputDir);
      ConvertGrows(c, env, paths[0], outputDir);
      ConvertEachGrows(c', env, paths[1..], outputDir);
    }
  }

  /** Any run of conversions keeps a converter consistent. */
  lemma {:induction false} ConvertEachConsistent(c: Converter, env: Environment, paths: seq<string>,
                                                 outputDir: Option<string>)
    requires Consistent(c)
    ensures Consistent(ConvertEach(c, env, paths, outputDir))
    decreases |paths|
  {
    if paths != [] {
      var c' := Convert(c, env, paths[0], outputDir).0;
      assert ConvertEach(c, env, paths, outputDir) == ConvertEach(c', env, paths[1..], outputDir);
      ConvertKeepsConsistent(c, env, paths[0], outputDir);
      ConvertEachConsistent(c', env, paths[1..], outputDir);
    }
  }
}
