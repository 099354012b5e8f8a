/** The batch driver `imageoptimize`. It finds the JPEG and PNG files under
    a source directory and optimizes each into the output directory, and
    into the AVIF and WebP versions the command line asks for. Each
    optimization is a `load`, `optim`, `diff` task list handed to the
    pipeline. Globbing is a parameter. The file system, timing and printing
    are not modelled. */
module ImageOptimize {
  import opened Common
  import opened Text
  import opened ImageProcessing

  // ---------------------------------------------------------------------
  // The command line

  /** `--format`: a kind of source file to look for. */
  datatype FileFormat = JpegFiles | JpgFiles | PngFiles

  /** The file extensions a format stands for. */
  function Extensions(f: FileFormat): seq<string> {
    match f
    case JpegFiles => ["jpeg"]
    case JpgFiles => ["jpg"]
    case PngFiles => ["png"]
  }

  const DEFAULT_FORMATS: seq<FileFormat> := [JpegFiles, JpgFiles, PngFiles]

  /** `--convert`: an extra format to write files of one source type in. */
  datatype ConvertFormat = JpegAvif | JpegWebp | PngAvif | PngWebp | Disable

  const DEFAULT_CONVERTS: seq<ConvertFormat> := [JpegAvif, JpegWebp, PngAvif, PngWebp]

  /** The (source type, target extension) pair a choice names; none for `disable`. */
  function Conversion(c: ConvertFormat): Option<(string, string)> {
    match c
    case JpegAvif => Some((IMAGE_TYPE_JPEG, IMAGE_TYPE_AVIF))
    case JpegWebp => Some((IMAGE_TYPE_JPEG, IMAGE_TYPE_WEBP))
    case PngAvif => Some((IMAGE_TYPE_PNG, IMAGE_TYPE_AVIF))
    case PngWebp => Some((IMAGE_TYPE_PNG, IMAGE_TYPE_WEBP))
    case Disable => None
  }

  /** The parsed command line. The qualities are 90 (PNG), 80 (JPEG) and 80
      (AVIF) when not given. */
  datatype Args = Args(
    source: Option<string>,
    sourceArg: Option<string>,
    output: Option<string>,
    format: Option<seq<FileFormat>>,
    overwrite: bool,
    convert: Option<seq<ConvertFormat>>,
    pngQuality: u8,
    jpegQuality: u8,
    avifQuality: u8)

  const DEFAULT_PNG_QUALITY: u8 := 90
  const DEFAULT_JPEG_QUALITY: u8 := 80
  const DEFAULT_AVIF_QUALITY: u8 := 80

  /** `imageoptimize <source>` with nothing else given. */
  function SourceOnly(source: string): Args {
    Args(None, Some(source), None, None, false, None,
         DEFAULT_PNG_QUALITY, DEFAULT_JPEG_QUALITY, DEFAULT_AVIF_QUALITY)
  }

  const USAGE: string := "imageoptimize: try 'imageoptimize -h' or 'imageoptimize --help' for more information"
  const EMPTY_OUTPUT: string := "imageoptimize: output path is empty"

  /** The source directory and the output directory. The source is
      `--source`, else the positional argument. The output is `--output`,
      else the source itself under `--overwrite`, else empty. A missing
      source or an empty output ends the program with a message. */
  function Paths(args: Args): (r: Result<(string, string), string>)
    ensures args.source.None? && args.sourceArg.None? ==> r == Err(USAGE)
    ensures r.Err? ==> r.error == USAGE || r.error == EMPTY_OUTPUT
    ensures r.Ok? ==> r.value.1 != ""
    ensures r.Ok? ==> Some(r.value.0) == (if args.source.Some? then args.source else args.sourceArg)
    ensures r.Ok? && args.output.None? ==> args.overwrite && r.value.1 == r.value.0
    ensures r.Ok? && args.output.Some? ==> r.value.1 == args.output.value
    ensures args.source.Some? || args.sourceArg.Some? ==>
      (r == Err(EMPTY_OUTPUT) <==>
        (if args.output.Some? then args.output.value == ""
         else !args.overwrite || (if args.source.Some? then args.source else args.sourceArg).value == ""))
  {
    match args.source
    case None => (
      match args.sourceArg
      case None => Err(USAGE)
      case Some(source) => WithOutput(args, source))
    case Some(source) => WithOutput(args, source)
  }

  /** The output directory that goes with `source`. */
  function WithOutput(args: Args, source: string): Result<(string, string), string> {
    var output := match args.output
      case Some(o) => o
      case None => if args.overwrite then source else "";
    if output == "" then Err(EMPTY_OUTPUT) else Ok((source, output))
  }

  /** Without `--output` or `--overwrite` there is nowhere to write. */
  lemma SourceOnlyHasNoOutput(source: string)
    ensures Paths(SourceOnly(source)) == Err(EMPTY_OUTPUT)
  {
  }

  // ---------------------------------------------------------------------
  // The extension list

  /** The extensions of the chosen formats, in order (`flat_map`). */
  function FlatExtensions(formats: seq<FileFormat>): (exts: seq<string>)
    ensures forall e :: e in exts <==> exists i :: 0 <= i < |formats| && e in Extensions(formats[i])
  {
    if |formats| == 0 then []
    else
      var init := formats[..|formats| - 1];
      assert forall i :: 0 <= i < |init| ==> init[i] == formats[i];
      FlatExtensions(init) + Extensions(formats[|formats| - 1])
  }

  /** Ascending in Rust's string order, repeats allowed. */
  predicate Sorted(s: seq<string>) {
    forall i, j :: 0 <= i < j < |s| ==> !Less(s[j], s[i])
  }

  /** Ascending in Rust's string order, without repeats. */
  predicate StrictlySorted(s: seq<string>) {
    forall i, j :: 0 <= i < j < |s| ==> Less(s[i], s[j])
  }

  /** `x` placed before the first element it is not above. */
  function Insert(s: seq<string>, x: string): seq<string> {
    if |s| == 0 || !Less(s[0], x) then [x] + s
    else [s[0]] + Insert(s[1..], x)
  }

  /** In a sorted list, no element is below a value the first element is not below. */
  lemma NotBelowFirst(s: seq<string>, x: string, k: nat)
    requires Sorted(s) && |s| > 0 && !Less(s[0], x) && k < |s|
    ensures !Less(s[k], x)
  {
    if s[0] != s[k] {
      LessTotal(s[0], s[k]);
      if Less(s[k], x) {
        LessTransitive(s[0], s[k], x);
      }
    }
  }

  /** Inserting into a sorted list keeps it sorted and adds exactly `x`. */
  lemma {:induction false} InsertSorted(s: seq<string>, x: string)
    requires Sorted(s)
    ensures Sorted(Insert(s, x))
    ensures multiset(Insert(s, x)) == multiset(s) + multiset{x}
  {
    if |s| == 0 {
    } else if !Less(s[0], x) {
      var r := [x] + s;
      forall i, j | 0 <= i < j < |r|
        ensures !Less(r[j], r[i])
      {
        if i == 0 {
          NotBelowFirst(s, x, j - 1);
        }
      }
    } else {
      var rest := s[1..];
      InsertSorted(rest, x);
      var t := Insert(rest, x);
      var r := [s[0]] + t;
      forall i, j | 0 <= i < j < |r|
        ensures !Less(r[j], r[i])
      {
        if i == 0 {
          assert r[j] == t[j - 1];
          assert r[j] in multiset(t);
          if r[j] == x {
            LessAsymmetric(s[0], x);
          } else {
            assert r[j] in multiset(rest);
            var k :| 0 <= k < |rest| && rest[k] == r[j];
            assert s[k + 1] == r[j];
          }
        }
      }
      assert s == [s[0]] + rest;
    }
  }

  /** `sort()`: the same strings, ascending. */
  function SortStrings(xs: seq<string>): (ys: seq<string>)
    ensures Sorted(ys)
    ensures multiset(ys) == multiset(xs)
  {
    if |xs| == 0 then []
    else
      var init := SortStrings(xs[..|xs| - 1]);
      InsertSorted(init, xs[|xs| - 1]);
      assert xs == xs[..|xs| - 1] + [xs[|xs| - 1]];
      Insert(init, xs[|xs| - 1])
  }

  /** Appending a value above the last element of a strictly ascending list keeps it strictly ascending. */
  lemma AppendAbove(s: seq<string>, x: string)
    requires StrictlySorted(s) && |s| > 0 && Less(s[|s| - 1], x)
    ensures StrictlySorted(s + [x])
  {
    var r := s + [x];
    forall i, j | 0 <= i < j < |r|
      ensures Less(r[i], r[j])
    {
      if j == |s| && i < |s| - 1 {
        LessTransitive(s[i], s[|s| - 1], x);
      }
    }
  }

  /** `dedup()`: runs of equal neighbours collapsed into one. The same
      strings remain, no two neighbours are equal, and a sorted list becomes
      strictly ascending. */
  function Dedup(xs: seq<string>): (ys: seq<string>)
    ensures forall e :: e in ys <==> e in xs
    ensures forall i :: 0 <= i < |ys| - 1 ==> ys[i] != ys[i + 1]
    ensures |ys| <= |xs|
    ensures |xs| > 0 ==> |ys| > 0 && ys[|ys| - 1] == xs[|xs| - 1]
    ensures Sorted(xs) ==> StrictlySorted(ys)
  {
    if |xs| <= 1 then xs
    else
      var n := |xs|;
      var init := Dedup(xs[..n - 1]);
      assert xs == xs[..n - 1] + [xs[n - 1]];
      assert xs[..n - 1][n - 2] == xs[n - 2];
      if xs[n - 1] == xs[n - 2] then init
      else
        assert Sorted(xs) ==> Sorted(xs[..n - 1]);
        if Sorted(xs) then
          LessTotal(xs[n - 2], xs[n - 1]);
          AppendAbove(init, xs[n - 1]);
          init + [xs[n - 1]]
        else init + [xs[n - 1]]
  }

  /** The extensions searched for: those of the chosen formats, each once,
      in ascending order. */
  function ExtensionList(formats: seq<FileFormat>): (exts: seq<string>)
    ensures StrictlySorted(exts)
    ensures forall e :: e in exts <==> e in FlatExtensions(formats)
    ensures forall e :: e in exts <==> exists i :: 0 <= i < |formats| && e in Extensions(formats[i])
  {
    var flat := FlatExtensions(formats);
    var sorted := SortStrings(flat);
    assert forall e :: e in sorted <==> e in flat by {
      forall e
        ensures e in sorted <==> e in flat
      {
        assert e in sorted <==> e in multiset(sorted);
        assert e in flat <==> e in multiset(flat);
      }
    }
    Dedup(sorted)
  }

  /** The extension list is the strictly ascending list of the chosen
      formats' extensions. */
  lemma ExtensionListIs(formats: seq<FileFormat>, expected: seq<string>)
    requires StrictlySorted(expected)
    requires forall e :: e in FlatExtensions(formats) <==> e in expected
    ensures ExtensionList(formats) == expected
  {
    StrictlySortedUnique(ExtensionList(formats), expected);
  }

  lemma DefaultFlatExtensions()
    ensures FlatExtensions(DEFAULT_FORMATS) == ["jpeg", "jpg", "png"]
  {
    var formats := DEFAULT_FORMATS;
    assert formats[..2][..1][..0] == [];
    assert formats[..2][..1] == [JpegFiles];
    assert formats[..2] == [JpegFiles, JpgFiles];
    assert FlatExtensions(formats[..2][..1]) == ["jpeg"];
    assert FlatExtensions(formats[..2]) == ["jpeg", "jpg"];
  }

  /** With no `--format`, the search is for `jpeg`, `jpg` and `png` files, in that order. */
  lemma DefaultExtensionList()
    ensures ExtensionList(DEFAULT_FORMATS) == ["jpeg", "jpg", "png"]
  {
    DefaultFlatExtensions();
    assert Less("jpeg", "jpg") && Less("jpg", "png") && Less("jpeg", "png");
    ExtensionListIs(DEFAULT_FORMATS, ["jpeg", "jpg", "png"]);
  }

  /** Two strictly ascending lists with the same elements are equal. */
  lemma {:induction false} StrictlySortedUnique(a: seq<string>, b: seq<string>)
    requires StrictlySorted(a) && StrictlySorted(b)
    requires forall e :: e in a <==> e in b
    ensures a == b
  {
    if |a| > 0 {
      assert a[0] in a;
    }
    if |b| > 0 {
      assert b[0] in b;
    }
    if |a| > 0 && |b| > 0 {
      // Both first elements are the least element, so they are equal.
      var ia :| 0 <= ia < |a| && a[ia] == b[0];
      var ib :| 0 <= ib < |b| && b[ib] == a[0];
      if ia > 0 && ib > 0 {
        LessAsymmetric(a[0], b[0]);
      }
      forall e
        ensures e in a[1..] <==> e in b[1..]
      {
        if e in a[1..] {
          var k :| 0 <= k < |a[1..]| && a[1..][k] == e;
          assert Less(a[0], a[k + 1]);
          assert e in a;
          var j :| 0 <= j < |b| && b[j] == e;
          if j == 0 {
            LessIrreflexive(e);
          }
          assert b[1..][j - 1] == e;
        }
        if e in b[1..] {
          var k :| 0 <= k < |b[1..]| && b[1..][k] == e;
          assert Less(b[0], b[k + 1]);
          assert e in b;
          var i :| 0 <= i < |a| && a[i] == e;
          if i == 0 {
            LessIrreflexive(e);
          }
          assert a[1..][i - 1] == e;
        }
      }
      StrictlySortedUnique(a[1..], b[1..]);
      assert a == [a[0]] + a[1..] && b == [b[0]] + b[1..];
    }
  }

  // ---------------------------------------------------------------------
  // The convert map

  /** The target extensions the choices list for source type `source`, in
      the order given. */
  function TargetsOf(converts: seq<ConvertFormat>, source: string): (targets: seq<string>)
    ensures |targets| <= |converts|
    ensures forall i :: 0 <= i < |targets| ==> targets[i] == IMAGE_TYPE_AVIF || targets[i] == IMAGE_TYPE_WEBP
    ensures targets != [] ==> source == IMAGE_TYPE_JPEG || source == IMAGE_TYPE_PNG
  {
    if |converts| == 0 then []
    else
      var init := TargetsOf(converts[..|converts| - 1], source);
      match Conversion(converts[|converts| - 1])
      case Some(pair) => if pair.0 == source then init + [pair.1] else init
      case None => init
  }

  /** The convert map: each source type with targets, mapped to them. */
  function ConvertTable(converts: seq<ConvertFormat>): (m: map<string, seq<string>>)
    ensures forall source :: source in m <==> TargetsOf(converts, source) != []
    ensures forall source :: source in m ==> m[source] == TargetsOf(converts, source)
  {
    map source | source in {IMAGE_TYPE_JPEG, IMAGE_TYPE_PNG} && TargetsOf(converts, source) != [] ::
      TargetsOf(converts, source)
  }

  /** Building `convert_extensions`: each choice appends its target to its
      source type's list, creating the list on first use; `disable` adds
      nothing. */
  method ConvertMap(converts: seq<ConvertFormat>) returns (m: map<string, seq<string>>)
    ensures m == ConvertTable(converts)
  {
    m := map[];
    for i := 0 to |converts|
      invariant forall source :: source in m <==> TargetsOf(converts[..i], source) != []
      invariant forall source :: source in m ==> m[source] == TargetsOf(converts[..i], source)
    {
      assert converts[..i + 1][..i] == converts[..i];
      match Conversion(converts[i]) {
        case None =>
        case Some(pair) =>
          var (source, target) := pair;
          if source in m {
            m := m[source := m[source] + [target]];
          } else {
            m := m[source := [target]];
          }
      }
    }
    assert converts[..|converts|] == converts;
    var table := ConvertTable(converts);
    assert m.Keys == table.Keys;
  }

  /** A `disable` anywhere among the choices changes nothing. */
  lemma {:induction false} DisableIgnored(before: seq<ConvertFormat>, after: seq<ConvertFormat>, source: string)
    ensures TargetsOf(before + [Disable] + after, source) == TargetsOf(before + after, source)
  {
    var with := before + [Disable] + after;
    var without := before + after;
    if |after| == 0 {
      assert with[..|with| - 1] == without;
    } else {
      var init := after[..|after| - 1];
      DisableIgnored(before, init, source);
      assert with[..|with| - 1] == before + [Disable] + init;
      assert without[..|without| - 1] == before + init;
      assert with[|with| - 1] == without[|without| - 1];
    }
  }

  /** `TargetsOf` one choice further on. */
  lemma TargetsOfSnoc(converts: seq<ConvertFormat>, c: ConvertFormat, source: string)
    ensures TargetsOf(converts + [c], source) ==
      TargetsOf(converts, source) +
      (if Conversion(c).Some? && Conversion(c).value.0 == source then [Conversion(c).value.1] else [])
  {
    assert (converts + [c])[..|converts|] == converts;
  }

  /** With the default choices, JPEG and PNG files both get AVIF, then WebP. */
  lemma DefaultTargets(source: string)
    ensures TargetsOf(DEFAULT_CONVERTS, source) ==
      if source == IMAGE_TYPE_JPEG || source == IMAGE_TYPE_PNG then [IMAGE_TYPE_AVIF, IMAGE_TYPE_WEBP] else []
  {
    var none: seq<ConvertFormat> := [];
    TargetsOfSnoc(none, JpegAvif, source);
    TargetsOfSnoc([JpegAvif], JpegWebp, source);
    TargetsOfSnoc([JpegAvif, JpegWebp], PngAvif, source);
    TargetsOfSnoc([JpegAvif, JpegWebp, PngAvif], PngWebp, source);
    assert none + [JpegAvif] == [JpegAvif];
    assert [JpegAvif] + [JpegWebp] == [JpegAvif, JpegWebp];
    assert [JpegAvif, JpegWebp] + [PngAvif] == [JpegAvif, JpegWebp, PngAvif];
    assert [JpegAvif, JpegWebp, PngAvif] + [PngWebp] == DEFAULT_CONVERTS;
  }

  /** The default convert map. */
  lemma DefaultConvertTable()
    ensures ConvertTable(DEFAULT_CONVERTS) ==
      map[IMAGE_TYPE_JPEG := [IMAGE_TYPE_AVIF, IMAGE_TYPE_WEBP], IMAGE_TYPE_PNG := [IMAGE_TYPE_AVIF, IMAGE_TYPE_WEBP]]
  {
    var m := ConvertTable(DEFAULT_CONVERTS);
    forall source
      ensures TargetsOf(DEFAULT_CONVERTS, source) ==
        if source == IMAGE_TYPE_JPEG || source == IMAGE_TYPE_PNG then [IMAGE_TYPE_AVIF, IMAGE_TYPE_WEBP] else []
    {
      DefaultTargets(source);
    }
    assert m.Keys == {IMAGE_TYPE_JPEG, IMAGE_TYPE_PNG};
  }

  // ---------------------------------------------------------------------
  // Paths (Rust's `Path`, for paths without trailing separators)

  /** The special components `.` and `..`. */
  predicate IsDots(name: string) {
    (|name| == 1 && name[0] == '.') || (|name| == 2 && name[0] == '.' && name[1] == '.')
  }

  /** Where the last component of a path starts: after its last `/`. */
  function NameStart(path: string): (i: nat)
    ensures i <= |path|
  {
    LastIndex(path, '/') + 1
  }

  /** `Path::file_name`: the last component; none for an empty one, `.` or `..`. */
  function FileName(path: string): (r: Option<string>)
    ensures r.Some? ==> r.value == path[NameStart(path)..]
  {
    var name := path[NameStart(path)..];
    if |name| == 0 || IsDots(name) then None else Some(name)
  }

  /** A path is its directory part, empty or ending in `/`, followed by a
      last component without `/`. */
  lemma PathParts(path: string)
    ensures var i := NameStart(path);
      path == path[..i] + path[i..] && '/' !in path[i..] && (i == 0 || path[i - 1] == '/')
  {
    var i := NameStart(path);
    assert forall j :: 0 <= j < |path[i..]| ==> path[i..][j] == path[i + j];
  }

  /** Rust's `split_file_at_dot`: a file name as its stem and, when a `.`
      follows its first char, the extension after the last `.`. */
  function SplitAtDot(name: string): (r: (string, Option<string>))
    ensures r.1.None? ==> r.0 == name
    ensures r.1.Some? ==> name == r.0 + "." + r.1.value && r.0 != "" && '.' !in r.1.value
  {
    var k := LastIndex(name, '.');
    if (|name| == 2 && IsDots(name)) || k <= 0 then (name, None)
    else
      assert name == name[..k] + "." + name[k + 1..];
      (name[..k], Some(name[k + 1..]))
  }

  /** `Path::extension`. */
  function Extension(path: string): (r: Option<string>)
    ensures r.Some? ==> '.' !in r.value && '/' !in r.value
  {
    match FileName(path)
    case None => None
    case Some(name) => SplitAtDot(name).1
  }

  /** `Path::with_extension`: the path cut right after the file stem, then
      `.ext` unless `ext` is empty; a path without a file name is kept. */
  function WithExtension(path: string, ext: string): string {
    match FileName(path)
    case None => path
    case Some(name) =>
      path[..NameStart(path)] + SplitAtDot(name).0 + (if ext == "" then "" else "." + ext)
  }

  /** The last `c` of `u + t` is the last char of `u` when `t` has no `c`
      and `u` ends with `c`; there is none when `u` is empty too. */
  lemma LastIndexAfter(u: string, t: string, c: char)
    requires c !in t
    requires |u| == 0 || u[|u| - 1] == c
    ensures LastIndex(u + t, c) == |u| - 1
  {
    var s := u + t;
    var k := LastIndex(s, c);
    assert forall i :: |u| <= i < |s| ==> s[i] == t[i - |u|];
    if |u| > 0 {
      assert s[|u| - 1] == c;
    }
  }

  /** A name without separators after a directory part is the file name. */
  lemma FileNameAfter(dir: string, name: string)
    requires |dir| == 0 || dir[|dir| - 1] == '/'
    requires '/' !in name && |name| > 0 && !IsDots(name)
    ensures FileName(dir + name) == Some(name)
  {
    LastIndexAfter(dir, name, '/');
    assert (dir + name)[|dir|..] == name;
  }

  /** A stem, a dot and a dot-free extension split back into the two. */
  lemma SplitAtDotAfter(stem: string, ext: string)
    requires stem != "" && ext != "" && '.' !in ext
    ensures SplitAtDot(stem + "." + ext) == (stem, Some(ext))
  {
    var name := stem + "." + ext;
    LastIndexAfter(stem + ".", ext, '.');
    assert name == (stem + ".") + ext;
    assert name[..|stem|] == stem && name[|stem| + 1..] == ext;
  }

  /** The stem of a name is a prefix of it, and is empty only for an empty name. */
  lemma StemPrefix(name: string)
    ensures var stem := SplitAtDot(name).0;
      |stem| <= |name| && stem == name[..|stem|] && (name != "" ==> stem != "")
  {
  }

  /** With a file name and a non-empty extension, the new path is the
      directory part, the stem, a dot and the extension. */
  lemma WithExtensionShape(path: string, ext: string)
    requires FileName(path).Some? && ext != ""
    ensures WithExtension(path, ext)
      == path[..NameStart(path)] + (SplitAtDot(FileName(path).value).0 + "." + ext)
  {
  }

  /** A path given an extension has that extension, and keeps its directory
      and stem. */
  lemma WithExtensionRoundTrip(path: string, ext: string)
    requires FileName(path).Some?
    requires ext != "" && '.' !in ext && '/' !in ext
    ensures Extension(WithExtension(path, ext)) == Some(ext)
    ensures FileName(WithExtension(path, ext)) == Some(SplitAtDot(FileName(path).value).0 + "." + ext)
  {
    var i := NameStart(path);
    var name := FileName(path).value;
    PathParts(path);
    StemPrefix(name);
    var stem := SplitAtDot(name).0;
    var newName := stem + "." + ext;
    assert forall j :: 0 <= j < |stem| ==> stem[j] == name[j];
    assert '/' !in newName;
    WithExtensionShape(path, ext);
    FileNameAfter(path[..i], newName);
    SplitAtDotAfter(stem, ext);
  }

  // ---------------------------------------------------------------------
  // The jobs

  /** One optimization: the file to read and the path to write. */
  datatype Job = Job(file: string, target: string)

  /** The source type of a found file: PNG for a `.png` file, JPEG otherwise. */
  function ImageType(path: string): (t: string)
    ensures t == IMAGE_TYPE_PNG <==> Extension(path) == Some(IMAGE_TYPE_PNG)
    ensures t != IMAGE_TYPE_PNG ==> t == IMAGE_TYPE_JPEG
  {
    if Extension(path).GetOr("") == IMAGE_TYPE_PNG then IMAGE_TYPE_PNG else IMAGE_TYPE_JPEG
  }

  /** Where a found file is written: the file itself when the output is the
      source, otherwise the path with every occurrence of the source replaced
      by the output. The shortcut agrees with the replacement. */
  function TargetPath(path: string, source: string, output: string): (target: string)
    ensures target == Replace(path, source, output)
    ensures source == output ==> target == path
  {
    if source == output then
      ReplaceBySelf(path, source);
      path
    else Replace(path, source, output)
  }

  /** The extra extensions a found file is converted to. */
  function ConversionsFor(convert: map<string, seq<string>>, path: string): seq<string> {
    var t := ImageType(path);
    if t in convert then convert[t] else []
  }

  /** `target` given each extension of `exts`, in order. */
  function Retargeted(target: string, exts: seq<string>): (targets: seq<string>)
    ensures |targets| == |exts|
    ensures forall i :: 0 <= i < |exts| ==> targets[i] == WithExtension(target, exts[i])
  {
    if |exts| == 0 then []
    else Retargeted(target, exts[..|exts| - 1]) + [WithExtension(target, exts[|exts| - 1])]
  }

  /** The jobs reading `file`: one per extension of `conv`, in order, into
      `target` given that extension, then one into `target` itself. */
  function JobsOf(file: string, target: string, conv: seq<string>): (jobs: seq<Job>)
    ensures |jobs| == |conv| + 1
    ensures forall i :: 0 <= i < |jobs| ==> jobs[i].file == file
    ensures forall i :: 0 <= i < |conv| ==> jobs[i].target == WithExtension(target, conv[i])
    ensures jobs[|conv|].target == target
  {
    var targets := Retargeted(target, conv) + [target];
    seq(|targets|, i requires 0 <= i < |targets| => Job(file, targets[i]))
  }

  /** The jobs for one found file: one per extra extension of its source
      type, in the map's order, then the file optimized into its own target. */
  function FileJobsOf(path: string, source: string, output: string, convert: map<string, seq<string>>): seq<Job> {
    JobsOf(path, TargetPath(path, source, output), ConversionsFor(convert, path))
  }

  /** When the target has a file name, each converted job's target carries
      its extension (AVIF or WebP); the last job writes the target itself. */
  lemma ConvertedTargets(file: string, target: string, conv: seq<string>)
    requires FileName(target).Some?
    requires forall e :: e in conv ==> e == IMAGE_TYPE_AVIF || e == IMAGE_TYPE_WEBP
    ensures var jobs := JobsOf(file, target, conv);
      (forall i :: 0 <= i < |conv| ==> Extension(jobs[i].target) == Some(conv[i])) &&
      jobs[|conv|] == Job(file, target)
  {
    var jobs := JobsOf(file, target, conv);
    forall i | 0 <= i < |conv|
      ensures Extension(jobs[i].target) == Some(conv[i])
    {
      assert conv[i] in conv;
      ConvertedTargetAt(file, target, conv, i);
    }
  }

  /** The conversion targets are plain extensions. */
  lemma PlainExtension(e: string)
    requires e == IMAGE_TYPE_AVIF || e == IMAGE_TYPE_WEBP
    ensures e != "" && '.' !in e && '/' !in e
  {
  }

  lemma ConvertedTargetAt(file: string, target: string, conv: seq<string>, i: nat)
    requires FileName(target).Some? && i < |conv|
    requires conv[i] == IMAGE_TYPE_AVIF || conv[i] == IMAGE_TYPE_WEBP
    ensures Extension(JobsOf(file, target, conv)[i].target) == Some(conv[i])
  {
    PlainExtension(conv[i]);
    WithExtensionRoundTrip(target, conv[i]);
  }

  /** The targets of one found file, built as `main` builds them: `target`
      given each extra extension in turn, then `target` itself. */
  method TargetList(target: string, exts: seq<string>) returns (targets: seq<string>)
    ensures targets == Retargeted(target, exts) + [target]
  {
    targets := [];
    for i := 0 to |exts|
      invariant targets == Retargeted(target, exts[..i])
    {
      assert exts[..i + 1][..i] == exts[..i];
      targets := targets + [WithExtension(target, exts[i])];
    }
    assert exts[..|exts|] == exts;
    targets := targets + [target];
  }

  /** A job reading `file` for each target, in order. */
  method JobList(file: string, targets: seq<string>) returns (jobs: seq<Job>)
    ensures |jobs| == |targets|
    ensures forall k :: 0 <= k < |targets| ==> jobs[k] == Job(file, targets[k])
  {
    jobs := [];
    for i := 0 to |targets|
      invariant |jobs| == i
      invariant forall k :: 0 <= k < i ==> jobs[k] == Job(file, targets[k])
    {
      jobs := jobs + [Job(file, targets[i])];
    }
  }

  /** The jobs for one found file, built as `main` builds them: its source
      type and target, the list of targets, then a job per target. */
  method FileJobs(path: string, source: string, output: string, convert: map<string, seq<string>>) returns (jobs: seq<Job>)
    ensures jobs == FileJobsOf(path, source, output, convert)
  {
    var ext := Extension(path).GetOr("");
    var imageType := if ext == IMAGE_TYPE_PNG then IMAGE_TYPE_PNG else IMAGE_TYPE_JPEG;
    var target := if source == output then path else Replace(path, source, output);
    var conv := if imageType in convert then convert[imageType] else [];
    assert target == TargetPath(path, source, output);
    assert conv == ConversionsFor(convert, path);
    var targets := TargetList(target, conv);
    jobs := JobList(path, targets);
  }

  /** Globbing: the entries a pattern matches, in order, each `None` when it
      cannot be read; `None` for an invalid pattern. */
  type Glob = string -> Option<seq<Option<string>>>

  /** The pattern searched for one extension. */
  function Pattern(source: string, ext: string): string {
    source + "/**/*." + ext
  }

  /** The jobs for a list of glob entries; unreadable entries are skipped. */
  function EntryJobs(entries: seq<Option<string>>, source: string, output: string, convert: map<string, seq<string>>): seq<Job> {
    if |entries| == 0 then []
    else
      EntryJobs(entries[..|entries| - 1], source, output, convert) +
      (match entries[|entries| - 1]
       case None => []
       case Some(path) => FileJobsOf(path, source, output, convert))
  }

  /** The jobs for each extension in turn; an invalid pattern is skipped. */
  function ExtJobs(exts: seq<string>, source: string, output: string, convert: map<string, seq<string>>, glob: Glob): seq<Job> {
    if |exts| == 0 then []
    else
      ExtJobs(exts[..|exts| - 1], source, output, convert, glob) +
      (match glob(Pattern(source, exts[|exts| - 1]))
       case None => []
       case Some(entries) => EntryJobs(entries, source, output, convert))
  }

  /** The jobs for the entries of one pattern, in order. */
  method EntryJobList(entries: seq<Option<string>>, source: string, output: string, convert: map<string, seq<string>>)
    returns (jobs: seq<Job>)
    ensures jobs == EntryJobs(entries, source, output, convert)
  {
    jobs := [];
    for j := 0 to |entries|
      invariant jobs == EntryJobs(entries[..j], source, output, convert)
    {
      assert entries[..j + 1][..j] == entries[..j];
      match entries[j] {
        case None =>
        case Some(path) =>
          var fileJobs := FileJobs(path, source, output, convert);
          jobs := jobs + fileJobs;
      }
    }
    assert entries[..|entries|] == entries;
  }

  /** Everything `main` decides before optimizing: the paths, the extension
      list, the convert map and the jobs, in order. */
  function PlanOf(args: Args, glob: Glob): (r: Result<seq<Job>, string>)
    ensures r.Err? <==> Paths(args).Err?
    ensures r.Err? ==> r.error == Paths(args).error
  {
    var paths :- Paths(args);
    var exts := ExtensionList(args.format.GetOr(DEFAULT_FORMATS));
    Ok(ExtJobs(exts, paths.0, paths.1, ConvertTable(args.convert.GetOr(DEFAULT_CONVERTS)), glob))
  }

  /** `main` up to the optimizations: settle the paths, list the extensions,
      build the convert map, then collect the jobs of every file found. */
  method Plan(args: Args, glob: Glob) returns (r: Result<seq<Job>, string>)
    ensures r == PlanOf(args, glob)
  {
    var paths :- Paths(args);
    var source, output := paths.0, paths.1;
    var exts := ExtensionList(args.format.GetOr(DEFAULT_FORMATS));
    var convert := ConvertMap(args.convert.GetOr(DEFAULT_CONVERTS));
    var jobs: seq<Job> := [];
    for i := 0 to |exts|
      invariant jobs == ExtJobs(exts[..i], source, output, convert, glob)
    {
      assert exts[..i + 1][..i] == exts[..i];
      var found := glob(Pattern(source, exts[i]));
      if found.Some? {
        var entryJobs := EntryJobList(found.value, source, output, convert);
        jobs := jobs + entryJobs;
      }
    }
    assert exts[..|exts|] == exts;
    r := Ok(jobs);
  }

  // ---------------------------------------------------------------------
  // One optimization

  /** The quality for each output format; WebP's is always 0. */
  datatype Qualities = Qualities(avif: u8, webp: u8, png: u8, jpeg: u8)

  function QualitiesOf(args: Args): Qualities {
    Qualities(args.avifQuality, 0, args.pngQuality, args.jpegQuality)
  }

  /** The output type of a target: the text after its last `.`, or all of it. */
  function OutputType(target: string): string {
    LastSegment(target, '.')
  }

  /** The quality for an output type: AVIF, WebP and PNG have their own,
      anything else is written as JPEG with the JPEG quality. */
  function QualityFor(outputType: string, q: Qualities): u8 {
    if outputType == IMAGE_TYPE_AVIF then q.avif
    else if outputType == IMAGE_TYPE_WEBP then q.webp
    else if outputType == IMAGE_TYPE_PNG then q.png
    else q.jpeg
  }

  /** The pipeline tasks for a job: load the file, optimize into the
      target's type at its quality with speed 0, score the difference. */
  function OptimizeTasks(job: Job, q: Qualities): (tasks: seq<seq<string>>)
    ensures |tasks| == 3 && |tasks[1]| == 4
    ensures tasks[0] == [PROCESS_LOAD, FILE_PREFIX + job.file] && tasks[2] == [PROCESS_DIFF]
    ensures tasks[1][0] == PROCESS_OPTIM && tasks[1][1] == OutputType(job.target)
  {
    var outputType := OutputType(job.target);
    [[PROCESS_LOAD, FILE_PREFIX + job.file],
     [PROCESS_OPTIM, outputType, NatToString(QualityFor(outputType, q)), "0"],
     [PROCESS_DIFF]]
  }

  /** A `file://` data string is read from the file after the prefix. */
  lemma FileSourceIsRead(file: string)
    ensures Classify(FILE_PREFIX + file) == File(file)
  {
    var data := FILE_PREFIX + file;
    assert data[0] == 'f';
    assert !StartsWith(data, "http");
    assert data[..|FILE_PREFIX|] == FILE_PREFIX;
  }

  lemma LoadStep(img: ProcessImage, file: string, rule: Adoption, env: Env)
    ensures Step(img, [PROCESS_LOAD, FILE_PREFIX + file], rule, env) == LoadTask([FILE_PREFIX + file], env)
  {
    assert [PROCESS_LOAD, FILE_PREFIX + file][1..] == [FILE_PREFIX + file];
  }

  /** The quality and speed printed into an `optim` task are read back unchanged. */
  lemma OptimStep(img: ProcessImage, outputType: string, quality: u8, rule: Adoption, env: Env)
    ensures Step(img, [PROCESS_OPTIM, outputType, NatToString(quality), "0"], rule, env) == OptimUnder(rule, img, outputType, quality, 0, env)
  {
    ParseU8OfNatToString(quality);
    ParseU8OfNatToString(0);
    assert NatToString(0) == "0";
    assert [PROCESS_OPTIM, outputType, NatToString(quality), "0"][1..] == [outputType, NatToString(quality), "0"];
  }

  lemma DiffStep(img: ProcessImage, rule: Adoption, env: Env)
    ensures Step(img, [PROCESS_DIFF], rule, env) == Ok(img.(diff := GetDiff(img, env)))
  {
  }

  /** `RunFrom` over three tasks. */
  lemma RunThree(img: ProcessImage, a: seq<string>, b: seq<string>, c: seq<string>, rule: Adoption, env: Env)
    ensures RunFrom(img, [a, b, c], rule, env) ==
      (var first :- Step(img, a, rule, env);
       var second :- Step(first, b, rule, env);
       Step(second, c, rule, env))
  {
    var tasks := [a, b, c];
    assert tasks[0..] == tasks;
    RunFromAt(img, tasks, 0, rule, env);
    match Step(img, a, rule, env)
    case Err(_) =>
    case Ok(first) =>
      RunFromAt(first, tasks, 1, rule, env);
      match Step(first, b, rule, env)
      case Err(_) =>
      case Ok(second) =>
        RunFromAt(second, tasks, 2, rule, env);
        assert tasks[3..] == [];
  }

  /** Running a job's tasks loads the file, optimizes it into the target's
      type at the quality chosen for that type with speed 0, and scores the
      result: the numbers printed into the tasks are read back unchanged. */
  lemma OptimizeTasksRun(job: Job, q: Qualities, rule: Adoption, env: Env)
    ensures RunFrom(DEFAULT, OptimizeTasks(job, q), rule, env) ==
      (var loaded :- LoadTask([FILE_PREFIX + job.file], env);
       var optimized :- OptimUnder(rule, loaded, OutputType(job.target), QualityFor(OutputType(job.target), q), 0, env);
       Ok(optimized.(diff := GetDiff(optimized, env))))
  {
    var tasks := OptimizeTasks(job, q);
    var outputType := OutputType(job.target);
    var quality := QualityFor(outputType, q);
    RunThree(DEFAULT, tasks[0], tasks[1], tasks[2], rule, env);
    assert tasks == [tasks[0], tasks[1], tasks[2]];
    LoadStep(DEFAULT, job.file, rule, env);
    match LoadTask([FILE_PREFIX + job.file], env)
    case Err(_) =>
    case Ok(loaded) =>
      OptimStep(loaded, outputType, quality, rule, env);
      match OptimUnder(rule, loaded, outputType, quality, 0, env)
      case Err(_) =>
      case Ok(optimized) =>
        DiffStep(optimized, rule, env);
  }

  /** `optimize_image`: the size of the bytes written, the size of the file
      read and the score, or the pipeline's error. */
  function Optimized(job: Job, q: Qualities, rule: Adoption, env: Env): (r: Result<(nat, nat, real), ProcessingError>)
    ensures r.Ok? ==> RunFrom(DEFAULT, OptimizeTasks(job, q), rule, env).Ok?
    ensures r.Ok? ==> var img := RunFrom(DEFAULT, OptimizeTasks(job, q), rule, env).value;
      r.value.1 == img.originalSize && r.value.2 == img.diff &&
      (|img.buffer| > 0 ==> r.value.0 == |img.buffer|)
    ensures var run := RunFrom(DEFAULT, OptimizeTasks(job, q), rule, env);
      (r.Ok? <==> run.Ok? && GetBuffer(run.value, env).Ok?) &&
      (run.Err? ==> r == Err(run.error)) &&
      (run.Ok? && GetBuffer(run.value, env).Err? ==> r == Err(GetBuffer(run.value, env).error))
  {
    var img :- RunFrom(DEFAULT, OptimizeTasks(job, q), rule, env);
    var buf :- GetBuffer(img, env);
    Ok((|buf|, img.originalSize, img.diff))
  }

  /** `optimize_image` as the driver runs it: the tasks through `run` (with
      `optim` as written), then the bytes to write. */
  method OptimizeImage(job: Job, q: Qualities, env: Env) returns (r: Result<(nat, nat, real), ProcessingError>)
    ensures r == Optimized(job, q, AsWritten, env)
  {
    var img :- Run(OptimizeTasks(job, q), env);
    var buf :- GetBuffer(img, env);
    r := Ok((|buf|, img.originalSize, img.diff));
  }

  /** The size reported as original is the size of the file read. */
  lemma OptimizedReadsFile(job: Job, q: Qualities, rule: Adoption, env: Env)
    ensures var r := Optimized(job, q, rule, env);
      r.Ok? ==> env.readFile(job.file).Some? && r.value.1 == |env.readFile(job.file).value|
  {
    OptimizeTasksRun(job, q, rule, env);
    FileSourceIsRead(job.file);
  }

  /** The target is of the same image format as the file (an output type
      is named and, read as `optim` reads it, names the file's format). */
  predicate SameFormat(job: Job) {
    OutputType(job.target) != "" &&
    Images.FromExtension(OutputExt(OutputType(job.target))) ==
      Images.FromExtension(LastSegment(FILE_PREFIX + job.file, '.'))
  }

  /** With the intended adoption test, optimizing a non-empty file into its
      own format never writes more bytes than the file had, unless the
      encoder produced no bytes at all. */
  lemma OwnFormatNeverGrows(job: Job, q: Qualities, env: Env)
    requires SameFormat(job)
    ensures var run := RunFrom(DEFAULT, OptimizeTasks(job, q), Intended, env);
      run.Ok? && run.value.originalSize > 0 ==>
        |run.value.buffer| <= run.value.originalSize &&
        (|run.value.buffer| > 0 ==> Optimized(job, q, Intended, env) == Ok((|run.value.buffer|, run.value.originalSize, run.value.diff)))
  {
    OptimizeTasksRun(job, q, Intended, env);
    FileSourceIsRead(job.file);
  }

  /** The text after the last `c` of `s + [c] + r`, when `r` holds no `c`, is `r`. */
  lemma LastSegmentAfter(s: string, c: char, r: string)
    requires c !in r
    ensures LastSegment(s + [c] + r, c) == r
  {
    var t := s + [c] + r;
    var l := LastSegment(t, c);
    assert forall i :: |s| < i < |t| ==> t[i] == r[i - |s| - 1];
    assert forall i :: 0 <= i < |l| ==> l[i] == t[|t| - |l| + i];
    assert t[|s|] == c;
    assert l == t[|t| - |r|..] == r;
  }

  /** A `.jpg` file optimized into type `jpg`. */
  predicate JpgToJpg(job: Job) {
    LastSegment(FILE_PREFIX + job.file, '.') == "jpg" && OutputType(job.target) == "jpg"
  }

  /** As the program is written, a `.jpg` file optimized into type `jpg`
      always takes the JPEG encoder's bytes, whatever their size: they are
      named `jpeg`, which differs from the loaded `jpg` as a string. */
  lemma JpgJobAlwaysAdopts(job: Job, q: Qualities, env: Env)
    requires JpgToJpg(job)
    ensures var run := RunFrom(DEFAULT, OptimizeTasks(job, q), AsWritten, env);
      run.Ok? ==>
        LoadTask([FILE_PREFIX + job.file], env).Ok? &&
        var loaded := LoadTask([FILE_PREFIX + job.file], env).value;
        loaded.ext == "jpg" && Encoded(loaded, IMAGE_TYPE_JPEG, q.jpeg, 0, env).Ok? &&
        run.value.buffer == Encoded(loaded, IMAGE_TYPE_JPEG, q.jpeg, 0, env).value
  {
    OptimizeTasksRun(job, q, AsWritten, env);
    FileSourceIsRead(job.file);
    assert OutputExt("jpg") == IMAGE_TYPE_JPEG;
  }

  /** A file system holding four bytes in every file, which decode to an
      empty image, and encoders that always produce eight bytes. */
  function FourByteFiles(): Env {
    Env(
      s => None, f => Some([1, 2, 3, 4]), s => None, s => None,
      (f, d) => Some(NO_IMAGE), d => None,
      (e, b, w, h) => Ok([0, 0, 0, 0, 0, 0, 0, 0]),
      (g, d) => Ok([0, 0, 0, 0, 0, 0, 0, 0]),
      (f, i) => None,
      (i, w, h, k) => Images.Rgba(0, 0, 0, 0),
      p => 0,
      (a, b) => a,
      (a, b) => 0.0)
  }

  /** The image `load` builds from a four-byte `a.jpg`. */
  const FOUR_BYTE_JPG: ProcessImage := ProcessImage(Some(NO_IMAGE), NO_IMAGE, 0.0, 4, [1, 2, 3, 4], "jpg")

  /** Loading `file://` + `file` reads that file and names it by the text
      after the last `.`. */
  lemma FetchFile(file: string, env: Env)
    requires env.readFile(file).Some?
    ensures FetchData(FILE_PREFIX + file, "", env) ==
      NewImage(env.readFile(file).value, LastSegment(FILE_PREFIX + file, '.'), env)
  {
    FileSourceIsRead(file);
  }

  lemma AJpgIsJpg()
    ensures LastSegment(FILE_PREFIX + "a.jpg", '.') == "jpg"
  {
    assert FILE_PREFIX + "a.jpg" == "file://a" + ['.'] + "jpg";
    LastSegmentAfter("file://a", '.', "jpg");
  }

  lemma NewFourByteJpg()
    ensures NewImage([1, 2, 3, 4], "jpg", FourByteFiles()) == Ok(FOUR_BYTE_JPG.(original := None))
  {
    assert Images.FromExtension("jpg") == Some(Images.Jpeg);
  }

  lemma LoadFourByteJpg()
    ensures LoadTask([FILE_PREFIX + "a.jpg"], FourByteFiles()) == Ok(FOUR_BYTE_JPG)
  {
    AJpgIsJpg();
    FetchFile("a.jpg", FourByteFiles());
    NewFourByteJpg();
  }

  /** `optim jpg` on the four-byte image: as written the eight encoded bytes
      are taken; with the intended test only the name becomes `jpeg`. */
  lemma OptimFourByteJpg(quality: u8)
    ensures OptimAsWritten(FOUR_BYTE_JPG, "jpg", quality, 0, FourByteFiles()) ==
      Ok(FOUR_BYTE_JPG.(ext := IMAGE_TYPE_JPEG, buffer := [0, 0, 0, 0, 0, 0, 0, 0]))
    ensures Optim(FOUR_BYTE_JPG, "jpg", quality, 0, FourByteFiles()) == Ok(FOUR_BYTE_JPG.(ext := IMAGE_TYPE_JPEG))
  {
    var env := FourByteFiles();
    assert OutputExt(Requested(FOUR_BYTE_JPG, "jpg")) == IMAGE_TYPE_JPEG;
    assert Images.FromExtension(IMAGE_TYPE_JPEG) == Some(Images.Jpeg) == Images.FromExtension("jpg");
    assert Encoded(FOUR_BYTE_JPG, IMAGE_TYPE_JPEG, quality, 0, env) == Ok([0, 0, 0, 0, 0, 0, 0, 0]);
  }

  /** The job run on the four-byte `a.jpg` file into `b.jpg`: the image
      after `optim` under `rule`, scored. */
  lemma RunFourByteJpg(q: Qualities, rule: Adoption)
    ensures var optimized := OptimUnder(rule, FOUR_BYTE_JPG, "jpg", q.jpeg, 0, FourByteFiles());
      optimized.Ok? &&
      RunFrom(DEFAULT, OptimizeTasks(Job("a.jpg", "b.jpg"), q), rule, FourByteFiles()) ==
        Ok(optimized.value.(diff := GetDiff(optimized.value, FourByteFiles())))
  {
    assert "b.jpg" == "b" + ['.'] + "jpg";
    LastSegmentAfter("b", '.', "jpg");
    LoadFourByteJpg();
    OptimFourByteJpg(q.jpeg);
    OptimizeTasksRun(Job("a.jpg", "b.jpg"), q, rule, FourByteFiles());
  }

  /** The program as written writes eight bytes for a four-byte `a.jpg`
      optimized into `b.jpg`; with the intended adoption test it writes the
      four bytes it read. */
  lemma JpgJobGrows(q: Qualities)
    ensures var r := Optimized(Job("a.jpg", "b.jpg"), q, AsWritten, FourByteFiles());
      r.Ok? && r.value.0 == 8 > r.value.1 == 4
    ensures var r := Optimized(Job("a.jpg", "b.jpg"), q, Intended, FourByteFiles());
      r.Ok? && r.value.0 == r.value.1 == 4
  {
    OptimFourByteJpg(q.jpeg);
    RunFourByteJpg(q, AsWritten);
    RunFourByteJpg(q, Intended);
  }

  // ---------------------------------------------------------------------
  // The report

  /** An amount in a unit, as printed. */
  datatype Scaled = Scaled(amount: nat, unit: string)

  const KB: nat := 1024
  const MB: nat := KB * 1024

  function UnitSize(unit: string): nat {
    if unit == "mb" then MB else if unit == "kb" then KB else 1
  }

  /** A byte count as printed: whole megabytes from 1 MB on, else whole
      kilobytes from 1 KB on, else bytes. So the amount is the count in the
      largest unit it reaches, rounded down. */
  function SizeScaled(size: nat): (s: Scaled)
    ensures s.unit == "mb" || s.unit == "kb" || s.unit == "b"
    ensures s.amount * UnitSize(s.unit) <= size < (s.amount + 1) * UnitSize(s.unit)
    ensures s.unit != "b" ==> s.amount >= 1
    ensures s.unit != "mb" ==> s.amount < 1024
  {
    if size >= MB then Scaled(size / MB, "mb")
    else if size >= KB then Scaled(size / KB, "kb")
    else Scaled(size, "b")
  }

  /** A duration in milliseconds as printed: milliseconds below one second,
      else whole seconds rounded down. */
  function DurationScaled(ms: nat): (s: Scaled)
    ensures s.unit == "ms" <==> ms < 1000
    ensures s.unit == "ms" ==> s.amount == ms
    ensures s.unit != "ms" ==> s.unit == "s" && s.amount >= 1 && s.amount * 1000 <= ms < (s.amount + 1) * 1000
  {
    if ms < 1000 then Scaled(ms, "ms") else Scaled(ms / 1000, "s")
  }

  function Printed(s: Scaled): string {
    NatToString(s.amount) + s.unit
  }

  /** The size as a percentage of the original, rounded down; `None` where
      the division by a zero original size panics. At most 100 when the
      file did not grow. */
  function Percent(size: nat, originalSize: nat): (r: Option<nat>)
    ensures r.None? <==> originalSize == 0
    ensures r.Some? ==> r.value * originalSize <= size * 100 < (r.value + 1) * originalSize
    ensures r.Some? && size <= originalSize ==> r.value <= 100
  {
    if originalSize == 0 then None
    else
      var p := size * 100 / originalSize;
      assert p * originalSize <= size * 100;
      if p > 100 then
        MulStep(100, p, originalSize);
        Some(p)
      else Some(p)
  }
}
