/** Properties of the task pipeline of `image_processing.rs`: how task lists
    compose, which tasks change what, the error each malformed task gets, what
    `diff` can compare, and the worked examples of the module's own tests. */
module PipelineFacts {
  import opened Common
  import opened Text
  import opened Images
  import opened ImageProcessing

  // ---------------------------------------------------------------------
  // Task lists

  /** Running two task lists one after the other is running their
      concatenation; an error in the first list ends the run. */
  lemma {:induction false} RunAppend(img: ProcessImage, a: seq<seq<string>>, b: seq<seq<string>>, rule: Adoption, env: Env)
    ensures RunFrom(img, a + b, rule, env) ==
      match RunFrom(img, a, rule, env)
      case Err(e) => Err(e)
      case Ok(mid) => RunFrom(mid, b, rule, env)
    decreases |a|
  {
    if |a| == 0 {
      assert a + b == b;
    } else {
      assert (a + b)[0] == a[0];
      assert (a + b)[1..] == a[1..] + b;
      var s := Step(img, a[0], rule, env);
      if s.Ok? {
        RunAppend(s.value, a[1..], b, rule, env);
        assert RunFrom(img, a, rule, env) == RunFrom(s.value, a[1..], rule, env);
        assert RunFrom(img, a + b, rule, env) == RunFrom(s.value, a[1..] + b, rule, env);
      } else {
        assert RunFrom(img, a, rule, env) == Err(s.error);
        assert RunFrom(img, a + b, rule, env) == Err(s.error);
      }
    }
  }

  /** A task that is empty or names no known operation can be dropped from
      any task list without changing the outcome. */
  lemma RunSkipsIgnored(img: ProcessImage, a: seq<seq<string>>, params: seq<string>, b: seq<seq<string>>, rule: Adoption, env: Env)
    requires |params| == 0 || params[0] !in TASKS
    ensures RunFrom(img, a + [params] + b, rule, env) == RunFrom(img, a + b, rule, env)
  {
    RunAppend(img, a, [params] + b, rule, env);
    RunAppend(img, a, b, rule, env);
    assert a + [params] + b == a + ([params] + b);
    match RunFrom(img, a, rule, env)
    case Err(e) =>
    case Ok(mid) =>
      assert ([params] + b)[0] == params;
      assert ([params] + b)[1..] == b;
  }

  /** The first failing task decides the error of the whole run. */
  lemma RunStopsAtError(img: ProcessImage, a: seq<seq<string>>, params: seq<string>, b: seq<seq<string>>,
                        mid: ProcessImage, e: ProcessingError, rule: Adoption, env: Env)
    requires RunFrom(img, a, rule, env) == Ok(mid)
    requires Step(mid, params, rule, env) == Err(e)
    ensures RunFrom(img, a + [params] + b, rule, env) == Err(e)
  {
    RunAppend(img, a, [params] + b, rule, env);
    assert a + [params] + b == a + ([params] + b);
    assert ([params] + b)[0] == params;
  }

  // ---------------------------------------------------------------------
  // Parameter errors

  /** A task of a known name with too few (for optim: other than three)
      parameters. */
  predicate ArityViolated(params: seq<string>) {
    |params| > 0 &&
    var task, n := params[0], |params| - 1;
    (task == PROCESS_RESIZE && n < 2) || (task == PROCESS_OPTIM && n != 3) ||
    (task == PROCESS_CROP && n < 4) || (task == PROCESS_WATERMARK && n == 0)
  }

  /** `params is invalid` is the error of exactly the tasks with the wrong
      number of parameters; the only other `ParamsInvalid` is an unsupported
      image format met while loading an image or a watermark. */
  lemma ParamsInvalidCauses(img: ProcessImage, params: seq<string>, rule: Adoption, env: Env)
    ensures ArityViolated(params) ==> Step(img, params, rule, env) == Err(ParamsInvalid(PARAMS_INVALID))
    ensures forall m :: Step(img, params, rule, env) == Err(ParamsInvalid(m)) ==>
      (m == PARAMS_INVALID && ArityViolated(params)) ||
      (m == FORMAT_NOT_SUPPORTED && (params[0] == PROCESS_LOAD || params[0] == PROCESS_WATERMARK))
  {
    if |params| > 0 {
      var sub := params[1..];
      assert |sub| == |params| - 1;
      if params[0] == PROCESS_LOAD && |sub| > 0 {
        FetchParamsInvalid(sub[0], LoadHint(sub), env);
      } else if params[0] == PROCESS_WATERMARK && |sub| > 0 && env.urlDecode(sub[0]).Some? {
        FetchParamsInvalid(env.urlDecode(sub[0]).value, "", env);
      }
    }
  }

  /** Loading fails with `ParamsInvalid` only for an unsupported format. */
  lemma FetchParamsInvalid(data: string, ext: string, env: Env)
    ensures forall m :: FetchData(data, ext, env) == Err(ParamsInvalid(m)) ==> m == FORMAT_NOT_SUPPORTED
  {
    if Classify(data).Http? && env.fetch(data).Some? {
      var resp := env.fetch(data).value;
      if HttpExt(resp.contentType, ext).Ok? && resp.body.Some? {
        assert FetchData(data, ext, env) == NewImage(resp.body.value, HttpExt(resp.contentType, ext).value, env);
      }
    }
  }

  // ---------------------------------------------------------------------
  // What each task changes

  /** The pixel operations (resize, gray, crop, watermark) replace the image
      and drop the stored bytes, and touch nothing else: the format name, the
      load-time snapshot, the original size and the score are kept. A
      0 x 0 resize changes nothing at all. */
  lemma PixelStepKeepsRest(img: ProcessImage, params: seq<string>, rule: Adoption, env: Env)
    requires |params| > 0
    requires params[0] in {PROCESS_RESIZE, PROCESS_GRAY, PROCESS_CROP, PROCESS_WATERMARK}
    ensures Step(img, params, rule, env).Ok? ==>
      var r := Step(img, params, rule, env).value;
      r.ext == img.ext && r.original == img.original && r.originalSize == img.originalSize &&
      r.diff == img.diff && (r.buffer == [] || r == img)
  {
  }

  /** No task but `load` touches the load-time snapshot or the original size. */
  lemma NonLoadStepKeepsSnapshot(img: ProcessImage, params: seq<string>, rule: Adoption, env: Env)
    requires |params| == 0 || params[0] != PROCESS_LOAD
    ensures Step(img, params, rule, env).Ok? ==>
      Step(img, params, rule, env).value.original == img.original &&
      Step(img, params, rule, env).value.originalSize == img.originalSize
  {
    if |params| > 0 && params[0] == PROCESS_OPTIM && |params| == 4 {
      var sub := params[1..];
      if ParseU8(sub[1]).Some? && ParseU8(sub[2]).Some? {
        assert Step(img, params, rule, env) == OptimUnder(rule, img, sub[0], ParseU8(sub[1]).value, ParseU8(sub[2]).value, env);
      }
    }
  }

  predicate NoLoad(tasks: seq<seq<string>>) {
    forall i :: 0 <= i < |tasks| ==> |tasks[i]| == 0 || tasks[i][0] != PROCESS_LOAD
  }

  /** A task list without `load` keeps the snapshot it started with. */
  lemma {:induction false} RunKeepsSnapshot(img: ProcessImage, tasks: seq<seq<string>>, rule: Adoption, env: Env)
    requires NoLoad(tasks)
    ensures RunFrom(img, tasks, rule, env).Ok? ==>
      RunFrom(img, tasks, rule, env).value.original == img.original &&
      RunFrom(img, tasks, rule, env).value.originalSize == img.originalSize
    decreases |tasks|
  {
    if |tasks| > 0 {
      NonLoadStepKeepsSnapshot(img, tasks[0], rule, env);
      match Step(img, tasks[0], rule, env)
      case Err(_) =>
      case Ok(next) =>
        assert NoLoad(tasks[1..]) by {
          forall i | 0 <= i < |tasks[1..]| ensures |tasks[1..][i]| == 0 || tasks[1..][i][0] != PROCESS_LOAD {
            assert tasks[1..][i] == tasks[i + 1];
          }
        }
        RunKeepsSnapshot(next, tasks[1..], rule, env);
    }
  }

  /** `load` starts afresh: whatever came before, the result is the fetched
      image with its own pixels as the snapshot, so an immediate `diff`
      compares the image with itself (GIF excepted). */
  lemma LoadStartsAfresh(img: ProcessImage, sub: seq<string>, rule: Adoption, env: Env)
    requires |sub| > 0
    ensures var r := Step(img, [PROCESS_LOAD] + sub, rule, env);
      r.Ok? ==>
        r.value.original == Some(r.value.di) && r.value.diff == 0.0 &&
        r.value.originalSize == |r.value.buffer| &&
        (r.value.ext != IMAGE_TYPE_GIF ==> GetDiff(r.value, env) == env.dssim(r.value.di, r.value.di) * 1000.0)
  {
    assert ([PROCESS_LOAD] + sub)[0] == PROCESS_LOAD;
    assert ([PROCESS_LOAD] + sub)[1..] == sub;
  }

  /** Without a `load`, `diff` has nothing to compare and scores -1. */
  lemma DiffNeedsLoad(tasks: seq<seq<string>>, rule: Adoption, env: Env)
    requires NoLoad(tasks)
    ensures RunFrom(DEFAULT, tasks + [[PROCESS_DIFF]], rule, env).Ok? ==>
      RunFrom(DEFAULT, tasks + [[PROCESS_DIFF]], rule, env).value.diff == -1.0
  {
    RunAppend(DEFAULT, tasks, [[PROCESS_DIFF]], rule, env);
    RunKeepsSnapshot(DEFAULT, tasks, rule, env);
    match RunFrom(DEFAULT, tasks, rule, env)
    case Err(_) =>
    case Ok(mid) =>
      assert [[PROCESS_DIFF]][1..] == [];
  }

  /** A pixel operation that changed the image leaves no stored bytes, so a
      following `optim` adopts what the encoder produced, under either
      adoption test. */
  lemma OptimAfterPixelStepAdopts(img: ProcessImage, params: seq<string>, outputType: string, quality: u8, speed: u8,
                                  rule: Adoption, env: Env)
    requires |params| > 0
    requires params[0] in {PROCESS_RESIZE, PROCESS_GRAY, PROCESS_CROP, PROCESS_WATERMARK}
    requires Step(img, params, rule, env).Ok? && Step(img, params, rule, env).value != img
    ensures var mid := Step(img, params, rule, env).value;
      var r := OptimUnder(rule, mid, outputType, quality, speed, env);
      r.Ok? ==> r.value.buffer == Encoded(mid, r.value.ext, quality, speed, env).value
  {
    PixelStepKeepsRest(img, params, rule, env);
  }

  // ---------------------------------------------------------------------
  // Resize

  /** Resizing to a width alone keeps the aspect ratio: the new height is the
      old height scaled by width / old width, rounded down (when the product
      fits u32). */
  lemma ResizeWidthKeepsAspect(img: ProcessImage, width: u32, env: Env)
    requires width != 0 && img.di.width != 0
    requires img.di.height * width < U32_LIMIT
    ensures Resize(img, width, 0, env).Ok?
    ensures var d := Resize(img, width, 0, env).value.di;
      d.width == width &&
      d.height * img.di.width <= img.di.height * width < (d.height + 1) * img.di.width
  {
  }

  /** Resizing to a height alone keeps the aspect ratio the same way. */
  lemma ResizeHeightKeepsAspect(img: ProcessImage, height: u32, env: Env)
    requires height != 0 && img.di.height != 0
    requires img.di.width * height < U32_LIMIT
    ensures Resize(img, 0, height, env).Ok?
    ensures var d := Resize(img, 0, height, env).value.di;
      d.height == height &&
      d.width * img.di.height <= img.di.width * height < (d.width + 1) * img.di.height
  {
  }

  /** The 144 x 144 logo resized to width 48 is 48 x 48. */
  lemma ResizeLogoExample(img: ProcessImage, env: Env)
    requires img.di.width == 144 && img.di.height == 144
    ensures Resize(img, 48, 0, env).Ok?
    ensures Resize(img, 48, 0, env).value.di.width == 48 && Resize(img, 48, 0, env).value.di.height == 48
  {
    assert WrappingMulU32(144, 48) == 144 * 48;
  }

  // ---------------------------------------------------------------------
  // Gray

  /** Gray keeps the size (the 144 x 144 logo stays 144 x 144) and every
      pixel is an opaque grey. */
  lemma GrayIsGrey(img: ProcessImage, env: Env)
    ensures var d := Gray(img, env).di;
      d.width == img.di.width && d.height == img.di.height &&
      forall i :: 0 <= i < |Pixels(d)| ==>
        Pixels(d)[i].r == Pixels(d)[i].g == Pixels(d)[i].b && Pixels(d)[i].a == 0xFF
  {
  }

  // ---------------------------------------------------------------------
  // Crop

  /** The cropped image holds exactly the pixels of the clamped window: its
      pixel (row, col) is the source pixel (y + row, x + col). */
  lemma CropKeepsWindowPixels(img: ProcessImage, x: u32, y: u32, width: u32, height: u32, row: nat, col: nat)
    requires var w := ClampWindow(img.di.width, img.di.height, x, y, width, height);
      row < w.height && col < w.width
    ensures var w := ClampWindow(img.di.width, img.di.height, x, y, width, height);
      PixelAt(Crop(img, x, y, width, height).di, row, col) == PixelAt(img.di, w.y + row, w.x + col)
  {
    var w := ClampWindow(img.di.width, img.di.height, x, y, width, height);
    var k := row * w.width + col;
    CellIndex(row, col, w.width, w.height);
    CellRoundTrip(row, col, w.width);
    var src := WindowSource(img.di.width, img.di.height, w, k);
    assert src == (w.y + row) * img.di.width + (w.x + col);
    assert WindowPixels(img.di, w)[k] == Pixels(img.di)[src];
  }

  /** A window inside the 144 x 144 logo is taken whole: crop (40, 40, 48, 48)
      gives 48 x 48. */
  lemma CropLogoExample(img: ProcessImage)
    requires img.di.width == 144 && img.di.height == 144
    ensures Crop(img, 40, 40, 48, 48).di.width == 48 && Crop(img, 40, 40, 48, 48).di.height == 48
  {
  }

  /** A window reaching past the image is cut at its edges. */
  lemma CropClampsExample(img: ProcessImage)
    requires img.di.width == 144 && img.di.height == 144
    ensures Crop(img, 100, 200, 48, 48).di.width == 44 && Crop(img, 100, 200, 48, 48).di.height == 0
  {
  }

  // ---------------------------------------------------------------------
  // Watermark

  /** Every position survives the trip through its name. */
  lemma PositionRoundTrip(p: WatermarkPosition)
    ensures PositionFrom(PositionName(p)) == p
  {
  }

  /** The overlay keeps every pixel the mark does not cover and blends every
      covered one with the mark's pixel above it. */
  lemma OverlayPixelAt(bottom: RgbaImage, top: RgbaImage, x: int, y: int, blend: (Rgba, Rgba) -> Rgba,
                       row: nat, col: nat)
    requires row < bottom.height && col < bottom.width
    ensures PixelAt(Overlay(bottom, top, x, y, blend), row, col) == OverlayAt(bottom, top, x, y, blend, row, col)
  {
    var k := row * bottom.width + col;
    CellIndex(row, col, bottom.width, bottom.height);
    CellRoundTrip(row, col, bottom.width);
    assert OverlayPixels(bottom, top, x, y, blend)[k] == OverlayPixel(bottom, top, x, y, blend, k);
  }

  /** The test's watermark: the 48 x 48 mark at the bottom right of the
      144 x 144 logo, no margins, sits at (96, 96) and the size is kept. */
  lemma WatermarkLogoExample(img: ProcessImage, mark: RgbaImage, env: Env)
    requires img.di.width == 144 && img.di.height == 144
    requires mark.width == 48 && mark.height == 48
    ensures PositionFrom("rightBottom") == RightBottom
    ensures WatermarkOffset(RightBottom, img.di, mark, 0, 0) == (96, 96)
    ensures var r := Watermark(img, mark, RightBottom, 0, 0, env);
      r.di.width == 144 && r.di.height == 144
  {
  }

  /** A centred mark has gaps on both sides that differ by at most one pixel,
      even when the mark is larger than the image (negative gaps). */
  lemma CenterIsCentred(base: RgbaImage, mark: RgbaImage)
    ensures var o := WatermarkOffset(Center, base, mark, 0, 0);
      var right := base.width - (o.0 + mark.width);
      var bottom := base.height - (o.1 + mark.height);
      o.0 <= right <= o.0 + 1 && o.1 <= bottom <= o.1 + 1
  {
  }

  // ---------------------------------------------------------------------
  // Optim

  /** The intended adoption test and the written one agree whenever format
      names and formats coincide, so the two `optim`s differ only for a
      second name of the same format (such as `jpg` for JPEG). */
  lemma OptimAgreesWithoutSynonyms(img: ProcessImage, outputType: string, quality: u8, speed: u8, env: Env)
    requires var ext := OutputExt(Requested(img, outputType));
      ext == img.ext <==> FromExtension(ext) == FromExtension(img.ext)
    ensures Optim(img, outputType, quality, speed, env) == OptimAsWritten(img, outputType, quality, speed, env)
  {
  }

  /** An environment whose encoders always produce eight bytes. */
  function EightByteEncoders(): Env {
    Env(
      s => None, s => None, s => None, s => None,
      (f, d) => None, d => None,
      (e, b, w, h) => Ok([0, 0, 0, 0, 0, 0, 0, 0]),
      (g, d) => Ok([0, 0, 0, 0, 0, 0, 0, 0]),
      (f, i) => None,
      (i, w, h, k) => Rgba(0, 0, 0, 0),
      p => 0,
      (a, b) => a,
      (a, b) => 0.0)
  }

  /** A JPEG loaded from a `.jpg` file holding four bytes. */
  function JpgImage(): ProcessImage {
    ProcessImage(Some(NO_IMAGE), NO_IMAGE, 0.0, 4, [1, 2, 3, 4], "jpg")
  }

  /** The `optim` as written replaces a `.jpg` image's bytes by LARGER ones
      while the format stays JPEG: the encoder's output is named `jpeg`, which
      differs from `jpg` as a string, so the size test is skipped. The
      intended test keeps the four smaller bytes. */
  lemma OptimAsWrittenGrowsJpg()
    ensures var r := OptimAsWritten(JpgImage(), "jpg", 80, 0, EightByteEncoders());
      r.Ok? && r.value.ext == IMAGE_TYPE_JPEG && FromExtension(r.value.ext) == FromExtension("jpg") &&
      |r.value.buffer| == 8 > |JpgImage().buffer|
    ensures var r := Optim(JpgImage(), "jpg", 80, 0, EightByteEncoders());
      r.Ok? && r.value.buffer == JpgImage().buffer
  {
    var env := EightByteEncoders();
    var img := JpgImage();
    assert OutputExt(Requested(img, "jpg")) == IMAGE_TYPE_JPEG;
    assert FromExtension(IMAGE_TYPE_JPEG) == FromExtension("jpg") == Some(Jpeg);
    assert Encoded(img, IMAGE_TYPE_JPEG, 80, 0, env) == Ok([0, 0, 0, 0, 0, 0, 0, 0]);
  }
}
