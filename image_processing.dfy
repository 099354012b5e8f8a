/** The image pipeline of `image_processing.rs`: a `ProcessImage` value is
    threaded through a list of textual tasks (load, resize, gray, optim, crop,
    watermark, diff), each task taking the image and giving back the next one.
    The network, the file system, base64 and URL decoding, the codecs and the
    pixel arithmetic of the `image` and `dssim` crates are the functions of an
    `Env`; what the module decides itself is modelled here. */
module ImageProcessing {
  import opened Common
  import opened Text
  import opened Images

  const PROCESS_LOAD: string := "load"
  const PROCESS_RESIZE: string := "resize"
  const PROCESS_OPTIM: string := "optim"
  const PROCESS_CROP: string := "crop"
  const PROCESS_GRAY: string := "gray"
  const PROCESS_WATERMARK: string := "watermark"
  const PROCESS_DIFF: string := "diff"

  const IMAGE_TYPE_GIF: string := "gif"
  const IMAGE_TYPE_PNG: string := "png"
  const IMAGE_TYPE_AVIF: string := "avif"
  const IMAGE_TYPE_WEBP: string := "webp"
  const IMAGE_TYPE_JPEG: string := "jpeg"

  const PARAMS_INVALID: string := "params is invalid"
  const FORMAT_NOT_SUPPORTED: string := "Image format is not support"
  const FILE_PREFIX: string := "file://"

  /** The reasons a Rust panic would abort the pipeline. */
  const INDEX_OUT_OF_BOUNDS: string := "index out of bounds"
  const DIVIDE_BY_ZERO: string := "attempt to divide by zero"

  /** The task names `run` acts on; any other task is skipped. */
  const TASKS: set<string> :=
    {PROCESS_LOAD, PROCESS_RESIZE, PROCESS_OPTIM, PROCESS_CROP, PROCESS_GRAY, PROCESS_WATERMARK, PROCESS_DIFF}

  /** `ImageProcessingError`, plus `Panic` for the two places where the Rust
      code panics instead of returning an error. */
  datatype ProcessingError =
    | ParamsInvalid(message: string)
    | Reqwest
    | HttpHeaderToStr
    | Base64Decode
    | Image
    | ImagesErr(source: ImagesError)
    | ParseInt
    | FromUtf
    | Io
    | Panic(reason: string)

  /** The image being processed. `di` is the current image in its RGBA8 form,
      `original` the snapshot taken at load time, `buffer` the encoded bytes
      that still describe `di` (emptied by every pixel operation), and `ext`
      the format name of those bytes. */
  datatype ProcessImage = ProcessImage(
    original: Option<RgbaImage>,
    di: RgbaImage,
    diff: real,
    originalSize: nat,
    buffer: seq<u8>,
    ext: string)

  const NO_IMAGE: RgbaImage := RawImage(0, 0, [])

  /** `ProcessImage::default()`. */
  const DEFAULT: ProcessImage := ProcessImage(None, NO_IMAGE, 0.0, 0, [], "")

  /** An HTTP response: its `Content-Type` header, if any, and its body, or
      `None` when reading the body fails. */
  datatype Response = Response(contentType: Option<seq<u8>>, body: Option<seq<u8>>)

  /** Everything outside the module: `None`/`Err` results are the failures of
      the corresponding library call. */
  datatype Env = Env(
    fetch: string -> Option<Response>,              // reqwest GET
    readFile: string -> Option<seq<u8>>,            // File::open + read_to_end
    base64: string -> Option<seq<u8>>,              // STANDARD base64 decoding
    urlDecode: string -> Option<string>,            // urlencoding::decode
    decode: ImageDecoder,                           // image::load, as RGBA8
    avifDecoder: AvifDecoder,                       // avif_decode::Decoder
    encode: PixelEncoder,                           // png/webp/avif/jpeg encoders
    encodeGif: GifEncoder,                          // GIF decode + re-encode
    writeTo: (ImageFormat, RgbaImage) -> Option<seq<u8>>,  // DynamicImage::write_to
    resample: (RgbaImage, u32, u32, nat) -> Rgba,   // Lanczos3: pixel k of a w x h result
    luma: Rgba -> u8,                               // grey level of a pixel
    blend: (Rgba, Rgba) -> Rgba,                    // alpha blending of a pixel over another
    dssim: (RgbaImage, RgbaImage) -> real)          // Dssim::compare

  // ---------------------------------------------------------------------
  // Loading

  datatype Source = Http | File(path: string) | Base64

  /** Where `fetch_data` reads from: text starting with `http` from the
      network, `file://path` from the file system, anything else is base64. */
  function Classify(data: string): (s: Source)
    ensures s.Http? <==> StartsWith(data, "http")
    ensures s.File? <==> !StartsWith(data, "http") && StartsWith(data, FILE_PREFIX)
    ensures s.File? ==> FILE_PREFIX + s.path == data
  {
    if StartsWith(data, "http") then Http
    else if StartsWith(data, FILE_PREFIX) then
      assert data == FILE_PREFIX + data[|FILE_PREFIX|..];
      File(data[|FILE_PREFIX|..])
    else Base64
  }

  /** `HeaderValue::to_str`: accepted only when every byte is visible ASCII
      or a tab, and then read byte for byte. */
  function HeaderToStr(h: seq<u8>): (r: Option<string>)
    ensures r.Some? <==> forall i :: 0 <= i < |h| ==> h[i] == 9 || 32 <= h[i] < 127
    ensures r.Some? ==> |r.value| == |h| && forall i :: 0 <= i < |h| ==> r.value[i] as int == h[i]
  {
    if forall i :: 0 <= i < |h| ==> h[i] == 9 || 32 <= h[i] < 127 then
      Some(seq(|h|, i requires 0 <= i < |h| => h[i] as char))
    else None
  }

  /** The extension a content type names: for `type/subtype` (exactly one
      `/`) the subtype, the text after the slash; otherwise the hint. */
  function ContentTypeExt(contentType: string, hint: string): (ext: string)
    ensures Count(contentType, '/') != 1 ==> ext == hint
    ensures Count(contentType, '/') == 1 ==>
      '/' !in ext && |ext| < |contentType| &&
      contentType[|contentType| - |ext| - 1] == '/' && ext == contentType[|contentType| - |ext|..]
  {
    var parts := Split(contentType, '/');
    if |parts| == 2 then
      var ext := LastSegment(contentType, '/');
      assert ext == parts[1];
      assert '/' in contentType;
      ext
    else hint
  }

  /** The extension of an HTTP download: from the `Content-Type` header when
      there is one, else the hint. */
  function HttpExt(contentType: Option<seq<u8>>, hint: string): (r: Result<string, ProcessingError>)
    ensures contentType.None? ==> r == Ok(hint)
    ensures r.Err? <==> contentType.Some? && HeaderToStr(contentType.value).None?
    ensures r.Err? ==> r.error == HttpHeaderToStr
    ensures contentType.Some? && HeaderToStr(contentType.value).Some? ==>
      r == Ok(ContentTypeExt(HeaderToStr(contentType.value).value, hint))
  {
    match contentType
    case None => Ok(hint)
    case Some(h) =>
      match HeaderToStr(h)
      case None => Err(HttpHeaderToStr)
      case Some(s) => Ok(ContentTypeExt(s, hint))
  }

  /** `ProcessImage::new`: an extension no format claims is refused before
      decoding; otherwise the bytes become the buffer, their length the
      original size, and their decoding the current image. */
  function NewImage(data: seq<u8>, ext: string, env: Env): (r: Result<ProcessImage, ProcessingError>)
    ensures FromExtension(ext).None? ==> r == Err(ParamsInvalid(FORMAT_NOT_SUPPORTED))
    ensures FromExtension(ext).Some? ==> (r.Err? <==> env.decode(FromExtension(ext).value, data).None?)
    ensures r.Err? ==> r.error == ParamsInvalid(FORMAT_NOT_SUPPORTED) || r.error == Image
    ensures r.Ok? ==>
      r.value.buffer == data && r.value.originalSize == |data| && r.value.ext == ext &&
      r.value.original.None? && r.value.diff == 0.0 &&
      env.decode(FromExtension(ext).value, data) == Some(r.value.di)
  {
    match FromExtension(ext)
    case None => Err(ParamsInvalid(FORMAT_NOT_SUPPORTED))
    case Some(format) =>
      match env.decode(format, data)
      case None => Err(Image)
      case Some(di) => Ok(ProcessImage(None, di, 0.0, |data|, data, ext))
  }

  /** `LoaderProcess::fetch_data`: read the bytes from where `data` points,
      settle the extension (content type for HTTP, the text after the last
      `.` for files, the hint for base64) and build the image. */
  function FetchData(data: string, ext: string, env: Env): (r: Result<ProcessImage, ProcessingError>)
    ensures r.Ok? ==>
      r.value.original.None? && r.value.diff == 0.0 && r.value.originalSize == |r.value.buffer| &&
      FromExtension(r.value.ext).Some?
    ensures r.Ok? && Classify(data).Http? ==>
      env.fetch(data).Some? && env.fetch(data).value.body == Some(r.value.buffer)
    ensures r.Ok? && Classify(data).File? ==>
      r.value.ext == LastSegment(data, '.') && env.readFile(Classify(data).path) == Some(r.value.buffer)
    ensures r.Ok? && Classify(data).Base64? ==>
      r.value.ext == ext && env.base64(data) == Some(r.value.buffer)
    ensures Classify(data).File? && env.readFile(Classify(data).path).None? ==> r == Err(ProcessingError.Io)
    ensures Classify(data).Base64? && env.base64(data).None? ==> r == Err(Base64Decode)
    ensures Classify(data).Http? && env.fetch(data).None? ==> r == Err(Reqwest)
    ensures Classify(data).Http? && env.fetch(data).Some? ==>
      var resp := env.fetch(data).value;
      var fileExt := HttpExt(resp.contentType, ext);
      (fileExt.Err? ==> r == Err(HttpHeaderToStr)) &&
      (fileExt.Ok? && resp.body.None? ==> r == Err(Reqwest)) &&
      (fileExt.Ok? && resp.body.Some? ==> r == NewImage(resp.body.value, fileExt.value, env))
    ensures Classify(data).File? && env.readFile(Classify(data).path).Some? ==>
      r == NewImage(env.readFile(Classify(data).path).value, LastSegment(data, '.'), env)
    ensures Classify(data).Base64? && env.base64(data).Some? ==>
      r == NewImage(env.base64(data).value, ext, env)
  {
    match Classify(data)
    case Http =>
      (match env.fetch(data)
       case None => Err(Reqwest)
       case Some(resp) =>
         var fileExt :- HttpExt(resp.contentType, ext);
         (match resp.body
          case None => Err(Reqwest)
          case Some(bytes) => NewImage(bytes, fileExt, env)))
    case File(path) =>
      (match env.readFile(path)
       case None => Err(ProcessingError.Io)
       case Some(bytes) => NewImage(bytes, LastSegment(data, '.'), env))
    case Base64 =>
      (match env.base64(data)
       case None => Err(Base64Decode)
       case Some(bytes) => NewImage(bytes, ext, env))
  }

  // ---------------------------------------------------------------------
  // Resize

  /** The size `resize` aims for. A zero side is derived from the other so as
      to keep the aspect ratio, in u32 arithmetic (the product wraps, the
      quotient is rounded down); `None` when that derivation divides by zero. */
  function ResizeTarget(iw: u32, ih: u32, width: u32, height: u32): (t: Option<(u32, u32)>)
    requires width != 0 || height != 0
    ensures t.None? <==> (width == 0 && ih == 0) || (height == 0 && iw == 0)
    ensures t.Some? && width != 0 ==> t.value.0 == width
    ensures t.Some? && height != 0 ==> t.value.1 == height
    ensures t.Some? && width == 0 && iw * height < U32_LIMIT ==>
      t.value.0 * ih <= iw * height < (t.value.0 + 1) * ih
    ensures t.Some? && height == 0 && ih * width < U32_LIMIT ==>
      t.value.1 * iw <= ih * width < (t.value.1 + 1) * iw
  {
    if width == 0 then
      if ih == 0 then None
      else
        var product := WrappingMulU32(iw, height);
        var w := product / ih;
        FloorQuotient(product, ih, w);
        Some((w, height))
    else if height == 0 then
      if iw == 0 then None
      else
        var product := WrappingMulU32(ih, width);
        var h := product / iw;
        FloorQuotient(product, iw, h);
        Some((width, h))
    else Some((width, height))
  }

  /** The quotient rounded down lies between the two neighbouring multiples. */
  lemma FloorQuotient(a: nat, b: nat, q: int)
    requires b > 0 && q == a / b
    ensures q * b <= a < (q + 1) * b
  {
    assert (q + 1) * b == q * b + b;
  }

  function ResampledPixels(img: RgbaImage, width: u32, height: u32, env: Env): (px: seq<Rgba>)
    ensures |px| == width * height
  {
    seq(width * height, k requires 0 <= k < width * height => env.resample(img, width, height, k))
  }

  /** `imageops::resize` to a `width` x `height` image, pixels by Lanczos3. */
  function Resampled(img: RgbaImage, width: u32, height: u32, env: Env): (r: RgbaImage)
    ensures r.width == width && r.height == height
  {
    FromPixels(width, height, ResampledPixels(img, width, height, env))
  }

  /** `ResizeProcess::process`: nothing to do for 0 x 0; otherwise the image is
      resampled to the target size and the stored bytes are dropped. */
  function Resize(img: ProcessImage, width: u32, height: u32, env: Env): (r: Result<ProcessImage, ProcessingError>)
    ensures width == 0 && height == 0 ==> r == Ok(img)
    ensures r.Err? <==> (width == 0 && height != 0 && img.di.height == 0) || (height == 0 && width != 0 && img.di.width == 0)
    ensures r.Err? ==> r.error == Panic(DIVIDE_BY_ZERO)
    ensures r.Ok? && (width != 0 || height != 0) ==>
      var t := ResizeTarget(img.di.width, img.di.height, width, height).value;
      r.value == img.(di := r.value.di, buffer := []) && r.value.di.width == t.0 && r.value.di.height == t.1
  {
    if width == 0 && height == 0 then Ok(img)
    else
      match ResizeTarget(img.di.width, img.di.height, width, height)
      case None => Err(Panic(DIVIDE_BY_ZERO))
      case Some(t) => Ok(img.(buffer := [], di := Resampled(img.di, t.0, t.1, env)))
  }

  // ---------------------------------------------------------------------
  // Gray

  /** An opaque grey pixel of the given level. */
  function Grey(level: u8): Rgba {
    Rgba(level, level, level, 0xFF)
  }

  /** `GrayProcess::process`: every pixel becomes the opaque grey of its
      luma (the alpha channel is dropped), the size is kept and the stored
      bytes are dropped. */
  function Gray(img: ProcessImage, env: Env): (r: ProcessImage)
    ensures r == img.(di := r.di, buffer := [])
    ensures r.di.width == img.di.width && r.di.height == img.di.height
    ensures forall i :: 0 <= i < |Pixels(r.di)| ==> Pixels(r.di)[i] == Grey(env.luma(Pixels(img.di)[i]))
  {
    var px := Pixels(img.di);
    var grey := seq(|px|, i requires 0 <= i < |px| => Grey(env.luma(px[i])));
    PixelsFromPixels(img.di.width, img.di.height, grey);
    img.(di := FromPixels(img.di.width, img.di.height, grey), buffer := [])
  }

  // ---------------------------------------------------------------------
  // Crop

  datatype Window = Window(x: u32, y: u32, width: u32, height: u32)

  function Min(a: u32, b: u32): u32 {
    if a <= b then a else b
  }

  /** The window `imageops::crop` takes from an `iw` x `ih` image: the corner
      is clamped into the image and the size to what remains of it, so the
      window is the requested one cut off at the image's right and bottom
      edges. */
  function ClampWindow(iw: u32, ih: u32, x: u32, y: u32, width: u32, height: u32): (w: Window)
    ensures (x <= iw ==> w.x == x) && (x > iw ==> w.x == iw)
    ensures (y <= ih ==> w.y == y) && (y > ih ==> w.y == ih)
    ensures w.x + w.width <= iw && w.y + w.height <= ih
    ensures w.width <= width && w.height <= height
    ensures w.width == width || w.x + w.width == iw
    ensures w.height == height || w.y + w.height == ih
  {
    var cx := Min(x, iw);
    var cy := Min(y, ih);
    Window(cx, cy, Min(width, iw - cx), Min(height, ih - cy))
  }

  /** Index in the whole image of pixel k of a window inside it. */
  function WindowSource(iw: nat, ih: nat, w: Window, k: nat): (i: nat)
    requires w.x + w.width <= iw && w.y + w.height <= ih && k < w.width * w.height
    ensures i < iw * ih
    ensures i == (w.y + k / w.width) * iw + w.x + k % w.width
  {
    CellOf(k, w.width, w.height);
    CellIndex(w.y + k / w.width, w.x + k % w.width, iw, ih);
    (w.y + k / w.width) * iw + w.x + k % w.width
  }

  /** The pixels of a window, row by row. */
  function WindowPixels(img: RgbaImage, w: Window): (px: seq<Rgba>)
    requires w.x + w.width <= img.width && w.y + w.height <= img.height
    ensures |px| == w.width * w.height
  {
    var src := Pixels(img);
    var n := w.width * w.height;
    seq(n, k requires 0 <= k < n => src[WindowSource(img.width, img.height, w, k)])
  }

  /** `CropProcess::process`: the image becomes the clamped window and the
      stored bytes are dropped. */
  function Crop(img: ProcessImage, x: u32, y: u32, width: u32, height: u32): (r: ProcessImage)
    ensures r == img.(di := r.di, buffer := [])
    ensures var w := ClampWindow(img.di.width, img.di.height, x, y, width, height);
      r.di.width == w.width && r.di.height == w.height &&
      Pixels(r.di) == WindowPixels(img.di, w)
  {
    var w := ClampWindow(img.di.width, img.di.height, x, y, width, height);
    var px := WindowPixels(img.di, w);
    PixelsFromPixels(w.width, w.height, px);
    img.(di := FromPixels(w.width, w.height, px), buffer := [])
  }

  // ---------------------------------------------------------------------
  // Watermark

  datatype WatermarkPosition =
    LeftTop | Top | RightTop | Left | Center | Right | LeftBottom | Bottom | RightBottom

  /** The name of each position in task parameters. */
  function PositionName(p: WatermarkPosition): string {
    match p
    case LeftTop => "leftTop"
    case Top => "top"
    case RightTop => "rightTop"
    case Left => "left"
    case Center => "center"
    case Right => "right"
    case LeftBottom => "leftBottom"
    case Bottom => "bottom"
    case RightBottom => "rightBottom"
  }

  /** `From<&str> for WatermarkPosition`: a position's name gives that
      position; every other text falls back to the bottom right corner. */
  function PositionFrom(value: string): (p: WatermarkPosition)
    ensures p == RightBottom || PositionName(p) == value
  {
    match value
    case "leftTop" => LeftTop
    case "top" => Top
    case "rightTop" => RightTop
    case "left" => Left
    case "center" => Center
    case "right" => Right
    case "leftBottom" => LeftBottom
    case "bottom" => Bottom
    case _ => RightBottom
  }

  /** `v >> 1` on i64: half of v, rounded towards negative infinity. */
  function Half(v: int): (h: int)
    ensures 2 * h <= v < 2 * h + 2
  {
    v / 2
  }

  /** Where the watermark's top-left corner goes, before the margins: flush
      with the left/top edge, centred (the two gaps differ by at most one),
      or flush with the right/bottom edge, by the position's column and row. */
  function Placement(pos: WatermarkPosition, w: u32, h: u32, ww: u32, wh: u32): (o: (int, int))
    ensures pos.LeftTop? || pos.Left? || pos.LeftBottom? ==> o.0 == 0
    ensures pos.Top? || pos.Center? || pos.Bottom? ==> o.0 <= (w - ww) - o.0 <= o.0 + 1
    ensures pos.RightTop? || pos.Right? || pos.RightBottom? ==> o.0 + ww == w
    ensures pos.LeftTop? || pos.Top? || pos.RightTop? ==> o.1 == 0
    ensures pos.Left? || pos.Center? || pos.Right? ==> o.1 <= (h - wh) - o.1 <= o.1 + 1
    ensures pos.LeftBottom? || pos.Bottom? || pos.RightBottom? ==> o.1 + wh == h
    ensures -U32_LIMIT < o.0 < U32_LIMIT && -U32_LIMIT < o.1 < U32_LIMIT
  {
    match pos
    case LeftTop => (0, 0)
    case Top => (Half(w - ww), 0)
    case RightTop => (w - ww, 0)
    case Left => (0, Half(h - wh))
    case Center => (Half(w - ww), Half(h - wh))
    case Right => (w - ww, Half(h - wh))
    case LeftBottom => (0, h - wh)
    case Bottom => (Half(w - ww), h - wh)
    case RightBottom => (w - ww, h - wh)
  }

  /** The overlay offset: the placement plus the margins, added in i64 with
      wrap-around. */
  function WatermarkOffset(pos: WatermarkPosition, base: RgbaImage, mark: RgbaImage,
                           marginLeft: i64, marginTop: i64): (o: (i64, i64))
    ensures var p := Placement(pos, base.width, base.height, mark.width, mark.height);
      (I64_MIN <= p.0 + marginLeft < I64_MIN + I64_LIMIT ==> o.0 == p.0 + marginLeft) &&
      (I64_MIN <= p.1 + marginTop < I64_MIN + I64_LIMIT ==> o.1 == p.1 + marginTop)
  {
    var p := Placement(pos, base.width, base.height, mark.width, mark.height);
    (WrappingAddI64(p.0, marginLeft), WrappingAddI64(p.1, marginTop))
  }

  /** Whether the pixel at (row, col) of the base lies under `top` placed with
      its corner at (x, y). */
  predicate Covered(top: RgbaImage, x: int, y: int, row: int, col: int) {
    x <= col < x + top.width && y <= row < y + top.height
  }

  /** The overlay's pixel at (row, col): the base pixel blended with the
      covering pixel of the mark, or the base pixel where the mark does not
      reach. */
  function OverlayAt(bottom: RgbaImage, top: RgbaImage, x: int, y: int,
                     blend: (Rgba, Rgba) -> Rgba, row: nat, col: nat): Rgba
    requires row < bottom.height && col < bottom.width
  {
    if Covered(top, x, y, row, col) then blend(PixelAt(bottom, row, col), PixelAt(top, row - y, col - x))
    else PixelAt(bottom, row, col)
  }

  /** Pixel k of the overlay, in row-major order. */
  function OverlayPixel(bottom: RgbaImage, top: RgbaImage, x: int, y: int,
                        blend: (Rgba, Rgba) -> Rgba, k: nat): Rgba
    requires k < bottom.width * bottom.height
  {
    CellOf(k, bottom.width, bottom.height);
    OverlayAt(bottom, top, x, y, blend, k / bottom.width, k % bottom.width)
  }

  /** All pixels of the overlay, in row-major order. */
  function OverlayPixels(bottom: RgbaImage, top: RgbaImage, x: int, y: int, blend: (Rgba, Rgba) -> Rgba): (px: seq<Rgba>)
    ensures |px| == bottom.width * bottom.height
  {
    var n := bottom.width * bottom.height;
    seq(n, k requires 0 <= k < n => OverlayPixel(bottom, top, x, y, blend, k))
  }

  /** `imageops::overlay`: `top` drawn over `bottom` with its corner at (x, y). */
  function Overlay(bottom: RgbaImage, top: RgbaImage, x: int, y: int, blend: (Rgba, Rgba) -> Rgba): (r: RgbaImage)
    ensures r.width == bottom.width && r.height == bottom.height
    ensures Pixels(r) == OverlayPixels(bottom, top, x, y, blend)
  {
    var px := OverlayPixels(bottom, top, x, y, blend);
    PixelsFromPixels(bottom.width, bottom.height, px);
    FromPixels(bottom.width, bottom.height, px)
  }

  /** `WatermarkProcess::process`: the mark is drawn over the image at the
      offset of its position and margins; the size is kept and the stored
      bytes are dropped. */
  function Watermark(img: ProcessImage, mark: RgbaImage, pos: WatermarkPosition,
                     marginLeft: i64, marginTop: i64, env: Env): (r: ProcessImage)
    ensures r == img.(di := r.di, buffer := [])
    ensures var o := WatermarkOffset(pos, img.di, mark, marginLeft, marginTop);
      r.di == Overlay(img.di, mark, o.0, o.1, env.blend)
    ensures r.di.width == img.di.width && r.di.height == img.di.height
  {
    var o := WatermarkOffset(pos, img.di, mark, marginLeft, marginTop);
    img.(di := Overlay(img.di, mark, o.0, o.1, env.blend), buffer := [])
  }

  // ---------------------------------------------------------------------
  // Optim

  /** The output type an `optim` task asks for: the current format when none
      is named. */
  function Requested(img: ProcessImage, outputType: string): string {
    if outputType == "" then img.ext else outputType
  }

  /** The format `optim` writes: gif, png, avif and webp as asked, anything
      else as JPEG. */
  function OutputExt(requested: string): (ext: string)
    ensures ext == requested <==> requested in {IMAGE_TYPE_GIF, IMAGE_TYPE_PNG, IMAGE_TYPE_AVIF, IMAGE_TYPE_WEBP, IMAGE_TYPE_JPEG}
    ensures ext != requested ==> ext == IMAGE_TYPE_JPEG
    ensures FromExtension(ext).Some?
  {
    if requested in {IMAGE_TYPE_GIF, IMAGE_TYPE_PNG, IMAGE_TYPE_AVIF, IMAGE_TYPE_WEBP} then requested
    else IMAGE_TYPE_JPEG
  }

  /** A gateway result as a pipeline result: its failure becomes an `Images` error. */
  function Mapped(out: Result<seq<u8>, ImagesError>): (r: Result<seq<u8>, ProcessingError>)
    ensures r.Ok? <==> out.Ok?
    ensures r.Ok? ==> r.value == out.value
    ensures r.Err? ==> r.error == ImagesErr(out.error)
  {
    match out
    case Ok(data) => Ok(data)
    case Err(e) => Err(ImagesErr(e))
  }

  /** The bytes `optim` produces in format `ext`: GIF re-encodes the stored
      bytes at speed 10; the other formats encode the current pixels with the
      gateway's settings, anything but png, avif and webp as JPEG. */
  function Encoded(img: ProcessImage, ext: string, quality: u8, speed: u8, env: Env): (r: Result<seq<u8>, ProcessingError>)
    ensures ext == IMAGE_TYPE_GIF ==> r == Mapped(ToGif(img.buffer, 10, env.encodeGif))
    ensures ext == IMAGE_TYPE_PNG ==> r == Mapped(ToPng(InfoOf(img.di), quality, env.encode))
    ensures ext == IMAGE_TYPE_AVIF ==> r == Mapped(ToAvif(InfoOf(img.di), quality, speed, env.encode))
    ensures ext == IMAGE_TYPE_WEBP ==> r == Mapped(ToWebp(InfoOf(img.di), quality, env.encode))
    ensures ext !in {IMAGE_TYPE_GIF, IMAGE_TYPE_PNG, IMAGE_TYPE_AVIF, IMAGE_TYPE_WEBP} ==>
      r == Mapped(MozjpegEncoded(InfoOf(img.di), quality, env.encode))
    ensures r.Err? ==> r.error.ImagesErr?
  {
    var info := InfoOf(img.di);
    Mapped(
      if ext == IMAGE_TYPE_GIF then ToGif(img.buffer, 10, env.encodeGif)
      else if ext == IMAGE_TYPE_PNG then ToPng(info, quality, env.encode)
      else if ext == IMAGE_TYPE_AVIF then ToAvif(info, quality, speed, env.encode)
      else if ext == IMAGE_TYPE_WEBP then ToWebp(info, quality, env.encode)
      else MozjpegEncoded(info, quality, env.encode))
  }

  /** The image decoded back from adopted bytes, to give `diff` pixels to
      compare; AVIF goes through the gateway's own decoder, and a failed
      decoding keeps the current image. */
  function Redecoded(ext: string, data: seq<u8>, current: RgbaImage, env: Env): (di: RgbaImage)
    requires FromExtension(ext).Some?
    ensures ext == IMAGE_TYPE_AVIF && AvifDecoded(data, env.avifDecoder).Ok? ==>
      di == ToRgba8(AvifDecoded(data, env.avifDecoder).value)
    ensures ext == IMAGE_TYPE_AVIF && AvifDecoded(data, env.avifDecoder).Err? ==> di == current
    ensures ext != IMAGE_TYPE_AVIF && env.decode(FromExtension(ext).value, data).Some? ==>
      di == env.decode(FromExtension(ext).value, data).value
    ensures ext != IMAGE_TYPE_AVIF && env.decode(FromExtension(ext).value, data).None? ==> di == current
  {
    if ext == IMAGE_TYPE_AVIF then
      match AvifDecoded(data, env.avifDecoder)
      case Ok(d) => ToRgba8(d)
      case Err(_) => current
    else
      match env.decode(FromExtension(ext).value, data)
      case Some(d) => d
      case None => current
  }

  /** The image after adopting new bytes in format `ext`: they become the
      buffer, and the image is decoded again from them unless it is a GIF
      (which `diff` never compares). */
  function Adopted(img: ProcessImage, ext: string, data: seq<u8>, env: Env): (r: ProcessImage)
    requires FromExtension(ext).Some?
    ensures r.buffer == data && r.ext == ext
    ensures r == img.(ext := ext, buffer := data, di := r.di)
    ensures ext == IMAGE_TYPE_GIF ==> r.di == img.di
    ensures ext != IMAGE_TYPE_GIF ==> r.di == Redecoded(ext, data, img.di, env)
  {
    var next := img.(ext := ext, buffer := data);
    if ext != IMAGE_TYPE_GIF then next.(di := Redecoded(ext, data, img.di, env)) else next
  }

  /** Which adoption test `optim` applies: the one `OptimProcess::process`
      writes, or the intended one (see `Adopts`). */
  datatype Adoption = AsWritten | Intended

  /** The adoption test as `OptimProcess::process` writes it: new bytes
      replace the stored ones when the format NAME changed, when they are
      smaller, or when nothing was stored. */
  predicate AdoptsAsWritten(newExt: string, oldExt: string, newSize: nat, oldSize: nat) {
    newExt != oldExt || newSize < oldSize || oldSize == 0
  }

  /** The adoption test as intended: the FORMAT changed (`jpg` and `jpeg`
      name the same one), the new bytes are smaller, or nothing was stored. */
  predicate Adopts(newExt: string, oldExt: string, newSize: nat, oldSize: nat) {
    FromExtension(newExt) != FromExtension(oldExt) || newSize < oldSize || oldSize == 0
  }

  /** `OptimProcess::process` as written. When the new bytes are not adopted
      the image is left exactly as it was. */
  function OptimAsWritten(img: ProcessImage, outputType: string, quality: u8, speed: u8, env: Env): (r: Result<ProcessImage, ProcessingError>)
    ensures var ext := OutputExt(Requested(img, outputType));
      (r.Err? <==> Encoded(img, ext, quality, speed, env).Err?) &&
      (r.Ok? ==> r.value.ext == ext) &&
      (r.Ok? ==>
        var data := Encoded(img, ext, quality, speed, env).value;
        (AdoptsAsWritten(ext, img.ext, |data|, |img.buffer|) ==> r.value == Adopted(img, ext, data, env)) &&
        (!AdoptsAsWritten(ext, img.ext, |data|, |img.buffer|) ==> r.value == img))
  {
    var ext := OutputExt(Requested(img, outputType));
    var data :- Encoded(img, ext, quality, speed, env);
    if AdoptsAsWritten(ext, img.ext, |data|, |img.buffer|) then Ok(Adopted(img, ext, data, env))
    else Ok(img.(ext := ext))
  }

  /** `OptimProcess::process` with the intended adoption test. The encoder's
      bytes are adopted, with the image decoded again from them, when the
      format changes, when nothing was stored or when they are smaller;
      otherwise only the format name changes. The load-time snapshot, size
      and score are untouched, and stored bytes never grow while the format
      stays the same. */
  function Optim(img: ProcessImage, outputType: string, quality: u8, speed: u8, env: Env): (r: Result<ProcessImage, ProcessingError>)
    ensures var ext := OutputExt(Requested(img, outputType));
      (r.Err? <==> Encoded(img, ext, quality, speed, env).Err?) &&
      (r.Ok? ==> r.value.ext == ext)
    ensures r.Ok? ==> r.value.original == img.original && r.value.originalSize == img.originalSize && r.value.diff == img.diff
    ensures r.Ok? ==> var data := Encoded(img, r.value.ext, quality, speed, env).value;
      (Adopts(r.value.ext, img.ext, |data|, |img.buffer|) ==> r.value == Adopted(img, r.value.ext, data, env)) &&
      (!Adopts(r.value.ext, img.ext, |data|, |img.buffer|) ==> r.value == img.(ext := r.value.ext))
    ensures r.Ok? && FromExtension(r.value.ext) != FromExtension(img.ext) ==>
      r.value.buffer == Encoded(img, r.value.ext, quality, speed, env).value
    ensures r.Ok? && |img.buffer| > 0 && FromExtension(r.value.ext) == FromExtension(img.ext) ==>
      |r.value.buffer| <= |img.buffer|
  {
    var ext := OutputExt(Requested(img, outputType));
    var data :- Encoded(img, ext, quality, speed, env);
    if Adopts(ext, img.ext, |data|, |img.buffer|) then Ok(Adopted(img, ext, data, env))
    else Ok(img.(ext := ext))
  }

  /** `optim` under the given adoption test. */
  function OptimUnder(rule: Adoption, img: ProcessImage, outputType: string, quality: u8, speed: u8, env: Env): Result<ProcessImage, ProcessingError> {
    match rule
    case AsWritten => OptimAsWritten(img, outputType, quality, speed, env)
    case Intended => Optim(img, outputType, quality, speed, env)
  }

  // ---------------------------------------------------------------------
  // Output

  /** `get_buffer`: the stored bytes when there are any; otherwise the current
      image written in the format its extension names, JPEG when none. */
  function GetBuffer(img: ProcessImage, env: Env): (r: Result<seq<u8>, ProcessingError>)
    ensures |img.buffer| > 0 ==> r == Ok(img.buffer)
    ensures |img.buffer| == 0 ==>
      (r.Ok? <==> env.writeTo(FormatOrJpeg(img.ext), img.di).Some?) &&
      (r.Ok? ==> env.writeTo(FormatOrJpeg(img.ext), img.di) == Some(r.value))
    ensures r.Err? ==> r.error == Image
  {
    if |img.buffer| == 0 then
      match env.writeTo(FormatOrJpeg(img.ext), img.di)
      case None => Err(Image)
      case Some(bytes) => Ok(bytes)
    else Ok(img.buffer)
  }

  /** `support_dssim`: every format but GIF. */
  predicate SupportDssim(img: ProcessImage) {
    img.ext != IMAGE_TYPE_GIF
  }

  predicate SameSize(a: RgbaImage, b: RgbaImage) {
    a.width == b.width && a.height == b.height
  }

  /** `get_diff`: the DSSIM between the load-time snapshot and the current
      image, times 1000; -1 when there is no snapshot, the format is GIF, or
      the sizes differ. */
  function GetDiff(img: ProcessImage, env: Env): (d: real)
    ensures img.original.None? || !SupportDssim(img) ==> d == -1.0
    ensures img.original.Some? && !SameSize(img.original.value, img.di) ==> d == -1.0
    ensures img.original.Some? && SupportDssim(img) && SameSize(img.original.value, img.di) ==>
      d == env.dssim(img.original.value, img.di) * 1000.0
  {
    if img.original.None? then -1.0
    else if !SupportDssim(img) then -1.0
    else
      var original := img.original.value;
      if !SameSize(original, img.di) then -1.0
      else env.dssim(original, img.di) * 1000.0
  }

  // ---------------------------------------------------------------------
  // The task list

  /** A parsed number, or the `ParseInt` error. */
  function Parsed<T>(v: Option<T>): (r: Result<T, ProcessingError>)
    ensures r.Ok? <==> v.Some?
    ensures r.Ok? ==> r.value == v.value
    ensures r.Err? ==> r.error == ParseInt
  {
    match v
    case Some(x) => Ok(x)
    case None => Err(ParseInt)
  }

  /** The extension hint of a `load` task: its second parameter, if any. */
  function LoadHint(sub: seq<string>): string {
    if |sub| >= 2 then sub[1] else ""
  }

  /** `load`: the previous image is discarded, the new one fetched, and its
      pixels become the snapshot `diff` compares against. Without a source
      the Rust code indexes past the end and panics. */
  function LoadTask(sub: seq<string>, env: Env): (r: Result<ProcessImage, ProcessingError>)
    ensures |sub| == 0 ==> r == Err(Panic(INDEX_OUT_OF_BOUNDS))
    ensures |sub| > 0 ==> (r.Ok? <==> FetchData(sub[0], LoadHint(sub), env).Ok?)
    ensures r.Ok? ==>
      r.value == FetchData(sub[0], LoadHint(sub), env).value.(original := Some(r.value.di)) &&
      r.value.originalSize == |r.value.buffer|
    ensures r.Err? && |sub| > 0 ==> r == FetchData(sub[0], LoadHint(sub), env)
  {
    if |sub| == 0 then Err(Panic(INDEX_OUT_OF_BOUNDS))
    else
      var loaded :- FetchData(sub[0], LoadHint(sub), env);
      Ok(loaded.(original := Some(loaded.di)))
  }

  /** `resize width height`. */
  function ResizeTask(img: ProcessImage, sub: seq<string>, env: Env): (r: Result<ProcessImage, ProcessingError>)
    ensures |sub| < 2 ==> r == Err(ParamsInvalid(PARAMS_INVALID))
    ensures |sub| >= 2 && ParseU32(sub[0]).Some? && ParseU32(sub[1]).Some? ==>
      r == Resize(img, ParseU32(sub[0]).value, ParseU32(sub[1]).value, env)
    ensures |sub| >= 2 && (ParseU32(sub[0]).None? || ParseU32(sub[1]).None?) ==> r == Err(ParseInt)
  {
    if |sub| < 2 then Err(ParamsInvalid(PARAMS_INVALID))
    else
      var width :- Parsed(ParseU32(sub[0]));
      var height :- Parsed(ParseU32(sub[1]));
      Resize(img, width, height, env)
  }

  /** `optim type quality speed`: exactly three parameters. */
  function OptimTask(img: ProcessImage, sub: seq<string>, rule: Adoption, env: Env): (r: Result<ProcessImage, ProcessingError>)
    ensures |sub| != 3 ==> r == Err(ParamsInvalid(PARAMS_INVALID))
    ensures |sub| == 3 && ParseU8(sub[1]).Some? && ParseU8(sub[2]).Some? ==>
      r == OptimUnder(rule, img, sub[0], ParseU8(sub[1]).value, ParseU8(sub[2]).value, env)
    ensures |sub| == 3 && (ParseU8(sub[1]).None? || ParseU8(sub[2]).None?) ==> r == Err(ParseInt)
  {
    if |sub| != 3 then Err(ParamsInvalid(PARAMS_INVALID))
    else
      var quality :- Parsed(ParseU8(sub[1]));
      var speed :- Parsed(ParseU8(sub[2]));
      OptimUnder(rule, img, sub[0], quality, speed, env)
  }

  /** `crop x y width height`. */
  function CropTask(img: ProcessImage, sub: seq<string>): (r: Result<ProcessImage, ProcessingError>)
    ensures |sub| < 4 ==> r == Err(ParamsInvalid(PARAMS_INVALID))
    ensures |sub| >= 4 ==>
      if ParseU32(sub[0]).Some? && ParseU32(sub[1]).Some? && ParseU32(sub[2]).Some? && ParseU32(sub[3]).Some? then
        r == Ok(Crop(img, ParseU32(sub[0]).value, ParseU32(sub[1]).value, ParseU32(sub[2]).value, ParseU32(sub[3]).value))
      else r == Err(ParseInt)
  {
    if |sub| < 4 then Err(ParamsInvalid(PARAMS_INVALID))
    else
      var x :- Parsed(ParseU32(sub[0]));
      var y :- Parsed(ParseU32(sub[1]));
      var width :- Parsed(ParseU32(sub[2]));
      var height :- Parsed(ParseU32(sub[3]));
      Ok(Crop(img, x, y, width, height))
  }

  /** The position of a `watermark` task: its second parameter, bottom right
      when absent. */
  function WatermarkPositionOf(sub: seq<string>): WatermarkPosition {
    if |sub| > 1 then PositionFrom(sub[1]) else RightBottom
  }

  /** The margin in parameter i of a `watermark` task, 0 when absent. */
  function Margin(sub: seq<string>, i: nat): (r: Result<i64, ProcessingError>)
    ensures |sub| <= i ==> r == Ok(0)
  {
    if |sub| > i then Parsed(ParseI64(sub[i])) else Ok(0)
  }

  /** `watermark url [position [left [top]]]`: the URL is percent-decoded and
      loaded like an image source, then drawn over the current image. */
  function WatermarkTask(img: ProcessImage, sub: seq<string>, env: Env): (r: Result<ProcessImage, ProcessingError>)
    ensures |sub| == 0 ==> r == Err(ParamsInvalid(PARAMS_INVALID))
    ensures |sub| > 0 && env.urlDecode(sub[0]).None? ==> r == Err(FromUtf)
    ensures |sub| > 0 && env.urlDecode(sub[0]).Some? && (Margin(sub, 2).Err? || Margin(sub, 3).Err?) ==>
      r == Err(ParseInt)
    ensures |sub| > 0 && env.urlDecode(sub[0]).Some? && Margin(sub, 2).Ok? && Margin(sub, 3).Ok? ==>
      var fetched := FetchData(env.urlDecode(sub[0]).value, "", env);
      (r.Ok? <==> fetched.Ok?) && (fetched.Err? ==> r == Err(fetched.error))
    ensures r.Ok? ==>
      |sub| > 0 && env.urlDecode(sub[0]).Some? && Margin(sub, 2).Ok? && Margin(sub, 3).Ok? &&
      FetchData(env.urlDecode(sub[0]).value, "", env).Ok? &&
      var mark := FetchData(env.urlDecode(sub[0]).value, "", env).value.di;
      r.value == Watermark(img, mark, WatermarkPositionOf(sub), Margin(sub, 2).value, Margin(sub, 3).value, env)
  {
    if |sub| == 0 then Err(ParamsInvalid(PARAMS_INVALID))
    else
      match env.urlDecode(sub[0])
      case None => Err(FromUtf)
      case Some(url) =>
        var marginLeft :- Margin(sub, 2);
        var marginTop :- Margin(sub, 3);
        var mark :- FetchData(url, "", env);
        Ok(Watermark(img, mark.di, WatermarkPositionOf(sub), marginLeft, marginTop, env))
  }

  /** One task of `run`: the task name picks the operation, the remaining
      parameters are its arguments; an empty task or an unknown name changes
      nothing. `optim` applies the adoption test `rule`. */
  function Step(img: ProcessImage, params: seq<string>, rule: Adoption, env: Env): (r: Result<ProcessImage, ProcessingError>)
    ensures |params| == 0 || params[0] !in TASKS ==> r == Ok(img)
  {
    if |params| == 0 then Ok(img)
    else
      var task, sub := params[0], params[1..];
      if task == PROCESS_LOAD then LoadTask(sub, env)
      else if task == PROCESS_RESIZE then ResizeTask(img, sub, env)
      else if task == PROCESS_GRAY then Ok(Gray(img, env))
      else if task == PROCESS_OPTIM then OptimTask(img, sub, rule, env)
      else if task == PROCESS_CROP then CropTask(img, sub)
      else if task == PROCESS_WATERMARK then WatermarkTask(img, sub, env)
      else if task == PROCESS_DIFF then Ok(img.(diff := GetDiff(img, env)))
      else Ok(img)
  }

  /** The tasks applied in order from `img`, stopping at the first error. */
  function RunFrom(img: ProcessImage, tasks: seq<seq<string>>, rule: Adoption, env: Env): Result<ProcessImage, ProcessingError>
    decreases |tasks|
  {
    if |tasks| == 0 then Ok(img)
    else
      match Step(img, tasks[0], rule, env)
      case Err(e) => Err(e)
      case Ok(next) => RunFrom(next, tasks[1..], rule, env)
  }

  /** `RunFrom` unfolded at position i of the task list. */
  lemma RunFromAt(img: ProcessImage, tasks: seq<seq<string>>, i: nat, rule: Adoption, env: Env)
    requires i < |tasks|
    ensures RunFrom(img, tasks[i..], rule, env) ==
      match Step(img, tasks[i], rule, env)
      case Err(e) => Err(e)
      case Ok(next) => RunFrom(next, tasks[i + 1..], rule, env)
  {
    assert tasks[i..][0] == tasks[i];
    assert tasks[i..][1..] == tasks[i + 1..];
  }

  /** The body of `run`'s loop: one task applied to the image, `optim` with
      the adoption test as written. */
  method ApplyTask(img: ProcessImage, params: seq<string>, env: Env) returns (r: Result<ProcessImage, ProcessingError>)
    ensures r == Step(img, params, AsWritten, env)
  {
    if |params| == 0 {
      return Ok(img);
    }
    var sub := params[1..];
    var task := params[0];
    var next := img;
    if task == PROCESS_LOAD {
      if |sub| == 0 {
        return Err(Panic(INDEX_OUT_OF_BOUNDS));
      }
      var ext := "";
      if |sub| >= 2 {
        ext := sub[1];
      }
      next :- FetchData(sub[0], ext, env);
      next := next.(original := Some(next.di));
    } else if task == PROCESS_RESIZE {
      if |sub| < 2 {
        return Err(ParamsInvalid(PARAMS_INVALID));
      }
      var width :- Parsed(ParseU32(sub[0]));
      var height :- Parsed(ParseU32(sub[1]));
      next :- Resize(img, width, height, env);
    } else if task == PROCESS_GRAY {
      next := Gray(img, env);
    } else if task == PROCESS_OPTIM {
      if |sub| != 3 {
        return Err(ParamsInvalid(PARAMS_INVALID));
      }
      var quality :- Parsed(ParseU8(sub[1]));
      var speed :- Parsed(ParseU8(sub[2]));
      next :- OptimAsWritten(img, sub[0], quality, speed, env);
    } else if task == PROCESS_CROP {
      if |sub| < 4 {
        return Err(ParamsInvalid(PARAMS_INVALID));
      }
      var x :- Parsed(ParseU32(sub[0]));
      var y :- Parsed(ParseU32(sub[1]));
      var width :- Parsed(ParseU32(sub[2]));
      var height :- Parsed(ParseU32(sub[3]));
      next := Crop(img, x, y, width, height);
    } else if task == PROCESS_WATERMARK {
      if |sub| == 0 {
        return Err(ParamsInvalid(PARAMS_INVALID));
      }
      var decoded := env.urlDecode(sub[0]);
      if decoded.None? {
        return Err(FromUtf);
      }
      var position := RightBottom;
      if |sub| > 1 {
        position := PositionFrom(sub[1]);
      }
      var marginLeft := 0;
      if |sub| > 2 {
        marginLeft :- Parsed(ParseI64(sub[2]));
      }
      var marginTop := 0;
      if |sub| > 3 {
        marginTop :- Parsed(ParseI64(sub[3]));
      }
      var mark :- FetchData(decoded.value, "", env);
      next := Watermark(img, mark.di, position, marginLeft, marginTop, env);
    } else if task == PROCESS_DIFF {
      next := img.(diff := GetDiff(img, env));
    }
    r := Ok(next);
  }

  /** `run`: the tasks applied one after the other to the default image,
      stopping at the first error, with `optim` as written. */
  method Run(tasks: seq<seq<string>>, env: Env) returns (r: Result<ProcessImage, ProcessingError>)
    ensures r == RunFrom(DEFAULT, tasks, AsWritten, env)
  {
    var img := DEFAULT;
    var i := 0;
    while i < |tasks|
      invariant 0 <= i <= |tasks|
      invariant RunFrom(img, tasks[i..], AsWritten, env) == RunFrom(DEFAULT, tasks, AsWritten, env)
    {
      RunFromAt(img, tasks, i, AsWritten, env);
      img :- ApplyTask(img, tasks[i], env);
      i := i + 1;
    }
    r := Ok(img);
  }
}
