/** The codec gateway of src/images.rs: repacking pixels between the layouts
    the decoders produce and the encoders consume, the per-format encoder
    settings, and the JPEG fallback of `load`. The decoders and encoders
    themselves (image, avif_decode, imagequant, lodepng, mozjpeg and the
    WebP/AVIF/GIF encoders) are parameters: functions about whose output
    nothing is assumed. */
module Images {
  import opened Common

  datatype Rgba = Rgba(r: u8, g: u8, b: u8, a: u8)
  datatype Rgb = Rgb(r: u8, g: u8, b: u8)
  datatype Rgba16 = Rgba16(r: u16, g: u16, b: u16, a: u16)
  datatype Rgb16 = Rgb16(r: u16, g: u16, b: u16)

  /** `ImageInfo`: RGBA8 pixels in row-major order with the image's size. */
  datatype ImageInfo = ImageInfo(buffer: seq<Rgba>, width: nat, height: nat)

  /** The raw bytes of an `image` buffer with its dimensions. */
  datatype RawImage = RawImage(width: u32, height: u32, raw: seq<u8>)

  /** An `RgbaImage`: four bytes (r, g, b, a) per pixel, exactly filling the image. */
  type RgbaImage = img: RawImage | |img.raw| == 4 * (img.width * img.height)
    witness RawImage(0, 0, [])

  /** The images `avif_decode` returns, by pixel layout; `AvifOther` stands for
      the grey-scale layouts, which the gateway does not accept. */
  datatype AvifImage =
    | AvifRgb8(width: nat, height: nat, rgb8: seq<Rgb>)
    | AvifRgba8(width: nat, height: nat, rgba8: seq<Rgba>)
    | AvifRgb16(width: nat, height: nat, rgb16: seq<Rgb16>)
    | AvifRgba16(width: nat, height: nat, rgba16: seq<Rgba16>)
    | AvifOther

  /** The `DynamicImage` variants `avif_decode` can build. */
  datatype DynamicImage =
    | ImageRgb8(width: u32, height: u32, raw: seq<u8>)
    | ImageRgba8(width: u32, height: u32, raw: seq<u8>)

  /** Bytes per pixel of each variant. */
  function Channels(d: DynamicImage): (n: nat)
    ensures n == 3 || n == 4
  {
    if d.ImageRgb8? then 3 else 4
  }

  /** The buffer holds at least one pixel's bytes for every pixel of the image,
      which `ImageBuffer::from_raw` checks before building one. */
  predicate Filled(d: DynamicImage) {
    Channels(d) * (d.width * d.height) <= |d.raw|
  }

  /** `ImageError`: the failure kinds of the gateway, with their category tags. */
  datatype ImagesError =
    | ImageErr(category: string)
    | ImageQuant(category: string)
    | AvifDecode(category: string)
    | LodePng(category: string)
    | Mozjpeg
    | Io
    | Unknown

  /** The formats of the `image` crate. */
  datatype ImageFormat =
    | Png | Jpeg | Gif | WebP | Pnm | Tiff | Tga | Dds | Bmp | Ico | Hdr | OpenExr | Farbfeld | Avif | Qoi

  datatype WebpQuality = Lossless | Lossy(quality: u8)
  datatype GifRepeat = Infinite

  /** What an encoder is asked to produce: the settings each `to_*` method chooses. */
  datatype Encoding =
    | PngQuantized(minQuality: u8, maxQuality: u8, dithering: real)
    | Webp(mode: WebpQuality)
    | AvifEncoding(speed: u8, quality: u8)
    | JpegRgb(quality: u8)

  datatype GifSettings = GifSettings(speed: int, repeat: GifRepeat)

  /** `image::load(..).to_rgba8()`: `None` when the bytes are not an image of that format. */
  type ImageDecoder = (ImageFormat, seq<u8>) -> Option<RgbaImage>
  /** `avif_decode::Decoder::from_avif(..).to_image()`. */
  type AvifDecoder = seq<u8> -> Option<AvifImage>
  /** An encoder fed with pixel bytes, width and height. */
  type PixelEncoder = (Encoding, seq<u8>, nat, nat) -> Result<seq<u8>, ImagesError>
  /** The GIF re-encoder fed with the bytes of a GIF. */
  type GifEncoder = (GifSettings, seq<u8>) -> Result<seq<u8>, ImagesError>

  // ---------------------------------------------------------------------
  // Pixel layouts

  /** `chunks(4)` of RGBA bytes read as pixels, in order. */
  function PixelsOf(raw: seq<u8>): (px: seq<Rgba>)
    requires |raw| % 4 == 0
    ensures |px| == |raw| / 4
    ensures forall i :: 0 <= i < |px| ==>
      px[i] == Rgba(raw[4 * i], raw[4 * i + 1], raw[4 * i + 2], raw[4 * i + 3])
  {
    if |raw| == 0 then []
    else
      var n := |raw|;
      PixelsOf(raw[..n - 4]) + [Rgba(raw[n - 4], raw[n - 3], raw[n - 2], raw[n - 1])]
  }

  /** `as_bytes()` of RGBA8 pixels: four bytes per pixel, r, g, b, a. */
  function RgbaBytes(px: seq<Rgba>): (buf: seq<u8>)
    ensures |buf| == 4 * |px|
    ensures forall i :: 0 <= i < |px| ==>
      buf[4 * i] == px[i].r && buf[4 * i + 1] == px[i].g && buf[4 * i + 2] == px[i].b && buf[4 * i + 3] == px[i].a
  {
    if |px| == 0 then []
    else
      var p := px[|px| - 1];
      RgbaBytes(px[..|px| - 1]) + [p.r, p.g, p.b, p.a]
  }

  /** `as_bytes()` of RGB8 pixels: three bytes per pixel, r, g, b. */
  function RgbBytes(px: seq<Rgb>): (buf: seq<u8>)
    ensures |buf| == 3 * |px|
    ensures forall i :: 0 <= i < |px| ==>
      buf[3 * i] == px[i].r && buf[3 * i + 1] == px[i].g && buf[3 * i + 2] == px[i].b
  {
    if |px| == 0 then []
    else
      var p := px[|px| - 1];
      RgbBytes(px[..|px| - 1]) + [p.r, p.g, p.b]
  }

  /** A 16-bit channel narrowed to 8 bits by `/ 257`: the largest value whose
      257-fold does not exceed the channel. */
  function Narrow(c: u16): (v: u8)
    ensures 257 * v <= c < 257 * (v + 1)
  {
    c / 257
  }

  /** Widening an 8-bit channel by 257 (0xFF → 0xFFFF) and narrowing it again is lossless. */
  lemma NarrowWiden(v: u8)
    ensures Narrow(257 * v) == v
  {
  }

  /** 16-bit RGB pixels as bytes, each channel narrowed. */
  function Rgb16Bytes(px: seq<Rgb16>): (buf: seq<u8>)
    ensures |buf| == 3 * |px|
    ensures forall i :: 0 <= i < |px| ==>
      buf[3 * i] == Narrow(px[i].r) && buf[3 * i + 1] == Narrow(px[i].g) && buf[3 * i + 2] == Narrow(px[i].b)
  {
    if |px| == 0 then []
    else
      var p := px[|px| - 1];
      Rgb16Bytes(px[..|px| - 1]) + [Narrow(p.r), Narrow(p.g), Narrow(p.b)]
  }

  /** 16-bit RGBA pixels as bytes, each channel narrowed. */
  function Rgba16Bytes(px: seq<Rgba16>): (buf: seq<u8>)
    ensures |buf| == 4 * |px|
    ensures forall i :: 0 <= i < |px| ==>
      buf[4 * i] == Narrow(px[i].r) && buf[4 * i + 1] == Narrow(px[i].g) &&
      buf[4 * i + 2] == Narrow(px[i].b) && buf[4 * i + 3] == Narrow(px[i].a)
  {
    if |px| == 0 then []
    else
      var p := px[|px| - 1];
      Rgba16Bytes(px[..|px| - 1]) + [Narrow(p.r), Narrow(p.g), Narrow(p.b), Narrow(p.a)]
  }

  /** Reading RGBA bytes as pixels and writing them back gives the same bytes. */
  lemma {:induction false} RgbaBytesOfPixelsOf(raw: seq<u8>)
    requires |raw| % 4 == 0
    ensures RgbaBytes(PixelsOf(raw)) == raw
  {
    if |raw| > 0 {
      var n := |raw|;
      RgbaBytesOfPixelsOf(raw[..n - 4]);
      var px := PixelsOf(raw);
      assert px[..|px| - 1] == PixelsOf(raw[..n - 4]);
      assert raw == raw[..n - 4] + [raw[n - 4], raw[n - 3], raw[n - 2], raw[n - 1]];
    }
  }

  /** Writing pixels as bytes and reading them back gives the same pixels. */
  lemma {:induction false} PixelsOfRgbaBytes(px: seq<Rgba>)
    ensures PixelsOf(RgbaBytes(px)) == px
  {
    if |px| > 0 {
      PixelsOfRgbaBytes(px[..|px| - 1]);
      var buf := RgbaBytes(px);
      assert buf[..|buf| - 4] == RgbaBytes(px[..|px| - 1]);
      assert px == px[..|px| - 1] + [px[|px| - 1]];
    }
  }

  /** RGBA bytes with every fourth (alpha) byte removed. */
  function DropAlpha(raw: seq<u8>): (rgb: seq<u8>)
    requires |raw| % 4 == 0
  {
    if |raw| == 0 then []
    else
      var n := |raw|;
      DropAlpha(raw[..n - 4]) + raw[n - 4..n - 1]
  }

  // ---------------------------------------------------------------------
  // From<RgbaImage> for ImageInfo, and get_rgb8

  /** `From<RgbaImage>`: one pixel per four bytes, the size copied. */
  method FromRgbaImage(img: RgbaImage) returns (info: ImageInfo)
    ensures info == InfoOf(img)
    ensures info.buffer == PixelsOf(img.raw)
    ensures info.width == img.width && info.height == img.height
    ensures |info.buffer| == info.width * info.height
  {
    var raw := img.raw;
    var n := PixelCount(img);
    var buffer: seq<Rgba> := [];
    var k := 0;
    while k < n
      invariant 0 <= k <= n
      invariant |buffer| == k
      invariant forall j :: 0 <= j < k ==>
        buffer[j] == Rgba(raw[4 * j], raw[4 * j + 1], raw[4 * j + 2], raw[4 * j + 3])
    {
      buffer := buffer + [Rgba(raw[4 * k], raw[4 * k + 1], raw[4 * k + 2], raw[4 * k + 3])];
      k := k + 1;
    }
    PixelsOfPointwise(raw, buffer);
    info := ImageInfo(buffer, img.width, img.height);
  }

  /** The number of pixels of an RGBA image, a quarter of its byte count. */
  function PixelCount(img: RgbaImage): (n: nat)
    ensures n == img.width * img.height && |img.raw| == 4 * n
  {
    img.width * img.height
  }

  /** Pixels that agree chunk by chunk with RGBA bytes are the pixels of those bytes. */
  lemma PixelsOfPointwise(raw: seq<u8>, px: seq<Rgba>)
    requires |raw| == 4 * |px|
    requires forall j :: 0 <= j < |px| ==>
      px[j] == Rgba(raw[4 * j], raw[4 * j + 1], raw[4 * j + 2], raw[4 * j + 3])
    ensures px == PixelsOf(raw)
  {
    var q := PixelsOf(raw);
    assert |q| == |px|;
    forall j | 0 <= j < |px| ensures q[j] == px[j] {
    }
  }

  /** The pixels of an RGBA image in row-major order, one per pixel. */
  function Pixels(img: RgbaImage): (px: seq<Rgba>)
    ensures |px| == img.width * img.height
    ensures forall i :: 0 <= i < |px| ==>
      px[i] == Rgba(img.raw[4 * i], img.raw[4 * i + 1], img.raw[4 * i + 2], img.raw[4 * i + 3])
  {
    var n := PixelCount(img);
    PixelsOf(img.raw)
  }

  /** The pixel in row `row` and column `col`. */
  function PixelAt(img: RgbaImage, row: nat, col: nat): Rgba
    requires row < img.height && col < img.width
  {
    CellIndex(row, col, img.width, img.height);
    Pixels(img)[row * img.width + col]
  }

  /** The RGBA image of the given size holding the given pixels. */
  function FromPixels(width: u32, height: u32, px: seq<Rgba>): (img: RgbaImage)
    requires |px| == width * height
    ensures img.width == width && img.height == height
  {
    RawImage(width, height, RgbaBytes(px))
  }

  /** An image built from pixels gives those pixels back. */
  lemma PixelsFromPixels(width: u32, height: u32, px: seq<Rgba>)
    requires |px| == width * height
    ensures Pixels(FromPixels(width, height, px)) == px
  {
    PixelsOfRgbaBytes(px);
  }

  /** The `ImageInfo` of an RGBA image: its pixels and its size. */
  function InfoOf(img: RgbaImage): (info: ImageInfo)
    ensures info.width == img.width && info.height == img.height
    ensures info.buffer == Pixels(img) && |info.buffer| == info.width * info.height
  {
    ImageInfo(Pixels(img), img.width, img.height)
  }

  /** The first n pixels of RGB bytes, each made opaque. */
  function OpaquePixels(raw: seq<u8>, n: nat): (px: seq<Rgba>)
    requires 3 * n <= |raw|
    ensures |px| == n
    ensures forall i :: 0 <= i < n ==> px[i] == Rgba(raw[3 * i], raw[3 * i + 1], raw[3 * i + 2], 0xFF)
  {
    seq(n, i requires 0 <= i < n => Rgba(raw[3 * i], raw[3 * i + 1], raw[3 * i + 2], 0xFF))
  }

  /** The first n pixels of RGBA bytes. */
  function LeadingPixels(raw: seq<u8>, n: nat): (px: seq<Rgba>)
    requires 4 * n <= |raw|
    ensures |px| == n
    ensures forall i :: 0 <= i < n ==> px[i] == Rgba(raw[4 * i], raw[4 * i + 1], raw[4 * i + 2], raw[4 * i + 3])
  {
    seq(n, i requires 0 <= i < n => Rgba(raw[4 * i], raw[4 * i + 1], raw[4 * i + 2], raw[4 * i + 3]))
  }

  /** `to_rgba8()` of a decoded image: its first width * height pixels, an RGB
      pixel gaining an opaque alpha. */
  function ToRgba8(d: DynamicImage): (img: RgbaImage)
    requires Filled(d)
    ensures img.width == d.width && img.height == d.height
    ensures d.ImageRgb8? ==> Pixels(img) == OpaquePixels(d.raw, d.width * d.height)
    ensures d.ImageRgba8? ==> Pixels(img) == LeadingPixels(d.raw, d.width * d.height)
  {
    var n := d.width * d.height;
    var px := if d.ImageRgb8? then OpaquePixels(d.raw, n) else LeadingPixels(d.raw, n);
    PixelsFromPixels(d.width, d.height, px);
    FromPixels(d.width, d.height, px)
  }

  function RgbOf(p: Rgba): Rgb {
    Rgb(p.r, p.g, p.b)
  }

  /** `get_rgb8`: each pixel with its alpha dropped, in order. */
  method GetRgb8(info: ImageInfo) returns (out: seq<Rgb>)
    ensures |out| == |info.buffer|
    ensures forall i :: 0 <= i < |out| ==> out[i] == RgbOf(info.buffer[i])
  {
    out := [];
    for i := 0 to |info.buffer|
      invariant |out| == i
      invariant forall j :: 0 <= j < i ==> out[j] == RgbOf(info.buffer[j])
    {
      out := out + [RgbOf(info.buffer[i])];
    }
  }

  /** The scanlines of alpha-dropped pixels are the RGBA bytes without their alpha bytes. */
  lemma {:induction false} RgbBytesDropAlpha(px: seq<Rgba>, rgb: seq<Rgb>)
    requires |rgb| == |px|
    requires forall i :: 0 <= i < |rgb| ==> rgb[i] == RgbOf(px[i])
    ensures RgbBytes(rgb) == DropAlpha(RgbaBytes(px))
  {
    if |px| > 0 {
      var n := |px|;
      RgbBytesDropAlpha(px[..n - 1], rgb[..n - 1]);
      var raw := RgbaBytes(px);
      assert raw[..|raw| - 4] == RgbaBytes(px[..n - 1]);
      assert rgb[..n - 1] + [rgb[n - 1]] == rgb;
    }
  }

  // ---------------------------------------------------------------------
  // avif_decode

  /** `ImageBuffer::from_raw(width as u32, height as u32, buf)` for `channels`
      bytes per pixel: the buffer must hold at least that many bytes. */
  function FromRaw(width: nat, height: nat, channels: nat, buf: seq<u8>): (r: Option<(u32, u32)>)
    ensures r.Some? <==> channels * ((width % U32_LIMIT) * (height % U32_LIMIT)) <= |buf|
    ensures r.Some? ==> r.value == (width % U32_LIMIT, height % U32_LIMIT)
  {
    var w: u32 := width % U32_LIMIT;
    var h: u32 := height % U32_LIMIT;
    if channels * (w * h) <= |buf| then Some((w, h)) else None
  }

  /** What `avif_decode` makes of a decoded AVIF image: an image whose buffer
      holds at least its pixels. */
  function AvifToImage(img: AvifImage): (r: Result<DynamicImage, ImagesError>)
    ensures r.Ok? ==> Filled(r.value)
  {
    match img
    case AvifRgb8(w, h, px) =>
      var buf := RgbBytes(px);
      (match FromRaw(w, h, 3, buf) case Some(d) => Ok(ImageRgb8(d.0, d.1, buf)) case None => Err(Unknown))
    case AvifRgba8(w, h, px) =>
      var buf := RgbaBytes(px);
      (match FromRaw(w, h, 4, buf) case Some(d) => Ok(ImageRgba8(d.0, d.1, buf)) case None => Err(Unknown))
    case AvifRgba16(w, h, px) =>
      var buf := Rgba16Bytes(px);
      (match FromRaw(w, h, 4, buf) case Some(d) => Ok(ImageRgba8(d.0, d.1, buf)) case None => Err(Unknown))
    case AvifRgb16(w, h, px) =>
      var buf := Rgb16Bytes(px);
      (match FromRaw(w, h, 3, buf) case Some(d) => Ok(ImageRgb8(d.0, d.1, buf)) case None => Err(Unknown))
    case AvifOther => Err(Unknown)
  }

  function AvifDecoded(data: seq<u8>, decoder: AvifDecoder): (r: Result<DynamicImage, ImagesError>)
    ensures r.Err? ==> r.error == AvifDecode("decode") || r.error == Unknown
    ensures r.Ok? ==> Filled(r.value)
  {
    match decoder(data)
    case None => Err(AvifDecode("decode"))
    case Some(img) => AvifToImage(img)
  }

  /** A decoded image whose pixel count matches its size (and whose size fits
      u32) always converts: RGB layouts give 3 bytes per pixel, RGBA layouts 4,
      with the size kept; only the grey-scale layouts are refused. */
  lemma AvifToImageShape(img: AvifImage)
    requires !img.AvifOther?
    requires img.width < U32_LIMIT && img.height < U32_LIMIT
    requires match img
      case AvifRgb8(w, h, px) => |px| == w * h
      case AvifRgba8(w, h, px) => |px| == w * h
      case AvifRgb16(w, h, px) => |px| == w * h
      case AvifRgba16(w, h, px) => |px| == w * h
      case AvifOther => false
    ensures AvifToImage(img).Ok?
    ensures var d := AvifToImage(img).value;
      d.width == img.width && d.height == img.height &&
      (img.AvifRgb8? || img.AvifRgb16? ==> d.ImageRgb8? && |d.raw| == 3 * (img.width * img.height)) &&
      (img.AvifRgba8? || img.AvifRgba16? ==> d.ImageRgba8? && |d.raw| == 4 * (img.width * img.height))
  {
    var w, h := img.width, img.height;
    assert w % U32_LIMIT == w && h % U32_LIMIT == h;
  }

  method PackRgb8(px: seq<Rgb>) returns (buf: seq<u8>)
    ensures buf == RgbBytes(px)
  {
    buf := [];
    for i := 0 to |px|
      invariant buf == RgbBytes(px[..i])
    {
      assert px[..i + 1][..i] == px[..i];
      buf := buf + [px[i].r, px[i].g, px[i].b];
    }
    assert px[..|px|] == px;
  }

  method PackRgba8(px: seq<Rgba>) returns (buf: seq<u8>)
    ensures buf == RgbaBytes(px)
  {
    buf := [];
    for i := 0 to |px|
      invariant buf == RgbaBytes(px[..i])
    {
      assert px[..i + 1][..i] == px[..i];
      buf := buf + [px[i].r, px[i].g, px[i].b, px[i].a];
    }
    assert px[..|px|] == px;
  }

  method PackRgba16(px: seq<Rgba16>) returns (buf: seq<u8>)
    ensures buf == Rgba16Bytes(px)
  {
    buf := [];
    for i := 0 to |px|
      invariant buf == Rgba16Bytes(px[..i])
    {
      assert px[..i + 1][..i] == px[..i];
      var item := px[i];
      buf := buf + [item.r / 257, item.g / 257, item.b / 257, item.a / 257];
    }
    assert px[..|px|] == px;
  }

  method PackRgb16(px: seq<Rgb16>) returns (buf: seq<u8>)
    ensures buf == Rgb16Bytes(px)
  {
    buf := [];
    for i := 0 to |px|
      invariant buf == Rgb16Bytes(px[..i])
    {
      assert px[..i + 1][..i] == px[..i];
      var item := px[i];
      buf := buf + [item.r / 257, item.g / 257, item.b / 257];
    }
    assert px[..|px|] == px;
  }

  /** `avif_decode`: decode, then flatten the pixels of the layout found into
      8-bit channels and wrap them as an RGB or RGBA image. */
  method AvifDecodeImage(data: seq<u8>, decoder: AvifDecoder) returns (r: Result<DynamicImage, ImagesError>)
    ensures r == AvifDecoded(data, decoder)
  {
    var decoded := decoder(data);
    if decoded.None? {
      return Err(AvifDecode("decode"));
    }
    match decoded.value {
      case AvifRgb8(w, h, px) =>
        var buf := PackRgb8(px);
        var dims := FromRaw(w, h, 3, buf);
        if dims.None? { return Err(Unknown); }
        r := Ok(ImageRgb8(dims.value.0, dims.value.1, buf));
      case AvifRgba8(w, h, px) =>
        var buf := PackRgba8(px);
        var dims := FromRaw(w, h, 4, buf);
        if dims.None? { return Err(Unknown); }
        r := Ok(ImageRgba8(dims.value.0, dims.value.1, buf));
      case AvifRgba16(w, h, px) =>
        var buf := PackRgba16(px);
        var dims := FromRaw(w, h, 4, buf);
        if dims.None? { return Err(Unknown); }
        r := Ok(ImageRgba8(dims.value.0, dims.value.1, buf));
      case AvifRgb16(w, h, px) =>
        var buf := PackRgb16(px);
        var dims := FromRaw(w, h, 3, buf);
        if dims.None? { return Err(Unknown); }
        r := Ok(ImageRgb8(dims.value.0, dims.value.1, buf));
      case AvifOther =>
        r := Err(Unknown);
    }
  }

  // ---------------------------------------------------------------------
  // Formats and load

  function AsciiLower(s: string): (t: string)
    ensures |t| == |s|
    ensures forall i :: 0 <= i < |s| ==>
      t[i] == (if 'A' <= s[i] <= 'Z' then (s[i] as int + 32) as char else s[i])
  {
    if |s| == 0 then []
    else AsciiLower(s[..|s| - 1]) + [if 'A' <= s[|s| - 1] <= 'Z' then (s[|s| - 1] as int + 32) as char else s[|s| - 1]]
  }

  /** `ImageFormat::from_extension`: the `image` crate's extension table,
      matched without regard to ASCII case. */
  function FromExtension(ext: string): Option<ImageFormat> {
    var e := AsciiLower(ext);
    if e == "avif" then Some(Avif)
    else if e == "jpg" || e == "jpeg" then Some(Jpeg)
    else if e == "png" then Some(Png)
    else if e == "gif" then Some(Gif)
    else if e == "webp" then Some(WebP)
    else if e == "tif" || e == "tiff" then Some(Tiff)
    else if e == "tga" then Some(Tga)
    else if e == "dds" then Some(Dds)
    else if e == "bmp" then Some(Bmp)
    else if e == "ico" then Some(Ico)
    else if e == "hdr" then Some(Hdr)
    else if e == "exr" then Some(OpenExr)
    else if e == "pbm" || e == "pam" || e == "ppm" || e == "pgm" then Some(Pnm)
    else if e == "ff" || e == "farbfeld" then Some(Farbfeld)
    else if e == "qoi" then Some(Qoi)
    else None
  }

  /** The format `load` decodes with: the one the extension names, JPEG when it names none. */
  function FormatOrJpeg(ext: string): (f: ImageFormat)
    ensures FromExtension(ext).Some? ==> f == FromExtension(ext).value
    ensures FromExtension(ext).None? ==> f == Jpeg
  {
    FromExtension(ext).GetOr(Jpeg)
  }

  /** `load`: decode with the extension's format (JPEG when unknown) and
      convert to RGBA pixels of the same size. */
  method Load(data: seq<u8>, ext: string, decode: ImageDecoder) returns (r: Result<ImageInfo, ImagesError>)
    ensures r.Err? <==> decode(FormatOrJpeg(ext), data).None?
    ensures r.Err? ==> r.error == ImageErr("load")
    ensures r.Ok? ==>
      var img := decode(FormatOrJpeg(ext), data).value;
      r.value.width == img.width && r.value.height == img.height &&
      r.value.buffer == PixelsOf(img.raw) && |r.value.buffer| == img.width * img.height
  {
    var format := FromExtension(ext).GetOr(Jpeg);
    var result := decode(format, data);
    if result.None? {
      return Err(ImageErr("load"));
    }
    var info := FromRgbaImage(result.value);
    r := Ok(info);
  }

  // ---------------------------------------------------------------------
  // Encoder settings

  /** `to_png`: the quantizer aims for quality in [0, quality] and dithers fully. */
  function PngEncoding(quality: u8): (e: Encoding)
    ensures e.PngQuantized? && e.minQuality == 0 && e.maxQuality == quality && e.dithering == 1.0
  {
    PngQuantized(0, quality, 1.0)
  }

  /** `to_webp`: 100 means lossless; every other quality is lossy at that quality. */
  function WebpMode(quality: u8): (m: WebpQuality)
    ensures m.Lossless? <==> quality == 100
    ensures m.Lossy? ==> m.quality == quality
  {
    match quality
    case 100 => Lossless
    case _ => Lossy(quality)
  }

  /** `to_avif`: speed 0 is not accepted by the encoder and becomes 3; any
      other speed is used as given. */
  function AvifSpeed(speed: u8): (s: u8)
    ensures s != 0
    ensures speed != 0 ==> s == speed
    ensures speed == 0 ==> s == 3
  {
    if speed == 0 then 3 else speed
  }

  /** `to_gif`: re-encode at the given speed, repeating forever. */
  function GifSettingsFor(speed: u8): (g: GifSettings)
    ensures g.speed == speed && g.repeat == Infinite
  {
    GifSettings(speed, Infinite)
  }

  /** `to_png`: the RGBA bytes and the size, quantized with `PngEncoding`. */
  function ToPng(info: ImageInfo, quality: u8, encode: PixelEncoder): Result<seq<u8>, ImagesError> {
    encode(PngEncoding(quality), RgbaBytes(info.buffer), info.width, info.height)
  }

  function ToWebp(info: ImageInfo, quality: u8, encode: PixelEncoder): (r: Result<seq<u8>, ImagesError>)
    ensures quality == 100 ==> r == encode(Webp(Lossless), RgbaBytes(info.buffer), info.width, info.height)
    ensures quality != 100 ==> r == encode(Webp(Lossy(quality)), RgbaBytes(info.buffer), info.width, info.height)
  {
    encode(Webp(WebpMode(quality)), RgbaBytes(info.buffer), info.width, info.height)
  }

  function ToAvif(info: ImageInfo, quality: u8, speed: u8, encode: PixelEncoder): (r: Result<seq<u8>, ImagesError>)
    ensures speed == 0 ==> r == encode(AvifEncoding(3, quality), RgbaBytes(info.buffer), info.width, info.height)
    ensures speed != 0 ==> r == encode(AvifEncoding(speed, quality), RgbaBytes(info.buffer), info.width, info.height)
  {
    encode(AvifEncoding(AvifSpeed(speed), quality), RgbaBytes(info.buffer), info.width, info.height)
  }

  /** `to_gif`: the GIF bytes re-encoded with `GifSettingsFor`. */
  function ToGif(data: seq<u8>, speed: u8, encode: GifEncoder): Result<seq<u8>, ImagesError> {
    encode(GifSettingsFor(speed), data)
  }

  /** What `to_mozjpeg` produces: the JPEG encoder applied to the RGBA bytes
      with their alpha bytes removed. */
  function MozjpegEncoded(info: ImageInfo, quality: u8, encode: PixelEncoder): Result<seq<u8>, ImagesError> {
    encode(JpegRgb(quality), DropAlpha(RgbaBytes(info.buffer)), info.width, info.height)
  }

  /** `to_mozjpeg`: the JPEG encoder receives the RGBA bytes with their alpha
      bytes removed. */
  method ToMozjpeg(info: ImageInfo, quality: u8, encode: PixelEncoder) returns (r: Result<seq<u8>, ImagesError>)
    ensures r == MozjpegEncoded(info, quality, encode)
    ensures r == encode(JpegRgb(quality), DropAlpha(RgbaBytes(info.buffer)), info.width, info.height)
  {
    var rgb := GetRgb8(info);
    RgbBytesDropAlpha(info.buffer, rgb);
    r := encode(JpegRgb(quality), RgbBytes(rgb), info.width, info.height);
  }
}
