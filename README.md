# imageoptimize, modelled in Dafny

`imageoptimize` optimizes JPEG, PNG, WebP, AVIF and GIF images. The model
covers three parts of the Rust program.

- **The pipeline** (`src/image_processing.rs`). A `ProcessImage` holds:
  - the current pixels;
  - a snapshot taken when the image was loaded;
  - the encoded bytes that still describe the pixels;
  - the format name of those bytes;
  - the original size and a DSSIM score.

  `run` threads this value through a list of textual tasks: `load`, `resize`,
  `gray`, `optim`, `crop`, `watermark` and `diff`. It stops at the first error
  and skips empty or unknown tasks. Each task is a function on the value
  (`ImageProcessing.Step`). `run` itself is a loop (`ImageProcessing.Run`),
  proved equal to the fold `RunFrom`. The functions take the adoption test
  of `optim` as a parameter: `AsWritten` is the program's, `Intended` the
  corrected one described under "Findings". `Run` and the driver's
  `OptimizeImage` use `AsWritten`.
- **The codec gateway** (`src/images.rs`). This covers:
  - repacking pixels between the layouts the decoders produce and the bytes
    the encoders consume;
  - the 16-bit to 8-bit narrowing of AVIF pixels and the size check of
    `from_raw`;
  - the JPEG fallback of `load`;
  - the settings each `to_*` encoder is called with.
- **The batch driver** (`bin/imageoptimize.rs`). This covers:
  - choosing the source and output directories;
  - the sorted, de-duplicated extension list;
  - the conversion map;
  - the job list built from the glob results;
  - the three-task pipeline run for each job;
  - the figures printed in the report.

Everything outside the program is a parameter:
- the network, the file system, base64 and URL decoding;
- the decoders and encoders of the `image`, `avif_decode`, `imagequant`,
  `lodepng`, `mozjpeg`, WebP, AVIF and GIF crates;
- Lanczos resampling, luma, alpha blending and DSSIM.

These are fields of an `Env` value (or a `Glob` function) about which
nothing is assumed.

Several conventions apply throughout the model:
- Rust panics become an explicit `Panic(reason)` error. These are `load`
  without a source, and the division by zero in `resize` and in the
  percentage.
- Release-mode wrap-around is written out. This is the u32 product in
  `resize` and the i64 margin sums in `watermark`.
- The decoded image `di` is always held in its RGBA8 form.

Behaviours of the `image` crate and of Rust's `Path` that the program relies
on are modelled from their documented behaviour:
- the extension table of `ImageFormat::from_extension`;
- the clamping in `imageops::crop`;
- the size check in `ImageBuffer::from_raw`;
- `file_name`, `extension` and `with_extension`.

`load` takes the snapshot that `diff` compares against again on every call,
so a second `load` in a task list replaces it (image_processing.rs:82-83).

As written, the driver encodes WebP conversions at quality 0: the
`ImageQualities` it builds always has `webp: 0` (imageoptimize.rs:292-297).
`ImageOptimize.QualitiesOf` keeps that value.

## Model

| member | source | states |
|---|---|---|
| Common.WrappingMulU32 | src/image_processing.rs:328-331 | u32 multiplication with overflow checks off: the true product when it fits, otherwise congruent to it modulo 2^32 |
| Common.WrappingAddI64 | src/image_processing.rs:454-455 | i64 addition with overflow checks off: the true sum when it fits, otherwise congruent to it modulo 2^64 |
| Common.CellIndex | src/image_processing.rs:485-492 | every (row, col) of a row-major grid has an index below the cell count |
| Common.CellOf | src/image_processing.rs:485-492 | every index below the cell count names a row and a column inside the grid |
| Common.CellRoundTrip | src/image_processing.rs:457 | the row and column of a cell are recovered from its index by division and remainder |
| Text.Count | src/image_processing.rs:271-272 | the occurrence count of a char is zero exactly when the char is absent, and never exceeds the length |
| Text.Split | src/image_processing.rs:271-272 | `split(c)` gives one more piece than there are separators, and no piece contains the separator |
| Text.JoinSplit | src/image_processing.rs:271-272 | joining the pieces of a split with the separator gives the input back |
| Text.SplitLastIsSuffix | src/image_processing.rs:280 | the last piece of a split is the suffix after the last separator, or the whole string |
| Text.LastSegment | bin/imageoptimize.rs:146 | `split(c).next_back()` is a separator-free suffix, preceded by the separator when shorter than the input |
| Text.LastIndex | bin/imageoptimize.rs:258 | the index of the last occurrence of a char, or -1; no later position holds that char |
| Text.ReplaceBySelf | bin/imageoptimize.rs:265-274 | replacing the source directory by itself leaves every path unchanged, so the `source == output` shortcut agrees with `replace` |
| Text.Replace | bin/imageoptimize.rs:271 | (definition) `str::replace`: each non-overlapping occurrence of the pattern, left to right, becomes the replacement; an empty pattern inserts the replacement before every char and at the end |
| Text.NatToString | bin/imageoptimize.rs:156 | `to_string` of a number is a non-empty digit string without a leading zero |
| Text.DigitsValueOfNatToString | bin/imageoptimize.rs:156 | the digits printed for a number denote that number |
| Text.ParseUnsigned | src/image_processing.rs:88-89 | `parse::<uN>` succeeds exactly on an optional `+` followed by one or more digits denoting at most the type's maximum, and yields the number they denote |
| Text.ParseI64 | src/image_processing.rs:134 | `parse::<i64>` succeeds exactly on `-` and digits denoting at most 2^63 (yielding its negation), or on an unsigned text denoting at most 2^63 - 1 (yielding that number); only `-` text is negative |
| Text.ParseUnsignedOfNatToString | src/image_processing.rs:101 | parsing the printed form of any in-range number gives the number back |
| Text.ParseU8OfNatToString | src/image_processing.rs:101-106 | a u8 quality or speed printed into a task is read back unchanged |
| Text.ParseI64OfNatToString | src/image_processing.rs:134 | every i64 margin in its printed form, -2^63 and 2^63 - 1 included, parses back to itself |
| Text.LessIrreflexive | bin/imageoptimize.rs:208 | no string sorts before itself |
| Text.LessTransitive | bin/imageoptimize.rs:208 | the string order `sort` uses is transitive |
| Text.LessTotal | bin/imageoptimize.rs:208 | of two different strings, one sorts before the other |
| Text.LessAsymmetric | bin/imageoptimize.rs:208 | two strings never sort before each other |
| Images.Channels | src/images.rs:100-153 | the images `avif_decode` builds have 3 (RGB) or 4 (RGBA) bytes per pixel |
| Images.PixelsOf | src/images.rs:71-78 | `chunks(4)` of RGBA bytes gives one pixel per four bytes, channel i of pixel k from byte 4k+i |
| Images.RgbaBytes | src/images.rs:117-122 | `as_bytes` of RGBA pixels is four bytes per pixel in r, g, b, a order |
| Images.RgbBytes | src/images.rs:104-108 | RGB pixels flattened are three bytes per pixel in r, g, b order |
| Images.Narrow | src/images.rs:132-135 | `/ 257` narrows a 16-bit channel to the largest 8-bit value whose 257-fold does not exceed it |
| Images.NarrowWiden | src/images.rs:132-135 | an 8-bit value widened by 257 narrows back to itself |
| Images.Rgb16Bytes | src/images.rs:145-149 | 16-bit RGB pixels become three narrowed bytes each |
| Images.Rgba16Bytes | src/images.rs:131-136 | 16-bit RGBA pixels become four narrowed bytes each |
| Images.RgbaBytesOfPixelsOf | src/images.rs:65-86 | reading RGBA bytes as pixels and writing them back gives the same bytes |
| Images.PixelsOfRgbaBytes | src/images.rs:65-86 | writing pixels as bytes and reading them back gives the same pixels |
| Images.FromRgbaImage | src/images.rs:65-86 | `From<RgbaImage>`: the loop yields one pixel per four bytes, in order, with the size copied |
| Images.Pixels | src/images.rs:71-78 | an RGBA image has exactly width × height pixels, read row by row from its bytes |
| Images.FromPixels | src/image_processing.rs:333-335 | an image built from width × height pixels has that size |
| Images.PixelsFromPixels | src/image_processing.rs:333-335 | an image built from pixels gives the same pixels back |
| Images.InfoOf | src/image_processing.rs:517 | the `ImageInfo` of an image has its size and its pixels |
| Images.ToRgba8 | src/image_processing.rs:83 | `to_rgba8` keeps the size, gives RGB pixels an opaque alpha, and takes the first width × height pixels |
| Images.GetRgb8 | src/images.rs:192-200 | `get_rgb8`: each pixel with its alpha dropped, in order |
| Images.RgbBytesDropAlpha | src/images.rs:290 | the scanlines given to mozjpeg are the RGBA bytes with every alpha byte removed |
| Images.FromRaw | src/images.rs:109-110 | `from_raw(w as u32, h as u32, buf)` succeeds exactly when the truncated size's pixels fit in the buffer |
| Images.AvifToImage | src/images.rs:99-155 | every image built from a decoded AVIF holds at least its pixels' bytes |
| Images.AvifDecoded | src/images.rs:90-156 | `avif_decode` fails only with the `decode` category or `Unknown`, and its images are filled |
| Images.AvifToImageShape | src/images.rs:99-155 | a decoded AVIF whose pixel count matches its size always converts: RGB layouts to 3 bytes per pixel, RGBA layouts to 4, same size; grey layouts are refused |
| Images.PackRgb8 | src/images.rs:103-108 | the RGB8 packing loop builds the flattened bytes |
| Images.PackRgba8 | src/images.rs:116-122 | the RGBA8 packing loop builds the flattened bytes |
| Images.PackRgba16 | src/images.rs:130-136 | the RGBA16 loop builds the narrowed bytes |
| Images.PackRgb16 | src/images.rs:144-149 | the RGB16 loop builds the narrowed bytes |
| Images.AvifDecodeImage | src/images.rs:90-156 | `avif_decode` as a method with loops equals its specification `AvifDecoded` |
| Images.AsciiLower | src/images.rs:159 | ASCII lower-casing keeps the length and lowers exactly the letters A-Z |
| Images.FormatOrJpeg | src/images.rs:159 | the format named by the extension, JPEG when the extension names none |
| Images.Load | src/images.rs:158-163 | `load` fails exactly when decoding in that format fails, with the `load` category; otherwise the pixels and the size are the decoded image's |
| Images.PngEncoding | src/images.rs:203-238 | `to_png` quantizes the RGBA bytes aiming at quality [0, quality] with full dithering |
| Images.WebpMode | src/images.rs:243-246 | quality 100 is lossless, every other quality lossy at that quality |
| Images.AvifSpeed | src/images.rs:266-269 | AVIF speed 0 becomes 3; any other speed is kept, so the speed used is never 0 |
| Images.GifSettingsFor | src/images.rs:165-188 | `to_gif` re-encodes the GIF bytes at the given speed, repeating forever |
| Images.ToWebp | src/images.rs:240-260 | `to_webp` encodes the RGBA bytes losslessly at 100 and lossily otherwise |
| Images.ToAvif | src/images.rs:264-283 | `to_avif` encodes the RGBA bytes at the given quality, with speed 0 replaced by 3 |
| Images.ToMozjpeg | src/images.rs:285-294 | `to_mozjpeg` gives the JPEG encoder the RGBA bytes with their alpha removed |
| Images.FromExtension | src/image_processing.rs:565 | (definition) `ImageFormat::from_extension`: the `image` crate's extension table, ignoring ASCII case, so `jpg` and `jpeg` both give JPEG |
| ImageProcessing.Classify | src/image_processing.rs:256-258 | data starting with `http` is fetched; otherwise `file://` data is read from the path after the prefix; anything else is base64 |
| ImageProcessing.HeaderToStr | src/image_processing.rs:270 | `HeaderValue::to_str` succeeds exactly on visible ASCII and tabs, byte for byte |
| ImageProcessing.ContentTypeExt | src/image_processing.rs:271-274 | a content type with exactly one `/` gives the subtype after it; otherwise the hint is kept |
| ImageProcessing.HttpExt | src/image_processing.rs:269-275 | no content type keeps the hint; an unreadable header is the `HttpHeaderToStr` error; a readable one gives the extension `ContentTypeExt` derives from it and the hint |
| ImageProcessing.NewImage | src/image_processing.rs:169-186 | an unknown extension is refused with "Image format is not support" before decoding; a decoding failure is `Image`; otherwise the bytes are the buffer, their length the original size, and there is no snapshot |
| ImageProcessing.FetchData | src/image_processing.rs:253-291 | the bytes come from the network, the file after `file://` or base64, as the data says. Once read, the result is exactly `NewImage` of those bytes with, per source, the extension `HttpExt` gives, the text after the last `.` of the data, or the hint. A failed request or missing body is `Reqwest`, an unreadable content type `HttpHeaderToStr`, and read and decode failures `Io` and `Base64Decode`. A loaded image's original size is its byte count |
| ImageProcessing.ResizeTarget | src/image_processing.rs:319-332 | a zero side is derived from the other in wrapping u32 arithmetic, rounded down (aspect kept when the product fits); division by a zero side is the only failure |
| ImageProcessing.FloorQuotient | src/image_processing.rs:328 | the floor quotient lies between the neighbouring multiples |
| ImageProcessing.Resampled | src/image_processing.rs:333 | `resize` yields an image of exactly the requested size |
| ImageProcessing.Resize | src/image_processing.rs:317-337 | 0 x 0 returns the image untouched. A zero divisor panics. Otherwise only the pixels change, to the target size, and the stored bytes are emptied |
| ImageProcessing.Gray | src/image_processing.rs:352-357 | gray keeps the size, makes every pixel the opaque grey of its luma, empties the stored bytes and changes nothing else |
| ImageProcessing.ClampWindow | src/image_processing.rs:488 | the crop window is the requested one with its corner clamped into the image and cut at the right and bottom edges |
| ImageProcessing.WindowSource | src/image_processing.rs:488 | pixel k of a window inside the image is at a valid index of the image |
| ImageProcessing.Crop | src/image_processing.rs:485-492 | crop yields exactly the pixels of the clamped window at its size, empties the stored bytes and changes nothing else |
| ImageProcessing.PositionFrom | src/image_processing.rs:372-386 | a position name gives that position; any other text gives bottom right |
| ImageProcessing.Half | src/image_processing.rs:425 | `>> 1` on i64 halves, rounding towards negative infinity |
| ImageProcessing.Placement | src/image_processing.rs:416-453 | the mark is flush left or top, centred (gaps differ by at most one) or flush right or bottom, by column and row of the position |
| ImageProcessing.WatermarkOffset | src/image_processing.rs:454-455 | the offset is the placement plus the margins, exact when the i64 sum does not overflow |
| ImageProcessing.OverlayPixels | src/image_processing.rs:457 | the overlay has one pixel per pixel of the base |
| ImageProcessing.Overlay | src/image_processing.rs:457 | the overlay keeps the base's size |
| ImageProcessing.Watermark | src/image_processing.rs:414-461 | watermark draws the mark at the offset, keeps the size, empties the stored bytes and changes nothing else |
| ImageProcessing.OutputExt | src/image_processing.rs:529-548 | gif, png, avif and webp are written as asked; everything else becomes `jpeg`; the result always names a known format |
| ImageProcessing.Mapped | src/image_processing.rs:531-548 | a gateway result passes through, its failure becoming an `Images` error |
| ImageProcessing.Encoded | src/image_processing.rs:531-548 | GIF re-encodes the stored bytes at speed 10; png, avif and webp encode the current pixels with their gateway encoders, and every other type with mozjpeg; failures are `Images` errors |
| ImageProcessing.Redecoded | src/image_processing.rs:556-571 | adopted bytes are decoded again (AVIF by the gateway's decoder, the rest by `image`); when that decoding fails, AVIF or not, the current image is kept |
| ImageProcessing.Adopted | src/image_processing.rs:552-571 | adopting new bytes sets the buffer and the format name, keeps GIF pixels, re-decodes every other format's pixels from the new bytes, and changes nothing else |
| ImageProcessing.OptimAsWritten | src/image_processing.rs:514-575 | `optim` as written adopts when the format name changed, when the output is smaller, or when nothing was stored; otherwise only the format name changes; encoder errors propagate |
| ImageProcessing.Optim | src/image_processing.rs:514-575 | `optim` with the corrected adoption test. The new bytes are adopted (and the pixels re-decoded from them) exactly when the format changes, nothing was stored or they are smaller; otherwise only the format name changes. A change of format always takes the new bytes. The snapshot, original size and score are kept, and stored bytes never grow while the format stays the same |
| ImageProcessing.GetBuffer | src/image_processing.rs:187-199 | stored bytes are returned as they are; otherwise the image is written in its extension's format (JPEG by default), and a failure is `Image` |
| ImageProcessing.GetDiff | src/image_processing.rs:200-231 | -1 without a snapshot, for GIF, or when the sizes differ; otherwise DSSIM times 1000 |
| ImageProcessing.Parsed | src/image_processing.rs:88 | a failed parse is the `ParseInt` error |
| ImageProcessing.LoadTask | src/image_processing.rs:76-84 | `load` without a source panics. Otherwise the result is the fetched image, with its own pixels as the snapshot, whatever came before |
| ImageProcessing.ResizeTask | src/image_processing.rs:85-91 | fewer than two parameters is "params is invalid"; a bad number is `ParseInt`; otherwise the image is resized |
| ImageProcessing.OptimTask | src/image_processing.rs:95-112 | anything but exactly three parameters is "params is invalid"; a bad quality or speed is `ParseInt`; otherwise `optim` runs with the given adoption test |
| ImageProcessing.CropTask | src/image_processing.rs:113-121 | fewer than four parameters is "params is invalid"; a bad number is `ParseInt`; otherwise the image is cropped |
| ImageProcessing.Margin | src/image_processing.rs:132-139 | a missing margin is 0 |
| ImageProcessing.WatermarkTask | src/image_processing.rs:122-148 | no parameters is "params is invalid"; an undecodable URL is `FromUtf`; an unparsable left or top margin is `ParseInt`; otherwise the task succeeds exactly when the mark loads, fails with the mark's own error when it does not, and on success draws the mark with the given position and margins |
| ImageProcessing.Step | src/image_processing.rs:69-153 | an empty task or an unknown name leaves the image unchanged, under either adoption test |
| ImageProcessing.RunFromAt | src/image_processing.rs:69-154 | the run from task i is one step followed by the run from task i+1, or that step's error |
| ImageProcessing.ApplyTask | src/image_processing.rs:70-153 | the loop body with its early returns is exactly one `Step` with `optim` as written |
| ImageProcessing.Run | src/image_processing.rs:62-156 | the loop over the tasks from the default image equals the fold `RunFrom` with `optim` as written, stopping at the first error |
| ImageProcessing.RunFrom | src/image_processing.rs:69-155 | (definition) the tasks applied one after the other from an image, stopping at the first error, under a given adoption test for `optim` |
| ImageProcessing.LoadHint | src/image_processing.rs:78-81 | (definition) the extension hint of `load`: its second parameter, or empty |
| ImageProcessing.WatermarkPositionOf | src/image_processing.rs:128-131 | (definition) the position of `watermark`: its second parameter, bottom right when absent |
| ImageProcessing.Requested | src/image_processing.rs:523-527 | (definition) the output type `optim` asks for: the current extension when none is named |
| ImageProcessing.AdoptsAsWritten | src/image_processing.rs:552 | (definition) the adoption test as written: the extension name changed, the new bytes are smaller, or nothing was stored |
| ImageProcessing.Adopts | src/image_processing.rs:552 | (definition) the adoption test as intended: the format the extensions denote changed, the new bytes are smaller, or nothing was stored |
| ImageProcessing.OptimUnder | src/image_processing.rs:95-111 | (definition) the `optim` task under an adoption test: `OptimAsWritten` or `Optim` |
| ImageProcessing.SupportDssim | src/image_processing.rs:200-202 | (definition) `support_dssim`: every extension but `gif` |
| PipelineFacts.RunAppend | src/image_processing.rs:69-155 | running two task lists in turn is running their concatenation; an error in the first ends the run |
| PipelineFacts.RunSkipsIgnored | src/image_processing.rs:70-72 | an empty or unknown task can be dropped from any task list without changing the outcome |
| PipelineFacts.RunStopsAtError | src/image_processing.rs:82-147 | the first failing task decides the error of the whole run |
| PipelineFacts.ParamsInvalidCauses | src/image_processing.rs:87-124 | "params is invalid" comes exactly from a wrong parameter count. The only other invalid-params error is an unsupported format in `load` or `watermark` |
| PipelineFacts.FetchParamsInvalid | src/image_processing.rs:169-176 | loading fails with invalid params only for an unsupported format |
| PipelineFacts.PixelStepKeepsRest | src/image_processing.rs:317-492 | resize, gray, crop and watermark keep the format name, snapshot, original size and score, and empty the stored bytes (0 x 0 resize excepted) |
| PipelineFacts.NonLoadStepKeepsSnapshot | src/image_processing.rs:85-152 | no task but `load` touches the snapshot or the original size |
| PipelineFacts.RunKeepsSnapshot | src/image_processing.rs:69-155 | a task list without `load` keeps the snapshot and the original size |
| PipelineFacts.LoadStartsAfresh | src/image_processing.rs:82-83 | after `load` the snapshot is the image itself, the score is 0 and the original size is the byte count, so `diff` compares the image with itself (GIF excepted) |
| PipelineFacts.DiffNeedsLoad | src/image_processing.rs:203-207 | without a `load`, `diff` scores -1 |
| PipelineFacts.OptimAfterPixelStepAdopts | src/image_processing.rs:317-492 | a resize, gray, crop or watermark that changed the image leaves nothing stored, so the `optim` after it adopts the encoder's bytes under either adoption test |
| PipelineFacts.ResizeWidthKeepsAspect | src/image_processing.rs:330-332 | resizing to a width alone scales the height by the same ratio, rounded down |
| PipelineFacts.ResizeHeightKeepsAspect | src/image_processing.rs:327-329 | resizing to a height alone scales the width by the same ratio, rounded down |
| PipelineFacts.ResizeLogoExample | src/image_processing.rs:618-623 | the 144 x 144 logo resized to width 48 is 48 x 48 |
| PipelineFacts.GrayIsGrey | src/image_processing.rs:626-631 | gray keeps the size and every pixel has equal channels and full alpha |
| PipelineFacts.CropKeepsWindowPixels | src/image_processing.rs:485-492 | pixel (row, col) of the crop is pixel (y + row, x + col) of the image |
| PipelineFacts.CropLogoExample | src/image_processing.rs:647-652 | crop (40, 40, 48, 48) of the logo is 48 x 48 |
| PipelineFacts.CropClampsExample | src/image_processing.rs:485-492 | a window reaching past the image is cut at its edges |
| PipelineFacts.PositionRoundTrip | src/image_processing.rs:372-386 | every position survives the trip through its name |
| PipelineFacts.OverlayPixelAt | src/image_processing.rs:457 | the overlay keeps uncovered pixels and blends each covered pixel with the mark pixel above it |
| PipelineFacts.WatermarkLogoExample | src/image_processing.rs:634-644 | the 48 x 48 mark at the bottom right of the logo sits at (96, 96) and the size is kept |
| PipelineFacts.CenterIsCentred | src/image_processing.rs:433-436 | a centred mark has gaps on opposite sides that differ by at most one pixel |
| PipelineFacts.OptimAgreesWithoutSynonyms | src/image_processing.rs:552 | the written and the corrected `optim` agree whenever format names and formats coincide |
| PipelineFacts.OptimAsWrittenGrowsJpg | src/image_processing.rs:552 | a `.jpg` optimized to `jpg` has its 4 bytes replaced by 8 bytes as written; the corrected test keeps the 4 |
| ImageOptimize.Paths | bin/imageoptimize.rs:179-196 | no source is the usage message; the source is `--source`, else the positional argument; the output is `--output`, else the source under `--overwrite`; an empty output is refused, in exactly the cases where it arises |
| ImageOptimize.SourceOnlyHasNoOutput | bin/imageoptimize.rs:186-196 | a source alone, without `--output` or `--overwrite`, is refused for an empty output |
| ImageOptimize.FlatExtensions | bin/imageoptimize.rs:204-207 | `flat_map` gives exactly the extensions of the chosen formats |
| ImageOptimize.InsertSorted | bin/imageoptimize.rs:208 | inserting into a sorted list keeps it sorted and adds exactly that element |
| ImageOptimize.SortStrings | bin/imageoptimize.rs:208 | `sort` yields a sorted permutation |
| ImageOptimize.AppendAbove | bin/imageoptimize.rs:209 | appending above the last element keeps a list strictly ascending |
| ImageOptimize.Dedup | bin/imageoptimize.rs:209 | `dedup` keeps the same elements and the last one, leaves no equal neighbours, and makes a sorted list strictly ascending |
| ImageOptimize.ExtensionList | bin/imageoptimize.rs:199-209 | the extension list is strictly ascending and holds exactly the chosen formats' extensions |
| ImageOptimize.StrictlySortedUnique | bin/imageoptimize.rs:208-209 | two strictly ascending lists with the same elements are equal |
| ImageOptimize.ExtensionListIs | bin/imageoptimize.rs:199-209 | the extension list is the unique strictly ascending list of the chosen extensions |
| ImageOptimize.DefaultFlatExtensions | bin/imageoptimize.rs:199-207 | the default formats give `jpeg`, `jpg`, `png` |
| ImageOptimize.DefaultExtensionList | bin/imageoptimize.rs:199-209 | without `--format` the search is for `jpeg`, `jpg` and `png`, in that order |
| ImageOptimize.TargetsOf | bin/imageoptimize.rs:220-233 | the targets for a source type are AVIF or WebP, at most one per choice, and exist only for JPEG and PNG |
| ImageOptimize.ConvertTable | bin/imageoptimize.rs:219-233 | the map has a key exactly for each source type with targets, mapped to them in choice order |
| ImageOptimize.ConvertMap | bin/imageoptimize.rs:219-233 | the insert-or-append loop builds exactly the convert table |
| ImageOptimize.DisableIgnored | bin/imageoptimize.rs:226 | a `disable` anywhere among the choices changes nothing |
| ImageOptimize.TargetsOfSnoc | bin/imageoptimize.rs:228-232 | one more choice appends its target to its source type's list only |
| ImageOptimize.DefaultTargets | bin/imageoptimize.rs:211-218 | by default JPEG and PNG files both get AVIF then WebP |
| ImageOptimize.DefaultConvertTable | bin/imageoptimize.rs:211-233 | the default map sends `jpeg` and `png` each to [avif, webp] |
| ImageOptimize.NameStart | bin/imageoptimize.rs:278 | the file name starts within the path |
| ImageOptimize.FileName | bin/imageoptimize.rs:278 | `file_name` is the text after the last `/`, absent for an empty name, `.` or `..` |
| ImageOptimize.PathParts | bin/imageoptimize.rs:278 | a path is a directory part ending in `/` (or empty) followed by a name without `/` |
| ImageOptimize.SplitAtDot | bin/imageoptimize.rs:258 | a name splits into a non-empty stem, a dot and a dot-free extension, or has no extension |
| ImageOptimize.Extension | bin/imageoptimize.rs:258 | an extension contains neither `.` nor `/` |
| ImageOptimize.LastIndexAfter | bin/imageoptimize.rs:278 | appending text without `c` to a string ending in `c` keeps that last `c` |
| ImageOptimize.FileNameAfter | bin/imageoptimize.rs:278 | a plain name after a directory part is the file name |
| ImageOptimize.SplitAtDotAfter | bin/imageoptimize.rs:278 | stem, dot and extension split back into the stem and the extension |
| ImageOptimize.StemPrefix | bin/imageoptimize.rs:278 | the stem is a prefix of the name, empty only for an empty name |
| ImageOptimize.WithExtensionShape | bin/imageoptimize.rs:278 | `with_extension` keeps the directory and the stem and appends `.ext` |
| ImageOptimize.WithExtensionRoundTrip | bin/imageoptimize.rs:278 | a path given an extension has that extension, and its file name is the old stem with that extension |
| ImageOptimize.ImageType | bin/imageoptimize.rs:258-263 | a found file is PNG exactly when its extension is `png`, JPEG otherwise |
| ImageOptimize.TargetPath | bin/imageoptimize.rs:265-274 | the target is the path with the source replaced by the output; the `source == output` shortcut agrees |
| ImageOptimize.Retargeted | bin/imageoptimize.rs:277-280 | one retargeted path per extension, in order |
| ImageOptimize.JobsOf | bin/imageoptimize.rs:275-288 | one job per conversion in order, then one into the target itself, all reading the file |
| ImageOptimize.ConvertedTargets | bin/imageoptimize.rs:275-288 | each converted job's target carries its AVIF or WebP extension and the last job writes the target itself |
| ImageOptimize.ConvertedTargetAt | bin/imageoptimize.rs:278 | the i-th converted target has the i-th extension |
| ImageOptimize.PlainExtension | bin/imageoptimize.rs:43-44 | `avif` and `webp` are non-empty and contain neither `.` nor `/` |
| ImageOptimize.TargetList | bin/imageoptimize.rs:275-282 | the targets loop builds the retargeted paths followed by the target |
| ImageOptimize.JobList | bin/imageoptimize.rs:283-288 | one job per target, in order, each reading the file |
| ImageOptimize.FileJobs | bin/imageoptimize.rs:258-288 | the per-file code builds exactly the specified jobs |
| ImageOptimize.EntryJobList | bin/imageoptimize.rs:250-289 | the entry loop skips unreadable entries and collects the jobs of the others, in order |
| ImageOptimize.PlanOf | bin/imageoptimize.rs:179-290 | planning fails exactly when the paths are refused, with the same message |
| ImageOptimize.Plan | bin/imageoptimize.rs:179-290 | `main` up to the optimizations computes exactly `PlanOf`, skipping invalid patterns |
| ImageOptimize.OptimizeTasks | bin/imageoptimize.rs:144-159 | three tasks: load the file by `file://`, optimize into the target's last `.` segment, then diff |
| ImageOptimize.FileSourceIsRead | bin/imageoptimize.rs:144 | a `file://` source is read from the file named after the prefix |
| ImageOptimize.LoadStep | bin/imageoptimize.rs:144 | the load task is `load` with the file source |
| ImageOptimize.OptimStep | bin/imageoptimize.rs:153-158 | the quality and speed printed into the task are read back unchanged, so the step is `optim` at that quality and speed 0 |
| ImageOptimize.DiffStep | bin/imageoptimize.rs:159 | the diff task stores the DSSIM score |
| ImageOptimize.RunThree | src/image_processing.rs:69-155 | a three-task run is the three steps in turn, stopping at the first error |
| ImageOptimize.OptimizeTasksRun | bin/imageoptimize.rs:144-163 | a job's run loads the file, optimizes at the quality for the target's type with speed 0 under the given adoption test, and scores the result |
| ImageOptimize.Optimized | bin/imageoptimize.rs:140-173 | succeeds exactly when the run and `get_buffer` both do, and otherwise fails with the first of their errors; the reported sizes and score are those of the run's image; the written size is the stored bytes' length when any are stored |
| ImageOptimize.OutputType | bin/imageoptimize.rs:146 | (definition) the output type of a target: the text after its last `.`, or all of it |
| ImageOptimize.QualityFor | bin/imageoptimize.rs:147-152 | (definition) `avif`, `webp` and `png` use their own quality; any other type uses the JPEG quality |
| ImageOptimize.QualitiesOf | bin/imageoptimize.rs:292-297 | (definition) the qualities from the arguments, with WebP's fixed at 0 |
| ImageOptimize.WithExtension | bin/imageoptimize.rs:278 | (definition) `Path::with_extension`: the path cut after the file stem, then `.` and the extension unless it is empty; a path without a file name is kept |
| ImageOptimize.ConversionsFor | bin/imageoptimize.rs:276 | (definition) the extra extensions configured for the image type of a found file, none when the type has no entry |
| ImageOptimize.Pattern | bin/imageoptimize.rs:237 | (definition) the glob pattern for one extension: `source/**/*.ext` |
| ImageOptimize.EntryJobs | bin/imageoptimize.rs:250-288 | (definition) the jobs of the glob entries in order, an unreadable entry contributing none |
| ImageOptimize.ExtJobs | bin/imageoptimize.rs:236-289 | (definition) the jobs of each extension's pattern in turn, an invalid pattern contributing none |
| ImageOptimize.OptimizeImage | bin/imageoptimize.rs:140-173 | `optimize_image` through `run` and `get_buffer` computes exactly `Optimized` with `optim` as written |
| ImageOptimize.OptimizedReadsFile | bin/imageoptimize.rs:144-172 | the reported original size is the size of the file read, under either adoption test |
| ImageOptimize.OwnFormatNeverGrows | bin/imageoptimize.rs:140-173 | with the corrected adoption test, optimizing a non-empty file into its own format never writes more bytes than it had |
| ImageOptimize.LastSegmentAfter | bin/imageoptimize.rs:146 | the text after the last `.` of a name ending in `.` and a dot-free extension is that extension |
| ImageOptimize.FetchFile | bin/imageoptimize.rs:144 | loading `file://` + a readable file builds the image from its bytes, named by the text after the last `.` |
| ImageOptimize.JpgJobAlwaysAdopts | src/image_processing.rs:542-552 | as written, a `.jpg` file optimized into type `jpg` always ends with the JPEG encoder's bytes, whatever their size |
| ImageOptimize.OptimFourByteJpg | src/image_processing.rs:542-552 | on a four-byte `.jpg` image and an eight-byte encoder, `optim jpg` as written takes the eight bytes, and the corrected one keeps the four |
| ImageOptimize.JpgJobGrows | bin/imageoptimize.rs:140-173 | as written, the job `a.jpg` into `b.jpg` writes 8 bytes for a 4-byte file; with the corrected test it writes 4 |
| ImageOptimize.SizeScaled | bin/imageoptimize.rs:298-316 | the printed size is the count in the largest unit reached (mb, kb, b), rounded down |
| ImageOptimize.DurationScaled | bin/imageoptimize.rs:318-323 | below one second in ms, otherwise whole seconds rounded down |
| ImageOptimize.Percent | bin/imageoptimize.rs:317 | the percentage is size × 100 / original rounded down, undefined (a panic) for a zero original, and at most 100 when the file did not grow |

## Findings

| source | as written | input that shows it | evidently intended | confidence | as-written member | corrected member |
|---|---|---|---|---|---|---|
| src/image_processing.rs:552 | New bytes are adopted when the format name differs from the stored one. The encoder's output for a `jpg` source is always named `jpeg`, so a `.jpg` file always takes the new bytes, even larger ones | A `.jpg` image of 4 bytes optimized with output type `jpg` by an encoder producing 8 bytes: the 8 bytes are kept | Compare the formats the names denote (`jpg` and `jpeg` are both JPEG), so that same-format output is adopted only when smaller | not executed | ImageProcessing.OptimAsWritten, PipelineFacts.OptimAsWrittenGrowsJpg, ImageOptimize.JpgJobAlwaysAdopts, ImageOptimize.JpgJobGrows | ImageProcessing.Optim, ImageOptimize.OwnFormatNeverGrows |

`ImageProcessing.Run` and `ImageOptimize.OptimizeImage`, which model the
program's `run` and `optimize_image`, use the adoption test as written. The
functions `Step`, `RunFrom` and `Optimized` take the test as a parameter, so
the corrected pipeline (`Intended`) is stated beside the written one.
`PipelineFacts.OptimAgreesWithoutSynonyms` shows the two differ only for a
second name of the same format.

## Left out

- Decoders and encoders: the codec crates are opaque `Env` functions, and no
  compression ratio, image quality or DSSIM value is modelled.
- Pixel arithmetic: Lanczos3 resampling, luma weights and alpha blending are
  opaque functions. Their results are placed pixel by pixel, but not computed.
- I/O: the network (reqwest, the 5-minute timeout), file reads, `create_dir_all`
  and `fs::write` are parameters or left out. The model stops at the bytes to
  write.
- async/await and tokio: the model is sequential.
- Argument parsing: clap's parsing, `--help` and the default values are not
  modelled. `Args` is the parsed result, with defaults 90, 80 and 80.
- Globbing: `glob` is a `Glob` parameter. Its matching of `**` patterns is not
  modelled.
- The report: timing (`Instant`), coloured printing, the `{:.2}` formatting of
  the score and the yellow/green threshold are not modelled. The numbers printed
  are (`SizeScaled`, `Percent`, `DurationScaled`).
- The conversion from `Bitmap<RGBA8>` to `ImageInfo` (images.rs:55-63) is not
  part of this model. No modelled path uses it.
- ImageOptimize.FileName: Rust's `Path` normalisation of a trailing `/` or of
  `.` components is not modelled. Paths are taken as found by globbing.
- ImageOptimize.Percent: the `usize` overflow of `size * 100` is not modelled;
  sizes are unbounded.
- ImageProcessing.Gray: the Luma8 image the code builds is held as its RGBA8
  form, opaque grey, so that every image is RGBA8.
- ImageProcessing.Encoded: the error categories of the PNG quantizer
  (`png_set_quality` and so on) are merged into whatever error the encoder
  function returns.
- ImageProcessing.GetDiff: the `create_image_rgba(..).unwrap()` calls are taken
  to succeed. DSSIM is an opaque function.
