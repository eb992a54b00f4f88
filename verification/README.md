# fbscreenshot decode path, modelled in Dafny

`fbscreenshot` captures the screen of a Linux framebuffer. The source is either a
live device (`/dev/fb*`) or a raw dump file. The tool works out the geometry and
the pixel format, reads the buffer, converts every visible pixel to 8-bit RGBA,
and saves the result in the format its output extension names (the option's doc
asks for `.png`, `src/cli.rs:124`). This project models the pure part of that pipeline
and proves properties of it:

- `wrappers.dfy`
  - `Wrappers`: `Option` and a failure-compatible `Result`.
  - `Ints`: the program's fixed-width integers.
  - `Errors`: every error of option parsing and, in a release build, of the
    capture up to the decoded image. `IsPanic` marks the two that end the process with a
    panic instead of returning an error.
- `cli.dfy` (`Cli`, from `src/cli.rs`):
  - the `Rotation`, `BitsPerPixel` and `PixelFormat` enumerations and their parsers;
  - `bytes_per_pixel`;
  - the parsed `Args` record.
- `pixel.dfy` (`Pixel`, from `src/cli.rs`): `get_pixel`. This covers:
  - reading little-endian 16-bit words;
  - extracting the RGB565 and ARGB1555 channel fields;
  - the `u8` channel scaling;
  - byte-order swapping for RGB888 and RGBA8888.
- `geometry.dfy` (`Geometry`, from `src/main.rs`):
  - device detection;
  - resolving width, height, stride width and depth;
  - resolving the pixel format.
- `frame.dfy` (`Frame`, from `src/main.rs`):
  - buffer size and pixel offsets;
  - `read_exact`;
  - assembling the image;
  - the whole capture up to the decoded image (`Capture`).

The program's side effects are passed in as parameters:

- Opening the input (`src/main.rs:15`) is `file: Option<seq<bv8>>`. `None` means
  the open failed, which ends the capture with `OpenFailed` before anything else;
  `Some(data)` holds the bytes the opened input yields.
- The device's screen-info query is `query: Option<VarScreenInfo>`. `None` means
  the query failed.

Bytes and channels are `bv8`, so arithmetic on them wraps modulo 256, as Rust's
`u8` arithmetic does in a release build. Geometry is held in mathematical integers.

A `todo!()` and an out-of-range slice index both panic in the program. The model
turns each into an error value for which `IsPanic()` holds:

- `UnsupportedDepth` is the `todo!()` reached for an unknown depth.
- `PixelOutOfBounds` is an index past the end of the buffer.

The `todo!()` arms for `PixelFormat::Auto` are never reached. `ResolveFormat`
never returns `Auto`, and `Decode` and `BytesPerPixel` require a format other
than `Auto`.

Three facts about the code that the model keeps:

- A 5- or 6-bit channel is widened by `field * 255 / max`
  (`src/cli.rs:92-94`, `101-103`).
- No code checks the output extension. `.png` appears only in the doc comment
  at `src/cli.rs:124`.
- The depth parser admits only 16, 24 and 32, so the `todo!()` at
  `src/main.rs:66` is reachable only from a device.

## Model

| member | source | states |
|---|---|---|
| Ints.I32AsU32 | src/main.rs:31-32 | `as u32` on an `i32` keeps non-negative values and adds 2^32 to negative ones |
| Cli.ParseRotation | src/cli.rs:16-23 | succeeds exactly on "0", "90", "180", "270", each yielding the rotation whose angle it names; anything else is an invalid-rotation error carrying the token |
| Cli.RotationRoundTrip | src/cli.rs:16-23 | every rotation is parsed from its own angle, and from no other string |
| Cli.ParseBitsPerPixel | src/cli.rs:38-45 | succeeds exactly on "16", "24", "32", never yields `Auto`, and names the parsed depth; other strings are an invalid-depth error |
| Cli.BitsPerPixelRoundTrip | src/cli.rs:38-45 | each explicit depth is parsed from its token; no string parses to `Auto` |
| Cli.ParsePixelFormat | src/cli.rs:60-68 | succeeds exactly on "rgb565", "argb1555", "rgb888" and "rgba888", never yields `Auto`; other strings are an invalid-format error |
| Cli.AdvertisedNameRejected | src/cli.rs:60-68 | of the four advertised names the parser accepts exactly the three non-32-bit ones; RGBA8888 is reached only via "rgba888" |
| Cli.ParsePixelFormatIntended | src/cli.rs:60-68 | corrected parser: whatever it accepts is the advertised name of the format it returns, never `Auto` |
| Cli.FormatNameRoundTripIntended | src/cli.rs:60-68 | corrected parser inverts the advertised names: each format is parsed from its name and from nothing else |
| Cli.BytesPerPixel | src/cli.rs:111-118 | every concrete format occupies between 2 and 4 bytes; `Auto` is outside the domain |
| Geometry.FormatDepthRoundTrip | src/cli.rs:111-118 | a raw dump whose depth is 8 x BytesPerPixel(f) and whose hint is f resolves back to f, so bytes per pixel is 4, 3, 2, 2 for RGBA8888, RGB888, RGB565, ARGB1555 |
| Pixel.FromLeBytes | src/cli.rs:91 | the low byte of the word is the first buffer byte, the high byte the second |
| Pixel.LeBytesRoundTrip | src/cli.rs:91 | reading a word from two bytes and splitting a word into two bytes are inverse |
| Pixel.Fields565 | src/cli.rs:92-94 | the red, green and blue fields of an RGB565 word fit in 5, 6 and 5 bits |
| Pixel.Fields565RoundTrip | src/cli.rs:92-94 | field extraction at bits 11-15, 5-10, 0-4 is a bijection between words and in-range field triples, inverse to packing |
| Pixel.Fields1555 | src/cli.rs:100-103 | the colour fields of an ARGB1555 word fit in 5 bits each |
| Pixel.Fields1555RoundTrip | src/cli.rs:100-103 | alpha bit 15 and fields at bits 10-14, 5-9, 0-4 are a bijection with packed words |
| Pixel.ScaleU8 | src/cli.rs:92-94 | the u8 rescale of an in-range field never exceeds 8, and is 0 exactly for a zero field |
| Pixel.ScaleU8Wraps | src/cli.rs:92-94 | the u8 product overflows (a debug-build panic) exactly for field values from 2 up; from 1 up it wraps to 256 - field |
| Pixel.ScaleU8Range | src/cli.rs:92-103 | as written, 5-bit fields scale into {0, 7, 8}, 6-bit fields into {0, 3, 4}; the maxima give 7 and 3 |
| Pixel.ScaleWidenedFloor | src/cli.rs:92-94 | the widened rescale is the floor of field x 255 / max |
| Pixel.ScaleWidenedExact | src/cli.rs:92-94 | the widened rescale is 0 exactly at 0, 255 exactly at the maximum, and monotonic |
| Pixel.Decode | src/cli.rs:73-107 | RGB888/RGBA8888 take blue, green, red (and alpha) from consecutive bytes; RGB565 and RGB888 are opaque; ARGB1555 alpha is 255 exactly when the top bit of the second byte is set and 0 otherwise |
| Pixel.GetPixel | src/cli.rs:73-107 | as written, RGB565/ARGB1555 channels never exceed 8 and are 0 exactly for zero fields, in both formats; RGB565 and RGB888 are opaque |
| Pixel.GetPixelIntended | src/cli.rs:90-105 | with the product widened, a channel of either 16-bit format is 0 exactly for a zero field and 255 exactly for an all-ones field |
| Pixel.Encode | src/cli.rs:75-88 | an encoded pixel occupies BytesPerPixel bytes |
| Pixel.DecodeEncode | src/cli.rs:75-88 | RGBA8888 stores B, G, R, A and RGB888 stores B, G, R; decoding swaps them back; RGB888 is fully opaque |
| Pixel.DecodeReadsOnlyWindow | src/cli.rs:73-107 | a decoded pixel depends only on the BytesPerPixel bytes at its offset |
| Pixel.Decode565 | src/cli.rs:90-96 | a packed RGB565 word decodes to its three fields scaled by 31, 63, 31, with alpha 255 |
| Pixel.Decode1555 | src/cli.rs:98-105 | a packed ARGB1555 word decodes to its fields scaled by 31, alpha 255 if bit 15 is set and 0 otherwise |
| Pixel.BoundaryWords | src/cli.rs:90-105 | RGB565 0x0000 is (0,0,0,255); ARGB1555 0x0000 is (0,0,0,0) and 0x8000 is (0,0,0,255); RGB565 0xFFFF is (7,3,7,255) as written and white when widened |
| Geometry.IsDevice | src/main.rs:17 | the input is a device exactly when it is "/dev/fb" followed by anything |
| Geometry.ResolveGeometry | src/main.rs:17-43 | a device takes everything from the query and fails only when the query fails; a raw dump needs width, then height, then depth, failing with the error of the first one missing, has stride = width, and reads width/height as `i32 as u32` |
| Geometry.ResolveFormat | src/main.rs:45-67 | a resolved format is never `Auto` and its bytes per pixel x 8 equals the depth; the unsupported-depth panic occurs exactly for depths outside {16, 24, 32} |
| Geometry.Resolve16Bit | src/main.rs:48-63 | a 16-bit device is ARGB1555 iff its channel lengths are (5,5,5), else RGB565; a 16-bit raw dump rejects `Auto` and the 24/32-bit formats and passes the 16-bit ones through |
| Geometry.ResolveWideDepths | src/main.rs:45-47 | depth 32 gives RGBA8888 and 24 gives RGB888 whatever the hint and the device layout |
| Geometry.RawDumpDepthSupported | src/main.rs:33-42 | on a raw dump the stride equals the width and format resolution never reaches the unsupported-depth panic |
| Geometry.DeviceDepthUnsupported | src/main.rs:66 | a device reporting a depth outside {16, 24, 32} reaches the unsupported-depth panic |
| Frame.LineLength | src/main.rs:72 | a row spans the virtual width at two or more bytes per pixel, and is empty exactly when the virtual width is 0 |
| Frame.FbSize | src/main.rs:73 | the bytes read are empty exactly when the height or the virtual width is 0, and otherwise hold at least one whole row |
| Frame.Offset | src/main.rs:78 | pixel (x, y) starts no earlier than row y, and for a column of the virtual width lies within that row |
| Frame.Readable | src/main.rs:77-80 | holds exactly when the bytes of every visible pixel (x, y) end within fb_size, so the element indexing `buf[idx + k]` in `get_pixel` panics exactly when it fails |
| Frame.Row | src/main.rs:72-73 | each buffer row holds exactly line_length bytes |
| Frame.OffsetInBounds | src/main.rs:71-80 | with width <= virtual width, pixel (x, y)'s bytes end within its row and within fb_size |
| Frame.ReadableIff | src/main.rs:71-80 | every visible pixel lies in the buffer exactly when height is 0 or width <= virtual width |
| Frame.LastPixelOverruns | src/main.rs:77-80 | with width > virtual width on a non-empty screen, the last pixel of the last row ends past fb_size |
| Frame.Assemble | src/main.rs:77-80 | the image is exactly width x height, one row per line, each row width pixels long |
| Frame.AssembleFromRow | src/main.rs:77-80 | pixel (x, y) is decoded from buffer row y at byte x x bytes_per_pixel: top row first, no flip, stride used only between rows |
| Frame.AssembleIgnoresPadding | src/main.rs:72-80 | bytes past the visible width of each row never affect the image |
| Frame.ReadExact | src/main.rs:74-75 | reading n bytes succeeds exactly when n are available, yielding the first n; otherwise a short-read error |
| Frame.Capture | src/main.rs:13-80 | an input that fails to open ends the capture with that error; a successful capture is a well-formed image with the resolved width and height |
| Frame.RawCaptureOutcome | src/main.rs:30-80 | a raw dump that opens is captured iff width, height and depth are given, a 16-bit dump names a 16-bit format, and the data holds width x bpp x height bytes; it never panics and ignores the query |
| Frame.DeviceCaptureOutcome | src/main.rs:17-80 | on a device that opens: a failed query is an error; an unknown depth panics; with enough data, an index panic occurs exactly when the visible width exceeds the virtual width on a non-empty screen |

## Left out

- File opening, the device `ioctl` and reading are not modelled as I/O. Their
  outcomes are parameters of `Capture`: a failed open is `OpenFailed`, a failed
  query `DeviceQueryFailed`, and a read with too few bytes `ShortRead`. Which
  operating-system error each carries is not modelled.
- `println!`, `eprintln!` and `exit` are not modelled. They only report.
- Rotation (`src/main.rs:84-89`) and saving (`src/main.rs:91`) are not modelled.
  Both are library calls whose behaviour is not visible here. `Capture` ends with
  the decoded, unrotated image.
- The `#[repr(C)]` layout of `src/fb.rs` is not modelled. `VarScreenInfo` keeps
  only the fields the capture reads.
- Command-line parsing of `Args` by derive is not modelled. `Args` is a record of
  already-parsed fields.
- `usize` overflow of `line_length * height` is not modelled. Offsets and sizes
  are unbounded integers.
- Cli.BytesPerPixel: its contract states only the 2..4 range. The value per format
  is pinned down by Geometry.FormatDepthRoundTrip.
- Frame.Capture: models a release build. A debug build panics on the `u8`
  multiply overflow at `src/cli.rs:92-94` and `101-103` for any 16-bit channel
  field of 2 or more. `Capture` has no error for that panic. Only
  `Pixel.ProductOverflowsU8` and `Pixel.ScaleU8Wraps` state when it happens.
- Frame.Capture: decodes with the program's `u8` scaling. The corrected scaling
  is proved about the decoder (`Pixel.GetPixelIntended`), and `Frame.Assemble`
  takes the scaling as a parameter, so every frame lemma holds for both.

## Findings

| source | as written | input that shows it | evidently intended | confidence | as-written member | corrected member |
|---|---|---|---|---|---|---|
| src/cli.rs:92-94 | the channel field is cast to `u8` before multiplying by 255, so the product wraps (or panics in a debug build) for every field value of 2 or more; the same happens at lines 101-103 | RGB565 word 0xFFFF decodes to (7, 3, 7, 255) instead of white; no 16-bit channel ever exceeds 8 | compute `field * 255 / max` in a wider type, giving 0..255 | high; not executed | Pixel.ScaleU8Range | Pixel.ScaleWidenedExact |
| src/cli.rs:65 | the 32-bit format is accepted under "rgba888", while the help text (line 140) and the error message (line 66) name it "rgba8888" | the option value "rgba8888" is rejected as an invalid pixel format | accept "rgba8888" | medium; not executed | Cli.AdvertisedNameRejected | Cli.FormatNameRoundTripIntended |
