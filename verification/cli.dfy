/** The command-line value types of the screenshot tool and their parsers:
    rotation angle, bit depth and pixel format, each a closed enumeration
    read from one option token. */
module Cli {
  import opened Wrappers
  import opened Ints
  import opened Errors

  datatype Rotation = None | Rotate90 | Rotate180 | Rotate270

  /** `Auto` is the default when the option is absent. */
  datatype BitsPerPixel = Auto | Sixteen | TwentyFour | ThirtyTwo

  /** `Auto` is the default when the option is absent; it names no layout. */
  datatype PixelFormat = Auto | RGB565 | ARGB1555 | RGB888 | RGBA8888

  /** The already-parsed options of one invocation. */
  datatype Args = Args(
    output: string,
    input: string,
    rotation: Rotation,
    bitDepth: BitsPerPixel,
    pixelFormat: PixelFormat,
    width: Option<int32>,
    height: Option<int32>)

  // ---------------------------------------------------------------------
  // Rotation

  /** The angle, in degrees, written as the option expects it. */
  function RotationToken(r: Rotation): string {
    match r
    case None => "0"
    case Rotate90 => "90"
    case Rotate180 => "180"
    case Rotate270 => "270"
  }

  function ParseRotation(s: string): (r: Result<Rotation, Error>)
    ensures r.Ok? <==> s in {"0", "90", "180", "270"}
    ensures r.Ok? ==> RotationToken(r.value) == s
    ensures r.Err? ==> r.error == InvalidRotation(s)
  {
    match s
    case "0" => Ok(Rotation.None)
    case "90" => Ok(Rotate90)
    case "180" => Ok(Rotate180)
    case "270" => Ok(Rotate270)
    case _ => Err(InvalidRotation(s))
  }

  /** Every rotation is reached from its own angle and from no other. */
  lemma RotationRoundTrip(r: Rotation, s: string)
    ensures ParseRotation(RotationToken(r)) == Ok(r)
    ensures ParseRotation(s) == Ok(r) <==> s == RotationToken(r)
  {
  }

  // ---------------------------------------------------------------------
  // Bit depth

  /** The depth in bits per pixel, as the option writes it. */
  function DepthToken(d: BitsPerPixel): string
    requires !d.Auto?
  {
    match d
    case Sixteen => "16"
    case TwentyFour => "24"
    case ThirtyTwo => "32"
  }

  function ParseBitsPerPixel(s: string): (r: Result<BitsPerPixel, Error>)
    ensures r.Ok? <==> s in {"16", "24", "32"}
    ensures r.Ok? ==> !r.value.Auto? && DepthToken(r.value) == s
    ensures r.Err? ==> r.error == InvalidBitDepth(s)
  {
    match s
    case "16" => Ok(Sixteen)
    case "24" => Ok(TwentyFour)
    case "32" => Ok(ThirtyTwo)
    case _ => Err(InvalidBitDepth(s))
  }

  /** Every explicit depth is reached from its own token; `Auto` from none. */
  lemma BitsPerPixelRoundTrip(d: BitsPerPixel, s: string)
    ensures !d.Auto? ==> ParseBitsPerPixel(DepthToken(d)) == Ok(d)
    ensures ParseBitsPerPixel(s) != Ok(BitsPerPixel.Auto)
  {
  }

  // ---------------------------------------------------------------------
  // Pixel format

  /** The name under which the program advertises each format, both in the
      option's help text and in the parser's error message. */
  function FormatName(f: PixelFormat): string
    requires !f.Auto?
  {
    match f
    case RGB565 => "rgb565"
    case ARGB1555 => "argb1555"
    case RGB888 => "rgb888"
    case RGBA8888 => "rgba8888"
  }

  /** The parser as written: it accepts "rgba888" for the 32-bit format. */
  function ParsePixelFormat(s: string): (r: Result<PixelFormat, Error>)
    ensures r.Ok? <==> s in {"rgb565", "argb1555", "rgb888", "rgba888"}
    ensures r.Ok? ==> !r.value.Auto?
    ensures r.Err? ==> r.error == InvalidPixelFormat(s)
  {
    match s
    case "rgb565" => Ok(RGB565)
    case "argb1555" => Ok(ARGB1555)
    case "rgb888" => Ok(RGB888)
    case "rgba888" => Ok(RGBA8888)
    case _ => Err(InvalidPixelFormat(s))
  }

  /** Of the four advertised names, the parser as written accepts exactly
      the three 16- and 24-bit ones; the 32-bit format is reachable only
      through the unadvertised "rgba888". */
  lemma AdvertisedNameRejected(f: PixelFormat)
    requires !f.Auto?
    ensures ParsePixelFormat(FormatName(f)).Ok? <==> f != RGBA8888
    ensures f != RGBA8888 ==> ParsePixelFormat(FormatName(f)) == Ok(f)
    ensures ParsePixelFormat("rgba888") == Ok(RGBA8888)
  {
  }

  /** The parser as its help text and error message describe it. */
  function ParsePixelFormatIntended(s: string): (r: Result<PixelFormat, Error>)
    ensures r.Ok? ==> !r.value.Auto? && FormatName(r.value) == s
    ensures r.Err? ==> r.error == InvalidPixelFormat(s)
  {
    match s
    case "rgb565" => Ok(RGB565)
    case "argb1555" => Ok(ARGB1555)
    case "rgb888" => Ok(RGB888)
    case "rgba8888" => Ok(RGBA8888)
    case _ => Err(InvalidPixelFormat(s))
  }

  /** The corrected parser inverts `FormatName` on every format, so every
      advertised name is accepted and nothing else is. */
  lemma FormatNameRoundTripIntended(f: PixelFormat, s: string)
    requires !f.Auto?
    ensures ParsePixelFormatIntended(FormatName(f)) == Ok(f)
    ensures ParsePixelFormatIntended(s) == Ok(f) <==> s == FormatName(f)
  {
  }

  /** Bytes one pixel occupies; the program leaves `Auto` as `todo!()`. */
  function BytesPerPixel(f: PixelFormat): (n: nat)
    requires !f.Auto?
    ensures 2 <= n <= 4
  {
    match f
    case RGBA8888 => 4
    case RGB888 => 3
    case RGB565 | ARGB1555 => 2
  }
}
