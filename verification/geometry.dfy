/** Deciding where a capture comes from and what its pixels look like:
    the visible size, the stride (virtual width) and the depth, then the
    concrete pixel format. A live device reports all of this itself; a raw
    dump has to be described by the options. */
module Geometry {
  import opened Wrappers
  import opened Ints
  import opened Errors
  import opened Cli

  /** Inputs with this prefix are framebuffer devices. */
  const DevicePrefix: string := "/dev/fb"

  /** What the screen-info query of a framebuffer device reports, reduced
      to the fields the capture reads. */
  datatype VarScreenInfo = VarScreenInfo(
    xres: uint32,
    yres: uint32,
    xresVirtual: uint32,
    bitsPerPixel: uint32,
    redLength: uint32,
    greenLength: uint32,
    blueLength: uint32)

  /** The resolved geometry, and the screen info when it came from a device. */
  datatype Geometry = Geometry(
    width: uint32,
    height: uint32,
    widthVirtual: uint32,
    bitsPerPixel: uint32,
    screen: Option<VarScreenInfo>)

  function IsDevice(input: string): (b: bool)
    ensures b <==> exists rest :: input == DevicePrefix + rest
  {
    if DevicePrefix <= input then
      assert input == DevicePrefix + input[|DevicePrefix|..];
      true
    else
      false
  }

  /** Geometry of the capture. `query` is what the screen-info query of the
      opened input returns (`None` when it fails); it is consulted only when
      the input is a device. */
  function ResolveGeometry(args: Args, query: Option<VarScreenInfo>): (r: Result<Geometry, Error>)
    // device: everything comes from the query
    ensures IsDevice(args.input) ==>
      (r.Ok? <==> query.Some?)
      && (r.Err? ==> r.error == DeviceQueryFailed)
      && (r.Ok? ==>
            && r.value.width == query.value.xres
            && r.value.height == query.value.yres
            && r.value.widthVirtual == query.value.xresVirtual
            && r.value.bitsPerPixel == query.value.bitsPerPixel
            && r.value.screen == query)
    // raw dump: width, height and depth are all required, in that order
    ensures !IsDevice(args.input) ==>
      (r.Ok? <==> args.width.Some? && args.height.Some? && !args.bitDepth.Auto?)
      && (args.width.None? ==> r == Err(WidthRequired))
      && (args.width.Some? && args.height.None? ==> r == Err(HeightRequired))
      && (args.width.Some? && args.height.Some? && args.bitDepth.Auto? ==> r == Err(BitDepthRequired))
      && (r.Ok? ==>
            && r.value.width == I32AsU32(args.width.value)
            && r.value.height == I32AsU32(args.height.value)
            && r.value.widthVirtual == r.value.width
            && r.value.bitsPerPixel in {16, 24, 32}
            && (r.value.bitsPerPixel == 16 <==> args.bitDepth.Sixteen?)
            && (r.value.bitsPerPixel == 24 <==> args.bitDepth.TwentyFour?)
            && r.value.screen.None?)
  {
    if IsDevice(args.input) then
      match query
      case None => Err(DeviceQueryFailed)
      case Some(v) => Ok(Geometry(v.xres, v.yres, v.xresVirtual, v.bitsPerPixel, Some(v)))
    else
      match args.width
      case None => Err(WidthRequired)
      case Some(w) =>
        match args.height
        case None => Err(HeightRequired)
        case Some(h) =>
          var width := I32AsU32(w);
          var height := I32AsU32(h);
          match args.bitDepth
          case Sixteen => Ok(Geometry(width, height, width, 16, Option.None))
          case TwentyFour => Ok(Geometry(width, height, width, 24, Option.None))
          case ThirtyTwo => Ok(Geometry(width, height, width, 32, Option.None))
          case Auto => Err(BitDepthRequired)
  }

  /** The pixel format for a resolved geometry. `hint` is the pixel-format
      option, consulted only for a 16-bit raw dump. */
  function ResolveFormat(g: Geometry, hint: PixelFormat): (r: Result<PixelFormat, Error>)
    ensures r.Ok? ==> !r.value.Auto? && 8 * BytesPerPixel(r.value) == g.bitsPerPixel
    ensures r.Err? && r.error.IsPanic() <==> g.bitsPerPixel !in {16, 24, 32}
  {
    match g.bitsPerPixel
    case 32 => Ok(RGBA8888)
    case 24 => Ok(RGB888)
    case 16 =>
      (match g.screen
       case Some(v) =>
         if (v.redLength, v.greenLength, v.blueLength) == (5, 5, 5) then Ok(ARGB1555) else Ok(RGB565)
       case None =>
         if hint.Auto? then Err(PixelFormatRequired)
         else if hint != RGB565 && hint != ARGB1555 then Err(Invalid16BitFormat)
         else Ok(hint))
    case _ => Err(UnsupportedDepth(g.bitsPerPixel))
  }

  /** The 16-bit decision table. A device is ARGB1555 exactly when its red,
      green and blue fields are 5 bits each, and RGB565 otherwise, whatever
      the option says; a raw dump takes the option, which must name one of
      the two 16-bit formats. */
  lemma Resolve16Bit(g: Geometry, hint: PixelFormat)
    requires g.bitsPerPixel == 16
    ensures g.screen.Some? ==>
      var v := g.screen.value;
      ResolveFormat(g, hint)
        == Ok(if v.redLength == 5 && v.greenLength == 5 && v.blueLength == 5 then ARGB1555 else RGB565)
    ensures g.screen.None? ==>
      && (hint.Auto? ==> ResolveFormat(g, hint) == Err(PixelFormatRequired))
      && (hint in {RGB888, RGBA8888} ==> ResolveFormat(g, hint) == Err(Invalid16BitFormat))
      && (hint in {RGB565, ARGB1555} ==> ResolveFormat(g, hint) == Ok(hint))
  {
  }

  /** Depths 32 and 24 each have a single format, whatever the option and
      whatever the device's channel layout. */
  lemma ResolveWideDepths(g: Geometry, hint: PixelFormat, hint': PixelFormat)
    requires g.bitsPerPixel in {24, 32}
    ensures ResolveFormat(g, hint) == ResolveFormat(g.(screen := Option.None), hint')
    ensures ResolveFormat(g, hint) == Ok(if g.bitsPerPixel == 32 then RGBA8888 else RGB888)
  {
  }

  /** A raw dump described by a format's own depth and that format resolves
      to the format again: depth and format agree in both directions. */
  lemma FormatDepthRoundTrip(f: PixelFormat, g: Geometry)
    requires !f.Auto? && g.screen.None?
    ensures g.bitsPerPixel == 8 * BytesPerPixel(f) ==> ResolveFormat(g, f) == Ok(f)
  {
  }

  /** On a raw dump the unsupported-depth `todo!()` cannot be reached: the
      depth option only admits 16, 24 and 32. */
  lemma RawDumpDepthSupported(args: Args, query: Option<VarScreenInfo>)
    requires !IsDevice(args.input)
    requires ResolveGeometry(args, query).Ok?
    ensures var g := ResolveGeometry(args, query).value;
      g.widthVirtual == g.width
      && (ResolveFormat(g, args.pixelFormat).Err? ==> !ResolveFormat(g, args.pixelFormat).error.IsPanic())
  {
  }

  /** On a device, any other depth it reports reaches that `todo!()`. */
  lemma DeviceDepthUnsupported(args: Args, v: VarScreenInfo)
    requires IsDevice(args.input)
    requires v.bitsPerPixel !in {16, 24, 32}
    ensures var g := ResolveGeometry(args, Some(v)).value;
      ResolveFormat(g, args.pixelFormat) == Err(UnsupportedDepth(v.bitsPerPixel))
  {
  }
}
