/** Sizing the frame buffer, reading it, and assembling the width-by-height
    RGBA image from it, row by row, with the virtual width as the stride. */
module Frame {
  import opened Wrappers
  import opened Ints
  import opened Errors
  import opened Cli
  import opened Pixel
  import opened Geometry

  /** Bytes per buffer row: pixels of the virtual width, not the visible
      one, each of at least two bytes. */
  function LineLength(g: Geometry, fmt: PixelFormat): (len: nat)
    requires !fmt.Auto?
    ensures 2 * g.widthVirtual <= len
    ensures len == 0 <==> g.widthVirtual == 0
  {
    g.widthVirtual * BytesPerPixel(fmt)
  }

  /** Bytes the capture reads: `height` rows of the virtual width, so
      nothing at all for an empty screen. */
  function FbSize(g: Geometry, fmt: PixelFormat): (size: nat)
    requires !fmt.Auto?
    ensures size == 0 <==> g.height == 0 || g.widthVirtual == 0
    ensures 0 < g.height ==> LineLength(g, fmt) <= size
  {
    assert 0 < g.height ==> LineLength(g, fmt) <= LineLength(g, fmt) * g.height by {
      if 0 < g.height {
        MulMonotone(1, g.height, LineLength(g, fmt));
      }
    }
    LineLength(g, fmt) * g.height
  }

  /** Byte offset of visible pixel (x, y): it starts no earlier than row y;
      for a column of the virtual width the whole pixel lies in that row. */
  function Offset(g: Geometry, fmt: PixelFormat, x: nat, y: nat): (off: nat)
    requires !fmt.Auto?
    ensures y * LineLength(g, fmt) <= off
    ensures x < g.widthVirtual ==> off + BytesPerPixel(fmt) <= y * LineLength(g, fmt) + LineLength(g, fmt)
  {
    var n := BytesPerPixel(fmt);
    assert x < g.widthVirtual ==> x * n + n <= LineLength(g, fmt) by {
      if x < g.widthVirtual {
        PixelInRow(x, n, g.widthVirtual);
      }
    }
    y * LineLength(g, fmt) + x * n
  }

  /** Row y of the buffer. */
  function Row(g: Geometry, fmt: PixelFormat, buf: seq<bv8>, y: nat): (row: seq<bv8>)
    requires !fmt.Auto? && y < g.height && |buf| == FbSize(g, fmt)
    ensures |row| == LineLength(g, fmt)
  {
    RowEndInBounds(g, fmt, y);
    buf[y * LineLength(g, fmt)..y * LineLength(g, fmt) + LineLength(g, fmt)]
  }

  /** Whether the capture can read every visible pixel: it indexes past the
      end of the buffer, and panics, exactly when this is false. */
  function Readable(g: Geometry, fmt: PixelFormat): (b: bool)
    requires !fmt.Auto?
    ensures b <==> forall x: nat, y: nat | x < g.width && y < g.height ::
      Offset(g, fmt, x, y) + BytesPerPixel(fmt) <= FbSize(g, fmt)
  {
    ReadableIff(g, fmt);
    g.height == 0 || g.width <= g.widthVirtual
  }

  // ---------------------------------------------------------------------
  // Index arithmetic

  lemma MulMonotone(a: nat, b: nat, c: nat)
    requires a <= b
    ensures a * c <= b * c
  {
  }

  lemma SliceOfSlice<T>(a: seq<T>, lo: nat, hi: nat, i: nat, j: nat)
    requires lo <= hi <= |a| && i <= j <= hi - lo
    ensures a[lo..hi][i..j] == a[lo + i..lo + j]
  {
    forall k | 0 <= k < j - i
      ensures a[lo..hi][i..j][k] == a[lo + i..lo + j][k]
    {
      assert a[lo..hi][i..j][k] == a[lo..hi][i + k];
    }
  }

  /** Window `[i, i + n)` of the slice `[start, start + len)` is window
      `[start + i, start + i + n)` of the whole sequence. */
  lemma WindowOfSlice<T>(a: seq<T>, start: nat, len: nat, i: nat, n: nat, off: nat)
    requires start + len <= |a| && i + n <= len && off == start + i
    ensures a[start..start + len][i..i + n] == a[off..off + n]
  {
    SliceOfSlice(a, start, start + len, i, i + n);
  }

  lemma MulSucc(a: nat, b: nat)
    ensures (a + 1) * b == a * b + b
  {
  }

  /** Pixel x of a row of w pixels of n bytes ends within the row. */
  lemma PixelInRow(x: nat, n: nat, w: nat)
    requires x < w
    ensures x * n + n <= w * n
  {
    MulSucc(x, n);
    MulMonotone(x + 1, w, n);
  }

  lemma RowEndInBounds(g: Geometry, fmt: PixelFormat, y: nat)
    requires !fmt.Auto? && y < g.height
    ensures y * LineLength(g, fmt) + LineLength(g, fmt) <= FbSize(g, fmt)
  {
    MulSucc(y, LineLength(g, fmt));
    MulMonotone(y + 1, g.height, LineLength(g, fmt));
  }

  /** A visible pixel's bytes end within its row, hence within the buffer,
      whenever the visible width does not exceed the virtual width. */
  lemma OffsetInBounds(g: Geometry, fmt: PixelFormat, x: nat, y: nat)
    requires !fmt.Auto?
    requires x < g.width <= g.widthVirtual && y < g.height
    ensures x * BytesPerPixel(fmt) + BytesPerPixel(fmt) <= LineLength(g, fmt)
    ensures Offset(g, fmt, x, y) + BytesPerPixel(fmt) <= y * LineLength(g, fmt) + LineLength(g, fmt)
    ensures Offset(g, fmt, x, y) + BytesPerPixel(fmt) <= FbSize(g, fmt)
  {
    var n := BytesPerPixel(fmt);
    MulSucc(x, n);
    MulMonotone(x + 1, g.widthVirtual, n);
    RowEndInBounds(g, fmt, y);
  }

  /** No visible pixel is read past the end of the buffer exactly when the
      screen is empty or its visible width fits in the virtual one: with a
      visible width wider than the virtual one, the last pixel of the last
      row overruns the buffer. */
  lemma ReadableIff(g: Geometry, fmt: PixelFormat)
    requires !fmt.Auto?
    ensures (g.height == 0 || g.width <= g.widthVirtual) <==>
      forall x: nat, y: nat | x < g.width && y < g.height ::
        Offset(g, fmt, x, y) + BytesPerPixel(fmt) <= FbSize(g, fmt)
  {
    var n := BytesPerPixel(fmt);
    if g.height == 0 || g.width <= g.widthVirtual {
      forall x: nat, y: nat | x < g.width && y < g.height
        ensures Offset(g, fmt, x, y) + n <= FbSize(g, fmt)
      {
        OffsetInBounds(g, fmt, x, y);
      }
    } else {
      LastPixelOverruns(g, fmt);
    }
  }

  /** With a visible width wider than the virtual one, the last visible
      pixel of the last row ends past the end of the buffer. */
  lemma LastPixelOverruns(g: Geometry, fmt: PixelFormat)
    requires !fmt.Auto? && 0 < g.height && g.widthVirtual < g.width
    ensures FbSize(g, fmt) < Offset(g, fmt, g.width - 1, g.height - 1) + BytesPerPixel(fmt)
  {
    var n, len := BytesPerPixel(fmt), LineLength(g, fmt);
    var x, y := g.width - 1, g.height - 1;
    MulSucc(x, n);
    MulMonotone(g.widthVirtual + 1, g.width, n);
    MulSucc(g.widthVirtual, n);
    assert len < x * n + n;
    MulSucc(y, len);
    assert FbSize(g, fmt) == y * len + len;
  }

  // ---------------------------------------------------------------------
  // The image

  /** An RGBA image as rows of pixels, top row first. */
  datatype Image = Image(width: nat, height: nat, rows: seq<seq<Rgba>>)

  predicate WellFormed(img: Image) {
    |img.rows| == img.height && forall y | 0 <= y < |img.rows| :: |img.rows[y]| == img.width
  }

  /** The image built pixel by pixel from the buffer, pixel (x, y) decoded
      at its offset. */
  function Assemble(s: Scaling, g: Geometry, fmt: PixelFormat, buf: seq<bv8>): (img: Image)
    requires !fmt.Auto? && Readable(g, fmt) && |buf| == FbSize(g, fmt)
    ensures img.width == g.width && img.height == g.height && WellFormed(img)
  {
    Image(g.width, g.height,
      seq(g.height, (y: int) requires 0 <= y < g.height =>
        seq(g.width, (x: int) requires 0 <= x < g.width =>
          OffsetInBounds(g, fmt, x, y);
          Decode(s, fmt, buf, Offset(g, fmt, x, y)))))
  }

  lemma AssemblePixel(s: Scaling, g: Geometry, fmt: PixelFormat, buf: seq<bv8>, x: nat, y: nat)
    requires !fmt.Auto? && Readable(g, fmt) && |buf| == FbSize(g, fmt)
    requires x < g.width && y < g.height
    ensures Offset(g, fmt, x, y) + BytesPerPixel(fmt) <= |buf|
    ensures Assemble(s, g, fmt, buf).rows[y][x] == Decode(s, fmt, buf, Offset(g, fmt, x, y))
  {
    OffsetInBounds(g, fmt, x, y);
  }

  /** Bytes `[i, i + n)` of row y are bytes `[off, off + n)` of the buffer,
      `off` being `i` past the start of the row. */
  lemma RowWindow(g: Geometry, fmt: PixelFormat, buf: seq<bv8>, y: nat, i: nat, n: nat, off: nat)
    requires !fmt.Auto? && |buf| == FbSize(g, fmt) && y < g.height
    requires i + n <= LineLength(g, fmt) && off == y * LineLength(g, fmt) + i
    ensures off + n <= |buf|
    ensures Row(g, fmt, buf, y)[i..i + n] == buf[off..off + n]
  {
    var len := LineLength(g, fmt);
    var start := y * len;
    RowEndInBounds(g, fmt, y);
    var row := Row(g, fmt, buf, y);
    assert row == buf[start..start + len];
    WindowOfSlice(buf, start, len, i, n, off);
  }

  /** The bytes of visible pixel (x, y) are those at `x * BytesPerPixel`
      within row y. */
  lemma PixelWindowInRow(g: Geometry, fmt: PixelFormat, buf: seq<bv8>, x: nat, y: nat)
    requires !fmt.Auto? && |buf| == FbSize(g, fmt)
    requires x < g.width <= g.widthVirtual && y < g.height
    ensures x * BytesPerPixel(fmt) + BytesPerPixel(fmt) <= LineLength(g, fmt)
    ensures Offset(g, fmt, x, y) + BytesPerPixel(fmt) <= |buf|
    ensures Row(g, fmt, buf, y)[x * BytesPerPixel(fmt)..x * BytesPerPixel(fmt) + BytesPerPixel(fmt)]
      == buf[Offset(g, fmt, x, y)..Offset(g, fmt, x, y) + BytesPerPixel(fmt)]
  {
    OffsetInBounds(g, fmt, x, y);
    RowWindow(g, fmt, buf, y, x * BytesPerPixel(fmt), BytesPerPixel(fmt), Offset(g, fmt, x, y));
  }

  /** Pixel (x, y) is the x-th pixel of buffer row y: rows in buffer order
      with no flip, pixels in row order, and the virtual width used only as
      the distance between rows. */
  lemma AssembleFromRow(s: Scaling, g: Geometry, fmt: PixelFormat, buf: seq<bv8>, x: nat, y: nat)
    requires !fmt.Auto? && Readable(g, fmt) && |buf| == FbSize(g, fmt)
    requires x < g.width && y < g.height
    ensures x * BytesPerPixel(fmt) + BytesPerPixel(fmt) <= LineLength(g, fmt)
    ensures Assemble(s, g, fmt, buf).rows[y][x]
      == Decode(s, fmt, Row(g, fmt, buf, y), x * BytesPerPixel(fmt))
  {
    AssemblePixel(s, g, fmt, buf, x, y);
    PixelWindowInRow(g, fmt, buf, x, y);
    DecodeReadsOnlyWindow(s, fmt, buf, Offset(g, fmt, x, y), Row(g, fmt, buf, y), x * BytesPerPixel(fmt));
  }

  /** Two sequences that agree on a prefix agree on every window inside it. */
  lemma PrefixWindow<T>(a: seq<T>, b: seq<T>, w: nat, i: nat, n: nat)
    requires i + n <= w <= |a| && w <= |b| && a[..w] == b[..w]
    ensures a[i..i + n] == b[i..i + n]
  {
    assert a[i..i + n] == a[..w][i..i + n];
    assert b[i..i + n] == b[..w][i..i + n];
  }

  /** One visible pixel depends only on the visible part of its row. */
  lemma PixelIgnoresPadding(s: Scaling, g: Geometry, fmt: PixelFormat, buf: seq<bv8>, buf': seq<bv8>,
                            x: nat, y: nat)
    requires !fmt.Auto? && Readable(g, fmt) && |buf| == |buf'| == FbSize(g, fmt)
    requires x < g.width <= g.widthVirtual && y < g.height
    requires Row(g, fmt, buf, y)[..g.width * BytesPerPixel(fmt)] == Row(g, fmt, buf', y)[..g.width * BytesPerPixel(fmt)]
    ensures Assemble(s, g, fmt, buf).rows[y][x] == Assemble(s, g, fmt, buf').rows[y][x]
  {
    var n := BytesPerPixel(fmt);
    AssembleFromRow(s, g, fmt, buf, x, y);
    AssembleFromRow(s, g, fmt, buf', x, y);
    var row, row' := Row(g, fmt, buf, y), Row(g, fmt, buf', y);
    MulMonotone(x + 1, g.width, n);
    MulMonotone(g.width, g.widthVirtual, n);
    PrefixWindow(row, row', g.width * n, x * n, n);
    DecodeReadsOnlyWindow(s, fmt, row, x * n, row', x * n);
  }

  /** The padding of each row, beyond the visible width, never reaches the
      image: buffers that agree on the visible part of every row give the
      same image. */
  lemma AssembleIgnoresPadding(s: Scaling, g: Geometry, fmt: PixelFormat, buf: seq<bv8>, buf': seq<bv8>)
    requires !fmt.Auto? && Readable(g, fmt) && |buf| == |buf'| == FbSize(g, fmt)
    requires g.width <= g.widthVirtual
    requires forall y: nat | y < g.height ::
      Row(g, fmt, buf, y)[..g.width * BytesPerPixel(fmt)] == Row(g, fmt, buf', y)[..g.width * BytesPerPixel(fmt)]
    ensures Assemble(s, g, fmt, buf) == Assemble(s, g, fmt, buf')
  {
    var img, img' := Assemble(s, g, fmt, buf), Assemble(s, g, fmt, buf');
    forall y: nat, x: nat | y < g.height && x < g.width
      ensures img.rows[y][x] == img'.rows[y][x]
    {
      PixelIgnoresPadding(s, g, fmt, buf, buf', x, y);
    }
    assert forall y | 0 <= y < g.height :: img.rows[y] == img'.rows[y];
  }

  // ---------------------------------------------------------------------
  // The capture

  /** `read_exact` of `n` bytes from a source holding `data`. */
  function ReadExact(data: seq<bv8>, n: nat): (r: Result<seq<bv8>, Error>)
    ensures r.Ok? <==> n <= |data|
    ensures r.Ok? ==> |r.value| == n && r.value <= data
    ensures r.Err? ==> r.error == ShortRead
  {
    if |data| < n then Err(ShortRead) else Ok(data[..n])
  }

  /** One capture up to the decoded image: open the input, resolve the
      geometry and the format, read the buffer, decode every visible pixel.
      `file` is what the input holds, `None` when it cannot be opened;
      `query` is what the device's screen-info query returns. */
  function Capture(args: Args, query: Option<VarScreenInfo>, file: Option<seq<bv8>>): (r: Result<Image, Error>)
    ensures file.None? ==> r == Err(OpenFailed)
    ensures r.Ok? ==> WellFormed(r.value)
    ensures r.Ok? ==>
      && ResolveGeometry(args, query).Ok?
      && r.value.width == ResolveGeometry(args, query).value.width
      && r.value.height == ResolveGeometry(args, query).value.height
  {
    match file
    case None => Err(OpenFailed)
    case Some(data) =>
      var g :- ResolveGeometry(args, query);
      var fmt :- ResolveFormat(g, args.pixelFormat);
      var buf :- ReadExact(data, FbSize(g, fmt));
      if !Readable(g, fmt) then Err(PixelOutOfBounds)
      else Ok(Assemble(WrappingU8, g, fmt, buf))
  }

  /** A raw dump that opens is captured exactly when width, height and
      depth are given, a 16-bit dump also names a 16-bit format, and the file
      holds at least width x height pixels of the given depth; when it fails
      it never panics, and the screen-info query plays no part. */
  lemma RawCaptureOutcome(args: Args, query: Option<VarScreenInfo>, data: seq<bv8>)
    requires !IsDevice(args.input)
    ensures Capture(args, query, Some(data)).Ok? <==>
      && args.width.Some? && args.height.Some? && !args.bitDepth.Auto?
      && (args.bitDepth.Sixteen? ==> args.pixelFormat in {RGB565, ARGB1555})
      && I32AsU32(args.width.value) * (ResolveGeometry(args, query).value.bitsPerPixel / 8)
           * I32AsU32(args.height.value) <= |data|
    ensures Capture(args, query, Some(data)).Err? ==> !Capture(args, query, Some(data)).error.IsPanic()
    ensures Capture(args, query, Some(data)) == Capture(args, Option.None, Some(data))
  {
    var rg := ResolveGeometry(args, query);
    assert rg == ResolveGeometry(args, Option.None);
    if rg.Ok? {
      var g := rg.value;
      RawDumpDepthSupported(args, query);
      var rf := ResolveFormat(g, args.pixelFormat);
      if rf.Ok? {
        assert BytesPerPixel(rf.value) == g.bitsPerPixel / 8;
      }
    }
  }

  /** On a device that opens, the capture panics at a pixel index exactly
      when the device reports a visible width wider than its virtual width
      and at least one row; the depth it reports must be one of 16, 24 and
      32, or the capture panics at the unsupported depth. */
  lemma DeviceCaptureOutcome(args: Args, v: VarScreenInfo, data: seq<bv8>)
    requires IsDevice(args.input)
    ensures v.bitsPerPixel !in {16, 24, 32} ==>
      Capture(args, Some(v), Some(data)) == Err(UnsupportedDepth(v.bitsPerPixel))
    ensures v.bitsPerPixel in {16, 24, 32} && v.xresVirtual * (v.bitsPerPixel / 8) * v.yres <= |data| ==>
      (Capture(args, Some(v), Some(data)) == Err(PixelOutOfBounds) <==> v.yres > 0 && v.xres > v.xresVirtual)
    ensures Capture(args, Option.None, Some(data)) == Err(DeviceQueryFailed)
  {
    var g := ResolveGeometry(args, Some(v)).value;
    if v.bitsPerPixel in {16, 24, 32} {
      var fmt := ResolveFormat(g, args.pixelFormat).value;
      assert BytesPerPixel(fmt) == v.bitsPerPixel / 8;
    }
  }
}
