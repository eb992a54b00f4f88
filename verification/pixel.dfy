/** Unpacking one pixel of a frame buffer into 8-bit RGBA.

    Bytes and channels are `bv8`, so arithmetic on them wraps modulo 256
    exactly as Rust's `u8` arithmetic does in a release build; the 16-bit
    formats are read through a little-endian `bv16` word. */
module Pixel {
  import opened Cli

  datatype Rgba = Rgba(r: bv8, g: bv8, b: bv8, a: bv8)

  /** How a 5- or 6-bit field is widened to 8 bits. The program computes
      `field * 255 / max` with the product held in a `u8` (`WrappingU8`);
      `Widened` holds the product in 16 bits, as the formula evidently
      intends. */
  datatype Scaling = WrappingU8 | Widened

  // ---------------------------------------------------------------------
  // Little-endian 16-bit words

  /** `u16::from_le_bytes([lo, hi])`. */
  function FromLeBytes(lo: bv8, hi: bv8): (v: bv16)
    ensures (v & 0xff) as bv8 == lo
    ensures (v >> 8) as bv8 == hi
  {
    (lo as bv16) | ((hi as bv16) << 8)
  }

  /** `u16::to_le_bytes`, the inverse of `FromLeBytes`. */
  function ToLeBytes(v: bv16): (bytes: (bv8, bv8))
  {
    ((v & 0xff) as bv8, (v >> 8) as bv8)
  }

  lemma LeBytesRoundTrip(lo: bv8, hi: bv8, v: bv16)
    ensures ToLeBytes(FromLeBytes(lo, hi)) == (lo, hi)
    ensures FromLeBytes(ToLeBytes(v).0, ToLeBytes(v).1) == v
  {
  }

  // ---------------------------------------------------------------------
  // Channel fields of the 16-bit formats

  /** The red, green and blue fields of an RGB565 word: bits 11-15, 5-10
      and 0-4. */
  function Fields565(v: bv16): (f: (bv8, bv8, bv8))
    ensures f.0 < 32 && f.1 < 64 && f.2 < 32
  {
    (((v >> 11) & 0x1f) as bv8, ((v >> 5) & 0x3f) as bv8, (v & 0x1f) as bv8)
  }

  /** Packs in-range fields into an RGB565 word. */
  function Pack565(r: bv8, g: bv8, b: bv8): bv16
    requires r < 32 && g < 64 && b < 32
  {
    ((r as bv16) << 11) | ((g as bv16) << 5) | (b as bv16)
  }

  /** `Fields565` and `Pack565` are inverse bijections: every word is one
      field triple and every triple one word. */
  lemma Fields565RoundTrip(v: bv16, r: bv8, g: bv8, b: bv8)
    requires r < 32 && g < 64 && b < 32
    ensures Fields565(Pack565(r, g, b)) == (r, g, b)
    ensures Pack565(Fields565(v).0, Fields565(v).1, Fields565(v).2) == v
  {
  }

  /** The alpha flag (bit 15) and the red, green and blue fields of an
      ARGB1555 word: bits 10-14, 5-9 and 0-4. */
  function Fields1555(v: bv16): (f: (bool, bv8, bv8, bv8))
    ensures f.1 < 32 && f.2 < 32 && f.3 < 32
  {
    ((v & 0x8000) != 0,
     ((v >> 10) & 0x1f) as bv8, ((v >> 5) & 0x1f) as bv8, (v & 0x1f) as bv8)
  }

  /** Packs an alpha flag and in-range fields into an ARGB1555 word. */
  function Pack1555(a: bool, r: bv8, g: bv8, b: bv8): bv16
    requires r < 32 && g < 32 && b < 32
  {
    (if a then 0x8000 else 0)
      | ((r as bv16) << 10) | ((g as bv16) << 5) | (b as bv16)
  }

  lemma Fields1555RoundTrip(v: bv16, a: bool, r: bv8, g: bv8, b: bv8)
    requires r < 32 && g < 32 && b < 32
    ensures Fields1555(Pack1555(a, r, g, b)) == (a, r, g, b)
    ensures Pack1555(Fields1555(v).0, Fields1555(v).1, Fields1555(v).2, Fields1555(v).3) == v
  {
  }

  // ---------------------------------------------------------------------
  // Widening a field to 8 bits

  /** `field * 255 / max` computed in `u8`: the product wraps modulo 256,
      so no field, however large, is widened past 8. */
  function ScaleU8(field: bv8, max: bv8): (c: bv8)
    requires 0 < max
    ensures FieldMax(max) && field <= max ==> c <= 8 && (c == 0 <==> field == 0)
  {
    field * 255 / max
  }

  /** The largest value of a 5-bit and of a 6-bit field. */
  predicate FieldMax(max: bv8) {
    max == 31 || max == 63
  }

  /** `field * 255 / max` computed in 16 bits. */
  function ScaleWidened(field: bv8, max: bv8): bv8
    requires FieldMax(max) && field <= max
  {
    ((field as bv16) * 255 / (max as bv16)) as bv8
  }

  /** The widened scaling is the floor of the exact ratio `field * 255 / max`. */
  lemma ScaleWidenedFloor(field: bv8, max: bv8)
    requires FieldMax(max) && field <= max
    ensures (ScaleWidened(field, max) as bv16) * (max as bv16) <= (field as bv16) * 255
    ensures (field as bv16) * 255 < ((ScaleWidened(field, max) as bv16) + 1) * (max as bv16)
  {
    if max == 31 {
    } else {
    }
  }

  function Scale(s: Scaling, field: bv8, max: bv8): bv8
    requires FieldMax(max) && field <= max
  {
    match s
    case WrappingU8 => ScaleU8(field, max)
    case Widened => ScaleWidened(field, max)
  }

  /** A debug build panics exactly when the true product exceeds `u8::MAX`. */
  predicate ProductOverflowsU8(field: bv8) {
    (field as bv16) * 255 > 255
  }

  /** The `u8` product overflows for every field value from 2 up, so only
      the values 0 and 1 are decoded without wrapping; from 1 up the wrapped
      product is `256 - field`. */
  lemma ScaleU8Wraps(field: bv8)
    ensures ProductOverflowsU8(field) <==> field >= 2
    ensures 1 <= field ==> field * 255 == 0 - field
  {
  }

  /** Consequently the as-written scaling of a 5-bit field lands in
      {0, 7, 8} and of a 6-bit field in {0, 3, 4}, with only a zero field
      giving 0: no 16-bit pixel gets a channel brighter than 8 out of 255,
      and the largest field gives 7 and 3 instead of 255. */
  lemma ScaleU8Range(field: bv8)
    ensures field < 32 ==> ScaleU8(field, 31) in {0, 7, 8}
    ensures field < 64 ==> ScaleU8(field, 63) in {0, 3, 4}
    ensures field < 32 ==> (ScaleU8(field, 31) == 0 <==> field == 0)
    ensures field < 64 ==> (ScaleU8(field, 63) == 0 <==> field == 0)
    ensures ScaleU8(31, 31) == 7 && ScaleU8(63, 63) == 3
  {
  }

  /** The widened scaling is exact at both ends, and only there, and
      monotonic. */
  lemma ScaleWidenedExact(field: bv8, other: bv8, max: bv8)
    requires FieldMax(max) && field <= max && other <= max
    ensures ScaleWidened(field, max) == 0 <==> field == 0
    ensures ScaleWidened(field, max) == 255 <==> field == max
    ensures field <= other ==> ScaleWidened(field, max) <= ScaleWidened(other, max)
  {
  }

  // ---------------------------------------------------------------------
  // Decoding one pixel

  /** One pixel of format `fmt` at byte offset `idx` of `buf`, its 16-bit
      channels widened with `s`. */
  function Decode(s: Scaling, fmt: PixelFormat, buf: seq<bv8>, idx: nat): (p: Rgba)
    requires !fmt.Auto?
    requires idx + BytesPerPixel(fmt) <= |buf|
    // the byte-aligned formats hold blue, green, red (and alpha) in memory order
    ensures fmt == RGB888 || fmt == RGBA8888 ==>
      p.b == buf[idx] && p.g == buf[idx + 1] && p.r == buf[idx + 2]
    ensures fmt == RGBA8888 ==> p.a == buf[idx + 3]
    ensures fmt == RGB888 || fmt == RGB565 ==> p.a == 255
    // ARGB1555 alpha is the top bit of the second byte, all or nothing
    ensures fmt == ARGB1555 ==>
      && (p.a == 255 <==> buf[idx + 1] & 0x80 != 0)
      && (p.a == 0 <==> buf[idx + 1] & 0x80 == 0)
  {
    match fmt
    case RGBA8888 => Rgba(buf[idx + 2], buf[idx + 1], buf[idx], buf[idx + 3])
    case RGB888 => Rgba(buf[idx + 2], buf[idx + 1], buf[idx], 255)
    case RGB565 =>
      var f := Fields565(FromLeBytes(buf[idx], buf[idx + 1]));
      Rgba(Scale(s, f.0, 31), Scale(s, f.1, 63), Scale(s, f.2, 31), 255)
    case ARGB1555 =>
      var f := Fields1555(FromLeBytes(buf[idx], buf[idx + 1]));
      Rgba(Scale(s, f.1, 31), Scale(s, f.2, 31), Scale(s, f.3, 31), if f.0 then 255 else 0)
  }

  /** The decoder as the program computes it. Every 16-bit pixel comes out
      nearly black: no channel exceeds 8, and only a zero field gives 0. */
  function GetPixel(fmt: PixelFormat, buf: seq<bv8>, idx: nat): (p: Rgba)
    requires !fmt.Auto?
    requires idx + BytesPerPixel(fmt) <= |buf|
    ensures fmt in {RGB565, ARGB1555} ==> p.r <= 8 && p.g <= 8 && p.b <= 8
    ensures fmt == RGB565 ==>
      var f := Fields565(FromLeBytes(buf[idx], buf[idx + 1]));
      (p.r == 0 <==> f.0 == 0) && (p.g == 0 <==> f.1 == 0) && (p.b == 0 <==> f.2 == 0)
    ensures fmt == ARGB1555 ==>
      var f := Fields1555(FromLeBytes(buf[idx], buf[idx + 1]));
      (p.r == 0 <==> f.1 == 0) && (p.g == 0 <==> f.2 == 0) && (p.b == 0 <==> f.3 == 0)
    ensures fmt != ARGB1555 && fmt != RGBA8888 ==> p.a == 255
  {
    Decode(WrappingU8, fmt, buf, idx)
  }

  /** The decoder with the channel product widened: a 16-bit channel is 0
      exactly for a zero field and 255 exactly for an all-ones field. */
  function GetPixelIntended(fmt: PixelFormat, buf: seq<bv8>, idx: nat): (p: Rgba)
    requires !fmt.Auto?
    requires idx + BytesPerPixel(fmt) <= |buf|
    ensures fmt == RGB565 ==>
      var f := Fields565(FromLeBytes(buf[idx], buf[idx + 1]));
      && (p.r == 0 <==> f.0 == 0) && (p.r == 255 <==> f.0 == 31)
      && (p.g == 0 <==> f.1 == 0) && (p.g == 255 <==> f.1 == 63)
      && (p.b == 0 <==> f.2 == 0) && (p.b == 255 <==> f.2 == 31)
    ensures fmt == ARGB1555 ==>
      var f := Fields1555(FromLeBytes(buf[idx], buf[idx + 1]));
      && (p.r == 0 <==> f.1 == 0) && (p.r == 255 <==> f.1 == 31)
      && (p.g == 0 <==> f.2 == 0) && (p.g == 255 <==> f.2 == 31)
      && (p.b == 0 <==> f.3 == 0) && (p.b == 255 <==> f.3 == 31)
  {
    if fmt == RGB565 then
      var f := Fields565(FromLeBytes(buf[idx], buf[idx + 1]));
      ScaleWidenedExact(f.0, 0, 31);
      ScaleWidenedExact(f.1, 0, 63);
      ScaleWidenedExact(f.2, 0, 31);
      Decode(Widened, fmt, buf, idx)
    else if fmt == ARGB1555 then
      var f := Fields1555(FromLeBytes(buf[idx], buf[idx + 1]));
      ScaleWidenedExact(f.1, 0, 31);
      ScaleWidenedExact(f.2, 0, 31);
      ScaleWidenedExact(f.3, 0, 31);
      Decode(Widened, fmt, buf, idx)
    else
      Decode(Widened, fmt, buf, idx)
  }

  /** The bytes a pixel occupies, in memory order: the inverse of `Decode`
      for the byte-aligned formats. */
  function Encode(fmt: PixelFormat, p: Rgba): (bytes: seq<bv8>)
    requires fmt == RGBA8888 || fmt == RGB888
    ensures |bytes| == BytesPerPixel(fmt)
  {
    if fmt == RGBA8888 then [p.b, p.g, p.r, p.a] else [p.b, p.g, p.r]
  }

  /** RGBA8888 stores blue, green, red, alpha and RGB888 blue, green, red;
      decoding swaps them back, and RGB888 is fully opaque. */
  lemma DecodeEncode(s: Scaling, fmt: PixelFormat, p: Rgba)
    requires fmt == RGBA8888 || fmt == RGB888
    ensures fmt == RGBA8888 ==> Decode(s, fmt, Encode(fmt, p), 0) == p
    ensures fmt == RGB888 ==> Decode(s, fmt, Encode(fmt, p), 0) == p.(a := 255)
  {
  }

  /** A decoded pixel depends on the `BytesPerPixel(fmt)` bytes at its
      offset and on nothing else in the buffer. */
  lemma DecodeReadsOnlyWindow(s: Scaling, fmt: PixelFormat, buf: seq<bv8>, idx: nat,
                              buf': seq<bv8>, idx': nat)
    requires !fmt.Auto?
    requires idx + BytesPerPixel(fmt) <= |buf| && idx' + BytesPerPixel(fmt) <= |buf'|
    requires buf[idx..idx + BytesPerPixel(fmt)] == buf'[idx'..idx' + BytesPerPixel(fmt)]
    ensures Decode(s, fmt, buf, idx) == Decode(s, fmt, buf', idx')
  {
    var n := BytesPerPixel(fmt);
    forall k | idx <= k < idx + n
      ensures buf[k] == buf'[k - idx + idx']
    {
      assert buf[k] == buf[idx..idx + n][k - idx];
      assert buf'[k - idx + idx'] == buf'[idx'..idx' + n][k - idx];
    }
  }

  /** An RGB565 pixel whose word packs fields (r, g, b) decodes to those
      fields widened, and is always opaque. */
  lemma Decode565(s: Scaling, r: bv8, g: bv8, b: bv8)
    requires r < 32 && g < 64 && b < 32
    ensures var bytes := ToLeBytes(Pack565(r, g, b));
      Decode(s, RGB565, [bytes.0, bytes.1], 0)
        == Rgba(Scale(s, r, 31), Scale(s, g, 63), Scale(s, b, 31), 255)
  {
    var v := Pack565(r, g, b);
    LeBytesRoundTrip(0, 0, v);
    Fields565RoundTrip(v, r, g, b);
  }

  /** An ARGB1555 pixel is opaque exactly when bit 15 of its word is set,
      and fully transparent otherwise. */
  lemma Decode1555(s: Scaling, a: bool, r: bv8, g: bv8, b: bv8)
    requires r < 32 && g < 32 && b < 32
    ensures var bytes := ToLeBytes(Pack1555(a, r, g, b));
      Decode(s, ARGB1555, [bytes.0, bytes.1], 0)
        == Rgba(Scale(s, r, 31), Scale(s, g, 31), Scale(s, b, 31), if a then 255 else 0)
  {
    var v := Pack1555(a, r, g, b);
    LeBytesRoundTrip(0, 0, v);
    Fields1555RoundTrip(v, a, r, g, b);
  }

  /** Boundary words: all-zero RGB565 is opaque black and all-zero
      ARGB1555 transparent black under either scaling; 0x8000 in ARGB1555
      is opaque black. All-ones RGB565 decodes to (7, 3, 7, 255) as
      written and to opaque white when widened. */
  lemma BoundaryWords(s: Scaling)
    ensures Decode(s, RGB565, [0x00, 0x00], 0) == Rgba(0, 0, 0, 255)
    ensures Decode(s, ARGB1555, [0x00, 0x00], 0) == Rgba(0, 0, 0, 0)
    ensures Decode(s, ARGB1555, [0x00, 0x80], 0) == Rgba(0, 0, 0, 255)
    ensures GetPixel(RGB565, [0xff, 0xff], 0) == Rgba(7, 3, 7, 255)
    ensures GetPixelIntended(RGB565, [0xff, 0xff], 0) == Rgba(255, 255, 255, 255)
  {
    ScaleWidenedExact(0, 0, 31);
    ScaleWidenedExact(0, 0, 63);
    ScaleWidenedExact(31, 0, 31);
    ScaleWidenedExact(63, 0, 63);
  }
}
