/** Failure-compatible wrappers: `Result` works with `:-`, so a step that
    fails ends the whole computation with its error, as `?` does in Rust. */
module Wrappers {

  datatype Option<+T> = None | Some(value: T)

  datatype Result<+T, +E> = Ok(value: T) | Err(error: E) {

    predicate IsFailure() {
      Err?
    }

    function PropagateFailure<U>(): Result<U, E>
      requires Err?
    {
      Err(error)
    }

    function Extract(): T
      requires Ok?
    {
      value
    }
  }
}

/** Fixed-width integers of the program, as subsets of `int`. */
module Ints {

  type uint32 = x: int | 0 <= x < 0x1_0000_0000
  type int32 = x: int | -0x8000_0000 <= x < 0x8000_0000

  /** Rust's `x as u32` on an `i32`: the same 32 bits read as unsigned. */
  function I32AsU32(x: int32): (r: uint32)
    ensures 0 <= x ==> r == x
    ensures x < 0 ==> r == x + 0x1_0000_0000
  {
    x % 0x1_0000_0000
  }
}

/** Every error of option parsing and, in a release build, of the capture
    up to the decoded image. */
module Errors {

  datatype Error =
    | OpenFailed
    | InvalidRotation(angle: string)
    | InvalidBitDepth(depth: string)
    | InvalidPixelFormat(format: string)
    | DeviceQueryFailed
    | WidthRequired
    | HeightRequired
    | BitDepthRequired
    | PixelFormatRequired
    | Invalid16BitFormat
    | UnsupportedDepth(bitsPerPixel: int)
    | ShortRead
    | PixelOutOfBounds
  {
    /** The program does not return these as errors: `UnsupportedDepth` is
        the `todo!()` of an unmatched depth and `PixelOutOfBounds` an element
        index past the end of the frame buffer; both end the process with a
        panic. */
    predicate IsPanic() {
      UnsupportedDepth? || PixelOutOfBounds?
    }
  }
}
