/** Shared vocabulary of both mosaic variants: failure wrappers, the error
    conditions the program runs into, pixel and size types, exact scale
    factors and the cells of an output canvas. */
module Common {

  datatype Option<+T> = None | Some(value: T)

  datatype Result<+T, +E> = Ok(value: T) | Err(error: E)

  /** The run-time failures of the program that the model keeps.
      DivisionByZero: a Python `/` or `//` by zero (ZeroDivisionError).
      MissingTile: the grayscale selector found no tile and the composer
      then calls `resize` on `None` (AttributeError).
      InvalidSize: `resize` was asked for a new size with a zero width or
      height (the imaging library's ValueError). */
  datatype Error = DivisionByZero | MissingTile | InvalidSize

  /** An 8-bit channel value, as stored by an 'L' or 'RGB' image. */
  type Byte = x: int | 0 <= x < 256

  /** Width and height of an image, in pixels. */
  datatype Size = Size(width: nat, height: nat)

  /** A non-negative scale factor as an exact rational num/den.
      Every finite binary floating-point value is such a rational. */
  datatype Factor = Factor(num: nat, den: nat) {
    ghost predicate Valid() { den > 0 }
  }

  /** One pixel of an output canvas. A fresh canvas (`Image.new`) is all
      black, which is `Blank`; pasting a tile resized to the block stores
      the pixel of that resized tile at offset (dx, dy) within the block. */
  datatype Cell<+T> = Blank | Sample(tile: T, dx: nat, dy: nat)
}
