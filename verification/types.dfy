/** Shared value types of the converter: bytes, palette indices, and the
    terminal errors with the process exit codes the converter uses for them. */
module Types {

  /** One byte of a file or of an output table. */
  type Byte = x: int | 0 <= x < 256

  /** A palette index. Every conversion table the converter accepts maps
      colours into 0..15, so every classified pixel is one of these. */
  type Index = x: int | 0 <= x < 16

  /** The validation failures. Each one ends the conversion with its own exit code. */
  datatype Error =
    | InvalidPaletteEntry          // palette colour is not exactly 3 bytes
    | InvalidPaletteIndex          // palette index outside the range the mode allows
    | InvalidDimensions            // tile that is not 6x8 (screen 0) or 8x8 (screens 1, 2)
    | UnmappedColor(rgb: seq<Byte>) // pixel colour missing from the conversion table
    | TooManyColorsPerLine         // a third colour in one 8-pixel tile line
    | MultipleSpriteColors         // a second non-zero colour in a one-colour sprite
    | MultipleColorsPerLine        // a second non-zero colour in one sprite line
  {
    /** The exit code the converter terminates with. */
    function ExitCode(): (code: nat)
      ensures code <= 6
      ensures InvalidPaletteEntry? <==> code == 0
      ensures InvalidPaletteIndex? <==> code == 1
      ensures InvalidDimensions? <==> code == 2
      ensures UnmappedColor? <==> code == 3
      ensures TooManyColorsPerLine? <==> code == 4
      ensures MultipleSpriteColors? <==> code == 5
      ensures MultipleColorsPerLine? <==> code == 6
    {
      match this
      case InvalidPaletteEntry => 0
      case InvalidPaletteIndex => 1
      case InvalidDimensions => 2
      case UnmappedColor(_) => 3
      case TooManyColorsPerLine => 4
      case MultipleSpriteColors => 5
      case MultipleColorsPerLine => 6
    }
  }

  /** Either a value or the error that stopped the conversion. */
  datatype Result<+T> = Ok(value: T) | Err(error: Error)

  datatype Option<+T> = None | Some(value: T)

  function Abs(x: int): (r: nat)
    ensures r == x || r == -x
  {
    if x < 0 then -x else x
  }

  function Min(a: int, b: int): int
  {
    if a < b then a else b
  }

  /** The indices of `data` all lie in 0..15. */
  predicate AllIndices(data: seq<int>)
  {
    forall k | 0 <= k < |data| :: 0 <= data[k] < 16
  }
}
