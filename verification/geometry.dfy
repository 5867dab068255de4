/**
 * Value types of the host UI toolkit that the repeater consumes:
 * sizes, rectangles, size requests and stack orientations.
 * Coordinates are mathematical integers in place of IEEE doubles.
 */
module Geometry {
  /** A width and a height; also used by the repeater to hold an offset (left, top). */
  datatype Size = Size(width: int, height: int)

  /** The toolkit's `Size.Zero`. */
  const Zero: Size := Size(0, 0)

  /** A rectangle given by its left edge, top edge, width and height. */
  datatype Rect = Rect(x: int, y: int, width: int, height: int)

  /** What a view asks for: the size it would like and the least it accepts. */
  datatype SizeRequest = SizeRequest(request: Size, minimum: Size)

  /** The code of a value outside the enumeration: 0 is `Vertical` and 1 is `Horizontal`. */
  type UndeclaredCode = c: int | c != 0 && c != 1 witness 2

  /**
   * The toolkit's stack orientation enumeration. A C# enum variable can hold
   * any integer, so values outside the two named ones are modelled too.
   */
  datatype StackOrientation = Vertical | Horizontal | Unnamed(code: UndeclaredCode)

  /** The exceptions the repeater can raise. */
  datatype Fault =
    | NullReference        // a missing per-child record is dereferenced
    | NotImplemented       // horizontal stacking is not implemented
    | InvalidOperation     // an orientation outside the enumeration
}
