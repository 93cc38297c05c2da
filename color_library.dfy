/** The colour values the picker exchanges with its conversion library.
    The library's conversion bodies are not part of this model: the widget
    sees them only through a `Converter`, two total functions whose only
    known facts are the ranges their documentation states. */
module ColorLibrary {

  /** A linear-space RGBA colour; components are real numbers (the source uses float). */
  datatype LinearColor = LinearColor(r: real, g: real, b: real, a: real)

  /** A hue / saturation / value triple as the library returns it. */
  datatype Hsv = Hsv(h: real, s: real, v: real)

  /** The two conversions the widget calls: HSV to linear colour and back. */
  datatype Converter = Converter(
    hsvToLinearColor: (real, real, real) -> LinearColor,
    linearColorToHsv: LinearColor -> Hsv)

  /** The documented output range of the colour-to-HSV conversion:
      hue in [0, 360), saturation and value in [0, 1]. */
  predicate HsvInDocumentedRange(hsv: Hsv)
  {
    0.0 <= hsv.h < 360.0 && 0.0 <= hsv.s <= 1.0 && 0.0 <= hsv.v <= 1.0
  }

  /** The colour-to-HSV conversion keeps its documented output range for every colour. */
  ghost predicate ToHsvDocumented(cv: Converter)
  {
    forall c :: HsvInDocumentedRange(cv.linearColorToHsv(c))
  }

  /** The HSV-to-colour conversion documents an opaque result: alpha is 1. */
  ghost predicate ToLinearColorDocumented(cv: Converter)
  {
    forall h, s, v :: cv.hsvToLinearColor(h, s, v).a == 1.0
  }
}
