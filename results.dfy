/** Option and Result, and the fixed set of failures the colour engine reports. */
module Results {

  datatype Option<+T> = None | Some(value: T)

  datatype Result<+T> = Success(value: T) | Failure(error: Error)

  /** Every way an operation of the engine can fail. All but the last are the
      reasons a ColorError carries; DigitsOutOfRange stands for the RangeError
      that Number.prototype.toFixed throws for a digit count outside 0..100. */
  datatype Error =
    | RedValue
    | GreenValue
    | BlueValue
    | AlphaValue
    | HexLength
    | CurrentColorWithoutContext
    | Unparsable
    | KeywordNameNotString
    | KeywordColorUnresolvable
    | DigitsOutOfRange
  {
    /** The message text `ColorError` carries in index.js. */
    function Message(): string {
      match this
      case RedValue => "Unable to parse the red value"
      case GreenValue => "Unable to parse the green value"
      case BlueValue => "Unable to parse the blue value"
      case AlphaValue => "Unable to parse the alpha value"
      case HexLength => "Unable to parse HEX color"
      case CurrentColorWithoutContext => "'currentColor' cannot be used without a context"
      case Unparsable => "Unable to parse the given color string"
      case KeywordNameNotString => "Keyword name must be of type String"
      case KeywordColorUnresolvable => "Could not parse the color for the keyword"
      case DigitsOutOfRange => "toFixed() digits argument must be between 0 and 100"
    }

    predicate IsColorError() {
      !DigitsOutOfRange?
    }
  }
}
