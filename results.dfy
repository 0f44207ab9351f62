/** The errors the colour constructors and operators raise, and a result type
    carrying either a value or one of them. */
module Results {

  /** One constructor per distinct exception the library raises. */
  datatype Error =
    | InvalidHexLength     // ValueError('Hex color must be 6 digits')
    | InvalidHexDigits     // ValueError('Not a valid hex number')
    | SaturationAboveOne   // ValueError('Saturation has to be less than 1')
    | ValueAboveOne        // ValueError('Value has to be less than 1')
    | ChannelOutOfRange    // ValueError('Color values must be between 0 and 255')
    | DivisionByZero       // ZeroDivisionError

  datatype Result<+T> = Ok(value: T) | Err(error: Error)
}
