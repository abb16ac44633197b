/** Everything the parser hands to code it cannot see: the host's handler and
    custom-type callbacks, and floating point (std::stof, the rgba() alpha
    rounding, expression arithmetic and std::format of its result). Each is a
    total function supplied by the caller; the model never looks inside. */
module Foreign {
  import opened Results

  /** A float32, kept as its bit pattern and never interpreted. */
  datatype Float32 = Float32(bits: bv32)

  /** Hyprlang::SVector2D. */
  datatype Vec2 = Vec2(x: Float32, y: Float32)

  /** A uint8_t. */
  type Byte = x: int | 0 <= x < 256

  /** Text std::format("{}", float) can produce: digits, sign, '.', exponent,
      "inf" or "nan", and never a brace. */
  type FloatText = s: string | '{' !in s

  /** What a custom-type set callback returns, and the new value of the opaque
      `void* data` slot it may rewrite. */
  datatype CustomOutcome = CustomOutcome(result: ParseResult, data: int)

  /** The host program and the floating-point library.
      - stof: std::stof, None when it throws;
      - alphaByte: round(f * 255) stored into a uint8_t (rgba() alpha);
      - arith: the float result of `l op r` for op one of + - * /;
      - format: std::format("{}", f);
      - customSet: a custom type's set callback, by id, given the text and the old data slot;
      - handler: a registered keyword handler, by id, given (command, value);
      - truthy: SVariable::truthy on a variable's value, whose definition is
        not part of this model. */
  datatype Host = Host(
    stof: string -> Option<Float32>,
    alphaByte: Float32 -> Byte,
    arith: (Float32, char, Float32) -> Float32,
    format: Float32 -> FloatText,
    customSet: (nat, string, int) -> CustomOutcome,
    handler: (nat, string, string) -> ParseResult,
    truthy: string -> bool
  )
}
