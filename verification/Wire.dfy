/** Protocol errors and the shape of a field parser (crates/protocol/src/error.rs). */
module Wire {
  import opened Bytes

  datatype ProtocolError =
    | VarIntTooLong(max: nat)
    | UnexpectedEof
    | NegativeLength(len: int)
    | FrameTooLarge(len: int, max: nat)
    | StringTooLong(size: nat, max: nat)
    | ArrayTooLong(size: nat, max: nat)
    | InvalidBoolean(b: byte)
    | CompressedSizeMismatch(declared: nat, actual: nat)
    | Decompression
    | CompressedBelowThreshold(declared: nat, threshold: nat)
    | InvalidUtf8
    | InvalidNextState(value: int)
    | Io
    | TrailingBytes(remaining: nat)

  /** One field read off the front of an input. */
  type Field<+T> = Parse<T, ProtocolError>

  type Outcome<+T> = Result<T, ProtocolError>
}
