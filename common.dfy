/** Values shared by every part of the model: bytes, the optional values that
    Python writes as `None`, and the exceptions the engine and its callers raise. */
module Common {

  /** One byte of a Python byte string or of a digest. */
  newtype byte = x: int | 0 <= x < 256

  datatype Option<+T> = None | Some(value: T)

  /** The exceptions raised somewhere in the modelled code. */
  datatype Error =
    | StructError                    // struct.pack('>Q', n) with n outside 0 .. 2^64 - 1
    | KeyTypeError                   // hmac.new(None, ...): the key is None
    | Base32Error                    // base64.b32decode: incorrect padding or a non-base32 digit
    | HexError                       // str.decode('hex'): odd length or a non-hexadecimal digit
    | DuplicateSection(name: string) // ConfigParser.DuplicateSectionError
    | InvalidSectionName(name: string) // ValueError from add_section('default')
    | NoSection(name: string)        // ConfigParser.NoSectionError from set
    | UnknownAction(action: string)  // RuntimeError('Unknown action ...') from route_action

  /** A value or the exception raised instead of returning it. */
  datatype Result<+T> = Ok(value: T) | Err(error: Error) {
    predicate IsFailure() {
      Err?
    }

    function PropagateFailure<U>(): Result<U>
      requires Err?
    {
      Err(error)
    }

    function Extract(): T
      requires Ok?
    {
      value
    }
  }
}
