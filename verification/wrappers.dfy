/** Failure-carrying wrappers shared by the codec, the client and the controller layer. */
module Wrappers {

  datatype Option<+T> = None | Some(value: T)

  datatype Result<+T, +E> = Success(value: T) | Failure(error: E)

  /** The Python exceptions the modelled code can raise; each one ends the call that raised it. */
  datatype PyError =
    | StructError         // struct.pack or struct.unpack rejected a field value or a frame length
    | UnicodeDecodeError  // a reply was not valid UTF-8 text
    | ValueError          // float() or int() rejected an extracted token
    | IndexError          // get_pose indexed past the extracted numbers
}
