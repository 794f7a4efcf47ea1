/** The Option type used for the OCR result, the language-model reply and the
    session's stored result, each of which may be missing. */
module Wrappers {

  datatype Option<+T> = None | Some(value: T)
}
