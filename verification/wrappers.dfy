/** The `Option` of the Rust results: the codec, the proof generator and the
    verifier's running digest. */
module Wrappers {

  datatype Option<+T> = None | Some(value: T)

}
