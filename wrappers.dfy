/** The optional value used where the TypeScript source returns `T | null`
    or leaves a field `undefined`, and for the NaN that parseInt returns. */
module Wrappers {

  datatype Option<+T> = None | Some(value: T)
}
