/** The Option type used for nullable values (`IPost | null`) and for an
    absent storage entry (`localStorage.getItem` returning null). */
module Wrappers {

  datatype Option<+T> = None | Some(value: T)
}
