/** A value that may be missing: an absent HTTP header, or a number that
    JavaScript would represent as NaN. */
module Options {

  datatype Option<+T> = None | Some(value: T)

}
