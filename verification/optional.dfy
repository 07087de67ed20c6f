/** A value that may be missing: what a failed regex search or a failed
    `str.split` unpack produces in the modelled code. */
module Optional {

  datatype Option<+T> = None | Some(value: T)
}
