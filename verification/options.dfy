/** The optional value used wherever the C code returns or stores a pointer
    that may be NULL: `None` is NULL, `Some(s)` is an owned string. */
module Options {

  datatype Option<+T> = None | Some(value: T)

}
