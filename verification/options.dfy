/** The optional value used for the cluster leader and for the outcome of the
    placement search. */
module Options {

  datatype Option<+T> = None | Some(value: T)
}
