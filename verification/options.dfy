/** The outcome of one step that may fail. In the Python program every such
    failure is an exception caught by get_rate; here it is `None`. */
module Options {

  datatype Option<+T> = None | Some(value: T)
}
