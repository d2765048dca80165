/** The optional-value wrapper shared by the other modules: a dictionary lookup
    that may miss, a search that may find nothing, a parse that may fail. */
module Options {

  datatype Option<+T> = None | Some(value: T)

}
