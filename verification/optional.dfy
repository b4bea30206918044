/** The optional-value datatype used where the source can fail (an index
    outside a table raises in the source; here it yields None). */
module Optional {

  datatype Option<+T> = None | Some(value: T)
}
