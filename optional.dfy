/** The "may be NULL" pointers of the assembler are modelled as Option values. */
module Optional {
  datatype Option<+T> = None | Some(value: T)
}
