/** The optional value used wherever the extractor returns or stores `None`. */
module Optional {
  datatype Option<+T> = None | Some(value: T)
}
