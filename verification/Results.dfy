/** The optional values the kernel code returns. */
module Results {
  datatype Option<+T> = None | Some(value: T)
}
