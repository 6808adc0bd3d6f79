/** Optional values and pass/fail outcomes shared by every module of the model. */
module Results {

  /** Python's `None` or a present value. */
  datatype Option<+T> = None | Some(value: T)

  /** The result of a step performed by a library the model does not look
      inside (a directory creation, an image decode, a JPEG encode): it
      either passes or raises an exception whose text is `reason`. */
  datatype Outcome = Pass | Fail(reason: string)
}
