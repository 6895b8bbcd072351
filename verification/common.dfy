/** Small failure-carrying datatypes shared by every module of the model.
    `Option` stands for a C pointer that may be NULL; `Result` for a value
    returned together with an error code. */
module Common {

  datatype Option<+T> = None | Some(value: T)

  datatype Result<+T, +E> = Success(value: T) | Failure(error: E)

  /** True when `prefix` is an initial segment of `s` (the C `strncmp(s, prefix, |prefix|) == 0`). */
  predicate StartsWith(s: string, prefix: string)
  {
    |prefix| <= |s| && s[..|prefix|] == prefix
  }
}
