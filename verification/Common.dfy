/** What several parts of the model share. */
module Common {
  datatype Option<T> = None | Some(value: T)

  /** The terminator of a C string. A string is the sequence of the characters before it. */
  const NUL := '\0'

  predicate IsString(s: string) {
    NUL !in s
  }

  /** The number of descriptors of a process (WIN_OPEN_MAX). */
  const OPEN_MAX: nat := 64

  const EINVAL: int := 22
}
