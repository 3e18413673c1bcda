/** The `errno` values that the operations return, negated. */
module Errno {
  const ENOENT := 2
  const EACCES := 13
  const EEXIST := 17
  const EISDIR := 21
  const ENOTEMPTY := 39
  const EPROTO := 71
}
