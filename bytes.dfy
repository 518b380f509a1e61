/** The values the typing session works on: the bytes of the text file and
    the results of reading one keystroke from the terminal. */
module Bytes {

  /** One byte of the text buffer, as `fread` stores it. */
  type Byte = b: int | 0 <= b < 256

  /** What `getchar` returns: a byte read from standard input, or EOF. */
  type Key = k: int | -1 <= k < 256

  /** The NUL byte the scan of a line tests for. */
  const NUL: Byte := 0

  /** The line separator of the text. */
  const NEWLINE: Byte := 10

  /** `getchar`'s end-of-stream value. */
  const EOF: Key := -1
}
