/** Values shared by the block store and the node: raw bytes and the two
    failure-carrying wrappers the Go code expresses with (value, error) pairs. */
module Common {

  /** One byte of a Go []byte or of a Go string. */
  newtype byte = x: int | 0 <= x < 256

  type Bytes = seq<byte>

  datatype Option<+T> = None | Some(value: T)

  /** A Go (value, error) return where exactly one side is meaningful. */
  datatype Result<+T, +E> = Success(value: T) | Failure(error: E)
}
