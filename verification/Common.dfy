/** Shared constants of the node (common.go). */
module Common {
  /** Lookup parallelism factor (common.go:4). */
  const Alpha: int := 3
  /** Number of bytes in a node identifier (common.go:5). */
  const IDLength: int := 20
  /** Number of BITS in an identifier, despite the name; also the number of buckets (common.go:6). */
  const IDBytesLength: int := 8 * IDLength
  /** Capacity of one k-bucket and size of a lookup result (common.go:7). */
  const BucketSize: int := 20
}

/** The usual optional value, standing for Go's nil-or-pointer results. */
module Wrappers {
  datatype Option<+T> = None | Some(value: T)
}
