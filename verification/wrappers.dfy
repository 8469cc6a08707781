/** Failure-compatible optional value, used where a decoding may be rejected. */
module Wrappers {

  datatype Option<+T> = None | Some(value: T)

}

/** Octets, the unit of page images, VMSA images and digests. */
module Bytes {

  /** One octet of a page image, a VMSA image or a digest. */
  type Byte = x: int | 0 <= x < 256

}
