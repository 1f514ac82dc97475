/** Value types shared by the write buffer and the cluster bookkeeping:
    bytes, 64-bit unsigned offsets, optional values and half-open ranges. */
module Units {

  /** An unsigned byte, the element type of the write buffer. */
  newtype u8 = x: int | 0 <= x < 0x100

  /** 2^64: disk_offset_t and size_t are 64-bit unsigned integers. */
  const U64_MODULUS: nat := 0x1_0000_0000_0000_0000

  /** The largest value of the buffer's size type (a 64-bit size_t). */
  const SIZE_MAX: nat := U64_MODULUS - 1

  /** A value of the 64-bit unsigned offset type disk_offset_t. */
  type u64 = x: nat | x < U64_MODULUS

  datatype Option<+T> = None | Some(value: T)

  /** A half-open interval [beg, end) of offsets. */
  datatype Range = Range(beg: nat, end: nat) {

    /** The interval is well formed: it does not end before it begins. */
    predicate Valid() {
      beg <= end
    }

    function Size(): nat
      requires Valid()
    {
      end - beg
    }

    /** Empty means beg == end. This is the assumed reading of range::is_empty(),
        whose definition is not part of this model; an inverted range is not empty. */
    predicate IsEmpty() {
      beg == end
    }
  }
}
