/** The raw memory the inline representation is built from: bytes, the
    `Data = [u64; 4]` buffer, and the byte copy used to move a closure into it. */
module Layout {

  type Byte = bv8

  /** `size_of::<u64>()` and `align_of::<u64>()`, fixed at their 64-bit values. */
  const WordSize: nat := 8
  const WordAlign: nat := 8

  /** `Data` is four words: 32 bytes, aligned like a `u64`. */
  const DataWords: nat := 4
  const DataSize: nat := DataWords * WordSize
  const DataAlign: nat := WordAlign

  /** `Data::default()`: the buffer with every byte zero. */
  function DefaultData(): (data: seq<Byte>)
  {
    seq(DataSize, _ => 0)
  }

  /** The storage-selection rule: a value of this size and alignment can be
      kept in a `Data` buffer. Both bounds are inclusive. */
  predicate FitsInline(size: nat, align: nat)
  {
    size <= DataSize && align <= DataAlign
  }

  /** `ptr::copy_nonoverlapping(src, dst, count)` on byte buffers: the first
      `count` bytes of `dst` are overwritten by those of `src` and the rest of
      `dst` keeps its bytes. */
  function CopyNonoverlapping(src: seq<Byte>, dst: seq<Byte>, count: nat): (r: seq<Byte>)
    requires count <= |src| && count <= |dst|
    ensures |r| == |dst|
    ensures forall i :: 0 <= i < count ==> r[i] == src[i]
    ensures forall i :: count <= i < |dst| ==> r[i] == dst[i]
    decreases count
  {
    if count == 0 then dst
    else CopyNonoverlapping(src, dst[count - 1 := src[count - 1]], count - 1)
  }
}
