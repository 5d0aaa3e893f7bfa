/** Little-endian fields of a file image, independent of host alignment and byte order. */
module ElfBytes {
  import opened Bits
  import opened Bytes
  import opened RamOwner

  /** `range`: `length` bytes at `offset` lie inside `size`. */
  predicate InRange(offset: nat, length: nat, size: nat) {
    offset <= size && length <= size - offset
  }

  function U16(data: seq<Byte>, at: nat): (r: nat)
    requires at + 2 <= |data|
    ensures r == LittleEndian(data[at..at + 2]) && r < 0x1_0000
  {
    LittleEndianOf(data[at..at + 2]);
    JoinTwo(data[at], data[at + 1]);
    Or(data[at], Shl(data[at + 1], 8))
  }

  function U32(data: seq<Byte>, at: nat): (r: Word)
    requires at + 4 <= |data|
    ensures r == LittleEndian(data[at..at + 4])
  {
    LittleEndianOf(data[at..at + 4]);
    JoinFour(data[at], data[at + 1], data[at + 2], data[at + 3]);
    Or(Or(Or(data[at], Shl(data[at + 1], 8)), Shl(data[at + 2], 16)), Shl(data[at + 3], 24))
  }

  lemma SliceOfSlice(data: seq<Byte>, p: nat, end: nat, a: nat, b: nat)
    requires p <= end <= |data| && a <= b <= end - p
    ensures data[p..end][a..b] == data[p + a..p + b]
  {
    var x, y := data[p..end][a..b], data[p + a..p + b];
    assert |x| == |y| && forall i :: 0 <= i < |x| ==> x[i] == y[i];
  }
}
