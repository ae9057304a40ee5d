/** Bytes and the memory representation of unsigned integers.

    The repository copies values to and from the wire with `memcpy` and
    `reinterpret_cast`, so the bytes on the wire are the value's bytes in
    host memory. The model fixes a little-endian host (x86, ARM in its
    usual mode): the memory bytes of an unsigned value of `size` bytes are
    its little-endian encoding. */
module Bytes {

  newtype uint8 = x: int | 0 <= x < 0x100

  type uint16 = x: nat | x < 0x1_0000
  type uint32 = x: nat | x < 0x1_0000_0000

  /** 256^n: one more than the largest value that fits in n bytes. */
  function Pow256(n: nat): (r: nat)
    ensures r >= 1
  {
    if n == 0 then 1 else 256 * Pow256(n - 1)
  }

  /** The `size` memory bytes of `value` on a little-endian host, lowest first. */
  function MemoryBytes(value: nat, size: nat): (r: seq<uint8>)
    requires value < Pow256(size)
    ensures |r| == size
    decreases size
  {
    if size == 0 then [] else [(value % 256) as uint8] + MemoryBytes(value / 256, size - 1)
  }

  /** The unsigned value whose little-endian memory bytes are `bytes`. */
  function ValueOf(bytes: seq<uint8>): (v: nat)
    ensures v < Pow256(|bytes|)
  {
    if bytes == [] then 0 else bytes[0] as nat + 256 * ValueOf(bytes[1..])
  }

  /** Reading back the bytes of a value gives the value. */
  lemma {:induction false} ValueOfMemoryBytes(value: nat, size: nat)
    requires value < Pow256(size)
    ensures ValueOf(MemoryBytes(value, size)) == value
    decreases size
  {
    if size > 0 {
      var rest := MemoryBytes(value / 256, size - 1);
      assert MemoryBytes(value, size)[1..] == rest;
      ValueOfMemoryBytes(value / 256, size - 1);
    }
  }

  /** Writing the value read from some bytes reproduces those bytes. */
  lemma {:induction false} MemoryBytesOfValue(bytes: seq<uint8>)
    ensures MemoryBytes(ValueOf(bytes), |bytes|) == bytes
  {
    if bytes != [] {
      MemoryBytesOfValue(bytes[1..]);
      var v := ValueOf(bytes);
      assert v % 256 == bytes[0] as nat;
      assert v / 256 == ValueOf(bytes[1..]);
    }
  }

  /** Two values of the same width with the same memory bytes are equal. */
  lemma MemoryBytesInjective(a: nat, b: nat, size: nat)
    requires a < Pow256(size) && b < Pow256(size)
    requires MemoryBytes(a, size) == MemoryBytes(b, size)
    ensures a == b
  {
    ValueOfMemoryBytes(a, size);
    ValueOfMemoryBytes(b, size);
  }

  /** `n` zero bytes: what `std::vector::resize` adds. */
  function Zeros(n: nat): (r: seq<uint8>)
    ensures |r| == n && forall i :: 0 <= i < n ==> r[i] == 0
  {
    seq(n, _ => 0)
  }
}
