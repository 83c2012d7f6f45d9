/** Bytes, fixed-width integers and the buffer operations every other module uses. */
module Bytes {

  type byte = bv8
  type uint8 = n: int | 0 <= n < 0x100
  type uint16 = n: int | 0 <= n < 0x1_0000

  // size_t counts modulo this
  const SIZE := 0x1_0000_0000_0000_0000

  datatype Option<+T> = None | Some(value: T)

  function Zeros(n: nat): seq<byte> {
    seq(n, _ => 0)
  }

  /** What a buffer holds after `out` has been written at its start; writing past its end is cut off. */
  function Overlay(buf: seq<byte>, out: seq<byte>): (r: seq<byte>)
    ensures |r| == |buf|
  {
    if |out| <= |buf| then out + buf[|out|..] else out[..|buf|]
  }

  /** `static_cast<int>` of a size: the low 32 bits read as a two's complement number. */
  function Int32(n: int): int {
    var low := n % 0x1_0000_0000;
    if low < 0x8000_0000 then low else low - 0x1_0000_0000
  }

  /** `static_cast<unsigned short>` of a size. */
  function UInt16(n: nat): uint16 {
    n % 0x1_0000
  }

  function Min(a: int, b: int): int {
    if a <= b then a else b
  }
}

/** What the buffer operations and the casts do, position by position and number by number. */
module BufferLaws {
  import opened Bytes

  /** Writing at the start of a buffer changes what it reaches and nothing else. */
  lemma OverlayAt(buf: seq<byte>, out: seq<byte>, i: nat)
    requires i < |buf|
    ensures Overlay(buf, out)[i] == if i < |out| then out[i] else buf[i]
  {
  }

  lemma ZerosAt(n: nat, i: nat)
    requires i < n
    ensures |Zeros(n)| == n && Zeros(n)[i] == 0
  {
  }

  /** A cast to int is the number that is the same modulo 2^32 and that an int can hold. */
  lemma Int32Exact(n: int, r: int)
    ensures r == Int32(n) <==> -0x8000_0000 <= r <= 0x7FFF_FFFF && (n - r) % 0x1_0000_0000 == 0
  {
  }

  /** A cast to unsigned short is the number that is the same modulo 2^16 and that sixteen bits can hold. */
  lemma UInt16Exact(n: nat, r: int)
    ensures r == UInt16(n) <==> 0 <= r <= 65535 && (n - r) % 65536 == 0
  {
  }

  /** The first `n` bytes of what was written to a zeroed buffer. */
  function Filled(out: seq<byte>, n: nat): (r: seq<byte>)
    ensures |r| == n && forall i :: 0 <= i < n ==> r[i] == if i < |out| then out[i] else 0
  {
    seq(n, i requires 0 <= i < n => if i < |out| then out[i] else 0)
  }

  lemma OverlayIsFilled(out: seq<byte>, n: nat)
    ensures Overlay(Zeros(n), out) == Filled(out, n)
  {
  }
}
