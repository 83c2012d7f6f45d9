/** The placeholder algorithms of the software provider: the repeating-key cipher, the digest, sign and verify. */
module Ciphers {
  import opened Bytes
  import opened Bits

  /** `std::hash<std::string>`, about which nothing is assumed. */
  type Hasher = seq<byte> -> bv64

  const DIGEST_LEN := 32
  const SIGNATURE_LEN := 64

  // ---------- SM4 ----------

  /** The key is used over and over. */
  function KeyByte(key: seq<byte>, i: nat): byte
    requires |key| == 16
  {
    key[i % 16]
  }

  /** Every byte combined with the key byte at its position modulo 16. */
  function XorKey(text: seq<byte>, key: seq<byte>): (r: seq<byte>)
    requires |key| == 16
    ensures |r| == |text|
    ensures forall i {:trigger r[i]} :: 0 <= i < |text| ==> r[i] == text[i] ^ KeyByte(key, i)
  {
    seq(|text|, i requires 0 <= i < |text| => text[i] ^ KeyByte(key, i))
  }

  /** The vector-style cipher: key and IV both repeat with period 16. */
  predicate IsVectorCipher(text: seq<byte>, key: seq<byte>, iv: seq<byte>, r: seq<byte>)
    requires |key| == 16 && |iv| == 16
  {
    |r| == |text| && forall i :: 0 <= i < |text| ==> r[i] == text[i] ^ KeyByte(key, i) ^ KeyByte(iv, i)
  }

  // ---------- SM3 ----------

  function Digest(h: Hasher, data: seq<byte>): (d: seq<byte>)
    ensures |d| == DIGEST_LEN
  {
    seq(DIGEST_LEN, i requires 0 <= i < DIGEST_LEN => Window(h(data), (i % 8) as bv3))
  }

  // ---------- SM2 sign and verify on vectors ----------

  /** The signature has its last byte taken from the data; the others are random. */
  function Sign(data: seq<byte>, noise: seq<byte>): seq<byte>
    requires data != [] && |noise| == SIGNATURE_LEN - 1
  {
    noise + [data[0]]
  }

  predicate Verify(data: seq<byte>, signature: seq<byte>)
    requires data != [] && |signature| == SIGNATURE_LEN
  {
    signature != Zeros(SIGNATURE_LEN) && data[0] == signature[SIGNATURE_LEN - 1]
  }
}
