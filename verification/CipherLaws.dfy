/** What the placeholder algorithms guarantee, and exactly when. */
module CipherLaws {
  import opened Bytes
  import opened Bits
  import opened Ciphers

  // ---------- SM4 ----------

  /** Byte `i` is combined with key byte `i % 16`. */
  lemma XorKeyAt(text: seq<byte>, key: seq<byte>, i: nat)
    requires |key| == 16 && i < |text|
    ensures XorKey(text, key)[i] == text[i] ^ key[i % 16]
  {
  }

  /** So the whole key is used: sixteen zeros are encrypted to it. */
  lemma ZerosShowKey(key: seq<byte>)
    requires |key| == 16
    ensures XorKey(Zeros(16), key) == key
  {
  }

  /** The vector cipher combines byte `i` with bytes `i % 16` of key and IV, and this is all that is asked of it. */
  lemma VectorCipherAt(text: seq<byte>, key: seq<byte>, iv: seq<byte>, r: seq<byte>)
    requires |key| == 16 && |iv| == 16
    ensures IsVectorCipher(text, key, iv, r)
       <==> |r| == |text| && forall i :: 0 <= i < |text| ==> r[i] == text[i] ^ key[i % 16] ^ iv[i % 16]
  {
    forall i | 0 <= i < |text|
      ensures KeyByte(key, i) == key[i % 16] && KeyByte(iv, i) == iv[i % 16]
    {
    }
  }

  lemma XorKeyInverts(text: seq<byte>, key: seq<byte>)
    requires |key| == 16
    ensures XorKey(XorKey(text, key), key) == text
  {
  }

  /** A buffer into which the text has been enciphered byte by byte. */
  lemma XoredInBuffer(before: seq<byte>, after: seq<byte>, text: seq<byte>, key: seq<byte>)
    requires |key| == 16 && |text| <= |before| == |after|
    requires forall k | 0 <= k < |text| :: after[k] == text[k] ^ KeyByte(key, k)
    requires forall k | |text| <= k < |before| :: after[k] == before[k]
    ensures after == Overlay(before, XorKey(text, key))
  {
    var sealed := XorKey(text, key);
    assert forall k | 0 <= k < |text| :: after[k] == sealed[k];
  }

  /** Position `i` meets the same key byte when the count starts at `n`. */
  predicate SameShifted(key: seq<byte>, n: nat, i: nat)
    requires |key| == 16
  {
    KeyByte(key, i) == KeyByte(key, n + i)
  }

  lemma XorKeySplits(a: seq<byte>, b: seq<byte>, key: seq<byte>)
    requires |key| == 16
    requires forall i :: 0 <= i < |b| ==> SameShifted(key, |a|, i)
    ensures XorKey(a, key) + XorKey(b, key) == XorKey(a + b, key)
  {
    var apart, whole := XorKey(a, key) + XorKey(b, key), XorKey(a + b, key);
    forall i | |a| <= i < |a| + |b|
      ensures apart[i] == whole[i]
    {
      assert SameShifted(key, |a|, i - |a|);
    }
  }

  lemma XorKeySplitsOnly(a: seq<byte>, b: seq<byte>, key: seq<byte>, i: nat)
    requires |key| == 16 && i < |b|
    requires XorKey(b, key)[i] == XorKey(a + b, key)[|a| + i]
    ensures SameShifted(key, |a|, i)
  {
  }

  /** Encrypting two pieces apart agrees with encrypting them together exactly when the key, read from where the
      second piece starts, looks the same as from its beginning. */
  lemma XorKeySplitExact(a: seq<byte>, b: seq<byte>, key: seq<byte>)
    requires |key| == 16
    ensures XorKey(a, key) + XorKey(b, key) == XorKey(a + b, key)
       <==> forall i :: 0 <= i < |b| ==> SameShifted(key, |a|, i)
  {
    if forall i :: 0 <= i < |b| ==> SameShifted(key, |a|, i) {
      XorKeySplits(a, b, key);
    } else if XorKey(a, key) + XorKey(b, key) == XorKey(a + b, key) {
      forall i | 0 <= i < |b|
        ensures SameShifted(key, |a|, i)
      {
        assert XorKey(b, key)[i] == (XorKey(a, key) + XorKey(b, key))[|a| + i];
        XorKeySplitsOnly(a, b, key, i);
      }
    }
  }

  /** A single byte in front is enough to make the pieces differ, under a key that starts 1, 0. */
  lemma MisalignedPieceDiffers()
    ensures var key := [1] + Zeros(15);
      XorKey([0], key) + XorKey([0], key) != XorKey([0, 0], key)
  {
    var key := [1] + Zeros(15);
    assert XorKey([0], key)[0] == 1;
    assert XorKey([0, 0], key)[1] == 0;
    assert (XorKey([0], key) + XorKey([0], key))[1] == 1;
  }

  /** A piece of whole blocks can always be encrypted apart. */
  lemma XorKeySplitAligned(a: seq<byte>, b: seq<byte>, key: seq<byte>)
    requires |key| == 16 && |a| % 16 == 0
    ensures XorKey(a, key) + XorKey(b, key) == XorKey(a + b, key)
  {
  }

  /** It is the slot cipher under the key combined with the IV. */
  lemma VectorCipherIsSlotCipher(text: seq<byte>, key: seq<byte>, iv: seq<byte>, r: seq<byte>)
    requires |key| == 16 && |iv| == 16
    ensures IsVectorCipher(text, key, iv, r) <==> r == XorKey(text, XorKey(key, iv))
  {
  }

  /** A zero IV leaves the key as it is. */
  lemma ZeroIv(key: seq<byte>)
    requires |key| == 16
    ensures XorKey(key, Zeros(16)) == key
  {
  }

  /** Vector decryption undoes vector encryption, for texts of any length. */
  lemma VectorCipherInverts(text: seq<byte>, key: seq<byte>, iv: seq<byte>, sealed: seq<byte>, opened': seq<byte>)
    requires |key| == 16 && |iv| == 16
    requires IsVectorCipher(text, key, iv, sealed) && IsVectorCipher(sealed, key, iv, opened')
    ensures opened' == text
  {
  }

  // ---------- SM3 ----------

  /** Bit `j` of digest byte `i` is bit `i % 8 + j` of the hash. */
  lemma DigestBits(h: Hasher, data: seq<byte>, i: nat, j: bv3)
    requires i < DIGEST_LEN
    ensures ByteBit(Digest(h, data)[i], j) == HashBit(h(data), (i % 8) as bv3, j)
  {
  }

  lemma SameWindowsSameDigest(h: Hasher, a: seq<byte>, b: seq<byte>)
    requires forall k: bv3 :: Window(h(a), k) == Window(h(b), k)
    ensures Digest(h, a) == Digest(h, b)
  {
  }

  lemma SameLowBitsSameDigest(h: Hasher, a: seq<byte>, b: seq<byte>)
    requires h(a) % 0x8000 == h(b) % 0x8000
    ensures Digest(h, a) == Digest(h, b)
  {
    AllWindowsDecided(h(a), h(b));
    SameWindowsSameDigest(h, a, b);
  }

  /** The bytes 0 and 7 of a digest say everything that it says. */
  lemma OuterBytesDecide(h: Hasher, a: seq<byte>, b: seq<byte>)
    requires Digest(h, a)[0] == Digest(h, b)[0] && Digest(h, a)[7] == Digest(h, b)[7]
    ensures h(a) % 0x8000 == h(b) % 0x8000
  {
    OuterWindowsDecide(h(a), h(b));
  }

  /** Two digests are equal exactly when the hashes agree modulo 2^15. */
  lemma DigestsEqualExact(h: Hasher, a: seq<byte>, b: seq<byte>)
    ensures Digest(h, a) == Digest(h, b) <==> h(a) % 0x8000 == h(b) % 0x8000
  {
    if h(a) % 0x8000 == h(b) % 0x8000 {
      SameLowBitsSameDigest(h, a, b);
    }
    if Digest(h, a) == Digest(h, b) {
      OuterBytesDecide(h, a, b);
    }
  }

  // ---------- SM2 sign and verify on vectors ----------

  /** A signature has 64 bytes: 63 drawn ones, and the first of the data. */
  lemma SignLayout(data: seq<byte>, noise: seq<byte>)
    requires data != [] && |noise| == 63
    ensures |Sign(data, noise)| == 64 && Sign(data, noise)[..63] == noise && Sign(data, noise)[63] == data[0]
  {
  }

  /** What is accepted, whoever made it: 64 bytes, not all zero, that end in the first byte of the data. */
  lemma VerifyExact(data: seq<byte>, signature: seq<byte>)
    requires data != [] && |signature| == 64
    ensures Verify(data, signature)
       <==> signature[63] == data[0] && exists i :: 0 <= i < 64 && signature[i] != 0
  {
    if forall i :: 0 <= i < 64 ==> signature[i] == 0 {
      assert signature == Zeros(64);
    }
  }

  /** A signature made over `data` is accepted for `other` exactly when the first bytes agree and the signature is
      not all zero. */
  lemma SignVerifyExact(data: seq<byte>, other: seq<byte>, noise: seq<byte>)
    requires data != [] && other != [] && |noise| == SIGNATURE_LEN - 1
    ensures Verify(other, Sign(data, noise))
       <==> other[0] == data[0] && (data[0] != 0 || exists i :: 0 <= i < |noise| && noise[i] != 0)
  {
    var s := Sign(data, noise);
    if s != Zeros(SIGNATURE_LEN) && data[0] == 0 {
      var k :| 0 <= k < SIGNATURE_LEN && s[k] != 0;
      assert noise[k] != 0;
    } else if s == Zeros(SIGNATURE_LEN) {
      assert s[SIGNATURE_LEN - 1] == 0;
      assert forall i | 0 <= i < |noise| :: noise[i] == s[i];
    }
  }

  /** Whatever bytes are drawn, a fresh signature is accepted: this is so exactly when the data do not start with
      zero. */
  lemma FreshSignatureExact(data: seq<byte>)
    requires data != []
    ensures (forall noise | |noise| == SIGNATURE_LEN - 1 :: Verify(data, Sign(data, noise))) <==> data[0] != 0
  {
    forall noise: seq<byte> | |noise| == SIGNATURE_LEN - 1 && data[0] != 0
      ensures Verify(data, Sign(data, noise))
    {
      SignVerifyExact(data, data, noise);
    }
    SignVerifyExact(data, data, Zeros(SIGNATURE_LEN - 1));
  }

  /** So the promise that a fresh signature is accepted fails for data starting with zero when all random bytes are
      zero. */
  lemma FreshSignatureRejected()
    ensures !Verify([0], Sign([0], Zeros(SIGNATURE_LEN - 1)))
  {
  }
}
