/**
 * What every call on the software provider accepts, returns, writes and leaves, for every state and every argument,
 * with the numbers written out.
 */
module ProviderCalls {
  import opened Bytes
  import opened BufferLaws
  import opened Ciphers
  import opened CipherLaws
  import opened Provider
  import opened History

  /** The call returns 0 and writes these bytes. */
  predicate Succeeds(h: Hasher, s: State, op: Op, out: seq<byte>) {
    AnswerTo(h, s, op) == Answer(0, out)
  }

  /** The call returns -1, which becomes the error code, writes nothing and changes nothing else. */
  predicate Fails(h: Hasher, s: State, op: Op) {
    AnswerTo(h, s, op) == Answer(-1, []) && Step(h, s, op).state == s.(lastError := -1)
  }

  function After(h: Hasher, s: State, op: Op): State {
    Step(h, s, op).state
  }

  // ---------- The provider as a whole ----------

  /** Four key pairs, six SM4 keys, four IDs, all of them clear; nothing open, no error. */
  lemma InitialExact()
    ensures var s := Initial();
      && |s.sm2| == 4 && (forall i :: 0 <= i < 4 ==> s.sm2[i] == SM2Slot(Zeros(32), Zeros(65), false, false))
      && |s.sm4| == 6 && (forall i :: 0 <= i < 6 ==> s.sm4[i] == SM4Slot(Zeros(16), 1, false))
      && |s.ids| == 4 && (forall i :: 0 <= i < 4 ==> s.ids[i] == IdSlot([], false))
      && s.userData == map[] && !s.sm3Initialized && !s.isOpened && s.lastError == 0
  {
  }

  lemma OpenCloseExact(h: Hasher, s: State)
    ensures Succeeds(h, s, General(Open), []) && After(h, s, General(Open)) == s.(isOpened := true, lastError := 0)
    ensures Succeeds(h, s, General(Close), []) && After(h, s, General(Close)) == s.(isOpened := false, lastError := 0)
    ensures Succeeds(h, s, General(Initialize), []) && After(h, s, General(Initialize)) == s.(lastError := 0)
  {
  }

  /** All key and ID slots become clear, and only these. */
  lemma CleanupExact(h: Hasher, s: State)
    ensures var t := After(h, s, General(Cleanup));
      && Succeeds(h, s, General(Cleanup), [])
      && t.sm2 == Initial().sm2 && t.sm4 == Initial().sm4 && t.ids == Initial().ids
      && t == s.(sm2 := t.sm2, sm4 := t.sm4, ids := t.ids, lastError := 0)
  {
  }

  /** The bytes written are those drawn. */
  lemma GetRandomExact(h: Hasher, s: State, outBuf: bool, drawn: Chunk)
    ensures var op := General(GetRandom(outBuf, drawn));
      if outBuf && |drawn| > 0 then Succeeds(h, s, op, drawn) && After(h, s, op) == s.(lastError := 0)
      else Fails(h, s, op)
  {
  }

  // ---------- Key pairs ----------

  /** One slot becomes `v`, and nothing else changes. */
  predicate SetsPair(h: Hasher, s: State, op: Op, i: uint8, v: SM2Slot)
    requires i < 4
  {
    Succeeds(h, s, op, []) && After(h, s, op) == s.(sm2 := s.sm2[i := v], lastError := 0)
  }

  lemma GenerateExact(h: Hasher, s: State, i: uint8, pub: Public, pri: Private)
    ensures var op := KeyPair(i, GenerateSM2KeyPair(pub, pri));
      if i < 4 then SetsPair(h, s, op, i, SM2Slot(pri, pub, true, true)) else Fails(h, s, op)
  {
  }

  lemma DeleteExact(h: Hasher, s: State, i: uint8)
    ensures var op := KeyPair(i, DeleteSM2KeyPair);
      if i < 4 then SetsPair(h, s, op, i, SM2Slot(Zeros(32), Zeros(65), false, false)) else Fails(h, s, op)
  {
  }

  lemma ImportPairExact(h: Hasher, s: State, i: uint8, pri: Option<Private>, pub: Option<Public>)
    ensures var op := KeyPair(i, ImportSM2KeyPair(pri, pub));
      if i < 4 && pri.Some? && pub.Some? then SetsPair(h, s, op, i, SM2Slot(pri.value, pub.value, true, true))
      else Fails(h, s, op)
  {
  }

  /** The private half and its flag stay. */
  lemma ImportPublicExact(h: Hasher, s: State, i: uint8, pub: Option<Public>)
    ensures var op := KeyPair(i, ImportSM2PubKey(pub));
      if i < 4 && pub.Some? then
        SetsPair(h, s, op, i, SM2Slot(s.sm2[i].privateKey, pub.value, s.sm2[i].hasPrivateKey, true))
      else Fails(h, s, op)
  {
  }

  /** The public half and its flag stay. */
  lemma ImportPrivateExact(h: Hasher, s: State, i: uint8, pri: Option<Private>)
    ensures var op := KeyPair(i, ImportSM2PriKey(pri));
      if i < 4 && pri.Some? then
        SetsPair(h, s, op, i, SM2Slot(pri.value, s.sm2[i].publicKey, true, s.sm2[i].hasPublicKey))
      else Fails(h, s, op)
  {
  }

  lemma ExportPublicExact(h: Hasher, s: State, i: uint8, outBuf: bool)
    ensures var op := KeyPair(i, ExportSM2PubKey(outBuf));
      if i < 4 && outBuf then
        Succeeds(h, s, op, s.sm2[i].publicKey) && After(h, s, op) == s.(lastError := 0)
      else Fails(h, s, op)
  {
    if i < 4 {
      assert s.sm2[i := s.sm2[i]] == s.sm2;
    }
  }

  // ---------- Work under a key pair ----------

  /** 96 drawn bytes, then the message. */
  lemma SM2EncryptExact(h: Hasher, s: State, i: uint8, outBuf: bool, msg: Option<Chunk>, noise: Noise)
    ensures var op := SM2(i, SM2Encrypt(outBuf, msg, noise));
      if i < 4 && outBuf && msg.Some? && |msg.value| > 0 then
        && AnswerTo(h, s, op).rc == 0 && After(h, s, op) == s.(lastError := 0)
        && var out := AnswerTo(h, s, op).out;
           |out| == 96 + |msg.value| && out[..96] == noise && out[96..] == msg.value
      else Fails(h, s, op)
  {
  }

  /** What follows the first 96 bytes. */
  lemma SM2DecryptExact(h: Hasher, s: State, i: uint8, outBuf: bool, cipher: Option<Chunk>)
    ensures var op := SM2(i, SM2Decrypt(outBuf, cipher));
      if i < 4 && outBuf && cipher.Some? && |cipher.value| >= 96 then
        Succeeds(h, s, op, cipher.value[96..]) && After(h, s, op) == s.(lastError := 0)
      else Fails(h, s, op)
  {
  }

  /** Signing writes the 64 bytes drawn; verification by slot accepts everything that it is given. */
  lemma SM2SignExact(h: Hasher, s: State, i: uint8, buf: bool, msg: Option<Chunk>, digest: bool, drawn: Signature)
    ensures var sign, verify := SM2(i, SM2Sign(buf, msg, drawn)), SM2(i, SM2Verify(buf, msg));
      if i < 4 && buf && msg.Some? && |msg.value| > 0 then
        && Succeeds(h, s, sign, drawn) && After(h, s, sign) == s.(lastError := 0)
        && Succeeds(h, s, verify, []) && After(h, s, verify) == s.(lastError := 0)
      else Fails(h, s, sign) && Fails(h, s, verify)
    ensures var sign, verify := SM2(i, SM2SignDigest(buf, digest, drawn)), SM2(i, SM2VerifyDigest(buf, digest));
      if i < 4 && buf && digest then
        && Succeeds(h, s, sign, drawn) && After(h, s, sign) == s.(lastError := 0)
        && Succeeds(h, s, verify, []) && After(h, s, verify) == s.(lastError := 0)
      else Fails(h, s, sign) && Fails(h, s, verify)
  {
  }

  // ---------- User IDs ----------

  lemma ImportIdExact(h: Hasher, s: State, i: uint8, id: Option<Chunk>)
    ensures var op := Identity(i, ImportID(id));
      if i < 4 && id.Some? && |id.value| > 0 then
        Succeeds(h, s, op, []) && After(h, s, op) == s.(ids := s.ids[i := IdSlot(id.value, true)], lastError := 0)
      else Fails(h, s, op)
  {
  }

  /** An unset slot has no bytes to write; a set one is written at its length modulo 2^16. */
  lemma ExportIdExact(h: Hasher, s: State, i: uint8, outBuf: bool, lenBuf: bool)
    ensures var op := Identity(i, ExportID(outBuf, lenBuf));
      if i < 4 && outBuf && lenBuf then
        var id := s.ids[i];
        && Succeeds(h, s, op, if id.isValid then id.data[..|id.data| % 65536] else [])
        && After(h, s, op) == s.(lastError := 0)
      else Fails(h, s, op)
  {
    if i < 4 {
      assert s.ids[i := s.ids[i]] == s.ids;
    }
  }

  // ---------- SM3 ----------

  /** The data are kept in the side table under 255. */
  function Kept(s: State): seq<byte> {
    if 255 in s.userData then s.userData[255] else []
  }

  lemma SM3InitExact(h: Hasher, s: State)
    ensures Succeeds(h, s, SM3(SM3Init), [])
    ensures After(h, s, SM3(SM3Init)) == s.(sm3Initialized := true, userData := s.userData[255 := []], lastError := 0)
  {
  }

  lemma SM3UpdateExact(h: Hasher, s: State, msg: Option<Chunk>)
    ensures var op := SM3(SM3Update(msg));
      if s.sm3Initialized && msg.Some? && |msg.value| > 0 then
        && Succeeds(h, s, op, [])
        && After(h, s, op) == s.(userData := s.userData[255 := Kept(s) + msg.value], lastError := 0)
      else Fails(h, s, op)
  {
  }

  /** With data gathered, their digest is written. */
  lemma SM3FinalExact(h: Hasher, s: State, outBuf: bool)
    ensures var op := SM3(SM3Final(outBuf));
      if s.sm3Initialized && outBuf then
        && AnswerTo(h, s, op).rc == 0 && (Kept(s) != [] ==> AnswerTo(h, s, op).out == Digest(h, Kept(s)))
        && After(h, s, op) == s.(sm3Initialized := false, userData := s.userData[255 := []], lastError := 0)
      else Fails(h, s, op)
  {
  }

  lemma SM3HashExact(h: Hasher, s: State, msg: Option<Chunk>, outBuf: bool)
    ensures var op := SM3(SM3Hash(msg, outBuf));
      if outBuf && msg.Some? && |msg.value| > 0 then
        Succeeds(h, s, op, Digest(h, msg.value)) && After(h, s, op) == s.(lastError := 0)
      else Fails(h, s, op)
  {
  }

  lemma DigestLength(h: Hasher, data: seq<byte>)
    ensures |Digest(h, data)| == 32
  {
  }

  // ---------- SM4 ----------

  /** The key type stays. */
  lemma SetSM4KeyExact(h: Hasher, s: State, i: uint8, key: Option<Block>)
    ensures var op := SM4(i, SetSM4Key(key));
      if i < 6 && key.Some? then
        && Succeeds(h, s, op, [])
        && After(h, s, op) == s.(sm4 := s.sm4[i := SM4Slot(key.value, s.sm4[i].keyType, true)], lastError := 0)
      else Fails(h, s, op)
  {
  }

  /** The index is kept in the side table under 254. */
  lemma SM4InitExact(h: Hasher, s: State, i: uint8, icv: bool)
    ensures var op := SM4(i, SM4Init(icv));
      if i < 6 && icv then
        && Succeeds(h, s, op, [])
        && After(h, s, op) == s.(userData := s.userData[254 := [i as byte]], lastError := 0)
      else Fails(h, s, op)
    ensures if i < 6 then Succeeds(h, s, SM4(i, SM4Final), []) && After(h, s, SM4(i, SM4Final)) == s.(lastError := 0)
      else Fails(h, s, SM4(i, SM4Final))
  {
  }

  /** Byte `k` combined with byte `k % 16` of the key. */
  predicate IsSealed(out: seq<byte>, text: seq<byte>, key: seq<byte>)
    requires |key| == 16
  {
    |out| == |text| && forall k :: 0 <= k < |text| ==> out[k] == text[k] ^ key[k % 16]
  }

  lemma XorKeySeals(text: seq<byte>, key: seq<byte>)
    requires |key| == 16
    ensures IsSealed(XorKey(text, key), text, key)
  {
    forall k | 0 <= k < |text|
      ensures XorKey(text, key)[k] == text[k] ^ key[k % 16]
    {
      XorKeyAt(text, key, k);
    }
  }

  /** Both cipher calls combine the message with the key of the slot. */
  lemma SM4CipherExact(h: Hasher, s: State, i: uint8, msg: Option<Chunk>, outBuf: bool)
    ensures forall op | op == SM4(i, SM4Update(msg, outBuf)) || op == SM4(i, SM4Crypto(msg, outBuf)) ::
      if i < 6 && outBuf && msg.Some? && |msg.value| > 0 then
        && AnswerTo(h, s, op).rc == 0 && IsSealed(AnswerTo(h, s, op).out, msg.value, s.sm4[i].key)
        && After(h, s, op) == s.(lastError := 0)
      else Fails(h, s, op)
  {
    if i < 6 && msg.Some? {
      XorKeySeals(msg.value, s.sm4[i].key);
    }
  }

  /** After a key was set, both combine the message with just that key, all sixteen bytes of it. */
  lemma SetKeySeals(h: Hasher, s: State, i: uint8, key: Block, msg: Chunk)
    requires i < 6 && |msg| > 0
    ensures var t := After(h, s, SM4(i, SetSM4Key(Some(key))));
      && AnswerTo(h, t, SM4(i, SM4Crypto(Some(msg), true))).rc == 0
      && IsSealed(AnswerTo(h, t, SM4(i, SM4Crypto(Some(msg), true))).out, msg, key)
      && AnswerTo(h, t, SM4(i, SM4Update(Some(msg), true))).rc == 0
      && IsSealed(AnswerTo(h, t, SM4(i, SM4Update(Some(msg), true))).out, msg, key)
  {
    SetSM4KeyExact(h, s, i, Some(key));
    SM4CipherExact(h, After(h, s, SM4(i, SetSM4Key(Some(key)))), i, Some(msg), true);
  }
}
