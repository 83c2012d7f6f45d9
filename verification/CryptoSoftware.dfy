/**
 * The software crypto provider as an object that updates its slots in place. Every method is proved against
 * Provider.Step, so the object is always in the state that its history of calls leads to, and everything shown
 * about histories holds of it.
 */
module Software {
  import opened Bytes
  import opened Bits
  import opened Ciphers
  import opened CipherLaws
  import opened Provider
  import opened History

  class SM2KeyPair {
    var privateKey: Private
    var publicKey: Public
    var hasPrivateKey: bool
    var hasPublicKey: bool

    ghost function Value(): SM2Slot
      reads this
    {
      SM2Slot(privateKey, publicKey, hasPrivateKey, hasPublicKey)
    }

    constructor ()
      ensures Value() == CLEAR_SM2
    {
      privateKey, publicKey, hasPrivateKey, hasPublicKey := Zeros(32), Zeros(65), false, false;
    }

    method Clear()
      modifies this
      ensures Value() == CLEAR_SM2
    {
      privateKey, publicKey, hasPrivateKey, hasPublicKey := Zeros(32), Zeros(65), false, false;
    }

    method Set(priKey: Private, pubKey: Public)
      modifies this
      ensures Value() == SM2Slot(priKey, pubKey, true, true)
    {
      privateKey, publicKey, hasPrivateKey, hasPublicKey := priKey, pubKey, true, true;
    }

    method SetPublic(key: Public)
      modifies this
      ensures Value() == old(Value()).(publicKey := key, hasPublicKey := true)
    {
      publicKey := key;
      hasPublicKey := true;
    }

    method SetPrivate(key: Private)
      modifies this
      ensures Value() == old(Value()).(privateKey := key, hasPrivateKey := true)
    {
      privateKey := key;
      hasPrivateKey := true;
    }
  }

  class SM4Key {
    var key: Block
    var keyType: uint8
    var isValid: bool

    ghost function Value(): SM4Slot
      reads this
    {
      SM4Slot(key, keyType, isValid)
    }

    constructor ()
      ensures Value() == CLEAR_SM4
    {
      key, keyType, isValid := Zeros(16), 1, false;
    }

    method Clear()
      modifies this
      ensures Value() == CLEAR_SM4
    {
      key, keyType, isValid := Zeros(16), 1, false;
    }

    method Set(key: Block)
      modifies this
      ensures Value() == old(Value()).(key := key, isValid := true)
    {
      this.key := key;
      isValid := true;
    }
  }

  class UserID {
    var data: seq<byte>
    var isValid: bool

    ghost function Value(): IdSlot
      reads this
    {
      IdSlot(data, isValid)
    }

    constructor ()
      ensures Value() == CLEAR_ID
    {
      data, isValid := [], false;
    }

    method Clear()
      modifies this
      ensures Value() == CLEAR_ID
    {
      data, isValid := [], false;
    }
  }

  class CryptoSoftware {
    const hasher: Hasher
    const sm2KeyPairs: seq<SM2KeyPair>
    const sm4Keys: seq<SM4Key>
    const userIDs: seq<UserID>
    var isOpened: bool
    var userData: map<uint8, seq<byte>>
    var sm3Initialized: bool
    var lastErrorCode: int
    // The slot-interface calls made so far, and the abstract state
    ghost var history: seq<Op>
    ghost var state: State

    /** The slots are there and are different objects. */
    ghost predicate Shape() {
      && |sm2KeyPairs| == SM2_SLOTS && |sm4Keys| == SM4_SLOTS && |userIDs| == ID_SLOTS
      && (forall i, j | 0 <= i < j < SM2_SLOTS :: sm2KeyPairs[i] != sm2KeyPairs[j])
      && (forall i, j | 0 <= i < j < SM4_SLOTS :: sm4Keys[i] != sm4Keys[j])
      && (forall i, j | 0 <= i < j < ID_SLOTS :: userIDs[i] != userIDs[j])
    }

    /** The fields and the slots hold the abstract state. */
    ghost predicate Valid()
      reads this, sm2KeyPairs, sm4Keys, userIDs
    {
      && Shape()
      && (forall i | 0 <= i < SM2_SLOTS :: sm2KeyPairs[i].Value() == state.sm2[i])
      && (forall i | 0 <= i < SM4_SLOTS :: sm4Keys[i].Value() == state.sm4[i])
      && (forall i | 0 <= i < ID_SLOTS :: userIDs[i].Value() == state.ids[i])
      && isOpened == state.isOpened && userData == state.userData && sm3Initialized == state.sm3Initialized
      && lastErrorCode == state.lastError
    }

    /** The abstract state is where the history leads; only the vector helpers, which the history does not list, may
        have set the error code since. */
    ghost predicate FollowsHistory()
      reads this
    {
      state == Run(hasher, history).(lastError := state.lastError)
    }

    /** The method carried out exactly this call and returned what the call returns. */
    twostate predicate Did(op: Op, rc: int)
      reads this, sm2KeyPairs, sm4Keys, userIDs
    {
      && Valid()
      && history == old(history) + [op]
      && state == Step(hasher, old(state), op).state
      && rc == Step(hasher, old(state), op).rc
    }

    /** The caller's buffer received exactly the bytes this call writes. */
    twostate predicate Wrote(op: Op, buf: array?<byte>)
      reads buf
    {
      buf != null ==> buf[..] == Overlay(old(buf[..]), Step(hasher, old(state), op).out)
    }

    /** So whatever method is called, the object goes on following its history. */
    twostate lemma KeepsFollowing(op: Op, rc: int)
      requires old(FollowsHistory()) && Did(op, rc)
      ensures FollowsHistory()
    {
      RunAppend(hasher, old(history), op);
      ErrorCodeUnread(hasher, Run(hasher, old(history)), old(state.lastError), op);
    }

    /** Hence every cell of a live object holds what the history says, and its flags agree with its bytes. */
    lemma CellsFollow(c: Cell)
      requires FollowsHistory()
      ensures Look(state, c) == Look(Run(hasher, history), c)
      ensures FlagsAgree(state)
    {
      ReachableFlags(hasher, history);
      forall d
        ensures Look(state, d) == Look(Run(hasher, history), d)
      {
      }
    }

    /** The exit of a call that is turned away. */
    method Reject(ghost op: Op) returns (rc: int)
      requires Valid() && !Accepts(sm3Initialized, op)
      modifies this`lastErrorCode, this`history, this`state
      ensures Did(op, rc)
    {
      history, state := history + [op], state.(lastError := -1);
      lastErrorCode := -1;
      return -1;
    }

    /** The exit of a call that succeeds without changing a field or slot. */
    method Done(ghost op: Op) returns (rc: int)
      requires Valid() && Accepts(sm3Initialized, op) && Effect(state, op) == state
      modifies this`lastErrorCode, this`history, this`state
      ensures Did(op, rc)
    {
      history, state := history + [op], state.(lastError := 0);
      lastErrorCode := 0;
      return 0;
    }

    /** Puts a call that is going to succeed on record, ahead of the changes it makes. */
    ghost method Note(op: Op)
      requires Accepts(state.sm3Initialized, op)
      modifies this`history, this`state
      ensures history == old(history) + [op] && state == Effect(old(state), op).(lastError := 0)
      ensures state == Step(hasher, old(state), op).state && Step(hasher, old(state), op).rc == 0
    {
      history, state := history + [op], Step(hasher, state, op).state;
    }

    /** A pointer with room for `n` bytes, unless it is null. */
    static predicate Room(b: array?<byte>, n: nat) {
      b != null ==> b.Length >= n
    }

    static ghost function AsPrivate(b: array?<byte>): Option<Private>
      requires Room(b, 32)
      reads b
    {
      if b == null then None else Some(b[..32])
    }

    static ghost function AsPublic(b: array?<byte>): Option<Public>
      requires Room(b, 65)
      reads b
    {
      if b == null then None else Some(b[..65])
    }

    static ghost function AsBlock(b: array?<byte>): Option<Block>
      requires Room(b, 16)
      reads b
    {
      if b == null then None else Some(b[..16])
    }

    static ghost function AsChunk(b: array?<byte>, n: uint16): Option<Chunk>
      requires Room(b, n)
      reads b
    {
      if b == null then None else Some(b[..n])
    }

    static ghost function Target(b: array?<byte>): set<object> {
      if b == null then {} else {b}
    }

    /** `memcpy` and `std::copy` of bytes. */
    static method MemCpy(dst: array<byte>, at: nat, src: seq<byte>)
      requires at + |src| <= dst.Length
      modifies dst
      ensures dst[..] == old(dst[..at]) + src + old(dst[at + |src|..])
    {
      forall k | 0 <= k < |src| {
        dst[at + k] := src[k];
      }
    }

    /** The loops that fill a buffer from the random generator; `drawn` is what the generator yields. */
    static method Fill(dst: array<byte>, drawn: seq<byte>)
      requires |drawn| <= dst.Length
      modifies dst
      ensures dst[..] == Overlay(old(dst[..]), drawn)
    {
      for i := 0 to |drawn|
        invariant dst[..i] == drawn[..i]
        invariant dst[i..] == old(dst[i..])
      {
        dst[i] := drawn[i];
      }
    }

    /** The same loop over the bytes of a key slot, which takes what the generator yields from its call `at` on. */
    static method Redrawn(bytes: seq<byte>, drawn: seq<byte>, at: nat) returns (r: seq<byte>)
      requires at + |bytes| <= |drawn|
      ensures r == drawn[at..at + |bytes|]
    {
      r := bytes;
      for i := 0 to |bytes|
        invariant |r| == |bytes| && forall k | 0 <= k < i :: r[k] == drawn[at + k]
      {
        r := r[i := drawn[at + i]];
      }
    }

    /** The loop of sm4Update and sm4Crypto, with its 16-bit counter; input and output may be the same buffer. */
    static method XorLoop(key: Block, inputBuf: array<byte>, msgByteLen: uint16, outputBuf: array<byte>)
      requires inputBuf.Length >= msgByteLen && outputBuf.Length >= msgByteLen
      modifies outputBuf
      ensures outputBuf[..] == Overlay(old(outputBuf[..]), XorKey(old(inputBuf[..msgByteLen]), key))
    {
      ghost var input := inputBuf[..msgByteLen];
      var i: uint16 := 0;
      while i < msgByteLen
        invariant i <= msgByteLen
        invariant forall k | 0 <= k < i :: outputBuf[k] == input[k] ^ KeyByte(key, k)
        invariant forall k | i <= k < msgByteLen :: inputBuf[k] == input[k]
        invariant forall k | msgByteLen <= k < outputBuf.Length :: outputBuf[k] == old(outputBuf[k])
      {
        outputBuf[i] := inputBuf[i] ^ key[i % 16];
        i := i + 1;
      }
      XoredInBuffer(old(outputBuf[..]), outputBuf[..], input, key);
    }

    // ---------- Construction, opening, cleaning up ----------

    static method NewSM2KeyPairs(n: nat) returns (r: seq<SM2KeyPair>)
      ensures |r| == n && fresh(r)
      ensures forall i, j | 0 <= i < j < n :: r[i] != r[j]
      ensures forall i | 0 <= i < n :: r[i].Value() == CLEAR_SM2
    {
      r := [];
      for k := 0 to n
        invariant |r| == k && fresh(r)
        invariant forall i, j | 0 <= i < j < k :: r[i] != r[j]
        invariant forall i | 0 <= i < k :: r[i].Value() == CLEAR_SM2
      {
        var slot := new SM2KeyPair();
        r := r + [slot];
      }
    }

    static method NewSM4Keys(n: nat) returns (r: seq<SM4Key>)
      ensures |r| == n && fresh(r)
      ensures forall i, j | 0 <= i < j < n :: r[i] != r[j]
      ensures forall i | 0 <= i < n :: r[i].Value() == CLEAR_SM4
    {
      r := [];
      for k := 0 to n
        invariant |r| == k && fresh(r)
        invariant forall i, j | 0 <= i < j < k :: r[i] != r[j]
        invariant forall i | 0 <= i < k :: r[i].Value() == CLEAR_SM4
      {
        var slot := new SM4Key();
        r := r + [slot];
      }
    }

    static method NewUserIDs(n: nat) returns (r: seq<UserID>)
      ensures |r| == n && fresh(r)
      ensures forall i, j | 0 <= i < j < n :: r[i] != r[j]
      ensures forall i | 0 <= i < n :: r[i].Value() == CLEAR_ID
    {
      r := [];
      for k := 0 to n
        invariant |r| == k && fresh(r)
        invariant forall i, j | 0 <= i < j < k :: r[i] != r[j]
        invariant forall i | 0 <= i < k :: r[i].Value() == CLEAR_ID
      {
        var slot := new UserID();
        r := r + [slot];
      }
    }

    constructor (hasher: Hasher)
      ensures Valid() && FollowsHistory() && history == [] && state == Initial()
      ensures fresh(sm2KeyPairs) && fresh(sm4Keys) && fresh(userIDs)
    {
      this.hasher := hasher;
      var pairs := NewSM2KeyPairs(SM2_SLOTS);
      var keys := NewSM4Keys(SM4_SLOTS);
      var ids := NewUserIDs(ID_SLOTS);
      sm2KeyPairs, sm4Keys, userIDs := pairs, keys, ids;
      isOpened, userData, sm3Initialized, lastErrorCode := false, map[], false, 0;
      history, state := [], Initial();
    }

    method Open() returns (rc: int)
      requires Valid()
      modifies this`isOpened, this`lastErrorCode, this`history, this`state
      ensures Did(General(GeneralCall.Open), rc)
    {
      history, state := history + [General(GeneralCall.Open)], Step(hasher, state, General(GeneralCall.Open)).state;
      isOpened := true;
      lastErrorCode := 0;
      return 0;
    }

    method Close() returns (rc: int)
      requires Valid()
      modifies this`isOpened, this`lastErrorCode, this`history, this`state
      ensures Did(General(GeneralCall.Close), rc)
    {
      history, state := history + [General(GeneralCall.Close)], Step(hasher, state, General(GeneralCall.Close)).state;
      isOpened := false;
      lastErrorCode := 0;
      return 0;
    }

    static method ClearPairs(slots: seq<SM2KeyPair>)
      modifies slots
      ensures forall k | 0 <= k < |slots| :: slots[k].Value() == CLEAR_SM2
    {
      for i := 0 to |slots|
        invariant forall k | 0 <= k < i :: slots[k].Value() == CLEAR_SM2
      {
        slots[i].Clear();
      }
    }

    static method ClearKeys(slots: seq<SM4Key>)
      modifies slots
      ensures forall k | 0 <= k < |slots| :: slots[k].Value() == CLEAR_SM4
    {
      for i := 0 to |slots|
        invariant forall k | 0 <= k < i :: slots[k].Value() == CLEAR_SM4
      {
        slots[i].Clear();
      }
    }

    static method ClearIDs(slots: seq<UserID>)
      modifies slots
      ensures forall k | 0 <= k < |slots| :: slots[k].Value() == CLEAR_ID
    {
      for i := 0 to |slots|
        invariant forall k | 0 <= k < i :: slots[k].Value() == CLEAR_ID
      {
        slots[i].Clear();
      }
    }

    method ClearSlots()
      modifies sm2KeyPairs, sm4Keys, userIDs
      ensures forall k | 0 <= k < |sm2KeyPairs| :: sm2KeyPairs[k].Value() == CLEAR_SM2
      ensures forall k | 0 <= k < |sm4Keys| :: sm4Keys[k].Value() == CLEAR_SM4
      ensures forall k | 0 <= k < |userIDs| :: userIDs[k].Value() == CLEAR_ID
    {
      ClearPairs(sm2KeyPairs);
      ClearKeys(sm4Keys);
      ClearIDs(userIDs);
    }

    method Cleanup()
      requires Valid()
      modifies this`lastErrorCode, this`history, this`state, sm2KeyPairs, sm4Keys, userIDs
      ensures Did(General(GeneralCall.Cleanup), 0)
    {
      Note(General(GeneralCall.Cleanup));
      ClearSlots();
      lastErrorCode := 0;
    }

    // ---------- Random numbers ----------

    method GetRandom(rndBuf: array?<byte>, rndByteLen: uint16, drawn: Chunk) returns (rc: int)
      requires Valid() && Room(rndBuf, rndByteLen) && |drawn| == rndByteLen
      modifies this`lastErrorCode, this`history, this`state, Target(rndBuf)
      ensures Did(General(GeneralCall.GetRandom(rndBuf != null, drawn)), rc)
      ensures Wrote(General(GeneralCall.GetRandom(rndBuf != null, drawn)), rndBuf)
    {
      ghost var op := General(GeneralCall.GetRandom(rndBuf != null, drawn));
      if rndBuf == null || rndByteLen == 0 {
        rc := Reject(op);
        return;
      }
      Fill(rndBuf, drawn);
      rc := Done(op);
    }

    // ---------- SM2 slots ----------

    static method DrawPair(slot: SM2KeyPair, drawn: seq<byte>)
      requires |drawn| == 97
      modifies slot
      ensures slot.Value() == SM2Slot(drawn[65..], drawn[..65], true, true)
    {
      var publicKey := Redrawn(slot.publicKey, drawn, 0);
      var privateKey := Redrawn(slot.privateKey, drawn, 65);
      slot.Set(privateKey, publicKey);
    }

    /** One generator yields the 65 bytes of the public key and then the 32 of the private one. */
    method GenerateSM2KeyPair(keyPairIndex: uint8, drawn: seq<byte>) returns (rc: int)
      requires Valid() && |drawn| == 97
      modifies this`lastErrorCode, this`history, this`state, sm2KeyPairs
      ensures Did(KeyPair(keyPairIndex, KeyPairCall.GenerateSM2KeyPair(drawn[..65], drawn[65..])), rc)
    {
      ghost var op := KeyPair(keyPairIndex, KeyPairCall.GenerateSM2KeyPair(drawn[..65], drawn[65..]));
      if keyPairIndex >= |sm2KeyPairs| {
        rc := Reject(op);
        return;
      }
      Note(op);
      DrawPair(sm2KeyPairs[keyPairIndex], drawn);
      lastErrorCode := 0;
      return 0;
    }

    method DeleteSM2KeyPair(keyPairIndex: uint8) returns (rc: int)
      requires Valid()
      modifies this`lastErrorCode, this`history, this`state, sm2KeyPairs
      ensures Did(KeyPair(keyPairIndex, KeyPairCall.DeleteSM2KeyPair), rc)
    {
      ghost var op := KeyPair(keyPairIndex, KeyPairCall.DeleteSM2KeyPair);
      if keyPairIndex >= |sm2KeyPairs| {
        rc := Reject(op);
        return;
      }
      Note(op);
      sm2KeyPairs[keyPairIndex].Clear();
      lastErrorCode := 0;
      return 0;
    }

    method ImportSM2KeyPair(priKeyBuf: array?<byte>, pubKeyBuf: array?<byte>, keyPairIndex: uint8) returns (rc: int)
      requires Valid() && Room(priKeyBuf, 32) && Room(pubKeyBuf, 65)
      modifies this`lastErrorCode, this`history, this`state, sm2KeyPairs
      ensures var call := KeyPairCall.ImportSM2KeyPair(old(AsPrivate(priKeyBuf)), old(AsPublic(pubKeyBuf)));
        Did(KeyPair(keyPairIndex, call), rc)
    {
      ghost var op := KeyPair(keyPairIndex, KeyPairCall.ImportSM2KeyPair(AsPrivate(priKeyBuf), AsPublic(pubKeyBuf)));
      if priKeyBuf == null || pubKeyBuf == null || keyPairIndex >= |sm2KeyPairs| {
        rc := Reject(op);
        return;
      }
      Note(op);
      var slot: SM2KeyPair := sm2KeyPairs[keyPairIndex];
      slot.Set(priKeyBuf[..32], pubKeyBuf[..65]);
      lastErrorCode := 0;
      return 0;
    }

    method ImportSM2PubKey(pubKeyBuf: array?<byte>, keyPairIndex: uint8) returns (rc: int)
      requires Valid() && Room(pubKeyBuf, 65)
      modifies this`lastErrorCode, this`history, this`state, sm2KeyPairs
      ensures Did(KeyPair(keyPairIndex, KeyPairCall.ImportSM2PubKey(old(AsPublic(pubKeyBuf)))), rc)
    {
      ghost var op := KeyPair(keyPairIndex, KeyPairCall.ImportSM2PubKey(AsPublic(pubKeyBuf)));
      if pubKeyBuf == null || keyPairIndex >= |sm2KeyPairs| {
        rc := Reject(op);
        return;
      }
      Note(op);
      sm2KeyPairs[keyPairIndex].SetPublic(pubKeyBuf[..65]);
      lastErrorCode := 0;
      return 0;
    }

    method ImportSM2PriKey(priKeyBuf: array?<byte>, keyIndex: uint8) returns (rc: int)
      requires Valid() && Room(priKeyBuf, 32)
      modifies this`lastErrorCode, this`history, this`state, sm2KeyPairs
      ensures Did(KeyPair(keyIndex, KeyPairCall.ImportSM2PriKey(old(AsPrivate(priKeyBuf)))), rc)
    {
      ghost var op := KeyPair(keyIndex, KeyPairCall.ImportSM2PriKey(AsPrivate(priKeyBuf)));
      if priKeyBuf == null || keyIndex >= |sm2KeyPairs| {
        rc := Reject(op);
        return;
      }
      Note(op);
      sm2KeyPairs[keyIndex].SetPrivate(priKeyBuf[..32]);
      lastErrorCode := 0;
      return 0;
    }

    method ExportSM2PubKey(pubKeyBuf: array?<byte>, keyPairIndex: uint8) returns (rc: int)
      requires Valid()
      requires keyPairIndex < SM2_SLOTS ==> Room(pubKeyBuf, 65)
      modifies this`lastErrorCode, this`history, this`state, Target(pubKeyBuf)
      ensures Did(KeyPair(keyPairIndex, KeyPairCall.ExportSM2PubKey(pubKeyBuf != null)), rc)
      ensures Wrote(KeyPair(keyPairIndex, KeyPairCall.ExportSM2PubKey(pubKeyBuf != null)), pubKeyBuf)
    {
      ghost var op := KeyPair(keyPairIndex, KeyPairCall.ExportSM2PubKey(pubKeyBuf != null));
      if pubKeyBuf == null || keyPairIndex >= |sm2KeyPairs| {
        rc := Reject(op);
        return;
      }
      MemCpy(pubKeyBuf, 0, sm2KeyPairs[keyPairIndex].publicKey);
      rc := Done(op);
    }

    // ---------- SM2 encryption ----------

    /** Random bytes and then the message, as the buffer of the message holds it by then. */
    static method Frame(cipher: array<byte>, msg: array<byte>, n: uint16, drawn: Noise)
      requires n <= msg.Length && n + SM2_OVERHEAD <= cipher.Length
      requires msg == cipher ==> n <= SM2_OVERHEAD
      modifies cipher
      ensures cipher[..] == Overlay(old(cipher[..]), drawn + if msg == cipher then drawn[..n] else old(msg[..n]))
    {
      Fill(cipher, drawn);
      assert msg[..n] == if msg == cipher then drawn[..n] else old(msg[..n]);
      MemCpy(cipher, SM2_OVERHEAD, msg[..n]);
    }

    /** In a buffer that is both input and output, the random bytes have already replaced the message when it is
        copied. */
    method SM2Encrypt(cipher: array?<byte>, msg: array?<byte>, msgByteLen: uint16, keyPairIndex: uint8, drawn: Noise)
      returns (rc: int)
      requires Valid() && Room(msg, msgByteLen)
      requires msg != null && msgByteLen > 0 && keyPairIndex < SM2_SLOTS ==> Room(cipher, msgByteLen + SM2_OVERHEAD)
      requires msg != null && msg == cipher ==> msgByteLen <= SM2_OVERHEAD
      modifies this`lastErrorCode, this`history, this`state, Target(cipher)
      ensures Did(SM2(keyPairIndex, SM2Call.SM2Encrypt(cipher != null, old(AsChunk(msg, msgByteLen)), drawn)), rc)
      ensures msg != cipher ==>
        Wrote(SM2(keyPairIndex, SM2Call.SM2Encrypt(cipher != null, old(AsChunk(msg, msgByteLen)), drawn)), cipher)
      ensures msg != null && msg == cipher ==>
        cipher[..] == Overlay(old(cipher[..]), if rc == 0 then drawn + drawn[..msgByteLen] else [])
    {
      ghost var op := SM2(keyPairIndex, SM2Call.SM2Encrypt(cipher != null, AsChunk(msg, msgByteLen), drawn));
      if cipher == null || msg == null || msgByteLen == 0 || keyPairIndex >= |sm2KeyPairs| {
        rc := Reject(op);
        return;
      }
      Frame(cipher, msg, msgByteLen, drawn);
      rc := Done(op);
    }

    method SM2Decrypt(msg: array?<byte>, cipher: array?<byte>, cipherByteLen: uint16, keyPairIndex: uint8)
      returns (rc: int)
      requires Valid() && Room(cipher, cipherByteLen)
      requires cipher != null && cipherByteLen >= SM2_OVERHEAD && keyPairIndex < SM2_SLOTS ==>
        Room(msg, cipherByteLen - SM2_OVERHEAD)
      modifies this`lastErrorCode, this`history, this`state, Target(msg)
      ensures Did(SM2(keyPairIndex, SM2Call.SM2Decrypt(msg != null, old(AsChunk(cipher, cipherByteLen)))), rc)
      ensures Wrote(SM2(keyPairIndex, SM2Call.SM2Decrypt(msg != null, old(AsChunk(cipher, cipherByteLen)))), msg)
    {
      ghost var op := SM2(keyPairIndex, SM2Call.SM2Decrypt(msg != null, AsChunk(cipher, cipherByteLen)));
      if msg == null || cipher == null || cipherByteLen < SM2_OVERHEAD || keyPairIndex >= |sm2KeyPairs| {
        rc := Reject(op);
        return;
      }
      MemCpy(msg, 0, cipher[SM2_OVERHEAD..cipherByteLen]);
      rc := Done(op);
    }

    // ---------- User IDs ----------

    method ImportID(idBuf: array?<byte>, idByteLen: uint16, idIndex: uint8) returns (rc: int)
      requires Valid() && Room(idBuf, idByteLen)
      modifies this`lastErrorCode, this`history, this`state, userIDs
      ensures Did(Identity(idIndex, IdCall.ImportID(old(AsChunk(idBuf, idByteLen)))), rc)
    {
      ghost var op := Identity(idIndex, IdCall.ImportID(AsChunk(idBuf, idByteLen)));
      if idBuf == null || idByteLen == 0 || idIndex >= |userIDs| {
        rc := Reject(op);
        return;
      }
      Note(op);
      userIDs[idIndex].data := idBuf[..idByteLen];
      userIDs[idIndex].isValid := true;
      lastErrorCode := 0;
      return 0;
    }

    /** The bytes and the length of a set ID, or only a zero length. */
    static method CopyID(slot: UserID, idBuf: array<byte>, idByteLen: array<uint16>)
      requires idBuf.Length >= |slot.data| && idByteLen.Length == 1 && Target(idBuf) !! {idByteLen}
      modifies idBuf, idByteLen
      ensures var out := IdOutput(slot.Value(), IdCall.ExportID(true, true));
        idByteLen[0] == |out| && idBuf[..] == Overlay(old(idBuf[..]), out)
    {
      if slot.isValid {
        var n := UInt16(|slot.data|);
        idByteLen[0] := n;
        MemCpy(idBuf, 0, slot.data[..n]);
      } else {
        idByteLen[0] := 0;
      }
    }

    method ExportID(idBuf: array?<byte>, idByteLen: array?<uint16>, idIndex: uint8) returns (rc: int)
      requires Valid()
      requires idIndex < ID_SLOTS ==> Room(idBuf, |state.ids[idIndex].data|)
      requires idByteLen != null ==> idByteLen.Length == 1 && Target(idBuf) !! {idByteLen}
      modifies this`lastErrorCode, this`history, this`state, Target(idBuf)
      modifies if idByteLen == null then {} else {idByteLen}
      ensures Did(Identity(idIndex, IdCall.ExportID(idBuf != null, idByteLen != null)), rc)
      ensures Wrote(Identity(idIndex, IdCall.ExportID(idBuf != null, idByteLen != null)), idBuf)
      ensures idByteLen != null && rc == 0 ==>
        idByteLen[0] == |Step(hasher, old(state), Identity(idIndex, IdCall.ExportID(true, true))).out|
      ensures idByteLen != null && rc != 0 ==> idByteLen[0] == old(idByteLen[0])
    {
      ghost var op := Identity(idIndex, IdCall.ExportID(idBuf != null, idByteLen != null));
      if idBuf == null || idByteLen == null || idIndex >= |userIDs| {
        rc := Reject(op);
        return;
      }
      CopyID(userIDs[idIndex], idBuf, idByteLen);
      rc := Done(op);
    }

    // ---------- SM3 ----------

    /** The vector-style hash: like the other vector helpers it touches nothing but the error code. */
    method SM3HashVector(data: seq<byte>, prior: seq<byte>) returns (ok: bool, hash: seq<byte>)
      requires Valid()
      modifies this`lastErrorCode, this`state
      ensures Valid() && state == old(state).(lastError := if ok then 0 else -1)
      ensures ok <==> data != []
      ensures hash == if ok then Digest(hasher, data) else prior
    {
      if data == [] {
        lastErrorCode := -1;
        state := state.(lastError := -1);
        return false, prior;
      }
      var hashValue := hasher(data);
      hash := Zeros(DIGEST_LEN);
      for i := 0 to DIGEST_LEN
        invariant |hash| == DIGEST_LEN
        invariant forall k | 0 <= k < i :: hash[k] == Digest(hasher, data)[k]
      {
        hash := hash[i := Window(hashValue, (i % 8) as bv3)];
      }
      lastErrorCode := 0;
      state := state.(lastError := 0);
      ok := true;
    }

    method SM3Init() returns (rc: int)
      requires Valid()
      modifies this`sm3Initialized, this`userData, this`lastErrorCode, this`history, this`state
      ensures Did(SM3(SM3Call.SM3Init), rc)
    {
      history, state := history + [SM3(SM3Call.SM3Init)], Step(hasher, state, SM3(SM3Call.SM3Init)).state;
      sm3Initialized := true;
      userData := userData[SM3_BUFFER := []];
      lastErrorCode := 0;
      return 0;
    }

    method SM3Update(msgBuf: array?<byte>, msgByteLen: uint16) returns (rc: int)
      requires Valid() && Room(msgBuf, msgByteLen)
      modifies this`userData, this`lastErrorCode, this`history, this`state
      ensures Did(SM3(SM3Call.SM3Update(old(AsChunk(msgBuf, msgByteLen)))), rc)
    {
      ghost var op := SM3(SM3Call.SM3Update(AsChunk(msgBuf, msgByteLen)));
      if msgBuf == null || msgByteLen == 0 || !sm3Initialized {
        rc := Reject(op);
        return;
      }
      Note(op);
      // operator[] of std::map creates a missing entry
      var buffer := if SM3_BUFFER in userData then userData[SM3_BUFFER] else [];
      userData := userData[SM3_BUFFER := buffer + msgBuf[..msgByteLen]];
      lastErrorCode := 0;
      return 0;
    }

    /** The end of sm3Final: the stream is emptied and closed. */
    method CloseStream() returns (rc: int)
      requires Valid() && sm3Initialized
      modifies this`sm3Initialized, this`userData, this`lastErrorCode, this`history, this`state
      ensures Did(SM3(SM3Call.SM3Final(true)), rc)
    {
      Note(SM3(SM3Call.SM3Final(true)));
      userData := userData[SM3_BUFFER := []];
      sm3Initialized := false;
      lastErrorCode := 0;
      return 0;
    }

    /** As FuncLib.h asks of its callers, data must have been fed in before the digest is taken. */
    method SM3Final(hashBuf: array?<byte>) returns (rc: int)
      requires Valid()
      requires hashBuf != null && sm3Initialized ==> Room(hashBuf, DIGEST_LEN) && StreamBytes(state) != []
      modifies this`sm3Initialized, this`userData, this`lastErrorCode, this`history, this`state, Target(hashBuf)
      ensures Did(SM3(SM3Call.SM3Final(hashBuf != null)), rc)
      ensures Wrote(SM3(SM3Call.SM3Final(hashBuf != null)), hashBuf)
    {
      ghost var op := SM3(SM3Call.SM3Final(hashBuf != null));
      if hashBuf == null || !sm3Initialized {
        rc := Reject(op);
        return;
      }
      var buffer := if SM3_BUFFER in userData then userData[SM3_BUFFER] else [];
      var ok, result := SM3HashVector(buffer, []);
      MemCpy(hashBuf, 0, result);
      ErrorCodeUnread(hasher, old(state), state.lastError, op);
      rc := CloseStream();
    }

    method SM3Hash(msgBuf: array?<byte>, msgByteLen: uint16, hashBuf: array?<byte>) returns (rc: int)
      requires Valid() && Room(msgBuf, msgByteLen)
      requires msgBuf != null && msgByteLen > 0 ==> Room(hashBuf, DIGEST_LEN)
      modifies this`lastErrorCode, this`history, this`state, Target(hashBuf)
      ensures Did(SM3(SM3Call.SM3Hash(old(AsChunk(msgBuf, msgByteLen)), hashBuf != null)), rc)
      ensures Wrote(SM3(SM3Call.SM3Hash(old(AsChunk(msgBuf, msgByteLen)), hashBuf != null)), hashBuf)
    {
      ghost var op := SM3(SM3Call.SM3Hash(AsChunk(msgBuf, msgByteLen), hashBuf != null));
      if msgBuf == null || msgByteLen == 0 || hashBuf == null {
        rc := Reject(op);
        return;
      }
      var ok, result := SM3HashVector(msgBuf[..msgByteLen], []);
      MemCpy(hashBuf, 0, result);
      rc := Done(op);
    }

    // ---------- SM4 ----------

    method SetSM4Key(keyIndex: uint8, keyBuf: array?<byte>) returns (rc: int)
      requires Valid() && Room(keyBuf, 16)
      modifies this`lastErrorCode, this`history, this`state, sm4Keys
      ensures Did(SM4(keyIndex, SM4Call.SetSM4Key(old(AsBlock(keyBuf)))), rc)
    {
      ghost var op := SM4(keyIndex, SM4Call.SetSM4Key(AsBlock(keyBuf)));
      if keyIndex >= |sm4Keys| || keyBuf == null {
        rc := Reject(op);
        return;
      }
      Note(op);
      sm4Keys[keyIndex].Set(keyBuf[..16]);
      lastErrorCode := 0;
      return 0;
    }

    method SM4Init(keyIndex: uint8, icv: array?<byte>) returns (rc: int)
      requires Valid()
      modifies this`userData, this`lastErrorCode, this`history, this`state
      ensures Did(SM4(keyIndex, SM4Call.SM4Init(icv != null)), rc)
    {
      ghost var op := SM4(keyIndex, SM4Call.SM4Init(icv != null));
      if keyIndex >= |sm4Keys| || icv == null {
        rc := Reject(op);
        return;
      }
      Note(op);
      userData := userData[SM4_CURRENT := [keyIndex as byte]];
      lastErrorCode := 0;
      return 0;
    }

    method SM4Update(keyIndex: uint8, inputBuf: array?<byte>, msgByteLen: uint16, outputBuf: array?<byte>)
      returns (rc: int)
      requires Valid() && Room(inputBuf, msgByteLen) && Room(outputBuf, msgByteLen)
      modifies this`lastErrorCode, this`history, this`state, Target(outputBuf)
      ensures Did(SM4(keyIndex, SM4Call.SM4Update(old(AsChunk(inputBuf, msgByteLen)), outputBuf != null)), rc)
      ensures Wrote(SM4(keyIndex, SM4Call.SM4Update(old(AsChunk(inputBuf, msgByteLen)), outputBuf != null)), outputBuf)
    {
      ghost var op := SM4(keyIndex, SM4Call.SM4Update(AsChunk(inputBuf, msgByteLen), outputBuf != null));
      if keyIndex >= |sm4Keys| || inputBuf == null || msgByteLen == 0 || outputBuf == null {
        rc := Reject(op);
        return;
      }
      XorLoop(sm4Keys[keyIndex].key, inputBuf, msgByteLen, outputBuf);
      rc := Done(op);
    }

    /** The type, mode and IV arguments are ignored by the code and left out here. */
    method SM4Crypto(keyIndex: uint8, inputBuf: array?<byte>, msgByteLen: uint16, outputBuf: array?<byte>)
      returns (rc: int)
      requires Valid() && Room(inputBuf, msgByteLen) && Room(outputBuf, msgByteLen)
      modifies this`lastErrorCode, this`history, this`state, Target(outputBuf)
      ensures Did(SM4(keyIndex, SM4Call.SM4Crypto(old(AsChunk(inputBuf, msgByteLen)), outputBuf != null)), rc)
      ensures Wrote(SM4(keyIndex, SM4Call.SM4Crypto(old(AsChunk(inputBuf, msgByteLen)), outputBuf != null)), outputBuf)
    {
      ghost var op := SM4(keyIndex, SM4Call.SM4Crypto(AsChunk(inputBuf, msgByteLen), outputBuf != null));
      if keyIndex >= |sm4Keys| || inputBuf == null || msgByteLen == 0 || outputBuf == null {
        rc := Reject(op);
        return;
      }
      XorLoop(sm4Keys[keyIndex].key, inputBuf, msgByteLen, outputBuf);
      rc := Done(op);
    }

    /** The loop of the vector-style cipher, the same in both directions. */
    static method VectorLoop(text: seq<byte>, key: Block, iv: Block) returns (r: seq<byte>)
      ensures IsVectorCipher(text, key, iv, r)
    {
      r := text;
      for i := 0 to |r|
        invariant |r| == |text|
        invariant forall k | 0 <= k < i :: r[k] == text[k] ^ KeyByte(key, k) ^ KeyByte(iv, k)
        invariant forall k | i <= k < |text| :: r[k] == text[k]
      {
        r := r[i := r[i] ^ (key[i % 16] ^ iv[i % 16])];
      }
    }

    method SM4EncryptVector(plaintext: seq<byte>, key: seq<byte>, iv: seq<byte>, prior: seq<byte>)
      returns (ok: bool, ciphertext: seq<byte>)
      requires Valid()
      modifies this`lastErrorCode, this`state
      ensures Valid() && state == old(state).(lastError := if ok then 0 else -1)
      ensures ok <==> plaintext != [] && |key| == 16 && |iv| == 16
      ensures if ok then IsVectorCipher(plaintext, key, iv, ciphertext) else ciphertext == prior
    {
      if plaintext == [] || |key| != 16 || |iv| != 16 {
        lastErrorCode := -1;
        state := state.(lastError := -1);
        return false, prior;
      }
      ciphertext := VectorLoop(plaintext, key, iv);
      lastErrorCode := 0;
      state := state.(lastError := 0);
      ok := true;
    }

    method SM4DecryptVector(ciphertext: seq<byte>, key: seq<byte>, iv: seq<byte>, prior: seq<byte>)
      returns (ok: bool, plaintext: seq<byte>)
      requires Valid()
      modifies this`lastErrorCode, this`state
      ensures Valid() && state == old(state).(lastError := if ok then 0 else -1)
      ensures ok <==> ciphertext != [] && |key| == 16 && |iv| == 16
      ensures if ok then IsVectorCipher(ciphertext, key, iv, plaintext) else plaintext == prior
    {
      if ciphertext == [] || |key| != 16 || |iv| != 16 {
        lastErrorCode := -1;
        state := state.(lastError := -1);
        return false, prior;
      }
      plaintext := VectorLoop(ciphertext, key, iv);
      lastErrorCode := 0;
      state := state.(lastError := 0);
      ok := true;
    }

    // ---------- SM2 sign and verify on vectors ----------

    method SM2SignVector(data: seq<byte>, privateKey: seq<byte>, prior: seq<byte>, drawn: seq<byte>)
      returns (ok: bool, signature: seq<byte>)
      requires Valid() && |drawn| == SIGNATURE_LEN - 1
      modifies this`lastErrorCode, this`state
      ensures Valid() && state == old(state).(lastError := if ok then 0 else -1)
      ensures ok <==> data != [] && |privateKey| == 32
      ensures signature == if ok then Sign(data, drawn) else prior
    {
      if data == [] || |privateKey| != 32 {
        lastErrorCode := -1;
        state := state.(lastError := -1);
        return false, prior;
      }
      signature := Zeros(SIGNATURE_LEN);
      for i := 0 to SIGNATURE_LEN - 1
        invariant |signature| == SIGNATURE_LEN && signature[..i] == drawn[..i]
      {
        signature := signature[i := drawn[i]];
      }
      signature := signature[SIGNATURE_LEN - 1 := data[0]];
      lastErrorCode := 0;
      state := state.(lastError := 0);
      ok := true;
    }

    /** A rejected signature is not an error: only ill-sized arguments set the error code. */
    method SM2VerifyVector(data: seq<byte>, signature: seq<byte>, publicKey: seq<byte>) returns (ok: bool)
      requires Valid()
      modifies this`lastErrorCode, this`state
      ensures Valid()
      ensures var sized := data != [] && |signature| == SIGNATURE_LEN && |publicKey| == 65;
        && state == old(state).(lastError := if sized then 0 else -1)
        && (ok <==> sized && Verify(data, signature))
    {
      if data == [] || |signature| != SIGNATURE_LEN || |publicKey| != 65 {
        lastErrorCode := -1;
        state := state.(lastError := -1);
        return false;
      }
      var isZeroSignature := true;
      var i := 0;
      while i < |signature| && isZeroSignature
        invariant i <= |signature|
        invariant isZeroSignature ==> forall k | 0 <= k < i :: signature[k] == 0
        invariant !isZeroSignature ==> exists k | 0 <= k < i :: signature[k] != 0
      {
        if signature[i] != 0 {
          isZeroSignature := false;
        }
        i := i + 1;
      }
      lastErrorCode := 0;
      state := state.(lastError := 0);
      if isZeroSignature {
        assert signature == Zeros(SIGNATURE_LEN);
        return false;
      }
      return data[0] == signature[SIGNATURE_LEN - 1];
    }
  }
}
