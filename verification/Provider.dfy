/**
 * What the software crypto provider does, call by call, on plain values. The class CryptoSoftware is proved
 * against `Step`; the properties of whole call histories are proved about `Run`.
 */
module Provider {
  import opened Bytes
  import opened Ciphers

  type Private = s: seq<byte> | |s| == 32 witness Zeros(32)
  type Public = s: seq<byte> | |s| == 65 witness Zeros(65)
  type Block = s: seq<byte> | |s| == 16 witness Zeros(16)
  type Noise = s: seq<byte> | |s| == 96 witness Zeros(96)
  type Signature = s: seq<byte> | |s| == 64 witness Zeros(64)
  // A buffer passed with a 16-bit length
  type Chunk = s: seq<byte> | |s| < 0x1_0000

  const SM2_SLOTS := 4
  const SM4_SLOTS := 6
  const ID_SLOTS := 4
  // Keys of the side table that the provider keeps for itself
  const SM3_BUFFER := 255
  const SM4_CURRENT := 254
  // Bytes that SM2 encryption puts in front of the message
  const SM2_OVERHEAD := 96

  datatype SM2Slot = SM2Slot(privateKey: Private, publicKey: Public, hasPrivateKey: bool, hasPublicKey: bool)
  datatype SM4Slot = SM4Slot(key: Block, keyType: uint8, isValid: bool)
  datatype IdSlot = IdSlot(data: seq<byte>, isValid: bool)

  const CLEAR_SM2 := SM2Slot(Zeros(32), Zeros(65), false, false)
  const CLEAR_SM4 := SM4Slot(Zeros(16), 1, false)
  const CLEAR_ID := IdSlot([], false)

  datatype Store = Store(
    isOpened: bool,
    sm2: seq<SM2Slot>,
    sm4: seq<SM4Slot>,
    ids: seq<IdSlot>,
    userData: map<uint8, seq<byte>>,
    sm3Initialized: bool,
    lastError: int)

  type State = s: Store | |s.sm2| == SM2_SLOTS && |s.sm4| == SM4_SLOTS && |s.ids| == ID_SLOTS
    witness Initial()

  function Initial(): Store {
    Store(false, seq(SM2_SLOTS, _ => CLEAR_SM2), seq(SM4_SLOTS, _ => CLEAR_SM4), seq(ID_SLOTS, _ => CLEAR_ID),
          map[], false, 0)
  }

  // The calls of the slot interface, by what they work on. An absent input pointer is None, an absent output pointer
  // is false, and the random bytes a call draws are part of the call.

  datatype GeneralCall =
    | Open
    | Close
    | Initialize
    | Cleanup
    | GetRandom(outBuf: bool, drawn: Chunk)

  datatype KeyPairCall =
    | GenerateSM2KeyPair(publicKey: Public, privateKey: Private)
    | DeleteSM2KeyPair
    | ImportSM2KeyPair(pri: Option<Private>, pub: Option<Public>)
    | ImportSM2PubKey(pub: Option<Public>)
    | ImportSM2PriKey(pri: Option<Private>)
    | ExportSM2PubKey(outBuf: bool)

  /** Work under a key pair, none of which looks at the key. */
  datatype SM2Call =
    | SM2Encrypt(outBuf: bool, msg: Option<Chunk>, noise: Noise)
    | SM2Decrypt(outBuf: bool, msg: Option<Chunk>)
    | SM2Sign(outBuf: bool, msg: Option<Chunk>, signature: Signature)
    | SM2Verify(signBuf: bool, msg: Option<Chunk>)
    | SM2SignDigest(outBuf: bool, digest: bool, signature: Signature)
    | SM2VerifyDigest(signBuf: bool, digest: bool)

  datatype IdCall =
    | ImportID(msg: Option<Chunk>)
    | ExportID(outBuf: bool, lenBuf: bool)

  datatype SM3Call =
    | SM3Init
    | SM3Update(msg: Option<Chunk>)
    | SM3Final(outBuf: bool)
    | SM3Hash(msg: Option<Chunk>, outBuf: bool)

  datatype SM4Call =
    | SetSM4Key(key: Option<Block>)
    | SM4Init(icv: bool)
    | SM4Update(msg: Option<Chunk>, outBuf: bool)
    | SM4Final
    | SM4Crypto(msg: Option<Chunk>, outBuf: bool)

  /** One call; what works on a slot names it by its index. */
  datatype Op =
    | General(general: GeneralCall)
    | KeyPair(index: uint8, keyPair: KeyPairCall)
    | SM2(index: uint8, sm2: SM2Call)
    | Identity(index: uint8, identity: IdCall)
    | SM3(sm3: SM3Call)
    | SM4(index: uint8, sm4: SM4Call)

  /** The state after a call, its return code, and the bytes it wrote to the caller's buffer. */
  datatype Outcome = Outcome(state: State, rc: int, out: seq<byte>)

  /** The message pointer is there and its length is not zero. */
  predicate Given(msg: Option<Chunk>) {
    msg.Some? && msg.value != []
  }

  function StreamBytes(s: State): seq<byte> {
    if SM3_BUFFER in s.userData then s.userData[SM3_BUFFER] else []
  }

  // ---------- The argument checks of each call ----------

  predicate GeneralAccepts(call: GeneralCall) {
    call.GetRandom? ==> call.outBuf && call.drawn != []
  }

  predicate KeyPairAccepts(call: KeyPairCall) {
    match call
    case GenerateSM2KeyPair(_, _) => true
    case DeleteSM2KeyPair => true
    case ImportSM2KeyPair(pri, pub) => pri.Some? && pub.Some?
    case ImportSM2PubKey(pub) => pub.Some?
    case ImportSM2PriKey(pri) => pri.Some?
    case ExportSM2PubKey(outBuf) => outBuf
  }

  predicate SM2Accepts(call: SM2Call) {
    match call
    case SM2Encrypt(outBuf, msg, _) => outBuf && Given(msg)
    case SM2Decrypt(outBuf, msg) => outBuf && msg.Some? && |msg.value| >= SM2_OVERHEAD
    case SM2Sign(outBuf, msg, _) => outBuf && Given(msg)
    case SM2Verify(signBuf, msg) => signBuf && Given(msg)
    case SM2SignDigest(outBuf, digest, _) => outBuf && digest
    case SM2VerifyDigest(signBuf, digest) => signBuf && digest
  }

  predicate IdAccepts(call: IdCall) {
    match call
    case ImportID(msg) => Given(msg)
    case ExportID(outBuf, lenBuf) => outBuf && lenBuf
  }

  predicate SM3Accepts(initialized: bool, call: SM3Call) {
    match call
    case SM3Init => true
    case SM3Update(msg) => Given(msg) && initialized
    case SM3Final(outBuf) => outBuf && initialized
    case SM3Hash(msg, outBuf) => Given(msg) && outBuf
  }

  predicate SM4Accepts(call: SM4Call) {
    match call
    case SetSM4Key(key) => key.Some?
    case SM4Init(icv) => icv
    case SM4Update(msg, outBuf) => Given(msg) && outBuf
    case SM4Final => true
    case SM4Crypto(msg, outBuf) => Given(msg) && outBuf
  }

  /** Only sm3Update and sm3Final look at the state. */
  predicate Accepts(sm3Initialized: bool, op: Op) {
    match op
    case General(call) => GeneralAccepts(call)
    case KeyPair(i, call) => i < SM2_SLOTS && KeyPairAccepts(call)
    case SM2(i, call) => i < SM2_SLOTS && SM2Accepts(call)
    case Identity(i, call) => i < ID_SLOTS && IdAccepts(call)
    case SM3(call) => SM3Accepts(sm3Initialized, call)
    case SM4(i, call) => i < SM4_SLOTS && SM4Accepts(call)
  }

  // ---------- What an accepted call makes of what it works on ----------

  function GeneralEffect(s: State, call: GeneralCall): State {
    match call
    case Open => s.(isOpened := true)
    case Close => s.(isOpened := false)
    case Cleanup => s.(sm2 := Initial().sm2, sm4 := Initial().sm4, ids := Initial().ids)
    case _ => s
  }

  function KeyPairEffect(slot: SM2Slot, call: KeyPairCall): SM2Slot
    requires KeyPairAccepts(call)
  {
    match call
    case GenerateSM2KeyPair(pub, pri) => SM2Slot(pri, pub, true, true)
    case DeleteSM2KeyPair => CLEAR_SM2
    case ImportSM2KeyPair(pri, pub) => SM2Slot(pri.value, pub.value, true, true)
    case ImportSM2PubKey(pub) => slot.(publicKey := pub.value, hasPublicKey := true)
    case ImportSM2PriKey(pri) => slot.(privateKey := pri.value, hasPrivateKey := true)
    case ExportSM2PubKey(_) => slot
  }

  function IdEffect(slot: IdSlot, call: IdCall): IdSlot
    requires IdAccepts(call)
  {
    if call.ImportID? then IdSlot(call.msg.value, true) else slot
  }

  function SM3Effect(s: State, call: SM3Call): State
    requires SM3Accepts(s.sm3Initialized, call)
  {
    match call
    case SM3Init => s.(sm3Initialized := true, userData := s.userData[SM3_BUFFER := []])
    case SM3Update(msg) => s.(userData := s.userData[SM3_BUFFER := StreamBytes(s) + msg.value])
    case SM3Final(_) => s.(sm3Initialized := false, userData := s.userData[SM3_BUFFER := []])
    case SM3Hash(_, _) => s
  }

  function SM4Effect(s: State, i: uint8, call: SM4Call): State
    requires i < SM4_SLOTS && SM4Accepts(call)
  {
    match call
    case SetSM4Key(key) => s.(sm4 := s.sm4[i := s.sm4[i].(key := key.value, isValid := true)])
    case SM4Init(_) => s.(userData := s.userData[SM4_CURRENT := [i as byte]])
    case _ => s
  }

  /** The state afterwards, apart from the error code. */
  function Effect(s: State, op: Op): State
    requires Accepts(s.sm3Initialized, op)
  {
    match op
    case General(call) => GeneralEffect(s, call)
    case KeyPair(i, call) => s.(sm2 := s.sm2[i := KeyPairEffect(s.sm2[i], call)])
    case SM2(_, _) => s
    case Identity(i, call) => s.(ids := s.ids[i := IdEffect(s.ids[i], call)])
    case SM3(call) => SM3Effect(s, call)
    case SM4(i, call) => SM4Effect(s, i, call)
  }

  // ---------- What an accepted call writes to the caller's buffer ----------

  function SM2Output(call: SM2Call): seq<byte>
    requires SM2Accepts(call)
  {
    match call
    case SM2Encrypt(_, msg, noise) => noise + msg.value
    case SM2Decrypt(_, msg) => msg.value[SM2_OVERHEAD..]
    case SM2Sign(_, _, signature) => signature
    case SM2SignDigest(_, _, signature) => signature
    case _ => []
  }

  function IdOutput(slot: IdSlot, call: IdCall): seq<byte> {
    if call.ExportID? && slot.isValid then slot.data[..UInt16(|slot.data|)] else []
  }

  function SM3Output(h: Hasher, s: State, call: SM3Call): seq<byte>
    requires SM3Accepts(s.sm3Initialized, call)
  {
    match call
    case SM3Final(_) =>
      // With nothing accumulated there is no digest to copy
      if StreamBytes(s) == [] then [] else Digest(h, StreamBytes(s))
    case SM3Hash(msg, _) => Digest(h, msg.value)
    case _ => []
  }

  function SM4Output(slot: SM4Slot, call: SM4Call): seq<byte>
    requires SM4Accepts(call)
  {
    match call
    case SM4Update(msg, _) => XorKey(msg.value, slot.key)
    case SM4Crypto(msg, _) => XorKey(msg.value, slot.key)
    case _ => []
  }

  function Output(h: Hasher, s: State, op: Op): seq<byte>
    requires Accepts(s.sm3Initialized, op)
  {
    match op
    case General(call) => if call.GetRandom? then call.drawn else []
    case KeyPair(i, call) => if call.ExportSM2PubKey? then s.sm2[i].publicKey else []
    case SM2(_, call) => SM2Output(call)
    case Identity(i, call) => IdOutput(s.ids[i], call)
    case SM3(call) => SM3Output(h, s, call)
    case SM4(i, call) => SM4Output(s.sm4[i], call)
  }

  function Step(h: Hasher, s: State, op: Op): Outcome {
    if Accepts(s.sm3Initialized, op)
    then Outcome(Effect(s, op).(lastError := 0), 0, Output(h, s, op))
    else Outcome(s.(lastError := -1), -1, [])
  }

  /** The state after a whole history of calls, starting from a newly built provider. */
  function Run(h: Hasher, calls: seq<Op>): State {
    if calls == [] then Initial() else Step(h, Run(h, calls[..|calls| - 1]), calls[|calls| - 1]).state
  }

  lemma RunAppend(h: Hasher, calls: seq<Op>, op: Op)
    ensures Run(h, calls + [op]) == Step(h, Run(h, calls), op).state
  {
  }
}
