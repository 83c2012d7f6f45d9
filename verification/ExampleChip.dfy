/**
 * A chip that meets what the round trips assume, and what it shows: that the assumptions can be met, and runs in which
 * something does not come back.
 */
module ExampleChip {
  import opened Bytes
  import opened Sdk
  import opened AdapterSpec
  import opened Hex
  import opened ClientSpec
  import opened RoundTrips
  import opened KeyPairs

  /** Every byte combined with the same mask. */
  function Masked(s: seq<byte>, m: byte): (r: seq<byte>)
    ensures |r| == |s| && forall i :: 0 <= i < |s| ==> r[i] == s[i] ^ m
  {
    seq(|s|, i requires 0 <= i < |s| => s[i] ^ m)
  }

  // ---------- SM4 ----------

  /** The first byte of the SM4 key last brought in. */
  function Mask(keying: Log): byte {
    if keying == [] then 0
    else match keying[|keying| - 1].call
      case DownloadSM4Key(key, _) => if key == [] then 0 else key[0]
      case _ => 0
  }

  function Block(keying: Log, b: seq<byte>): seq<byte> {
    Masked(b, Mask(keying))
  }

  // ---------- SM2 ----------

  /** The public keys of the two pairs that the chip generates in turn. It is delivered with the first. */
  function Pair(n: byte): seq<byte> {
    KeyImage([4] + Zeros(63) + [n])
  }

  function Generated(slot: uint8, log: Log): seq<byte> {
    if |Keying(log, SM2Private(slot))| % 2 == 0 then Pair(2) else Pair(1)
  }

  function Delivered(place: KeyPlace): seq<byte> {
    Pair(1)
  }

  const KEYS := Keys(Delivered, Generated)

  /** What a ciphertext says of the key it was made with; only the chip's own keys are told apart. */
  function Flag(key: seq<byte>): byte {
    if key == Pair(1) then 1 else if key == Pair(2) then 2 else 0
  }

  function Seal(key: seq<byte>, msg: seq<byte>): seq<byte> {
    [Flag(key)] + Zeros(SM2_OVERHEAD - 1) + Masked(msg, Flag(key))
  }

  function Unseal(key: seq<byte>, cipher: seq<byte>): Option<seq<byte>> {
    if |cipher| >= SM2_OVERHEAD && cipher[0] == Flag(key) then Some(Masked(cipher[SM2_OVERHEAD..], Flag(key))) else None
  }

  function Respond(log: Log, call: Call): Response {
    match call
    case SM4Crypto(_, _, _, input) => Response(RSP_STATUS_OK, Ecb(Block, Keying(log, SM4Place), input))
    case Encrypt(msg, slot) => Response(RSP_STATUS_OK, Seal(KeyOf(KEYS, log, SM2Public(slot)), msg))
    case Decrypt(cipher, slot) =>
      var opened' := Unseal(KeyOf(KEYS, log, SM2Private(slot)), cipher);
      if opened'.Some? then Response(RSP_STATUS_OK, opened'.value) else Response(1, [])
    case ExportPubKey(slot) =>
      var key := KeyOf(KEYS, log, SM2Public(slot));
      if |key| == KEY_BUFFER then Response(RSP_STATUS_OK, key) else Response(1, [])
    case _ => Response(RSP_STATUS_OK, [])
  }

  lemma MaskedTwice(s: seq<byte>, m: byte)
    ensures Masked(Masked(s, m), m) == s
  {
  }

  /** The assumption of the SM4 text round trip can be met. */
  lemma IsEcb()
    ensures IsEcbChip(Respond, Block, Block)
  {
    forall k: Log, b: seq<byte> | |b| == 16
      ensures |Block(k, b)| == 16 && Block(k, Block(k, b)) == b
    {
      MaskedTwice(b, Mask(k));
    }
  }

  lemma UnsealsSealed(key: seq<byte>, msg: seq<byte>)
    ensures |Seal(key, msg)| == |msg| + SM2_OVERHEAD && Unseal(key, Seal(key, msg)) == Some(msg)
  {
    MaskedTwice(msg, Flag(key));
    assert Seal(key, msg)[SM2_OVERHEAD..] == Masked(msg, Flag(key));
  }

  /** So can that of the SM2 round trip. */
  lemma IsSM2()
    ensures IsSM2Chip(Respond, KEYS, Unseal)
  {
    forall log: Log, slot: uint8, msg: seq<byte>
      ensures var sealed := Respond(log, Encrypt(msg, slot)).out;
        |sealed| == |msg| + SM2_OVERHEAD && Unseal(KeyOf(KEYS, log, SM2Public(slot)), sealed) == Some(msg)
    {
      UnsealsSealed(KeyOf(KEYS, log, SM2Public(slot)), msg);
    }
  }

  lemma PairsDiffer()
    ensures Pair(1) != Pair(2)
  {
    assert Pair(1)[64] == 1 && Pair(2)[64] == 2;
  }

  /** The private keys of the chip are those of its two pairs. */
  lemma OwnKeys(log: Log, slot: uint8)
    ensures var own := KeyOf(KEYS, log, SM2Private(slot)); own == Pair(1) || own == Pair(2)
  {
    LastKeyedRekeys(log, SM2Private(slot));
  }

  lemma UnsealsOwnOnly(own: seq<byte>, key: seq<byte>, msg: seq<byte>)
    requires (own == Pair(1) || own == Pair(2)) && own != key
    ensures Unseal(own, Seal(key, msg)).None?
  {
    PairsDiffer();
    assert Seal(key, msg)[0] == Flag(key);
  }

  /** The further assumptions on SM2 can be met with it: no private key opens what was meant for another, decryption
      fails for no other reason, and exports give the public key. */
  lemma IsExactSM2()
    ensures RefusesForeign(Respond, KEYS, Unseal) && IsReliable(Respond, KEYS, Unseal) && ExportsKeys(Respond, KEYS)
  {
    forall log: Log, slot: uint8, msg: seq<byte>, log': Log, slot': uint8
      | KeyOf(KEYS, log', SM2Private(slot')) != KeyOf(KEYS, log, SM2Public(slot))
      ensures Unseal(KeyOf(KEYS, log', SM2Private(slot')), Respond(log, Encrypt(msg, slot)).out).None?
    {
      OwnKeys(log', slot');
      UnsealsOwnOnly(KeyOf(KEYS, log', SM2Private(slot')), KeyOf(KEYS, log, SM2Public(slot)), msg);
    }
    forall log: Log, slot: uint8
      | Respond(log, ExportPubKey(slot)).rc == RSP_STATUS_OK
      ensures KeyImage(Respond(log, ExportPubKey(slot)).out) == KeyOf(KEYS, log, SM2Public(slot))
    {
    }
  }

  /** This chip never refuses to encrypt. */
  lemma NeverRefuses(log: Log, authenticate: bool, req: Request)
    requires Checks(req) && (req.SM4Crypto? || req.SM2Encrypt? || req.SM2GenerateKey?)
    ensures Willing(Respond, log, authenticate, req)
  {
  }

  // ---------- SM4 text ----------

  lemma TakesText(log: Log, plain: seq<byte>)
    requires |plain| <= PLAIN_MAX
    ensures Sane(SM4Encrypt(plain)) && plain[..Int32(|plain|)] == plain
    ensures Exec(Respond, log, SM4Encrypt(plain)).rc == 0
  {
    var req := Request.SM4Crypto(SM4_KEY_INDEX, ENCRYPT, ECB, ZeroPad(plain));
    assert plain[..|plain|] == plain;
    CommandResult(Respond, log, SM4Encrypt(plain), req);
    NeverRefuses(log, false, req);
  }

  lemma OpensLine(log: Log, hex: string)
    requires |hex| <= 2 * PLAIN_MAX
    ensures Willing(Respond, log, false, Opening(hex))
  {
    NeverRefuses(log, false, Opening(hex));
  }

  /** With this chip, every text that is not empty nor too long is encrypted and decrypted without an error. */
  lemma ShowsText(plain: seq<byte>)
    requires 0 < |plain| <= PLAIN_MAX
    ensures var e := Exec(Respond, [], SM4Encrypt(plain));
      && e.rc == 0 && e.hex.Some? && Sane(SM4Decrypt(e.hex.value))
      && var d := Exec(Respond, e.log, SM4Decrypt(e.hex.value));
         d.rc == 0 && d.text == Some(UpToNul(plain[..Min(|plain|, PLAIN_MAX - 1)]))
  {
    TakesText([], plain);
    IsEcb();
    SM4TextRoundTrip(Respond, Block, Block, [], plain, []);
    var e := Exec(Respond, [], SM4Encrypt(plain));
    OpensLine(e.log, e.hex.value);
  }

  /** A text with a zero byte inside does not come back whole. */
  lemma TextWithNulIsCut()
    ensures var e := Exec(Respond, [], SM4Encrypt([0x61, 0, 0x62]));
      && e.rc == 0 && e.hex.Some? && Sane(SM4Decrypt(e.hex.value))
      && var d := Exec(Respond, e.log, SM4Decrypt(e.hex.value));
         d.rc == 0 && d.text == Some([0x61])
  {
    var plain := [0x61, 0, 0x62];
    ShowsText(plain);
    assert plain[..3] == plain && UpToNul(plain) == [0x61];
  }

  // ---------- Slot 3 ----------

  const PUB_HEX := "01"
  const SIG_HEX := "00"
  const GENERATION := Command.SM2GenerateKey(TEMP_SLOT)
  const VERIFICATION := SM2VerifyHex(PUB_HEX, [0], SIG_HEX)

  lemma HexParsed()
    ensures IsHex(PUB_HEX) && Pairs(PUB_HEX) == [1]
    ensures IsHex(SIG_HEX) && Pairs(SIG_HEX) == [0]
  {
  }

  lemma NeverRefusesVerifier(log: Log, req: Request)
    requires req.SM2Verify? && Checks(req) && |req.sig| <= SIGN_BUFFER
    ensures Perform(Respond, log, req).rc == RSP_STATUS_OK
  {
  }

  lemma VerifierPerforms(log: Log, cmd: Command)
    requires cmd.SM2VerifyHex? && Issues(cmd)
    ensures Exec(Respond, log, cmd).rc == Perform(Respond, log, RequestOf(cmd).value).rc
  {
  }

  lemma Verifies(log: Log)
    ensures Exec(Respond, log, VERIFICATION).rc == 0 && TakesKey(Respond, log, VERIFICATION)
  {
    HexParsed();
    NeverRefusesVerifier(log, SM2Verify([1], [0], [0]));
    VerifierPerforms(log, VERIFICATION);
  }

  lemma Generates(log: Log)
    ensures Exec(Respond, log, GENERATION).rc == 0
  {
    NeverRefuses(log, true, Request.SM2GenerateKey(TEMP_SLOT));
    CommandResult(Respond, log, GENERATION, Request.SM2GenerateKey(TEMP_SLOT));
  }

  lemma Encrypts(log: Log, plain: seq<byte>)
    requires 1 <= |plain| <= 65439
    ensures Exec(Respond, log, SM2EncryptHex(TEMP_SLOT, plain)).rc == 0
  {
    NeverRefuses(log, true, SM2Encrypt(TEMP_SLOT, plain));
    CommandResult(Respond, log, SM2EncryptHex(TEMP_SLOT, plain), SM2Encrypt(TEMP_SLOT, plain));
  }

  lemma GenerationAsks(log: Log)
    ensures Exec(Respond, log, GENERATION).log
         == Ask(Respond, Ask(Respond, Inside(Respond, log, true), GenKeyPair(TEMP_SLOT)).log, FuncLibClose).log
  {
  }

  lemma KeyedByGeneration(log: Log)
    ensures var asked := Ask(Respond, log, GenKeyPair(TEMP_SLOT));
      KeyedTogether(KEYS, Ask(Respond, asked.log, FuncLibClose).log, TEMP_SLOT)
  {
    var asked := Ask(Respond, log, GenKeyPair(TEMP_SLOT));
    AskKeyed(Respond, log, GenKeyPair(TEMP_SLOT), SM2Public(TEMP_SLOT));
    AskKeyed(Respond, asked.log, FuncLibClose, SM2Public(TEMP_SLOT));
  }

  lemma GenerationMatches(log: Log)
    ensures KeyedTogether(KEYS, Exec(Respond, log, GENERATION).log, TEMP_SLOT)
  {
    GenerationAsks(log);
    KeyedByGeneration(Inside(Respond, log, true));
  }

  lemma VerificationParts(log: Log)
    ensures !KeyedTogether(KEYS, Exec(Respond, log, VERIFICATION).log, TEMP_SLOT)
  {
    var after := Exec(Respond, log, VERIFICATION).log;
    HexParsed();
    Verifies(log);
    VerificationSetsKey(Respond, KEYS, log, VERIFICATION);
    OwnKeys(after, TEMP_SLOT);
    assert KeyImage([1])[0] == 1 && Pair(1)[0] == 4 && Pair(2)[0] == 4;
    MatchedExact(KEYS, after, TEMP_SLOT);
  }

  lemma RunOfOne(chip: Chip, log: Log, cmd: Command)
    requires Sane(cmd)
    ensures RunLog(chip, log, [cmd]) == Exec(chip, log, cmd).log
  {
    assert [cmd][..0] == [];
  }

  /** After a pair was generated in slot 3, a message is encrypted under it and then somebody's signature is verified:
      the message comes back. */
  lemma {:induction false} EarlierMessageComesBack(plain: seq<byte>)
    requires 1 <= |plain| <= 65439
    ensures var g := Exec(Respond, [], GENERATION);
      var e := Exec(Respond, g.log, SM2EncryptHex(TEMP_SLOT, plain));
      var v := Exec(Respond, e.log, VERIFICATION);
      && g.rc == 0 && e.rc == 0 && e.hex.Some? && v.rc == 0
      && var d := Exec(Respond, v.log, SM2DecryptHex(TEMP_SLOT, e.hex.value));
         d.rc == 0 && d.text == Some(plain)
  {
    var g := Exec(Respond, [], GENERATION);
    Generates([]);
    GenerationMatches([]);
    Encrypts(g.log, plain);
    var e := Exec(Respond, g.log, SM2EncryptHex(TEMP_SLOT, plain));
    Verifies(e.log);
    IsSM2();
    IsExactSM2();
    SM2ComesBackExact(Respond, KEYS, Unseal, g.log, TEMP_SLOT, plain, [VERIFICATION]);
    RunOfOne(Respond, e.log, VERIFICATION);
  }

  /** If the signature is verified first, every command up to the encryption succeeds all the same, and the decryption
      does not. */
  lemma {:induction false} VerificationSpoilsSlot3(plain: seq<byte>)
    requires 1 <= |plain| <= 65439
    ensures var g := Exec(Respond, [], GENERATION);
      var v := Exec(Respond, g.log, VERIFICATION);
      var e := Exec(Respond, v.log, SM2EncryptHex(TEMP_SLOT, plain));
      && g.rc == 0 && v.rc == 0 && e.rc == 0 && e.hex.Some?
      && Exec(Respond, e.log, SM2DecryptHex(TEMP_SLOT, e.hex.value)).rc != 0
  {
    var g := Exec(Respond, [], GENERATION);
    Generates([]);
    Verifies(g.log);
    VerificationParts(g.log);
    var v := Exec(Respond, g.log, VERIFICATION);
    Encrypts(v.log, plain);
    IsSM2();
    IsExactSM2();
    ForeignIsRefused(Respond, KEYS, Unseal, v.log, TEMP_SLOT, plain, []);
  }

  // ---------- Handing a key on ----------

  /** An uncompressed key's prefix, and a byte after the 65th. */
  const TAILED: seq<byte> := [0x04] + Zeros(64) + [1] + Zeros(446)

  function RespondTailed(log: Log, call: Call): Response {
    Response(RSP_STATUS_OK, if call.ExportPubKey? then TAILED else [])
  }

  lemma TailedBuffer()
    ensures |TAILED| == KEY_BUFFER && TAILED[0] == 0x04 && KeyImage(TAILED) == TAILED && !NothingPast(TAILED)
  {
    assert TAILED[65] == 1;
  }

  lemma TailedExported()
    ensures Exec(RespondTailed, [], SM2ExportPublicKeyHex(0)).rc == 0
  {
    TailedBuffer();
    CommandResult(RespondTailed, [], SM2ExportPublicKeyHex(0), SM2ExportPublicKey(0));
  }

  lemma ThirdCall(chip: Chip, log: Log, call: Call)
    ensures var asked := Ask(chip, Inside(chip, log, true), call);
      var after := Ask(chip, asked.log, FuncLibClose).log;
      |after| == |log| + 4 && after[|log| + 2].call == call
  {
  }

  /** With a chip that exports such a buffer, a key is exported and imported without an error, and the SDK is not given
      the buffer that it had filled. */
  lemma KeyTailIsLost()
    ensures var x := Exec(RespondTailed, [], SM2ExportPublicKeyHex(0));
      && x.rc == 0 && x.hex.Some?
      && var i := Exec(RespondTailed, x.log, SM2ImportPublicKeyHex(1, x.hex.value));
         && i.rc == 0 && |i.log| == |x.log| + 4
         && exists key :: i.log[|x.log| + 2].call == ImportPubKey(key, 1) && key != TAILED
  {
    TailedBuffer();
    TailedExported();
    KeyTransferExact(RespondTailed, [], 0, [], 1);
    var x := Exec(RespondTailed, [], SM2ExportPublicKeyHex(0));
    assert RunLog(RespondTailed, x.log, []) == x.log;
    ThirdCall(RespondTailed, x.log, ImportPubKey(KeyImage(Pairs(x.hex.value)), 1));
  }
}
