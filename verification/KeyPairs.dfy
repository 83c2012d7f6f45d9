/**
 * SM2 by the two halves of a key pair: encryption uses the public key of a slot and decryption its private key, and an
 * imported public key, be it for a verification, replaces the public half only.
 */
module KeyPairs {
  import opened Bytes
  import opened Sdk
  import opened AdapterSpec
  import opened Hex
  import opened ClientSpec
  import opened Sessions
  import opened RoundTrips

  // ---------- Which keys are in a slot ----------

  /** The public keys that belong to the key pairs of a chip: those it comes with, and those it generates. */
  datatype Keys = Keys(atStart: KeyPlace -> seq<byte>, generated: (uint8, Log) -> seq<byte>)

  /** The public key in a slot or, for the private half, the public key that belongs to it. A call that the chip refuses
      changes neither. */
  function KeyOf(keys: Keys, log: Log, place: KeyPlace): seq<byte> {
    match LastKeyed(log, place)
    case None => keys.atStart(place)
    case Some(k) =>
      match log[k].call
      case ImportPubKey(key, _) => key
      case GenKeyPair(slot) => keys.generated(slot, log[..k])
      case _ => []
  }

  /** The two halves in a slot belong together. */
  predicate Matched(keys: Keys, log: Log, slot: uint8) {
    KeyOf(keys, log, SM2Public(slot)) == KeyOf(keys, log, SM2Private(slot))
  }

  /** What a caller knows of it: the public key was last set by generating the pair, or to the key of the pair. */
  predicate KeyedTogether(keys: Keys, log: Log, slot: uint8) {
    match LastKeyed(log, SM2Public(slot))
    case None => keys.atStart(SM2Public(slot)) == keys.atStart(SM2Private(slot))
    case Some(k) =>
      log[k].call == GenKeyPair(slot) || log[k].call == ImportPubKey(KeyOf(keys, log, SM2Private(slot)), slot)
  }

  lemma {:induction false} LastKeyedRekeys(log: Log, place: KeyPlace)
    ensures LastKeyed(log, place).Some? ==> Rekeys(log[LastKeyed(log, place).value].call, place)
  {
    if log != [] {
      LastKeyedRekeys(log[..|log| - 1], place);
    }
  }

  /** Generating a pair sets both halves. */
  lemma {:induction false} GenerationSetsBoth(log: Log, slot: uint8)
    ensures var k, p := LastKeyed(log, SM2Public(slot)), LastKeyed(log, SM2Private(slot));
      && (k.None? ==> p.None?)
      && (k.Some? && log[k.value].call == GenKeyPair(slot) ==> p == k)
  {
    if log != [] {
      GenerationSetsBoth(log[..|log| - 1], slot);
    }
  }

  lemma MatchedExact(keys: Keys, log: Log, slot: uint8)
    ensures Matched(keys, log, slot) <==> KeyedTogether(keys, log, slot)
  {
    GenerationSetsBoth(log, slot);
    LastKeyedRekeys(log, SM2Public(slot));
  }

  // ---------- What changes them ----------

  lemma {:induction false} KeyingGrows(log: Log, longer: Log, place: KeyPlace)
    requires log <= longer
    ensures Keying(log, place) <= Keying(longer, place)
  {
    if |longer| > |log| {
      KeyingGrows(log, longer[..|longer| - 1], place);
    } else {
      assert log == longer;
    }
  }

  lemma {:induction false} SameKeyingSameLast(log: Log, longer: Log, place: KeyPlace)
    requires log <= longer && Keying(longer, place) == Keying(log, place)
    ensures LastKeyed(longer, place) == LastKeyed(log, place)
  {
    if |longer| > |log| {
      KeyingGrows(log, longer[..|longer| - 1], place);
      SameKeyingSameLast(log, longer[..|longer| - 1], place);
    } else {
      assert log == longer;
    }
  }

  lemma SameKeyingSameKey(keys: Keys, log: Log, longer: Log, place: KeyPlace)
    requires log <= longer && Keying(longer, place) == Keying(log, place)
    ensures KeyOf(keys, longer, place) == KeyOf(keys, log, place)
  {
    SameKeyingSameLast(log, longer, place);
    if LastKeyed(log, place).Some? {
      assert longer[..LastKeyed(log, place).value] == log[..LastKeyed(log, place).value];
    }
  }

  lemma CommandKeepsKey(chip: Chip, keys: Keys, log: Log, cmd: Command, place: KeyPlace)
    requires Sane(cmd) && !MayRekey(cmd, place)
    ensures KeyOf(keys, Exec(chip, log, cmd).log, place) == KeyOf(keys, log, place)
  {
    CommandKeying(chip, log, cmd, place);
    CommandExtends(chip, log, cmd);
    SameKeyingSameKey(keys, log, Exec(chip, log, cmd).log, place);
  }

  lemma RunKeepsKey(chip: Chip, keys: Keys, log: Log, cmds: seq<Command>, place: KeyPlace)
    requires AllSane(cmds) && KeepKey(cmds, place)
    ensures KeyOf(keys, RunLog(chip, log, cmds), place) == KeyOf(keys, log, place)
  {
    RunKeying(chip, log, cmds, place);
    RunExtends(chip, log, cmds);
    SameKeyingSameKey(keys, log, RunLog(chip, log, cmds), place);
  }

  lemma InsideKeepsKey(chip: Chip, keys: Keys, log: Log, place: KeyPlace)
    ensures KeyOf(keys, Inside(chip, log, true), place) == KeyOf(keys, log, place)
  {
    InsideKeying(chip, log, true, place);
    SameKeyingSameKey(keys, log, Inside(chip, log, true), place);
  }

  // ---------- The chip ----------

  /** What the private key that belongs to a public key makes of a ciphertext, if it can open it. */
  type Opener = (seq<byte>, seq<byte>) -> Option<seq<byte>>

  /** The SM2 engine of the chip: a ciphertext is 96 bytes longer and is opened by the private key that belongs to the
      public key of the slot; decryption opens with the private key of the slot, or fails. */
  ghost predicate IsSM2Chip(chip: Chip, keys: Keys, open: Opener) {
    && (forall log, slot, msg {:trigger chip(log, Encrypt(msg, slot))} ::
          var r := chip(log, Encrypt(msg, slot));
          r.rc == RSP_STATUS_OK ==>
            |r.out| == |msg| + SM2_OVERHEAD && open(KeyOf(keys, log, SM2Public(slot)), r.out) == Some(msg))
    && (forall log, slot, cipher {:trigger chip(log, Decrypt(cipher, slot))} ::
          var r := chip(log, Decrypt(cipher, slot));
          r.rc == RSP_STATUS_OK ==> open(KeyOf(keys, log, SM2Private(slot)), cipher) == Some(r.out))
  }

  /** No private key of the chip opens what was encrypted under another key. */
  ghost predicate RefusesForeign(chip: Chip, keys: Keys, open: Opener) {
    forall log, slot, msg, log', slot'
      {:trigger chip(log, Encrypt(msg, slot)), KeyOf(keys, log', SM2Private(slot'))} ::
      var r, own := chip(log, Encrypt(msg, slot)), KeyOf(keys, log', SM2Private(slot'));
      r.rc == RSP_STATUS_OK && own != KeyOf(keys, log, SM2Public(slot)) ==> open(own, r.out).None?
  }

  /** The chip fails at a decryption only if its key does not open the ciphertext. */
  ghost predicate IsReliable(chip: Chip, keys: Keys, open: Opener) {
    && (forall log {:trigger Admits(chip, log)} :: Admits(chip, log))
    && (forall log, slot, cipher {:trigger chip(log, Decrypt(cipher, slot))} ::
          open(KeyOf(keys, log, SM2Private(slot)), cipher).Some? ==>
            chip(log, Decrypt(cipher, slot)).rc == RSP_STATUS_OK)
  }

  /** An exported key is the public key of the slot. */
  ghost predicate ExportsKeys(chip: Chip, keys: Keys) {
    forall log, slot {:trigger chip(log, ExportPubKey(slot))} ::
      var r := chip(log, ExportPubKey(slot));
      r.rc == RSP_STATUS_OK ==> KeyImage(r.out) == KeyOf(keys, log, SM2Public(slot))
  }

  // ---------- One command ----------

  lemma PerformEncrypts(chip: Chip, log: Log, slot: uint8, plain: seq<byte>)
    requires Perform(chip, log, SM2Encrypt(slot, plain)).rc == RSP_STATUS_OK
    requires |chip(log, Encrypt(plain, slot)).out| == |plain| + SM2_OVERHEAD
    ensures 1 <= |plain| <= 65439 && chip(log, Encrypt(plain, slot)).rc == RSP_STATUS_OK
    ensures Perform(chip, log, SM2Encrypt(slot, plain)).value == chip(log, Encrypt(plain, slot)).out
  {
    assert Seen(plain) == plain;
    var sealed := chip(log, Encrypt(plain, slot)).out;
    assert Overlay(Zeros(|sealed|), sealed) == sealed;
  }

  lemma EncryptSucceeded(chip: Chip, log: Log, slot: uint8, plain: seq<byte>)
    requires Perform(chip, log, SM2Encrypt(slot, plain)).rc == RSP_STATUS_OK
    ensures chip(log, Encrypt(plain, slot)).rc == RSP_STATUS_OK
  {
    assert Seen(plain) == plain;
  }

  /** What SM2EncryptHex assigns, given that it succeeds. */
  lemma EncryptedMessage(chip: Chip, keys: Keys, open: Opener, log: Log, slot: uint8, plain: seq<byte>)
    returns (sealed: seq<byte>)
    requires IsSM2Chip(chip, keys, open)
    requires Exec(chip, log, SM2EncryptHex(slot, plain)).rc == 0
    ensures 1 <= |plain| <= 65439 && |sealed| == |plain| + SM2_OVERHEAD
    ensures open(KeyOf(keys, log, SM2Public(slot)), sealed) == Some(plain)
    ensures sealed == chip(Inside(chip, log, true), Encrypt(plain, slot)).out
    ensures chip(Inside(chip, log, true), Encrypt(plain, slot)).rc == RSP_STATUS_OK
    ensures Exec(chip, log, SM2EncryptHex(slot, plain)).hex == Some(ToHex(sealed, false))
    ensures IsHex(ToHex(sealed, false)) && Pairs(ToHex(sealed, false)) == sealed
  {
    var inside := Inside(chip, log, true);
    CommandResult(chip, log, SM2EncryptHex(slot, plain), SM2Encrypt(slot, plain));
    InsideKeepsKey(chip, keys, log, SM2Public(slot));
    EncryptSucceeded(chip, inside, slot, plain);
    PerformEncrypts(chip, inside, slot, plain);
    sealed := chip(inside, Encrypt(plain, slot)).out;
    PrintThenParse(sealed, false);
  }

  lemma PerformDecrypts(chip: Chip, log: Log, slot: uint8, sealed: seq<byte>, more: seq<byte>)
    requires SM2_OVERHEAD <= |sealed| < 0x1_0000 && |more| % 0x1_0000 == 0
    ensures var r, p := chip(log, Decrypt(sealed, slot)), Perform(chip, log, SM2Decrypt(slot, sealed + more));
      && p.rc == r.rc && p.log == log + [Event(Decrypt(sealed, slot), r)]
      && (r.rc == RSP_STATUS_OK && |r.out| == |sealed| - SM2_OVERHEAD ==> p.value == r.out + Zeros(|more|))
  {
    SameSeen(sealed, more);
    assert Seen(sealed) == sealed;
  }

  /** What SM2DecryptHex assigns for a ciphertext that the private key of the slot opens. */
  lemma DecryptedMessage(chip: Chip, keys: Keys, open: Opener, log: Log, slot: uint8, sealed: seq<byte>,
                         plain: seq<byte>)
    requires IsSM2Chip(chip, keys, open)
    requires |sealed| == |plain| + SM2_OVERHEAD <= 65535
    requires open(KeyOf(keys, log, SM2Private(slot)), sealed) == Some(plain)
    ensures var d := Exec(chip, log, SM2DecryptHex(slot, ToHex(sealed, false)));
      && (d.rc == 0 <==> Willing(chip, log, true, SM2Decrypt(slot, sealed)))
      && (d.rc == 0 ==> d.text == Some(plain))
  {
    var inside := Inside(chip, log, true);
    assert sealed + [] == sealed && plain + Zeros(0) == plain;
    PrintThenParse(sealed, false);
    CommandResult(chip, log, SM2DecryptHex(slot, ToHex(sealed, false)), SM2Decrypt(slot, sealed));
    InsideKeepsKey(chip, keys, log, SM2Private(slot));
    PerformDecrypts(chip, inside, slot, sealed, []);
  }

  /** A ciphertext that it does not open is refused. */
  lemma RefusedMessage(chip: Chip, keys: Keys, open: Opener, log: Log, slot: uint8, sealed: seq<byte>)
    requires IsSM2Chip(chip, keys, open) && SM2_OVERHEAD <= |sealed| < 0x1_0000
    requires open(KeyOf(keys, log, SM2Private(slot)), sealed).None?
    ensures Exec(chip, log, SM2DecryptHex(slot, ToHex(sealed, false))).rc != 0
  {
    var inside := Inside(chip, log, true);
    assert sealed + [] == sealed;
    PrintThenParse(sealed, false);
    CommandResult(chip, log, SM2DecryptHex(slot, ToHex(sealed, false)), SM2Decrypt(slot, sealed));
    InsideKeepsKey(chip, keys, log, SM2Private(slot));
    PerformDecrypts(chip, inside, slot, sealed, []);
  }

  /** Bytes added to a ciphertext in a multiple of 65536 are not seen by the chip, and come back as zeros added to the
      message, without an error. */
  lemma {:induction false} AddedBytesDecrypted(chip: Chip, keys: Keys, open: Opener, log: Log, slot: uint8,
                                               sealed: seq<byte>, plain: seq<byte>, more: seq<byte>)
    requires IsSM2Chip(chip, keys, open)
    requires |sealed| == |plain| + SM2_OVERHEAD <= 65535
    requires open(KeyOf(keys, log, SM2Private(slot)), sealed) == Some(plain)
    requires |more| % 0x1_0000 == 0
    ensures var d := Exec(chip, log, SM2DecryptHex(slot, ToHex(sealed + more, false)));
      && (d.rc == 0 <==> Willing(chip, log, true, SM2Decrypt(slot, sealed)))
      && (d.rc == 0 ==> d.text == Some(plain + Zeros(|more|)))
  {
    var inside := Inside(chip, log, true);
    assert sealed + [] == sealed;
    PrintThenParse(sealed + more, false);
    CommandResult(chip, log, SM2DecryptHex(slot, ToHex(sealed + more, false)), SM2Decrypt(slot, sealed + more));
    InsideKeepsKey(chip, keys, log, SM2Private(slot));
    PerformDecrypts(chip, inside, slot, sealed, []);
    PerformDecrypts(chip, inside, slot, sealed, more);
  }

  // ---------- Runs ----------

  /**
   * The SM2 round trip. A message that was encrypted has 1 to 65439 bytes, its ciphertext 97 to 65535, so that no
   * length is narrowed. If the halves in the slot belonged together at the time, then after any commands that do not
   * generate a new pair in the slot, imports and verifications included, decrypting it yields the message unless the
   * chip fails.
   */
  lemma {:induction false} SM2RoundTrip(chip: Chip, keys: Keys, open: Opener, log: Log, slot: uint8, plain: seq<byte>,
                                        between: seq<Command>)
    requires IsSM2Chip(chip, keys, open) && KeyedTogether(keys, log, slot)
    requires AllSane(between) && Command.SM2GenerateKey(slot) !in between
    requires Exec(chip, log, SM2EncryptHex(slot, plain)).rc == 0
    ensures var e := Exec(chip, log, SM2EncryptHex(slot, plain));
      && 1 <= |plain| <= 65439
      && e.hex.Some? && |e.hex.value| == 2 * (|plain| + SM2_OVERHEAD)
      && var mid := RunLog(chip, e.log, between);
         var d := Exec(chip, mid, SM2DecryptHex(slot, e.hex.value));
         && (d.rc == 0 <==> Willing(chip, mid, true, SM2Decrypt(slot, Pairs(e.hex.value))))
         && (d.rc == 0 ==> d.text == Some(plain))
  {
    var e := Exec(chip, log, SM2EncryptHex(slot, plain));
    var sealed := EncryptedMessage(chip, keys, open, log, slot, plain);
    MatchedExact(keys, log, slot);
    CommandKeepsKey(chip, keys, log, SM2EncryptHex(slot, plain), SM2Private(slot));
    RunKeepsKey(chip, keys, e.log, between, SM2Private(slot));
    DecryptedMessage(chip, keys, open, RunLog(chip, e.log, between), slot, sealed, plain);
  }

  /** What was encrypted under the public key of slot `b` is decrypted at any other time in slot `a`, unless the chip
      fails, exactly when the private key there is the one that belongs to it. */
  lemma OpenedExact(chip: Chip, keys: Keys, open: Opener, log: Log, b: uint8, plain: seq<byte>, later: Log, a: uint8)
    requires IsSM2Chip(chip, keys, open) && RefusesForeign(chip, keys, open)
    requires Exec(chip, log, SM2EncryptHex(b, plain)).rc == 0
    ensures var e := Exec(chip, log, SM2EncryptHex(b, plain));
      && e.hex.Some?
      && var d := Exec(chip, later, SM2DecryptHex(a, e.hex.value));
         && (KeyOf(keys, log, SM2Public(b)) == KeyOf(keys, later, SM2Private(a)) ==>
               && (d.rc == 0 <==> Willing(chip, later, true, SM2Decrypt(a, Pairs(e.hex.value))))
               && (d.rc == 0 ==> d.text == Some(plain)))
         && (KeyOf(keys, log, SM2Public(b)) != KeyOf(keys, later, SM2Private(a)) ==> d.rc != 0)
  {
    var sealed := EncryptedMessage(chip, keys, open, log, b, plain);
    if KeyOf(keys, log, SM2Public(b)) == KeyOf(keys, later, SM2Private(a)) {
      DecryptedMessage(chip, keys, open, later, a, sealed, plain);
    } else {
      InsideKeepsKey(chip, keys, log, SM2Public(b));
      RefusedMessage(chip, keys, open, later, a, sealed);
    }
  }

  /** If they did not belong together, it is refused. */
  lemma {:induction false} ForeignIsRefused(chip: Chip, keys: Keys, open: Opener, log: Log, slot: uint8,
                                            plain: seq<byte>, between: seq<Command>)
    requires IsSM2Chip(chip, keys, open) && RefusesForeign(chip, keys, open) && !KeyedTogether(keys, log, slot)
    requires AllSane(between) && Command.SM2GenerateKey(slot) !in between
    requires Exec(chip, log, SM2EncryptHex(slot, plain)).rc == 0
    ensures var e := Exec(chip, log, SM2EncryptHex(slot, plain));
      && e.hex.Some?
      && Exec(chip, RunLog(chip, e.log, between), SM2DecryptHex(slot, e.hex.value)).rc != 0
  {
    var e := Exec(chip, log, SM2EncryptHex(slot, plain));
    MatchedExact(keys, log, slot);
    CommandKeepsKey(chip, keys, log, SM2EncryptHex(slot, plain), SM2Private(slot));
    RunKeepsKey(chip, keys, e.log, between, SM2Private(slot));
    OpenedExact(chip, keys, open, log, slot, plain, RunLog(chip, e.log, between), slot);
  }

  lemma ReliableIsWilling(chip: Chip, keys: Keys, open: Opener, log: Log, slot: uint8, sealed: seq<byte>)
    requires IsReliable(chip, keys, open) && SM2_OVERHEAD <= |sealed| < 0x1_0000
    requires open(KeyOf(keys, log, SM2Private(slot)), sealed).Some?
    ensures Willing(chip, log, true, SM2Decrypt(slot, sealed))
  {
    assert Admits(chip, log);
    assert sealed + [] == sealed;
    InsideKeepsKey(chip, keys, log, SM2Private(slot));
    PerformDecrypts(chip, Inside(chip, log, true), slot, sealed, []);
  }

  /** With a chip that does not fail of itself, a message comes back exactly when the public key of the slot had last
      been set, before the encryption, by generating the pair or to the key of the pair. */
  lemma {:induction false} SM2ComesBackExact(chip: Chip, keys: Keys, open: Opener, log: Log, slot: uint8,
                                             plain: seq<byte>, between: seq<Command>)
    requires IsSM2Chip(chip, keys, open) && RefusesForeign(chip, keys, open) && IsReliable(chip, keys, open)
    requires AllSane(between) && Command.SM2GenerateKey(slot) !in between
    requires Exec(chip, log, SM2EncryptHex(slot, plain)).rc == 0
    ensures var e := Exec(chip, log, SM2EncryptHex(slot, plain));
      && e.hex.Some?
      && var d := Exec(chip, RunLog(chip, e.log, between), SM2DecryptHex(slot, e.hex.value));
         d.rc == 0 && d.text == Some(plain) <==> KeyedTogether(keys, log, slot)
  {
    var e := Exec(chip, log, SM2EncryptHex(slot, plain));
    if KeyedTogether(keys, log, slot) {
      var sealed := EncryptedMessage(chip, keys, open, log, slot, plain);
      SM2RoundTrip(chip, keys, open, log, slot, plain, between);
      MatchedExact(keys, log, slot);
      CommandKeepsKey(chip, keys, log, SM2EncryptHex(slot, plain), SM2Private(slot));
      RunKeepsKey(chip, keys, e.log, between, SM2Private(slot));
      ReliableIsWilling(chip, keys, open, RunLog(chip, e.log, between), slot, sealed);
    } else {
      ForeignIsRefused(chip, keys, open, log, slot, plain, between);
    }
  }

  lemma VerificationSetsKey(chip: Chip, keys: Keys, log: Log, cmd: Command)
    requires cmd.SM2VerifyHex? && TakesKey(chip, log, cmd)
    ensures KeyOf(keys, Exec(chip, log, cmd).log, SM2Public(TEMP_SLOT)) == KeyImage(Pairs(cmd.pubHex))
  {
    VerificationRekeysExact(chip, log, cmd);
  }

  /**
   * What is encrypted under slot 3 after a verification is meant for whoever's key was verified with: it is their
   * private key that opens it, and the chip's own decryption fails, unless that key is the one of the slot's pair.
   */
  lemma {:induction false} VerificationTakesOverSlot3(chip: Chip, keys: Keys, open: Opener, log: Log, cmd: Command,
                                                      before: seq<Command>, plain: seq<byte>, between: seq<Command>)
    returns (sealed: seq<byte>)
    requires IsSM2Chip(chip, keys, open) && RefusesForeign(chip, keys, open)
    requires cmd.SM2VerifyHex? && TakesKey(chip, log, cmd)
    requires AllSane(before) && KeepKey(before, SM2Public(TEMP_SLOT))
    requires AllSane(between) && Command.SM2GenerateKey(TEMP_SLOT) !in between
    requires Exec(chip, RunLog(chip, Exec(chip, log, cmd).log, before), SM2EncryptHex(TEMP_SLOT, plain)).rc == 0
    ensures var theirs := KeyImage(Pairs(cmd.pubHex));
      var e := Exec(chip, RunLog(chip, Exec(chip, log, cmd).log, before), SM2EncryptHex(TEMP_SLOT, plain));
      && e.hex == Some(ToHex(sealed, false)) && open(theirs, sealed) == Some(plain)
      && (theirs != KeyOf(keys, log, SM2Private(TEMP_SLOT)) ==>
            Exec(chip, RunLog(chip, e.log, between), SM2DecryptHex(TEMP_SLOT, ToHex(sealed, false))).rc != 0)
  {
    var v := Exec(chip, log, cmd);
    var l := RunLog(chip, v.log, before);
    VerificationSetsKey(chip, keys, log, cmd);
    RunKeepsKey(chip, keys, v.log, before, SM2Public(TEMP_SLOT));
    sealed := EncryptedMessage(chip, keys, open, l, TEMP_SLOT, plain);
    CommandKeepsKey(chip, keys, log, cmd, SM2Private(TEMP_SLOT));
    RunKeepsKey(chip, keys, v.log, before, SM2Private(TEMP_SLOT));
    MatchedExact(keys, l, TEMP_SLOT);
    if !Matched(keys, l, TEMP_SLOT) {
      ForeignIsRefused(chip, keys, open, l, TEMP_SLOT, plain, between);
    }
  }

  // ---------- Handing a key on ----------

  lemma ImportAccepted(chip: Chip, log: Log, slot: uint8, hex: string)
    requires IsHex(hex) && 0 < |Pairs(hex)| <= KEY_BUFFER
    requires Exec(chip, log, SM2ImportPublicKeyHex(slot, hex)).rc == 0
    ensures var asked := Ask(chip, Inside(chip, log, true), ImportPubKey(KeyImage(Pairs(hex)), slot));
      && asked.rc == RSP_STATUS_OK
      && Exec(chip, log, SM2ImportPublicKeyHex(slot, hex)).log == Ask(chip, asked.log, FuncLibClose).log
  {
    var cmd := SM2ImportPublicKeyHex(slot, hex);
    CommandResult(chip, log, cmd, SM2ImportPublicKey(slot, Pairs(hex)));
    ImportAsks(chip, log, cmd);
  }

  lemma KeyAfterImport(chip: Chip, keys: Keys, log: Log, key: seq<byte>, slot: uint8)
    requires Ask(chip, log, ImportPubKey(key, slot)).rc == RSP_STATUS_OK
    ensures var asked := Ask(chip, log, ImportPubKey(key, slot));
      KeyOf(keys, Ask(chip, asked.log, FuncLibClose).log, SM2Public(slot)) == key
  {
    var asked := Ask(chip, log, ImportPubKey(key, slot));
    AskKeyed(chip, log, ImportPubKey(key, slot), SM2Public(slot));
    AskKeyed(chip, asked.log, FuncLibClose, SM2Public(slot));
  }

  lemma ImportSetsKey(chip: Chip, keys: Keys, log: Log, slot: uint8, hex: string)
    requires IsHex(hex) && 0 < |Pairs(hex)| <= KEY_BUFFER
    requires Exec(chip, log, SM2ImportPublicKeyHex(slot, hex)).rc == 0
    ensures KeyOf(keys, Exec(chip, log, SM2ImportPublicKeyHex(slot, hex)).log, SM2Public(slot)) == KeyImage(Pairs(hex))
  {
    ImportAccepted(chip, log, slot, hex);
    KeyAfterImport(chip, keys, Inside(chip, log, true), KeyImage(Pairs(hex)), slot);
  }

  /** From an export to an encryption under the imported key, and on, the private key in slot `a` stays. */
  lemma OwnKeyStays(chip: Chip, keys: Keys, log: Log, a: uint8, first: seq<Command>, b: uint8, hex: string,
                    plain: seq<byte>, between: seq<Command>)
    requires AllSane(first) && AllSane(between)
    requires Command.SM2GenerateKey(a) !in first && Command.SM2GenerateKey(a) !in between
    ensures var l := RunLog(chip, Exec(chip, log, SM2ExportPublicKeyHex(a)).log, first);
      var i := Exec(chip, l, SM2ImportPublicKeyHex(b, hex));
      var e := Exec(chip, i.log, SM2EncryptHex(b, plain));
      KeyOf(keys, RunLog(chip, e.log, between), SM2Private(a)) == KeyOf(keys, log, SM2Private(a))
  {
    var x := Exec(chip, log, SM2ExportPublicKeyHex(a));
    var l := RunLog(chip, x.log, first);
    var i := Exec(chip, l, SM2ImportPublicKeyHex(b, hex));
    CommandKeepsKey(chip, keys, log, SM2ExportPublicKeyHex(a), SM2Private(a));
    RunKeepsKey(chip, keys, x.log, first, SM2Private(a));
    CommandKeepsKey(chip, keys, l, SM2ImportPublicKeyHex(b, hex), SM2Private(a));
    CommandKeepsKey(chip, keys, i.log, SM2EncryptHex(b, plain), SM2Private(a));
    RunKeepsKey(chip, keys, Exec(chip, i.log, SM2EncryptHex(b, plain)).log, between, SM2Private(a));
  }

  /**
   * A public key handed on: exported from slot `a`, whose halves belong together, and imported into slot `b`. A message
   * encrypted there is decrypted in slot `a`, unless the chip fails, when the exported buffer holds nothing past the
   * length taken for the key; and only then.
   */
  lemma HandedOnKeyExact(chip: Chip, keys: Keys, open: Opener, log: Log, a: uint8, b: uint8, first: seq<Command>,
                         plain: seq<byte>, between: seq<Command>)
    requires IsSM2Chip(chip, keys, open) && RefusesForeign(chip, keys, open) && ExportsKeys(chip, keys)
    requires KeyedTogether(keys, log, a)
    requires AllSane(first) && AllSane(between)
    requires Command.SM2GenerateKey(a) !in first && Command.SM2GenerateKey(a) !in between
    requires Exec(chip, log, SM2ExportPublicKeyHex(a)).rc == 0
    ensures var x := Exec(chip, log, SM2ExportPublicKeyHex(a));
      var filled := KeyOf(keys, log, SM2Public(a));
      && x.hex.Some? && |filled| == KEY_BUFFER
      && var i := Exec(chip, RunLog(chip, x.log, first), SM2ImportPublicKeyHex(b, x.hex.value));
         var e := Exec(chip, i.log, SM2EncryptHex(b, plain));
         i.rc == 0 && e.rc == 0 ==>
           && e.hex.Some?
           && var mid := RunLog(chip, e.log, between);
              var d := Exec(chip, mid, SM2DecryptHex(a, e.hex.value));
              && (NothingPast(filled) ==>
                    && (d.rc == 0 <==> Willing(chip, mid, true, SM2Decrypt(a, Pairs(e.hex.value))))
                    && (d.rc == 0 ==> d.text == Some(plain)))
              && (!NothingPast(filled) ==> d.rc != 0)
  {
    var x := Exec(chip, log, SM2ExportPublicKeyHex(a));
    var pub := ExportedKey(chip, log, a);
    InsideKeepsKey(chip, keys, log, SM2Public(a));
    MatchedExact(keys, log, a);
    var i := Exec(chip, RunLog(chip, x.log, first), SM2ImportPublicKeyHex(b, x.hex.value));
    var e := Exec(chip, i.log, SM2EncryptHex(b, plain));
    if i.rc == 0 && e.rc == 0 {
      ImportSetsKey(chip, keys, RunLog(chip, x.log, first), b, x.hex.value);
      OwnKeyStays(chip, keys, log, a, first, b, x.hex.value, plain, between);
      OpenedExact(chip, keys, open, i.log, b, plain, RunLog(chip, e.log, between), a);
    }
  }
}
