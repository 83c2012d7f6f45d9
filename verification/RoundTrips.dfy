/**
 * What the client's commands do to each other: which of them change a key, SM4 text that is encrypted by one and
 * decrypted by a later one, exported and imported public keys, and what a verification leaves behind. For SM4, the chip
 * is only assumed to decrypt what it encrypted under the same key.
 */
module RoundTrips {
  import opened Bytes
  import opened Sdk
  import opened AdapterSpec
  import opened Hex
  import opened ClientSpec

  // ---------- Keys and the calls that change them ----------

  /** Where the chip keeps a key; the two halves of a key pair count as two places. */
  datatype KeyPlace = SM4Place | SM2Public(slot: uint8) | SM2Private(slot: uint8)

  predicate Rekeys(call: Call, place: KeyPlace) {
    match place
    case SM4Place => call.DownloadSM4Key? && call.index == SM4_KEY_INDEX
    case SM2Public(slot) => (call.GenKeyPair? || call.ImportPubKey?) && call.slot == slot
    case SM2Private(slot) => call == GenKeyPair(slot)
  }

  /** The part of a log that decides which key is in a place. */
  function Keying(log: Log, place: KeyPlace): Log {
    if log == [] then []
    else
      var last := log[|log| - 1];
      Keying(log[..|log| - 1], place) + if Rekeys(last.call, place) then [last] else []
  }

  /** The number of the last call by which a key was put in a place, among those that the chip carried out. */
  function LastKeyed(log: Log, place: KeyPlace): (k: Option<nat>)
    ensures k.Some? ==> k.value < |log|
  {
    if log == [] then None
    else
      var last := log[|log| - 1];
      if Rekeys(last.call, place) && last.response.rc == RSP_STATUS_OK then Some(|log| - 1)
      else LastKeyed(log[..|log| - 1], place)
  }

  lemma AskKeyed(chip: Chip, log: Log, call: Call, place: KeyPlace)
    ensures LastKeyed(Ask(chip, log, call).log, place) ==
      if Rekeys(call, place) && chip(log, call).rc == RSP_STATUS_OK then Some(|log|) else LastKeyed(log, place)
  {
    var e := Event(call, chip(log, call));
    assert (log + [e])[..|log|] == log;
  }

  /** The commands that may change the key in a place. A verification changes the public key in slot 3. */
  predicate MayRekey(cmd: Command, place: KeyPlace) {
    match place
    case SM4Place => cmd.SM4Import?
    case SM2Private(slot) => cmd.SM2GenerateKey? && cmd.slot == slot
    case SM2Public(slot) =>
      || ((cmd.SM2GenerateKey? || cmd.SM2ImportPublicKeyHex?) && cmd.slot == slot)
      || (cmd.SM2VerifyHex? && slot == TEMP_SLOT)
  }

  lemma AskKeying(chip: Chip, log: Log, call: Call, place: KeyPlace)
    ensures Keying(Ask(chip, log, call).log, place) ==
      Keying(log, place) + if Rekeys(call, place) then [Event(call, chip(log, call))] else []
  {
    var e := Event(call, chip(log, call));
    assert (log + [e])[..|log|] == log;
  }

  lemma WorkKeying(chip: Chip, log: Log, req: Option<Request>, place: KeyPlace)
    requires req.Some? && Checks(req.value) ==> !Rekeys(CallOf(req.value), place)
    ensures Keying(Work(chip, log, req).log, place) == Keying(log, place)
  {
  }

  /** The log at the point of a session where the request is made. */
  function Inside(chip: Chip, log: Log, authenticate: bool): Log {
    var begun := Ask(chip, log, FuncLibOpen).log;
    if authenticate then Ask(chip, begun, DevAuth).log else begun
  }

  lemma InsideKeying(chip: Chip, log: Log, authenticate: bool, place: KeyPlace)
    ensures Keying(Inside(chip, log, authenticate), place) == Keying(log, place)
  {
    AskKeying(chip, log, FuncLibOpen, place);
    if authenticate {
      AskKeying(chip, Ask(chip, log, FuncLibOpen).log, DevAuth, place);
    }
  }

  lemma ShutKeying(chip: Chip, r: Reply, place: KeyPlace)
    ensures Keying(Shut(chip, r).log, place) == Keying(r.log, place)
  {
  }

  lemma SessionKeying(chip: Chip, log: Log, authenticate: bool, req: Option<Request>, place: KeyPlace)
    requires req.Some? && Checks(req.value) ==> !Rekeys(CallOf(req.value), place)
    ensures Keying(Session(chip, log, authenticate, req).log, place) == Keying(log, place)
  {
    var begun := Ask(chip, log, FuncLibOpen);
    var inside := Inside(chip, log, authenticate);
    InsideKeying(chip, log, authenticate, place);
    if begun.rc != RSP_STATUS_OK {
      AskKeying(chip, log, FuncLibOpen, place);
    } else if authenticate && Ask(chip, begun.log, DevAuth).rc != RSP_STATUS_OK {
      ShutKeying(chip, Refuse(inside), place);
    } else {
      WorkKeying(chip, inside, req, place);
      ShutKeying(chip, Work(chip, inside, req), place);
    }
  }

  lemma RequestRekeys(cmd: Command, place: KeyPlace)
    requires Sane(cmd) && !MayRekey(cmd, place)
    ensures var req := RequestOf(cmd);
      req.Some? && Checks(req.value) ==> !Rekeys(CallOf(req.value), place)
  {
  }

  /** A command that may not change a key does not. */
  lemma {:induction false} CommandKeying(chip: Chip, log: Log, cmd: Command, place: KeyPlace)
    requires Sane(cmd) && !MayRekey(cmd, place)
    ensures Keying(Exec(chip, log, cmd).log, place) == Keying(log, place)
  {
    RequestRekeys(cmd, place);
    if cmd.SM2VerifyHex? {
      WorkKeying(chip, log, RequestOf(cmd), place);
    } else {
      SessionKeying(chip, log, Authenticates(cmd), RequestOf(cmd), place);
    }
  }

  ghost predicate KeepKey(cmds: seq<Command>, place: KeyPlace) {
    forall k | 0 <= k < |cmds| :: !MayRekey(cmds[k], place)
  }

  lemma {:induction false} RunKeying(chip: Chip, log: Log, cmds: seq<Command>, place: KeyPlace)
    requires AllSane(cmds) && KeepKey(cmds, place)
    ensures Keying(RunLog(chip, log, cmds), place) == Keying(log, place)
  {
    if cmds != [] {
      var before := cmds[..|cmds| - 1];
      RunKeying(chip, log, before, place);
      CommandKeying(chip, RunLog(chip, log, before), cmds[|cmds| - 1], place);
    }
  }

  /** The chip lets a session open, authenticates if asked to, and carries the request out. */
  predicate Willing(chip: Chip, log: Log, authenticate: bool, req: Request) {
    && Ask(chip, log, FuncLibOpen).rc == RSP_STATUS_OK
    && (authenticate ==> Ask(chip, Ask(chip, log, FuncLibOpen).log, DevAuth).rc == RSP_STATUS_OK)
    && Perform(chip, Inside(chip, log, authenticate), req).rc == RSP_STATUS_OK
  }

  /** A command that gets past its checks succeeds exactly when the chip is willing, and then presents what its request
      returned inside the session. */
  lemma CommandResult(chip: Chip, log: Log, cmd: Command, req: Request)
    requires Sane(cmd) && Issues(cmd) && !cmd.SM2VerifyHex? && RequestOf(cmd) == Some(req)
    ensures var e := Exec(chip, log, cmd);
      && (e.rc == 0 <==> Willing(chip, log, Authenticates(cmd), req))
      && (e.rc == 0 ==>
           (e.hex, e.text) == Present(cmd, Perform(chip, Inside(chip, log, Authenticates(cmd)), req).value))
  {
  }

  // ---------- SM4 text ----------

  /** Each 16-byte block on its own, as in section 6.1 of NIST SP 800-38A. */
  function Ecb(block: (Log, seq<byte>) -> seq<byte>, keying: Log, data: seq<byte>): seq<byte> {
    if |data| < 16 then [] else block(keying, data[..16]) + Ecb(block, keying, data[16..])
  }

  /** The SM4 engine of the chip: in mode 0, whole blocks under the key last brought in; decryption undoes
      encryption. */
  ghost predicate IsEcbChip(chip: Chip, enc: (Log, seq<byte>) -> seq<byte>, dec: (Log, seq<byte>) -> seq<byte>) {
    && (forall k, b {:trigger enc(k, b)} | |b| == 16 :: |enc(k, b)| == 16 && dec(k, enc(k, b)) == b)
    && (forall log, data {:trigger chip(log, Call.SM4Crypto(0, ENCRYPT, ECB, data))} | |data| % 16 == 0 ::
          var r := chip(log, Call.SM4Crypto(0, ENCRYPT, ECB, data));
          r.rc == RSP_STATUS_OK ==> r.out == Ecb(enc, Keying(log, SM4Place), data))
    && (forall log, data {:trigger chip(log, Call.SM4Crypto(0, DECRYPT, ECB, data))} | |data| % 16 == 0 ::
          var r := chip(log, Call.SM4Crypto(0, DECRYPT, ECB, data));
          r.rc == RSP_STATUS_OK ==> r.out == Ecb(dec, Keying(log, SM4Place), data))
  }

  lemma {:induction false} EcbInverts(enc: (Log, seq<byte>) -> seq<byte>, dec: (Log, seq<byte>) -> seq<byte>, k: Log,
                                      data: seq<byte>)
    requires forall b {:trigger enc(k, b)} | |b| == 16 :: |enc(k, b)| == 16 && dec(k, enc(k, b)) == b
    requires |data| % 16 == 0
    ensures |Ecb(enc, k, data)| == |data| && Ecb(dec, k, Ecb(enc, k, data)) == data
  {
    if data != [] {
      var first, rest := data[..16], data[16..];
      EcbInverts(enc, dec, k, rest);
      var sealed := enc(k, first) + Ecb(enc, k, rest);
      assert sealed[..16] == enc(k, first) && sealed[16..] == Ecb(enc, k, rest);
    }
  }

  lemma {:induction false} UpToNulStops(q: seq<byte>, tail: seq<byte>)
    ensures UpToNul(q + [0] + tail) == UpToNul(q)
  {
    var s := q + [0] + tail;
    if q != [] && q[0] != 0 {
      UpToNulStops(q[1..], tail);
      assert s[1..] == q[1..] + [0] + tail;
    }
  }

  lemma {:induction false} UpToNulWholeExact(s: seq<byte>)
    ensures |UpToNul(s)| <= |s|
    ensures UpToNul(s) == s <==> 0 !in s
  {
    if s != [] && s[0] != 0 {
      UpToNulWholeExact(s[1..]);
      assert s == [s[0]] + s[1..];
    }
  }

  /** The text a decryption shows of a padded plaintext: cut at 255 bytes and at the first zero byte. */
  lemma ShownText(p: seq<byte>)
    requires 0 < |p| <= PLAIN_MAX
    ensures UpToNul(Overlay(Zeros(PLAIN_MAX), ZeroPad(p))[Min(Padded(|p|), PLAIN_MAX - 1) := 0])
         == UpToNul(p[..Min(|p|, PLAIN_MAX - 1)])
  {
    var q := p[..Min(|p|, PLAIN_MAX - 1)];
    var shown := Overlay(Zeros(PLAIN_MAX), ZeroPad(p))[Min(Padded(|p|), PLAIN_MAX - 1) := 0];
    assert shown == q + [0] + shown[|q| + 1..];
    UpToNulStops(q, shown[|q| + 1..]);
  }

  lemma PerformCiphers(chip: Chip, enc: (Log, seq<byte>) -> seq<byte>, dec: (Log, seq<byte>) -> seq<byte>,
                       log: Log, kind: byte, data: seq<byte>)
    requires IsEcbChip(chip, enc, dec) && |data| % 16 == 0 && |data| <= SM4_BUFFER
    requires kind == ENCRYPT || kind == DECRYPT
    requires Perform(chip, log, Request.SM4Crypto(SM4_KEY_INDEX, kind, ECB, data)).rc == RSP_STATUS_OK
    ensures Perform(chip, log, Request.SM4Crypto(SM4_KEY_INDEX, kind, ECB, data)).value
         == Ecb(if kind == ENCRYPT then enc else dec, Keying(log, SM4Place), data)
  {
  }

  lemma PerformSeals(chip: Chip, enc: (Log, seq<byte>) -> seq<byte>, dec: (Log, seq<byte>) -> seq<byte>,
                     log: Log, data: seq<byte>)
    requires IsEcbChip(chip, enc, dec) && |data| % 16 == 0 && |data| <= SM4_BUFFER
    requires Perform(chip, log, Request.SM4Crypto(SM4_KEY_INDEX, ENCRYPT, ECB, data)).rc == RSP_STATUS_OK
    ensures var sealed := Ecb(enc, Keying(log, SM4Place), data);
      && |sealed| == |data|
      && Perform(chip, log, Request.SM4Crypto(SM4_KEY_INDEX, ENCRYPT, ECB, data)).value == sealed
  {
    PerformCiphers(chip, enc, dec, log, ENCRYPT, data);
    EcbInverts(enc, dec, Keying(log, SM4Place), data);
  }

  lemma OverlayStart(n: nat, s: seq<byte>)
    requires |s| <= n
    ensures Overlay(Zeros(n), s)[..|s|] == s
  {
  }

  lemma PresentedLine(plain: seq<byte>, sealed: seq<byte>)
    requires Sane(SM4Encrypt(plain)) && RequestOf(SM4Encrypt(plain)).Some? && |sealed| == Padded(Int32(|plain|))
    ensures Present(SM4Encrypt(plain), sealed) == (Some(ToHex(sealed, true)), None)
  {
    OverlayStart(512, sealed);
  }

  /** What SM4encrypt prints, given that it succeeds. */
  lemma EncryptedText(chip: Chip, enc: (Log, seq<byte>) -> seq<byte>, dec: (Log, seq<byte>) -> seq<byte>,
                      log: Log, plain: seq<byte>)
    requires IsEcbChip(chip, enc, dec) && Sane(SM4Encrypt(plain))
    requires Exec(chip, log, SM4Encrypt(plain)).rc == 0
    ensures var n := Int32(|plain|);
      && n <= PLAIN_MAX && n <= |plain|
      && var sealed := Ecb(enc, Keying(log, SM4Place), ZeroPad(plain[..n]));
         |sealed| == Padded(n) && Exec(chip, log, SM4Encrypt(plain)).hex == Some(ToHex(sealed, true))
  {
    var n := Int32(|plain|);
    var x := ZeroPad(plain[..n]);
    assert |x| == Padded(n) <= PLAIN_MAX;
    CommandResult(chip, log, SM4Encrypt(plain), Request.SM4Crypto(SM4_KEY_INDEX, ENCRYPT, ECB, x));
    InsideKeying(chip, log, false, SM4Place);
    PerformSeals(chip, enc, dec, Inside(chip, log, false), x);
    PresentedLine(plain, Ecb(enc, Keying(log, SM4Place), x));
  }

  lemma PaddedWhole(n: nat)
    requires n % 16 == 0
    ensures Padded(n) == n
  {
  }

  /** A line of whole blocks passes the checks of SM4decrypt, unless it is empty, and is padded no further. */
  lemma LineTaken(hex: string, data: seq<byte>)
    requires IsHex(hex) && |hex| == 2 * |data| && data == Pairs(hex) && |data| % 16 == 0 && |data| <= PLAIN_MAX
    ensures var cmd := SM4Decrypt(hex);
      && Sane(cmd) && (Issues(cmd) <==> data != [])
      && RequestOf(cmd) == Some(Request.SM4Crypto(SM4_KEY_INDEX, DECRYPT, ECB, data))
  {
    PaddedWhole(|data|);
    assert ZeroPad(data) == data;
  }

  /** The request that decrypts a line. */
  function Opening(hex: string): Request {
    Request.SM4Crypto(SM4_KEY_INDEX, DECRYPT, ECB, Pairs(hex))
  }

  /** What such a line is deciphered to inside a session. */
  lemma PerformOpens(chip: Chip, enc: (Log, seq<byte>) -> seq<byte>, dec: (Log, seq<byte>) -> seq<byte>,
                     log: Log, p: seq<byte>, sealed: seq<byte>)
    requires IsEcbChip(chip, enc, dec) && |p| <= PLAIN_MAX
    requires sealed == Ecb(enc, Keying(log, SM4Place), ZeroPad(p)) && |sealed| == Padded(|p|)
    requires Perform(chip, log, Request.SM4Crypto(SM4_KEY_INDEX, DECRYPT, ECB, sealed)).rc == RSP_STATUS_OK
    ensures Perform(chip, log, Request.SM4Crypto(SM4_KEY_INDEX, DECRYPT, ECB, sealed)).value == ZeroPad(p)
  {
    PerformCiphers(chip, enc, dec, log, DECRYPT, sealed);
    EcbInverts(enc, dec, Keying(log, SM4Place), ZeroPad(p));
  }

  lemma PresentedText(hex: string, p: seq<byte>)
    requires Sane(SM4Decrypt(hex)) && Issues(SM4Decrypt(hex))
    requires 0 < |p| <= PLAIN_MAX && |hex| == 2 * Padded(|p|)
    ensures Present(SM4Decrypt(hex), ZeroPad(p)) == (None, Some(UpToNul(p[..Min(|p|, PLAIN_MAX - 1)])))
  {
    ShownText(p);
  }

  /** What SM4decrypt shows of a line that holds an encrypted text; the empty text is turned away. */
  lemma {:induction false} DecryptedText(chip: Chip, enc: (Log, seq<byte>) -> seq<byte>,
                                         dec: (Log, seq<byte>) -> seq<byte>, log: Log, p: seq<byte>,
                                         sealed: seq<byte>, hex: string)
    requires IsEcbChip(chip, enc, dec) && |p| <= PLAIN_MAX
    requires sealed == Ecb(enc, Keying(log, SM4Place), ZeroPad(p)) && |sealed| == Padded(|p|)
    requires IsHex(hex) && Pairs(hex) == sealed && |hex| == 2 * |sealed|
    ensures Sane(SM4Decrypt(hex))
    ensures var d := Exec(chip, log, SM4Decrypt(hex));
      && (d.rc == 0 <==> p != [] && Willing(chip, log, false, Opening(hex)))
      && (d.rc == 0 ==> d.text == Some(UpToNul(p[..Min(|p|, PLAIN_MAX - 1)])))
  {
    LineTaken(hex, sealed);
    if p != [] {
      CommandResult(chip, log, SM4Decrypt(hex), Opening(hex));
      InsideKeying(chip, log, false, SM4Place);
      if Willing(chip, log, false, Opening(hex)) {
        PerformOpens(chip, enc, dec, Inside(chip, log, false), p, sealed);
        PresentedText(hex, p);
      }
    }
  }

  /**
   * The SM4 text round trip. The hexadecimal line printed by an encryption, given to a decryption after any commands
   * that do not import a key, shows the plaintext up to its first zero byte, cut at 255 bytes; it fails only if the
   * chip does, or for the empty plaintext, whose line is turned away. A plaintext too long for an int is taken at its
   * cast length.
   */
  lemma {:induction false} SM4TextRoundTrip(chip: Chip, enc: (Log, seq<byte>) -> seq<byte>,
                                            dec: (Log, seq<byte>) -> seq<byte>, log: Log, plain: seq<byte>,
                                            between: seq<Command>)
    requires IsEcbChip(chip, enc, dec) && Sane(SM4Encrypt(plain))
    requires AllSane(between) && KeepKey(between, SM4Place)
    requires Exec(chip, log, SM4Encrypt(plain)).rc == 0
    ensures var e := Exec(chip, log, SM4Encrypt(plain));
      var p := plain[..Int32(|plain|)];
      && |p| <= PLAIN_MAX && e.hex.Some? && |e.hex.value| == 2 * Padded(|p|) && Sane(SM4Decrypt(e.hex.value))
      && var mid := RunLog(chip, e.log, between);
         var d := Exec(chip, mid, SM4Decrypt(e.hex.value));
         && (d.rc == 0 <==> p != [] && Willing(chip, mid, false, Opening(e.hex.value)))
         && (d.rc == 0 ==> d.text == Some(UpToNul(p[..Min(|p|, PLAIN_MAX - 1)])))
  {
    var e := Exec(chip, log, SM4Encrypt(plain));
    var p := plain[..Int32(|plain|)];
    EncryptedText(chip, enc, dec, log, plain);
    CommandKeying(chip, log, SM4Encrypt(plain), SM4Place);
    RunKeying(chip, e.log, between, SM4Place);
    var sealed := Ecb(enc, Keying(log, SM4Place), ZeroPad(p));
    PrintThenParse(sealed, true);
    DecryptedText(chip, enc, dec, RunLog(chip, e.log, between), p, sealed, e.hex.value);
  }

  /** What is shown is the plaintext itself exactly when it has at most 255 bytes and no zero byte. */
  lemma SM4TextWholeExact(p: seq<byte>)
    ensures UpToNul(p[..Min(|p|, PLAIN_MAX - 1)]) == p <==> |p| < PLAIN_MAX && 0 !in p
  {
    UpToNulWholeExact(p[..Min(|p|, PLAIN_MAX - 1)]);
    if |p| < PLAIN_MAX {
      assert p[..Min(|p|, PLAIN_MAX - 1)] == p;
    }
  }

  /** Whether a text is taken at all depends on its length cast to int; for lengths that an int can hold, it is taken
      exactly up to 256 bytes. */
  lemma SM4TextTakenExact(plain: seq<byte>)
    requires Sane(SM4Encrypt(plain))
    ensures |plain| <= 0x7FFF_FFFF ==> (RequestOf(SM4Encrypt(plain)).Some? <==> |plain| <= PLAIN_MAX)
    ensures RequestOf(SM4Encrypt(plain)).Some? && plain[..Int32(|plain|)] == plain <==> |plain| <= PLAIN_MAX
  {
  }

  // ---------- Lengths, public keys, the temporary slot ----------

  /** Messages of any other length are turned away whatever the chip says, and nothing is assigned. */
  lemma SM2LengthRejected(chip: Chip, log: Log, slot: uint8, plain: seq<byte>)
    requires !(1 <= |plain| <= 65439)
    ensures var e := Exec(chip, log, SM2EncryptHex(slot, plain)); e.rc == -1 && e.hex.None?
  {
  }

  /** The chip lets a session open and authenticates. */
  predicate Admits(chip: Chip, log: Log) {
    && Ask(chip, log, FuncLibOpen).rc == RSP_STATUS_OK
    && Ask(chip, Ask(chip, log, FuncLibOpen).log, DevAuth).rc == RSP_STATUS_OK
  }

  /** What the chip is asked by an import that is admitted. */
  lemma ImportAsks(chip: Chip, log: Log, cmd: Command)
    requires cmd.SM2ImportPublicKeyHex? && Issues(cmd) && Checks(RequestOf(cmd).value) && Admits(chip, log)
    ensures var asked := Ask(chip, Inside(chip, log, true), CallOf(RequestOf(cmd).value));
      Exec(chip, log, cmd).log == Ask(chip, asked.log, FuncLibClose).log && Exec(chip, log, cmd).rc == asked.rc
  {
  }

  lemma ExportedKey(chip: Chip, log: Log, slot: uint8) returns (pub: seq<byte>)
    requires Exec(chip, log, SM2ExportPublicKeyHex(slot)).rc == 0
    ensures Exec(chip, log, SM2ExportPublicKeyHex(slot)).hex == Some(ToHex(pub, false)) && 0 < |pub| <= KEY_BUFFER
    ensures IsHex(ToHex(pub, false)) && Pairs(ToHex(pub, false)) == pub
    ensures chip(Inside(chip, log, true), ExportPubKey(slot)).rc == RSP_STATUS_OK
    ensures var filled := KeyImage(chip(Inside(chip, log, true), ExportPubKey(slot)).out);
      && (KeyImage(pub) == filled <==> NothingPast(filled))
      && (filled[0] != 0x02 && filled[0] != 0x03 && filled[0] != 0x04 ==> KeyImage(pub) == filled)
  {
    var inside := Inside(chip, log, true);
    CommandResult(chip, log, SM2ExportPublicKeyHex(slot), SM2ExportPublicKey(slot));
    pub := Perform(chip, inside, SM2ExportPublicKey(slot)).value;
    ExportThenImportExact(chip, inside, slot, KeyImage(chip(inside, ExportPubKey(slot)).out));
    PrintThenParse(pub, false);
  }

  /** A key buffer holds nothing past the length taken for the key. */
  predicate NothingPast(filled: seq<byte>)
    requires |filled| == KEY_BUFFER
  {
    forall i :: KeyLength(filled) <= i < KEY_BUFFER ==> filled[i] == 0
  }

  /**
   * A key exported by one command and imported by another, after any commands in between, reaches the SDK as the very
   * buffer that the SDK had filled exactly when nothing in that buffer lies past the length chosen; by the length scan
   * this is always so. The import command asks just that of the chip, if it is admitted.
   */
  lemma KeyTransferExact(chip: Chip, log: Log, slot: uint8, between: seq<Command>, target: uint8)
    requires Exec(chip, log, SM2ExportPublicKeyHex(slot)).rc == 0 && AllSane(between)
    ensures var filled := KeyImage(chip(Inside(chip, log, true), ExportPubKey(slot)).out);
      var x := Exec(chip, log, SM2ExportPublicKeyHex(slot));
      && x.hex.Some? && IsHex(x.hex.value)
      && var key := KeyImage(Pairs(x.hex.value));
         && (key == filled <==> NothingPast(filled))
         && (filled[0] != 0x02 && filled[0] != 0x03 && filled[0] != 0x04 ==> key == filled)
         && var mid := RunLog(chip, x.log, between);
            var i := Exec(chip, mid, SM2ImportPublicKeyHex(target, x.hex.value));
            var asked := Ask(chip, Inside(chip, mid, true), ImportPubKey(key, target));
            Admits(chip, mid) ==> i.log == Ask(chip, asked.log, FuncLibClose).log && i.rc == asked.rc
  {
    var pub := ExportedKey(chip, log, slot);
    var x := Exec(chip, log, SM2ExportPublicKeyHex(slot));
    var mid := RunLog(chip, x.log, between);
    if Admits(chip, mid) {
      ImportAsks(chip, mid, SM2ImportPublicKeyHex(target, x.hex.value));
    }
  }

  /** The chip is asked to sign the whole message exactly when its length fits sixteen bits. */
  lemma SignedPartExact(slot: uint8, data: seq<byte>)
    requires data != []
    ensures CallOf(SM2Sign(slot, data)).msg == data <==> |data| < 0x1_0000
  {
  }

  lemma SameSeen(data: seq<byte>, more: seq<byte>)
    requires |data| < 0x1_0000 && |more| % 0x1_0000 == 0
    ensures Seen(data + more) == Seen(data)
  {
  }

  lemma SignsSeen(chip: Chip, log: Log, slot: uint8, a: seq<byte>, b: seq<byte>)
    requires a != [] && b != [] && Seen(a) == Seen(b)
    ensures Perform(chip, log, SM2Sign(slot, a)) == Perform(chip, log, SM2Sign(slot, b))
  {
  }

  lemma VerifiesSeen(chip: Chip, log: Log, pub: seq<byte>, a: seq<byte>, b: seq<byte>, sig: seq<byte>)
    requires a != [] && b != [] && Seen(a) == Seen(b)
    ensures Perform(chip, log, SM2Verify(pub, a, sig)) == Perform(chip, log, SM2Verify(pub, b, sig))
  {
  }

  /** Bytes added beyond that, in a multiple of 65536, are not signed: the command does and returns the same with them
      as without. */
  lemma AddedBytesUnsigned(chip: Chip, log: Log, slot: uint8, data: seq<byte>, more: seq<byte>)
    requires 0 < |data| < 0x1_0000 && |more| % 0x1_0000 == 0
    ensures Exec(chip, log, SM2SignHex(slot, data + more)) == Exec(chip, log, SM2SignHex(slot, data))
  {
    SameSeen(data, more);
    SignsSeen(chip, Inside(chip, log, true), slot, data + more, data);
  }

  /** Nor are they verified. So a signature is accepted for the longer data whenever it is accepted for the shorter. */
  lemma AddedBytesUnverified(chip: Chip, log: Log, pubHex: string, data: seq<byte>, more: seq<byte>, sigHex: string)
    requires 0 < |data| < 0x1_0000 && |more| % 0x1_0000 == 0
    ensures Exec(chip, log, SM2VerifyHex(pubHex, data + more, sigHex))
         == Exec(chip, log, SM2VerifyHex(pubHex, data, sigHex))
  {
    SameSeen(data, more);
    VerifiesSeen(chip, log, Pairs(pubHex), data + more, data, Pairs(sigHex));
  }

  lemma VerifierRekeys(chip: Chip, log: Log, req: Request)
    requires req.SM2Verify? && Checks(req)
    ensures Keying(Perform(chip, log, req).log, SM2Public(TEMP_SLOT))
         == Keying(log, SM2Public(TEMP_SLOT)) + [Event(CallOf(req), chip(log, CallOf(req)))]
  {
    var asked := Ask(chip, log, CallOf(req));
    AskKeying(chip, log, CallOf(req), SM2Public(TEMP_SLOT));
    AskKeying(chip, asked.log, Verify(Overlay(Zeros(SIGN_BUFFER), req.sig), Seen(req.data), TEMP_SLOT, 0),
              SM2Public(TEMP_SLOT));
  }

  /** The call that brings in the key of a verification. */
  function KeyImport(cmd: Command): Call
    requires cmd.SM2VerifyHex?
  {
    ImportPubKey(KeyImage(Pairs(cmd.pubHex)), TEMP_SLOT)
  }

  /** The verification gets as far as the chip, and the chip takes the key. */
  predicate TakesKey(chip: Chip, log: Log, cmd: Command)
    requires cmd.SM2VerifyHex?
  {
    Issues(cmd) && Checks(RequestOf(cmd).value) && chip(log, KeyImport(cmd)).rc == RSP_STATUS_OK
  }

  lemma VerificationKeyed(chip: Chip, log: Log, req: Request)
    requires req.SM2Verify? && Checks(req)
    ensures LastKeyed(Perform(chip, log, req).log, SM2Public(TEMP_SLOT)) ==
      if chip(log, CallOf(req)).rc == RSP_STATUS_OK then Some(|log|) else LastKeyed(log, SM2Public(TEMP_SLOT))
    ensures |Perform(chip, log, req).log| > |log| && Perform(chip, log, req).log[|log|].call == CallOf(req)
    ensures chip(log, CallOf(req)).rc == RSP_STATUS_OK && |req.sig| > SIGN_BUFFER ==> Perform(chip, log, req).rc == -1
  {
    var asked := Ask(chip, log, CallOf(req));
    AskKeyed(chip, log, CallOf(req), SM2Public(TEMP_SLOT));
    AskKeyed(chip, asked.log, Verify(Overlay(Zeros(SIGN_BUFFER), req.sig), Seen(req.data), TEMP_SLOT, 0),
             SM2Public(TEMP_SLOT));
  }

  /**
   * After a verification, the key last put in slot 3 is the one given to the verification exactly when the arguments
   * pass the checks and the chip takes the key; otherwise it is the one that was there. This does not depend on what
   * becomes of the verification itself, and is so even for a signature that is too long to be looked at.
   */
  lemma {:induction false} VerificationRekeysExact(chip: Chip, log: Log, cmd: Command)
    requires cmd.SM2VerifyHex?
    ensures var e, takes := Exec(chip, log, cmd), TakesKey(chip, log, cmd);
      && (LastKeyed(e.log, SM2Public(TEMP_SLOT)) == Some(|log|) <==> takes)
      && (takes ==> |e.log| > |log| && e.log[|log|].call == KeyImport(cmd))
      && (!takes ==> LastKeyed(e.log, SM2Public(TEMP_SLOT)) == LastKeyed(log, SM2Public(TEMP_SLOT)))
      && (takes && |Pairs(cmd.hex)| > SIGN_BUFFER ==> e.rc == -1)
  {
    var req := RequestOf(cmd).value;
    if Issues(cmd) {
      assert Exec(chip, log, cmd).log == Perform(chip, log, req).log;
      if Checks(req) {
        VerificationKeyed(chip, log, req);
      }
    }
  }
}
