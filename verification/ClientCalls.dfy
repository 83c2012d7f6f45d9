/**
 * What every client command asks of the chip and what it makes of the answers, for every chip, every history before it
 * and every argument, in terms of the chip alone: which calls, with which bytes and numbers, in which order, and which
 * code and text come back.
 */
module ClientCalls {
  import opened Bytes
  import opened BufferLaws
  import opened Sdk
  import opened AdapterSpec
  import opened Nibbles
  import opened Hex
  import opened ClientSpec
  import opened Sessions
  import opened RoundTrips

  // ---------- Talking to the chip ----------

  /** The log after one more call. */
  function Next(chip: Chip, log: Log, call: Call): Log {
    log + [Event(call, chip(log, call))]
  }

  predicate Opens(chip: Chip, log: Log) {
    chip(log, FuncLibOpen).rc == 0
  }

  predicate Allows(chip: Chip, log: Log) {
    Opens(chip, log) && chip(Next(chip, log, FuncLibOpen), DevAuth).rc == 0
  }

  /** A session with authentication, as far as it gets, in which nothing is asked. */
  function Idle(chip: Chip, log: Log): Log {
    var opened' := Next(chip, log, FuncLibOpen);
    if Opens(chip, log) then Next(chip, Next(chip, opened', DevAuth), FuncLibClose) else opened'
  }

  /** The log in an authenticated session, ahead of what is asked in it. */
  function Ready(chip: Chip, log: Log): Log {
    Next(chip, Next(chip, log, FuncLibOpen), DevAuth)
  }

  /** A whole session with authentication in which one thing is asked. */
  function Asking(chip: Chip, log: Log, call: Call): Log {
    Next(chip, Next(chip, Ready(chip, log), call), FuncLibClose)
  }

  function Told(chip: Chip, log: Log, call: Call): Response {
    chip(Ready(chip, log), call)
  }

  /** Nothing is asked, -1 is returned, and nothing is printed or assigned. */
  predicate IsRefusal(e: Answer, log: Log) {
    e == Answer(-1, log, None, None)
  }

  /** One thing is asked in an authenticated session; the code is the chip's, and there is no text unless it is 0. */
  predicate IsAsked(e: Answer, chip: Chip, log: Log, call: Call) {
    && e.log == Asking(chip, log, call) && e.rc == Told(chip, log, call).rc
    && (e.rc != 0 ==> e.hex.None? && e.text.None?)
  }

  // ---------- How sessions go ----------

  lemma AskIsNext(chip: Chip, log: Log, call: Call)
    ensures Ask(chip, log, call) == Reply(chip(log, call).rc, Next(chip, log, call), chip(log, call).out)
  {
  }

  lemma SessionRefuses(chip: Chip, log: Log, req: Option<Request>)
    requires !Allows(chip, log) || req.None? || !Checks(req.value)
    ensures Session(chip, log, true, req).log == Idle(chip, log) && Session(chip, log, true, req).rc == -1
  {
  }

  lemma SessionAsks(chip: Chip, log: Log, req: Request)
    requires Allows(chip, log) && Checks(req) && !req.SM2Verify?
    ensures var r, s := Told(chip, log, CallOf(req)), Session(chip, log, true, Some(req));
      && s.log == Asking(chip, log, CallOf(req))
      && (s.rc, s.value) == Decode(req, r.rc, r.out)
  {
  }

  /** A command that authenticates and gets past its own checks. */
  lemma CommandAsks(chip: Chip, log: Log, cmd: Command, req: Request)
    requires Sane(cmd) && Issues(cmd) && Authenticates(cmd) && !cmd.SM2VerifyHex? && RequestOf(cmd) == Some(req)
    ensures var e := Exec(chip, log, cmd);
      if Allows(chip, log) && Checks(req) then
        var r := Told(chip, log, CallOf(req));
        var d := Decode(req, r.rc, r.out);
        && e.log == Asking(chip, log, CallOf(req))
        && e.rc == (if d.0 != 0 && cmd.SM4Import? then -1 else d.0)
        && (e.hex, e.text) == if e.rc == 0 then Present(cmd, d.1) else (None, None)
      else IsRefusal(e, Idle(chip, log))
  {
    if Allows(chip, log) && Checks(req) {
      SessionAsks(chip, log, req);
    } else {
      SessionRefuses(chip, log, Some(req));
    }
  }

  // ---------- SM4 key ----------

  /** The key of an import: byte `k` is read off characters 2k and 2k+1. */
  predicate IsKeyOf(key: seq<byte>, keyHex: string)
    requires |keyHex| == 32
  {
    |key| == 16 && forall k :: 0 <= k < 16 ==> key[k] as int == 16 * HexVal(keyHex[2 * k]) + HexVal(keyHex[2 * k + 1])
  }

  lemma ParsedKey(keyHex: string)
    requires |keyHex| == 32 && IsHex(keyHex)
    ensures IsKeyOf(Pairs(keyHex), keyHex)
  {
    PairsCompleteExact(keyHex);
    forall k | 0 <= k < 16
      ensures Pairs(keyHex)[k] as int == 16 * HexVal(keyHex[2 * k]) + HexVal(keyHex[2 * k + 1])
    {
      ReadAt(keyHex, k);
    }
  }

  /** An import takes exactly 32 hexadecimal digits, and writes the 16 bytes that they stand for to key index 0. */
  lemma SM4ImportExact(chip: Chip, log: Log, keyHex: string)
    ensures var e := Exec(chip, log, SM4Import(keyHex));
      if |keyHex| == 32 && IsHex(keyHex) then
        var key := Pairs(keyHex);
        && IsKeyOf(key, keyHex)
        && if Allows(chip, log) then
             var call := DownloadSM4Key(key, 0);
             e == Answer(if Told(chip, log, call).rc == 0 then 0 else -1, Asking(chip, log, call), None, None)
           else IsRefusal(e, Idle(chip, log))
      else IsRefusal(e, log)
  {
    if |keyHex| == 32 && IsHex(keyHex) {
      ParsedKey(keyHex);
      CommandAsks(chip, log, SM4Import(keyHex), ImportSM4Key(Pairs(keyHex)));
    }
  }

  lemma AskingKeying(chip: Chip, log: Log, call: Call, place: KeyPlace)
    ensures Keying(Asking(chip, log, call), place) ==
      Keying(log, place) + if Rekeys(call, place) then [Event(call, Told(chip, log, call))] else []
  {
    AskKeying(chip, log, FuncLibOpen, place);
    AskKeying(chip, Next(chip, log, FuncLibOpen), DevAuth, place);
    AskKeying(chip, Ready(chip, log), call, place);
    AskKeying(chip, Next(chip, Ready(chip, log), call), FuncLibClose, place);
  }

  /** So the key that the SM4 commands work with is the one just imported. */
  lemma SM4ImportKeys(chip: Chip, log: Log, keyHex: string)
    requires |keyHex| == 32 && IsHex(keyHex) && Allows(chip, log)
    ensures var call := DownloadSM4Key(Pairs(keyHex), 0);
      Keying(Exec(chip, log, SM4Import(keyHex)).log, SM4Place)
        == Keying(log, SM4Place) + [Event(call, Told(chip, log, call))]
  {
    SM4ImportExact(chip, log, keyHex);
    AskingKeying(chip, log, DownloadSM4Key(Pairs(keyHex), 0), SM4Place);
  }

  lemma ImportAdmitted(chip: Chip, log: Log, keyHex: string)
    requires Exec(chip, log, SM4Import(keyHex)).rc == 0
    ensures |keyHex| == 32 && IsHex(keyHex) && Allows(chip, log)
    ensures Told(chip, log, DownloadSM4Key(Pairs(keyHex), 0)).rc == 0
  {
    SM4ImportExact(chip, log, keyHex);
  }

  lemma EncryptedAndShown(chip: Chip, enc: (Log, seq<byte>) -> seq<byte>, dec: (Log, seq<byte>) -> seq<byte>, log: Log,
                          plain: seq<byte>, between: seq<Command>)
    requires IsEcbChip(chip, enc, dec) && AllSane(between) && KeepKey(between, SM4Place)
    requires Sane(SM4Encrypt(plain)) && Exec(chip, log, SM4Encrypt(plain)).rc == 0
    ensures var e := Exec(chip, log, SM4Encrypt(plain));
      var p := plain[..Int32(|plain|)];
      && e.hex == Some(ToHex(Ecb(enc, Keying(log, SM4Place), ZeroPad(p)), true)) && Sane(SM4Decrypt(e.hex.value))
      && var mid := RunLog(chip, e.log, between);
         var d := Exec(chip, mid, SM4Decrypt(e.hex.value));
         && (d.rc == 0 <==> p != [] && Willing(chip, mid, false, Opening(e.hex.value)))
         && (d.rc == 0 ==> d.text == Some(UpToNul(p[..Min(|p|, 255)])))
  {
    EncryptedText(chip, enc, dec, log, plain);
    SM4TextRoundTrip(chip, enc, dec, log, plain, between);
  }

  /** Import a key, encrypt, run any commands that import no key, and decrypt: the line printed is the encryption under
      the imported key, and decrypting it shows the text. */
  lemma {:induction false} ImportedKeyRoundTrip(chip: Chip, enc: (Log, seq<byte>) -> seq<byte>,
                                                dec: (Log, seq<byte>) -> seq<byte>, log: Log, keyHex: string,
                                                plain: seq<byte>, between: seq<Command>)
    requires IsEcbChip(chip, enc, dec) && Sane(SM4Encrypt(plain))
    requires AllSane(between) && KeepKey(between, SM4Place)
    requires Exec(chip, log, SM4Import(keyHex)).rc == 0
    requires Exec(chip, Exec(chip, log, SM4Import(keyHex)).log, SM4Encrypt(plain)).rc == 0
    ensures |keyHex| == 32 && IsHex(keyHex)
    ensures var call := DownloadSM4Key(Pairs(keyHex), 0);
      var keying := Keying(log, SM4Place) + [Event(call, Told(chip, log, call))];
      var e := Exec(chip, Exec(chip, log, SM4Import(keyHex)).log, SM4Encrypt(plain));
      var p := plain[..Int32(|plain|)];
      && Told(chip, log, call).rc == 0
      && e.hex == Some(ToHex(Ecb(enc, keying, ZeroPad(p)), true)) && Sane(SM4Decrypt(e.hex.value))
      && var mid := RunLog(chip, e.log, between);
         var d := Exec(chip, mid, SM4Decrypt(e.hex.value));
         && (d.rc == 0 <==> p != [] && Willing(chip, mid, false, Opening(e.hex.value)))
         && (d.rc == 0 ==> d.text == Some(UpToNul(p[..Min(|p|, 255)])))
  {
    var i := Exec(chip, log, SM4Import(keyHex));
    ImportAdmitted(chip, log, keyHex);
    SM4ImportKeys(chip, log, keyHex);
    EncryptedAndShown(chip, enc, dec, i.log, plain, between);
  }

  // ---------- SM4 text ----------

  /** A session without authentication, as far as it gets, in which nothing is asked. */
  function IdlePlain(chip: Chip, log: Log): Log {
    var opened' := Next(chip, log, FuncLibOpen);
    if Opens(chip, log) then Next(chip, opened', FuncLibClose) else opened'
  }

  function AskingPlain(chip: Chip, log: Log, call: Call): Log {
    Next(chip, Next(chip, Next(chip, log, FuncLibOpen), call), FuncLibClose)
  }

  function ToldPlain(chip: Chip, log: Log, call: Call): Response {
    chip(Next(chip, log, FuncLibOpen), call)
  }

  lemma PlainSessionRefuses(chip: Chip, log: Log, req: Option<Request>)
    requires !Opens(chip, log) || req.None? || !Checks(req.value)
    ensures Session(chip, log, false, req).log == IdlePlain(chip, log) && Session(chip, log, false, req).rc == -1
  {
  }

  lemma PlainSessionAsks(chip: Chip, log: Log, kind: byte, input: seq<byte>)
    requires Opens(chip, log) && |input| <= 512
    ensures var call := Call.SM4Crypto(0, kind, 0, input);
      var r, s := ToldPlain(chip, log, call), Session(chip, log, false, Some(Request.SM4Crypto(0, kind, 0, input)));
      s == Reply(r.rc, AskingPlain(chip, log, call), r.out)
  {
  }

  /** The least multiple of 16 that is not below `n`. */
  predicate IsPaddedLength(p: nat, n: nat) {
    p % 16 == 0 && n <= p < n + 16
  }

  lemma PaddedExact(n: nat, p: nat)
    ensures p == Padded(n) <==> IsPaddedLength(p, n)
  {
  }

  lemma ZeroPadFills(s: seq<byte>)
    ensures ZeroPad(s) == Filled(s, Padded(|s|))
  {
  }

  lemma EncryptTaken(chip: Chip, log: Log, plain: seq<byte>, p: nat)
    requires Sane(SM4Encrypt(plain)) && Int32(|plain|) <= 256 && p == Padded(Int32(|plain|)) && Opens(chip, log)
    ensures Int32(|plain|) <= |plain| && p <= 256
    ensures var call := Call.SM4Crypto(0, 0, 0, Filled(plain[..Int32(|plain|)], p));
      var r, e := ToldPlain(chip, log, call), Exec(chip, log, SM4Encrypt(plain));
      && e.log == AskingPlain(chip, log, call) && e.rc == (if r.rc == 0 then 0 else -1) && e.text.None?
      && e.hex == if r.rc == 0 then Some(ToHex(Overlay(Zeros(512), r.out)[..p], true)) else None
  {
    var x := plain[..Int32(|plain|)];
    ZeroPadFills(x);
    PlainSessionAsks(chip, log, 0, ZeroPad(x));
  }

  lemma FilledStart(out: seq<byte>, n: nat, p: nat)
    requires p <= n
    ensures Overlay(Zeros(n), out)[..p] == Filled(out, p)
  {
  }

  /** An encryption takes the text at its length `n` as an int, at most 256 bytes, fills it up with zeros to whole
      blocks, and has them encrypted under key index 0 in mode 0; what is printed is as many bytes of the result in
      upper case. */
  lemma SM4EncryptExact(chip: Chip, log: Log, plain: seq<byte>, n: nat, p: nat)
    requires n <= 0x7FFF_FFFF && (|plain| - n) % 0x1_0000_0000 == 0 && IsPaddedLength(p, n)
    ensures n <= |plain|
    ensures var e := Exec(chip, log, SM4Encrypt(plain));
      if Opens(chip, log) && n <= 256 then
        var call := Call.SM4Crypto(0, 0, 0, Filled(plain[..n], p));
        var r := ToldPlain(chip, log, call);
        && e.log == AskingPlain(chip, log, call) && e.rc == (if r.rc == 0 then 0 else -1) && e.text.None?
        && e.hex == if r.rc == 0 then Some(ToHex(Filled(r.out, p), true)) else None
      else IsRefusal(e, IdlePlain(chip, log))
  {
    Int32Exact(|plain|, n);
    PaddedExact(n, p);
    if Opens(chip, log) && n <= 256 {
      EncryptTaken(chip, log, plain, p);
      FilledStart(ToldPlain(chip, log, Call.SM4Crypto(0, 0, 0, Filled(plain[..n], p))).out, 512, p);
    } else {
      PlainSessionRefuses(chip, log, RequestOf(SM4Encrypt(plain)));
    }
  }

  /** The text that a buffer shows: up to position `n`, where it was made to end, or a zero byte before. */
  predicate IsShown(t: seq<byte>, buffer: seq<byte>, n: nat)
    requires n < |buffer|
  {
    && |t| <= n && t == buffer[..|t|] && (forall i :: 0 <= i < |t| ==> t[i] != 0)
    && (|t| == n || buffer[|t|] == 0)
  }

  lemma {:induction false} UpToNulExact(s: seq<byte>)
    ensures var t := UpToNul(s);
      && |t| <= |s| && t == s[..|t|] && (forall i :: 0 <= i < |t| ==> s[i] != 0) && (|t| == |s| || s[|t|] == 0)
  {
    if s != [] && s[0] != 0 {
      UpToNulExact(s[1..]);
    }
  }

  lemma ShownExact(buffer: seq<byte>, n: nat)
    requires n < |buffer|
    ensures IsShown(UpToNul(buffer[n := 0]), buffer, n)
  {
    UpToNulExact(buffer[n := 0]);
    assert buffer[n := 0][n] == 0;
  }

  /** The lines that a decryption takes. */
  lemma DecryptTakes(hex: string)
    requires Sane(SM4Decrypt(hex))
    ensures Issues(SM4Decrypt(hex)) <==> IsHex(hex) && 2 <= |hex| <= 512
    ensures Issues(SM4Decrypt(hex)) ==> |Pairs(hex)| == |hex| / 2
  {
    PairsCompleteExact(hex);
  }

  lemma DecryptSession(chip: Chip, log: Log, hex: string, req: Request)
    requires Sane(SM4Decrypt(hex)) && Issues(SM4Decrypt(hex)) && RequestOf(SM4Decrypt(hex)) == Some(req)
    ensures var s, e := Session(chip, log, false, Some(req)), Exec(chip, log, SM4Decrypt(hex));
      && e.log == s.log && e.rc == (if s.rc == 0 then 0 else -1) && e.hex.None?
      && e.text == if s.rc == 0 then Some(UpToNul(Overlay(Zeros(256), s.value)[Min(|hex| / 2, 255) := 0])) else None
  {
  }

  lemma PaddedBound(n: nat)
    requires n <= 256
    ensures Padded(n) <= 256
  {
  }

  lemma DecryptTaken(chip: Chip, log: Log, hex: string, c: seq<byte>, p: nat)
    requires IsHex(hex) && 2 <= |hex| <= 512 && c == Pairs(hex) && |c| == |hex| / 2 && p == Padded(|c|)
    requires Sane(SM4Decrypt(hex)) && Issues(SM4Decrypt(hex)) && Opens(chip, log)
    ensures p <= 256
    ensures var call := Call.SM4Crypto(0, 1, 0, Filled(c, p));
      var r, e := ToldPlain(chip, log, call), Exec(chip, log, SM4Decrypt(hex));
      && e.log == AskingPlain(chip, log, call) && e.rc == (if r.rc == 0 then 0 else -1) && e.hex.None?
      && e.text == if r.rc == 0 then Some(UpToNul(Overlay(Zeros(256), r.out)[Min(|hex| / 2, 255) := 0])) else None
  {
    PaddedBound(|c|);
    ZeroPadFills(c);
    DecryptSession(chip, log, hex, Request.SM4Crypto(0, 1, 0, ZeroPad(c)));
    PlainSessionAsks(chip, log, 1, ZeroPad(c));
  }

  lemma DecryptRefused(chip: Chip, log: Log, hex: string)
    requires Sane(SM4Decrypt(hex))
    ensures !Issues(SM4Decrypt(hex)) ==> IsRefusal(Exec(chip, log, SM4Decrypt(hex)), log)
    ensures Issues(SM4Decrypt(hex)) && !Opens(chip, log) ==>
      IsRefusal(Exec(chip, log, SM4Decrypt(hex)), IdlePlain(chip, log))
  {
    if Issues(SM4Decrypt(hex)) && !Opens(chip, log) {
      PlainSessionRefuses(chip, log, RequestOf(SM4Decrypt(hex)));
    }
  }

  lemma DecryptShows(chip: Chip, log: Log, hex: string, p: nat)
    requires IsHex(hex) && 2 <= |hex| <= 512 && Opens(chip, log) && IsPaddedLength(p, |hex| / 2)
    ensures var call := Call.SM4Crypto(0, 1, 0, Filled(Pairs(hex), p));
      var r, e := ToldPlain(chip, log, call), Exec(chip, log, SM4Decrypt(hex));
      && e.log == AskingPlain(chip, log, call) && e.rc == (if r.rc == 0 then 0 else -1) && e.hex.None?
      && (e.text.Some? <==> r.rc == 0)
      && (r.rc == 0 ==> IsShown(e.text.value, Filled(r.out, 256), if |hex| / 2 < 256 then |hex| / 2 else 255))
  {
    DecryptTakes(hex);
    PaddedExact(|hex| / 2, p);
    DecryptTaken(chip, log, hex, Pairs(hex), p);
    var r := ToldPlain(chip, log, Call.SM4Crypto(0, 1, 0, Filled(Pairs(hex), p)));
    OverlayIsFilled(r.out, 256);
    ShownExact(Filled(r.out, 256), Min(|hex| / 2, 255));
  }

  /** A decryption takes lines of 2 to 512 hexadecimal digits, fills the bytes up with zeros to whole blocks, and has
      them decrypted under key index 0 in mode 0; what is shown is the result up to the length of the input, 255 bytes,
      or its first zero byte. */
  lemma SM4DecryptExact(chip: Chip, log: Log, hex: string, p: nat)
    requires |hex| <= 0x7FFF_FFFF_FFFF_FFFF && IsPaddedLength(p, |hex| / 2)
    ensures var e := Exec(chip, log, SM4Decrypt(hex));
      if IsHex(hex) && 2 <= |hex| <= 512 then
        if Opens(chip, log) then
          var call := Call.SM4Crypto(0, 1, 0, Filled(Pairs(hex), p));
          var r := ToldPlain(chip, log, call);
          && e.log == AskingPlain(chip, log, call) && e.rc == (if r.rc == 0 then 0 else -1) && e.hex.None?
          && (e.text.Some? <==> r.rc == 0)
          && (r.rc == 0 ==> IsShown(e.text.value, Filled(r.out, 256), if |hex| / 2 < 256 then |hex| / 2 else 255))
        else IsRefusal(e, IdlePlain(chip, log))
      else IsRefusal(e, log)
  {
    DecryptTakes(hex);
    DecryptRefused(chip, log, hex);
    if IsHex(hex) && 2 <= |hex| <= 512 && Opens(chip, log) {
      DecryptShows(chip, log, hex, p);
    }
  }

  /** The adapter's cipher request by itself: at most 512 bytes, the index cut to eight bits, the rest passed on. */
  lemma CryptoRequestExact(chip: Chip, log: Log, keyIndex: int, kind: byte, mode: byte, input: seq<byte>)
    ensures var r := Perform(chip, log, Request.SM4Crypto(keyIndex, kind, mode, input));
      if |input| <= 512 then
        var call := Call.SM4Crypto(keyIndex % 256, kind, mode, input);
        r == Reply(chip(log, call).rc, Next(chip, log, call), chip(log, call).out)
      else r == Reply(-1, log, [])
  {
  }

  // ---------- SM2 keys ----------

  /** A key pair is generated in the slot that is named. */
  lemma SM2GenerateKeyExact(chip: Chip, log: Log, slot: uint8)
    ensures var e := Exec(chip, log, Command.SM2GenerateKey(slot));
      if Allows(chip, log) then IsAsked(e, chip, log, GenKeyPair(slot)) && e.hex.None? && e.text.None?
      else IsRefusal(e, Idle(chip, log))
  {
    CommandAsks(chip, log, Command.SM2GenerateKey(slot), Request.SM2GenerateKey(slot));
  }

  /** `n` bytes of a filled buffer are the key: 65 or 33 by the prefix, or all up to the last byte that is not zero. */
  predicate IsKeyLength(n: nat, filled: seq<byte>)
    requires |filled| == 512
  {
    if filled[0] == 4 then n == 65
    else if filled[0] == 2 || filled[0] == 3 then n == 33
    else n <= 512 && (n > 0 ==> filled[n - 1] != 0) && forall i :: n <= i < 512 ==> filled[i] == 0
  }

  lemma KeyLengthExact(filled: seq<byte>, n: nat)
    requires |filled| == 512
    ensures n == KeyLength(filled) <==> IsKeyLength(n, filled)
  {
    TrimmedLengthLeast(filled);
    var t := TrimmedLength(filled);
    if n <= 512 && n < t {
      assert filled[t - 1] != 0;
    }
  }

  /** What lies past the key, written out. */
  lemma NothingPastExact(filled: seq<byte>)
    requires |filled| == 512
    ensures NothingPast(filled) <==>
      && (filled[0] == 4 ==> forall i :: 65 <= i < 512 ==> filled[i] == 0)
      && (filled[0] == 2 || filled[0] == 3 ==> forall i :: 33 <= i < 512 ==> filled[i] == 0)
  {
    KeyLengthExact(filled, KeyLength(filled));
  }

  /** The key is handed over in lower-case digits, cut to its length; when the buffer is all zero, the export fails. */
  lemma SM2ExportExact(chip: Chip, log: Log, slot: uint8, n: nat)
    requires IsKeyLength(n, Filled(Told(chip, log, ExportPubKey(slot)).out, 512))
    ensures var e := Exec(chip, log, SM2ExportPublicKeyHex(slot));
      if Allows(chip, log) then
        var call := ExportPubKey(slot);
        var r := Told(chip, log, call);
        var filled := Filled(r.out, 512);
        && e.log == Asking(chip, log, call) && e.text.None? && n <= 512
        && (n == 0 <==> forall i :: 0 <= i < 512 ==> filled[i] == 0)
        && e.rc == (if r.rc == 0 && n == 0 then -1 else r.rc)
        && e.hex == if r.rc == 0 && n > 0 then Some(ToHex(filled[..n], false)) else None
      else IsRefusal(e, Idle(chip, log))
  {
    CommandAsks(chip, log, SM2ExportPublicKeyHex(slot), SM2ExportPublicKey(slot));
    var filled := Filled(Told(chip, log, ExportPubKey(slot)).out, 512);
    OverlayIsFilled(Told(chip, log, ExportPubKey(slot)).out, 512);
    KeyLengthExact(filled, n);
    if n == 0 {
      assert forall i :: 0 <= i < 512 ==> filled[i] == 0;
    }
  }

  /** A key of 1 to 512 bytes is handed to the chip filled up with zeros to 512, for the slot that is named. */
  lemma SM2ImportExact(chip: Chip, log: Log, slot: uint8, hex: string)
    ensures var e := Exec(chip, log, SM2ImportPublicKeyHex(slot, hex));
      if IsHex(hex) then
        if Allows(chip, log) && 2 <= |hex| <= 1024 then
          IsAsked(e, chip, log, ImportPubKey(Filled(Pairs(hex), 512), slot)) && e.hex.None? && e.text.None?
        else IsRefusal(e, Idle(chip, log))
      else IsRefusal(e, log)
  {
    if IsHex(hex) {
      HexLength(hex);
      OverlayIsFilled(Pairs(hex), 512);
      CommandAsks(chip, log, SM2ImportPublicKeyHex(slot, hex), SM2ImportPublicKey(slot, Pairs(hex)));
    }
  }

  // ---------- SM2 encryption and signing ----------

  /** A message of 1 to 65439 bytes is encrypted whole; the ciphertext has 96 bytes more. */
  lemma SM2EncryptExact(chip: Chip, log: Log, slot: uint8, plain: seq<byte>)
    ensures var e := Exec(chip, log, SM2EncryptHex(slot, plain));
      if Allows(chip, log) && 1 <= |plain| <= 65439 then
        var call := Encrypt(plain, slot);
        && IsAsked(e, chip, log, call) && e.text.None?
        && (e.rc == 0 ==> e.hex == Some(ToHex(Filled(Told(chip, log, call).out, |plain| + 96), false)))
      else IsRefusal(e, Idle(chip, log))
  {
    CommandAsks(chip, log, SM2EncryptHex(slot, plain), SM2Encrypt(slot, plain));
    if 1 <= |plain| <= 65439 {
      assert Seen(plain) == plain;
      OverlayIsFilled(Told(chip, log, Encrypt(plain, slot)).out, |plain| + 96);
    }
  }

  lemma HexLength(hex: string)
    requires IsHex(hex)
    ensures |hex| == 2 * |Pairs(hex)|
  {
    PairsCompleteExact(hex);
  }

  lemma DecryptAsks(chip: Chip, log: Log, slot: uint8, hex: string, cipher: seq<byte>)
    requires IsHex(hex) && cipher == Pairs(hex)
    ensures var e := Exec(chip, log, SM2DecryptHex(slot, hex));
      if Allows(chip, log) && |cipher| >= 96 then
        var call := Decrypt(cipher[..|cipher| % 65536], slot);
        && IsAsked(e, chip, log, call) && e.hex.None?
        && (e.rc == 0 ==> e.text == Some(Overlay(Zeros(|cipher| - 96), Told(chip, log, call).out)))
      else IsRefusal(e, Idle(chip, log))
  {
    CommandAsks(chip, log, SM2DecryptHex(slot, hex), SM2Decrypt(slot, cipher));
  }

  /** A ciphertext of at least 96 bytes is decrypted as far as sixteen bits can count it; the message has 96 bytes less
      than the ciphertext given. */
  lemma SM2DecryptExact(chip: Chip, log: Log, slot: uint8, hex: string)
    ensures var e := Exec(chip, log, SM2DecryptHex(slot, hex));
      if IsHex(hex) then
        var cipher := Pairs(hex);
        if Allows(chip, log) && |hex| >= 192 then
          && |cipher| >= 96
          && var call := Decrypt(cipher[..|cipher| % 65536], slot);
             && IsAsked(e, chip, log, call) && e.hex.None?
             && (e.rc == 0 ==> e.text == Some(Filled(Told(chip, log, call).out, |cipher| - 96)))
        else IsRefusal(e, Idle(chip, log))
      else IsRefusal(e, log)
  {
    if IsHex(hex) {
      var cipher := Pairs(hex);
      HexLength(hex);
      DecryptAsks(chip, log, slot, hex, cipher);
      if |cipher| >= 96 {
        OverlayIsFilled(Told(chip, log, Decrypt(cipher[..|cipher| % 65536], slot)).out, |cipher| - 96);
      }
    }
  }

  /** Data that are not empty are signed with user ID 0 as far as sixteen bits can count them; the signature has 64
      bytes. */
  lemma SM2SignExact(chip: Chip, log: Log, slot: uint8, data: seq<byte>)
    ensures var e := Exec(chip, log, SM2SignHex(slot, data));
      if Allows(chip, log) && data != [] then
        var call := Sign(data[..|data| % 65536], slot, 0);
        && IsAsked(e, chip, log, call) && e.text.None?
        && (e.rc == 0 ==> e.hex == Some(ToHex(Filled(Told(chip, log, call).out, 64), false)))
      else IsRefusal(e, Idle(chip, log))
  {
    CommandAsks(chip, log, SM2SignHex(slot, data), SM2Sign(slot, data));
    if data != [] {
      OverlayIsFilled(Told(chip, log, Sign(data[..|data| % 65536], slot, 0)).out, 64);
    }
  }

  // ---------- SM2 verification ----------

  /** The arguments that a verification takes. */
  predicate Verifiable(pubHex: string, data: seq<byte>, sigHex: string) {
    IsHex(pubHex) && IsHex(sigHex) && 2 <= |pubHex| <= 1024 && data != [] && sigHex != ""
  }

  /** What a verification asks: first that the key be taken into slot 3, then whether the signature is good. */
  function Bringing(pubHex: string): Call {
    ImportPubKey(Filled(Pairs(pubHex), 512), 3)
  }

  function Asked(data: seq<byte>, sigHex: string): Call {
    Verify(Filled(Pairs(sigHex), 128), data[..|data| % 65536], 3, 0)
  }

  lemma VerifyTaken(chip: Chip, log: Log, pubHex: string, data: seq<byte>, sigHex: string)
    requires Verifiable(pubHex, data, sigHex)
    ensures var e := Exec(chip, log, SM2VerifyHex(pubHex, data, sigHex));
      var key, after := chip(log, Bringing(pubHex)), Next(chip, log, Bringing(pubHex));
      && e.hex.None? && e.text.None?
      && (key.rc != 0 ==> e.rc == key.rc && e.log == after)
      && (key.rc == 0 && |sigHex| > 256 ==> e.rc == -1 && e.log == after)
      && (key.rc == 0 && |sigHex| <= 256 ==>
            e.rc == chip(after, Asked(data, sigHex)).rc && e.log == Next(chip, after, Asked(data, sigHex)))
  {
    PairsCompleteExact(pubHex);
    PairsCompleteExact(sigHex);
    OverlayIsFilled(Pairs(pubHex), 512);
    OverlayIsFilled(Pairs(sigHex), 128);
  }

  /** A verification returns the chip's own code for the signature when it comes to that, its code for the key when the
      chip does not take it, and -1 otherwise. */
  lemma SM2VerifyExact(chip: Chip, log: Log, pubHex: string, data: seq<byte>, sigHex: string)
    ensures var e := Exec(chip, log, SM2VerifyHex(pubHex, data, sigHex));
      if Verifiable(pubHex, data, sigHex) then
        var key, after := chip(log, Bringing(pubHex)), Next(chip, log, Bringing(pubHex));
        && e.hex.None? && e.text.None?
        && (key.rc != 0 ==> e.rc == key.rc && e.log == after)
        && (key.rc == 0 && |sigHex| > 256 ==> e.rc == -1 && e.log == after)
        && (key.rc == 0 && |sigHex| <= 256 ==>
              e.rc == chip(after, Asked(data, sigHex)).rc && e.log == Next(chip, after, Asked(data, sigHex)))
      else IsRefusal(e, log)
  {
    PairsCompleteExact(pubHex);
    PairsCompleteExact(sigHex);
    if Verifiable(pubHex, data, sigHex) {
      VerifyTaken(chip, log, pubHex, data, sigHex);
    }
  }

  /** Read off the log alone. */
  lemma VerifyCodeExact(chip: Chip, log: Log, pubHex: string, data: seq<byte>, sigHex: string)
    ensures var e := Exec(chip, log, SM2VerifyHex(pubHex, data, sigHex));
      var n := |e.log| - |log|;
      && 0 <= n <= 2
      && (n == 2 ==> e.log[|log|].response.rc == 0 && e.rc == e.log[|log| + 1].response.rc)
      && (n == 1 && e.log[|log|].response.rc != 0 ==> e.rc == e.log[|log|].response.rc)
      && (n == 1 && e.log[|log|].response.rc == 0 ==> e.rc == -1)
      && (n == 0 ==> e.rc == -1)
  {
    SM2VerifyExact(chip, log, pubHex, data, sigHex);
  }

  /** A signature is reported good exactly when the arguments are in order and the chip took the key and said so. */
  lemma VerifiedExact(chip: Chip, log: Log, pubHex: string, data: seq<byte>, sigHex: string)
    ensures Exec(chip, log, SM2VerifyHex(pubHex, data, sigHex)).rc == 0 <==>
      && Verifiable(pubHex, data, sigHex) && |sigHex| <= 256
      && chip(log, Bringing(pubHex)).rc == 0
      && chip(Next(chip, log, Bringing(pubHex)), Asked(data, sigHex)).rc == 0
  {
    SM2VerifyExact(chip, log, pubHex, data, sigHex);
  }
}
