/** What each client command does, on plain values: the sessions it opens and what it returns. */
module ClientSpec {
  import opened Bytes
  import opened Sdk
  import opened AdapterSpec
  import opened Hex

  const PLAIN_MAX := 256
  const SM4_KEY_INDEX := 0
  const ENCRYPT: byte := 0
  const DECRYPT: byte := 1
  const ECB: byte := 0

  datatype Command =
    | SM4Import(keyHex: string)
    | SM4Encrypt(plain: seq<byte>)
    | SM4Decrypt(hex: string)
    | SM2GenerateKey(slot: uint8)
    | SM2ExportPublicKeyHex(slot: uint8)
    | SM2ImportPublicKeyHex(slot: uint8, hex: string)
    | SM2EncryptHex(slot: uint8, plain: seq<byte>)
    | SM2DecryptHex(slot: uint8, hex: string)
    | SM2SignHex(slot: uint8, plain: seq<byte>)
    | SM2VerifyHex(pubHex: string, plain: seq<byte>, hex: string)

  /** The return code, the log afterwards, and the text printed or assigned, if there is any. */
  datatype Answer = Answer(rc: int, log: Log, hex: Option<string>, text: Option<seq<byte>>)

  // ---------- Sessions ----------

  function Shut(chip: Chip, r: Reply): Reply {
    r.(log := Ask(chip, r.log, FuncLibClose).log)
  }

  function Work(chip: Chip, log: Log, req: Option<Request>): Reply {
    if req.None? then Refuse(log) else Perform(chip, log, req.value)
  }

  /** Open, authenticate if asked to, carry out at most one request, close. */
  function Session(chip: Chip, log: Log, authenticate: bool, req: Option<Request>): Reply {
    var begun := Ask(chip, log, FuncLibOpen);
    if begun.rc != RSP_STATUS_OK then Refuse(begun.log)
    else if !authenticate then Shut(chip, Work(chip, begun.log, req))
    else
      var allowed := Ask(chip, begun.log, DevAuth);
      if allowed.rc != RSP_STATUS_OK then Shut(chip, Refuse(allowed.log))
      else Shut(chip, Work(chip, allowed.log, req))
  }

  // ---------- Text ----------

  /** A length rounded up to whole blocks. */
  function Padded(n: nat): nat {
    (n + 15) / 16 * 16
  }

  /** Bytes filled up with zeros to whole blocks. */
  function ZeroPad(s: seq<byte>): (r: seq<byte>)
    ensures |r| == Padded(|s|)
  {
    s + Zeros(Padded(|s|) - |s|)
  }

  /** A zeroed buffer that received `s` holds it padded. */
  lemma PaddedInBuffer(s: seq<byte>, n: nat)
    requires Padded(|s|) <= n
    ensures Overlay(Zeros(n), s)[..Padded(|s|)] == ZeroPad(s)
  {
  }

  /** What a C string shows of a buffer. */
  function UpToNul(s: seq<byte>): seq<byte> {
    if s == [] || s[0] == 0 then [] else [s[0]] + UpToNul(s[1..])
  }

  // ---------- Commands ----------

  /** What the code asks of its caller: strings that can exist, and for sm4 encryption one whose length does not turn
      negative when it is cast to int, since that many bytes are then copied. */
  predicate Sane(cmd: Command) {
    match cmd
    case SM4Encrypt(plain) => 0 <= Int32(|plain|)
    case SM4Decrypt(hex) => |hex| <= MAX_STRING
    case _ => true
  }

  /** The checks made before the hardware is touched. */
  predicate Issues(cmd: Command)
    requires Sane(cmd)
  {
    match cmd
    case SM4Import(keyHex) => |keyHex| == 32 && IsHex(keyHex)
    case SM4Decrypt(hex) =>
      var n := Int32(|hex|) / 2;
      Int32(|hex|) % 2 == 0 && n != 0 && n <= PLAIN_MAX && |hex| == 2 * n && IsHex(hex)
    case SM2ImportPublicKeyHex(_, hex) => IsHex(hex)
    case SM2DecryptHex(_, hex) => IsHex(hex)
    case SM2VerifyHex(pubHex, _, hex) => IsHex(pubHex) && IsHex(hex)
    case _ => true
  }

  predicate Authenticates(cmd: Command) {
    !cmd.SM4Encrypt? && !cmd.SM4Decrypt?
  }

  /** The request made of the adapter; a text too long to encrypt is found out inside the session. */
  function RequestOf(cmd: Command): Option<Request>
    requires Sane(cmd)
  {
    match cmd
    case SM4Import(keyHex) => Some(ImportSM4Key(Pairs(keyHex)))
    case SM4Encrypt(plain) =>
      var n := Int32(|plain|);
      if n > PLAIN_MAX then None
      else Some(Request.SM4Crypto(SM4_KEY_INDEX, ENCRYPT, ECB, ZeroPad(plain[..n])))
    case SM4Decrypt(hex) => Some(Request.SM4Crypto(SM4_KEY_INDEX, DECRYPT, ECB, ZeroPad(Pairs(hex))))
    case SM2GenerateKey(slot) => Some(Request.SM2GenerateKey(slot))
    case SM2ExportPublicKeyHex(slot) => Some(SM2ExportPublicKey(slot))
    case SM2ImportPublicKeyHex(slot, hex) => Some(SM2ImportPublicKey(slot, Pairs(hex)))
    case SM2EncryptHex(slot, plain) => Some(SM2Encrypt(slot, plain))
    case SM2DecryptHex(slot, hex) => Some(SM2Decrypt(slot, Pairs(hex)))
    case SM2SignHex(slot, plain) => Some(SM2Sign(slot, plain))
    case SM2VerifyHex(pubHex, plain, hex) => Some(SM2Verify(Pairs(pubHex), plain, Pairs(hex)))
  }

  /** What is printed or assigned after a success. */
  function Present(cmd: Command, value: seq<byte>): (Option<string>, Option<seq<byte>>)
    requires Sane(cmd) && Issues(cmd)
    requires cmd.SM4Encrypt? ==> RequestOf(cmd).Some?
  {
    match cmd
    case SM4Encrypt(plain) => (Some(ToHex(Overlay(Zeros(512), value)[..Padded(Int32(|plain|))], true)), None)
    case SM4Decrypt(hex) =>
      (None, Some(UpToNul(Overlay(Zeros(PLAIN_MAX), value)[Min(|hex| / 2, PLAIN_MAX - 1) := 0])))
    case SM2ExportPublicKeyHex(_) => (Some(ToHex(value, false)), None)
    case SM2EncryptHex(_, _) => (Some(ToHex(value, false)), None)
    case SM2SignHex(_, _) => (Some(ToHex(value, false)), None)
    case SM2DecryptHex(_, _) => (None, Some(value))
    case _ => (None, None)
  }

  /** The SM4 commands report every failure as -1; the SM2 commands pass the adapter's code on. */
  function Exec(chip: Chip, log: Log, cmd: Command): Answer
    requires Sane(cmd)
  {
    if !Issues(cmd) then Answer(-1, log, None, None)
    else
      var req := RequestOf(cmd);
      var r := if cmd.SM2VerifyHex? then Work(chip, log, req)
               else Session(chip, log, Authenticates(cmd), req);
      if r.rc != RSP_STATUS_OK
      then Answer(if cmd.SM4Import? || !Authenticates(cmd) then -1 else r.rc, r.log, None, None)
      else
        var shown := Present(cmd, r.value);
        Answer(0, r.log, shown.0, shown.1)
  }

  // ---------- Runs ----------

  ghost predicate AllSane(cmds: seq<Command>) {
    forall k | 0 <= k < |cmds| :: Sane(cmds[k])
  }

  /** The log after one command after the other. */
  function RunLog(chip: Chip, log: Log, cmds: seq<Command>): Log
    requires AllSane(cmds)
  {
    if cmds == [] then log
    else Exec(chip, RunLog(chip, log, cmds[..|cmds| - 1]), cmds[|cmds| - 1]).log
  }
}

/** The client object; each method carries out one command. */
module Client {
  import opened Bytes
  import opened Sdk
  import opened AdapterSpec
  import opened Hardware
  import opened Hex
  import opened ClientSpec
  import opened Sessions

  class AuthClient {
    const hw: HardwareAdapter
    var isDeviceOpen: bool
    var sm4KeyIndex: int
    // The commands carried out so far, and the log before the first of them
    ghost var commands: seq<Command>
    ghost const startLog: Log

    /** The flag is never set and the key index never changes. */
    ghost predicate Valid()
      reads this
    {
      !isDeviceOpen && sm4KeyIndex == SM4_KEY_INDEX
    }

    constructor (hw: HardwareAdapter)
      ensures Valid() && this.hw == hw && commands == [] && FollowsCommands()
    {
      this.hw, isDeviceOpen, sm4KeyIndex := hw, false, 0;
      commands, startLog := [], hw.device.log;
    }

    /** The hardware log is the one that the commands lead to. */
    ghost predicate FollowsCommands()
      reads this, hw.device
    {
      AllSane(commands) && hw.device.log == RunLog(hw.device.chip, startLog, commands)
    }

    /** The destructor. As the flag of a valid client is not set, no session is closed a second time. */
    method Dispose()
      modifies hw.device
      ensures Valid() ==> hw.device.log == old(hw.device.log)
    {
      if isDeviceOpen {
        hw.Close();
      }
    }

    /** The command was carried out, from the log before to the log now. */
    twostate predicate Did(cmd: Command, rc: int, new hex: Option<string>, new text: Option<seq<byte>>)
      requires Sane(cmd)
      reads this, hw.device
    {
      && Valid() && commands == old(commands) + [cmd]
      && Answer(rc, hw.device.log, hex, text) == Exec(hw.device.chip, old(hw.device.log), cmd)
    }

    /** So what is shown of runs of commands goes on holding of the object. */
    twostate lemma KeepsFollowing(cmd: Command, rc: int, new hex: Option<string>, new text: Option<seq<byte>>)
      requires Sane(cmd) && old(FollowsCommands()) && Did(cmd, rc, hex, text)
      ensures FollowsCommands()
    {
      assert commands[..|commands| - 1] == old(commands);
    }

    /** In particular no session of its is ever left open between commands. */
    lemma SessionsClosed()
      requires FollowsCommands()
      ensures Walk(true, |startLog|, hw.device.log) == Closed
    {
      RunIsSafe(hw.device.chip, startLog, commands);
    }

    static method ParseKey(sm4Key: string) returns (ok: bool, key: array<byte>)
      ensures fresh(key) && key.Length == 16
      ensures ok <==> Issues(Command.SM4Import(sm4Key))
      ensures ok ==> key[..] == Pairs(sm4Key)
    {
      key := new byte[16](_ => 0);
      if |sm4Key| != 32 {
        return false, key;
      }
      ok := HexToBytes(sm4Key, key, key.Length);
      PairsCompleteExact(sm4Key);
    }

    method SM4Import(sm4Key: string) returns (rc: int)
      requires Valid()
      modifies this, hw.device
      ensures Did(Command.SM4Import(sm4Key), rc, None, None)
    {
      commands := commands + [Command.SM4Import(sm4Key)];
      var parsed, key := ParseKey(sm4Key);
      if !parsed {
        return -1;
      }
      var ret := hw.Open();
      if ret != RSP_STATUS_OK {
        return -1;
      }
      ret := hw.Authenticate();
      if ret != RSP_STATUS_OK {
        hw.Close();
        return -1;
      }
      ret := hw.ImportSM4Key(key);
      if ret != RSP_STATUS_OK {
        hw.Close();
        return -1;
      }
      sm4KeyIndex := 0;
      hw.Close();
      return 0;
    }

    /** Copies a text into a zeroed buffer, where it stands padded. */
    static method TakeText(text: seq<byte>, input: array<byte>)
      requires |text| <= PLAIN_MAX && input[..] == Zeros(PLAIN_MAX)
      modifies input
      ensures input[..Padded(|text|)] == ZeroPad(text)
    {
      HardwareAdapter.Receive(input, text);
      PaddedInBuffer(text, PLAIN_MAX);
    }

    /** Returns the hexadecimal line that is printed. */
    method SM4Encrypt(plaintext: seq<byte>) returns (rc: int, printed: Option<string>)
      requires Valid() && Sane(Command.SM4Encrypt(plaintext))
      modifies this`commands, hw.device
      ensures Did(Command.SM4Encrypt(plaintext), rc, printed, None)
    {
      commands := commands + [Command.SM4Encrypt(plaintext)];
      var ret := hw.Open();
      if ret != RSP_STATUS_OK {
        return -1, None;
      }
      var input := new byte[PLAIN_MAX](_ => 0);
      var output := new byte[512](_ => 0);
      assert input[..] == Zeros(PLAIN_MAX) && output[..] == Zeros(512);
      var inputLen := Int32(|plaintext|);
      if inputLen > input.Length {
        hw.Close();
        return -1, None;
      }
      TakeText(plaintext[..inputLen], input);
      var paddedLen := Padded(inputLen);
      ret := hw.SM4Crypto(sm4KeyIndex, ENCRYPT, ECB, input, paddedLen, output);
      if ret != RSP_STATUS_OK {
        hw.Close();
        return -1, None;
      }
      var line := PrintHex(output[..paddedLen], true);
      hw.Close();
      return 0, Some(line);
    }

    /** The parser called with an int, which turns into a huge size_t when negative and then matches no string. */
    static method HexToBytesInt(hex: string, out: array<byte>, length: int) returns (ok: bool)
      requires |hex| <= MAX_STRING && -0x8000_0000 <= length <= out.Length && length < 0x8000_0000
      modifies out
      ensures ok <==> |hex| == 2 * length && IsHex(hex)
      ensures ok ==> |Pairs(hex)| == length
      ensures out[..] == if |hex| == 2 * length then Overlay(old(out[..]), Pairs(hex)) else old(out[..])
    {
      SizeMatchesExact(|hex|, length);
      PairsCompleteExact(hex);
      ok := HexToBytes(hex, out, length % SIZE);
    }

    /** Takes the bytes of a line into a zeroed buffer, unless the line is malformed. */
    static method ParseLine(hex: string, ciphertext: array<byte>) returns (ok: bool, cipherLen: nat)
      requires |hex| <= MAX_STRING && ciphertext[..] == Zeros(PLAIN_MAX)
      modifies ciphertext
      ensures ok <==> Issues(Command.SM4Decrypt(hex))
      ensures ok ==> 0 < cipherLen == |hex| / 2 <= PLAIN_MAX && cipherLen == |Pairs(hex)|
      ensures ok ==> ciphertext[..Padded(cipherLen)] == ZeroPad(Pairs(hex))
    {
      var hexLen := Int32(|hex|);
      if hexLen % 2 != 0 {
        return false, 0;
      }
      var n := hexLen / 2;
      if n == 0 || n > PLAIN_MAX {
        return false, 0;
      }
      ok := HexToBytesInt(hex, ciphertext, n);
      if ok {
        cipherLen := n;
        PaddedInBuffer(Pairs(hex), PLAIN_MAX);
      } else {
        cipherLen := 0;
      }
    }

    /** The C string that is printed of a buffer in which the text was marked to end. */
    static method Terminated(plaintext: array<byte>, cipherLen: nat) returns (text: seq<byte>)
      requires plaintext.Length == PLAIN_MAX
      modifies plaintext
      ensures text == UpToNul(old(plaintext[..])[Min(cipherLen, PLAIN_MAX - 1) := 0])
    {
      var outLen := cipherLen;
      if outLen >= plaintext.Length {
        outLen := plaintext.Length - 1;
      }
      plaintext[outLen] := 0;
      assert plaintext[..] == old(plaintext[..])[outLen := 0];
      return UpToNul(plaintext[..]);
    }

    /** Returns the text that is printed. */
    method SM4Decrypt(ciphertextHex: string) returns (rc: int, printed: Option<seq<byte>>)
      requires Valid() && Sane(Command.SM4Decrypt(ciphertextHex))
      modifies this`commands, hw.device
      ensures Did(Command.SM4Decrypt(ciphertextHex), rc, None, printed)
    {
      commands := commands + [Command.SM4Decrypt(ciphertextHex)];
      var ciphertext, plaintext := new byte[PLAIN_MAX](_ => 0), new byte[PLAIN_MAX](_ => 0);
      assert ciphertext[..] == Zeros(PLAIN_MAX) && plaintext[..] == Zeros(PLAIN_MAX);
      var parsed, cipherLen := ParseLine(ciphertextHex, ciphertext);
      if !parsed {
        return -1, None;
      }
      var ret := hw.Open();
      if ret != RSP_STATUS_OK {
        return -1, None;
      }
      var paddedLen := Padded(cipherLen);
      ret := hw.SM4Crypto(sm4KeyIndex, DECRYPT, ECB, ciphertext, paddedLen, plaintext);
      if ret != RSP_STATUS_OK {
        hw.Close();
        return -1, None;
      }
      var text := Terminated(plaintext, cipherLen);
      hw.Close();
      return 0, Some(text);
    }

    method SM2GenerateKey(slot: uint8) returns (rc: int)
      requires Valid()
      modifies this`commands, hw.device
      ensures Did(Command.SM2GenerateKey(slot), rc, None, None)
    {
      commands := commands + [Command.SM2GenerateKey(slot)];
      rc := hw.Open();
      if rc != RSP_STATUS_OK {
        return -1;
      }
      rc := hw.Authenticate();
      if rc != RSP_STATUS_OK {
        hw.Close();
        return -1;
      }
      rc := hw.SM2GenerateKey(slot);
      hw.Close();
    }

    /** None when the caller's string is left as it was; so for every string handed back below. */
    method SM2ExportPublicKeyHex(slot: uint8) returns (rc: int, outPubHex: Option<string>)
      requires Valid()
      modifies this`commands, hw.device
      ensures Did(Command.SM2ExportPublicKeyHex(slot), rc, outPubHex, None)
    {
      commands := commands + [Command.SM2ExportPublicKeyHex(slot)];
      rc := hw.Open();
      if rc != RSP_STATUS_OK {
        return -1, None;
      }
      rc := hw.Authenticate();
      if rc != RSP_STATUS_OK {
        hw.Close();
        return -1, None;
      }
      var pub;
      rc, pub := hw.SM2ExportPublicKey(slot);
      hw.Close();
      if rc != RSP_STATUS_OK {
        return rc, None;
      }
      var hex := PrintHex(pub, false);
      return 0, Some(hex);
    }

    method SM2ImportPublicKeyHex(slot: uint8, pubHex: string) returns (rc: int)
      requires Valid()
      modifies this`commands, hw.device
      ensures Did(Command.SM2ImportPublicKeyHex(slot, pubHex), rc, None, None)
    {
      commands := commands + [Command.SM2ImportPublicKeyHex(slot, pubHex)];
      var parsed, pub := HexToBytesVec(pubHex, []);
      if !parsed {
        return -1;
      }
      rc := hw.Open();
      if rc != RSP_STATUS_OK {
        return -1;
      }
      rc := hw.Authenticate();
      if rc != RSP_STATUS_OK {
        hw.Close();
        return -1;
      }
      rc := hw.SM2ImportPublicKey(slot, pub);
      hw.Close();
    }

    method SM2EncryptHex(slot: uint8, plaintext: seq<byte>) returns (rc: int, outCipherHex: Option<string>)
      requires Valid()
      modifies this`commands, hw.device
      ensures Did(Command.SM2EncryptHex(slot, plaintext), rc, outCipherHex, None)
    {
      commands := commands + [Command.SM2EncryptHex(slot, plaintext)];
      rc := hw.Open();
      if rc != RSP_STATUS_OK {
        return -1, None;
      }
      rc := hw.Authenticate();
      if rc != RSP_STATUS_OK {
        hw.Close();
        return -1, None;
      }
      var out;
      rc, out := hw.SM2Encrypt(slot, plaintext);
      hw.Close();
      if rc != RSP_STATUS_OK {
        return rc, None;
      }
      var hex := PrintHex(out, false);
      return 0, Some(hex);
    }

    method SM2DecryptHex(slot: uint8, cipherHex: string) returns (rc: int, outPlain: Option<seq<byte>>)
      requires Valid()
      modifies this`commands, hw.device
      ensures Did(Command.SM2DecryptHex(slot, cipherHex), rc, None, outPlain)
    {
      commands := commands + [Command.SM2DecryptHex(slot, cipherHex)];
      var parsed, cipher := HexToBytesVec(cipherHex, []);
      if !parsed {
        return -1, None;
      }
      rc := hw.Open();
      if rc != RSP_STATUS_OK {
        return -1, None;
      }
      rc := hw.Authenticate();
      if rc != RSP_STATUS_OK {
        hw.Close();
        return -1, None;
      }
      var plain;
      rc, plain := hw.SM2Decrypt(slot, cipher);
      hw.Close();
      if rc != RSP_STATUS_OK {
        return rc, None;
      }
      return 0, Some(plain);
    }

    method SM2SignHex(slot: uint8, data: seq<byte>) returns (rc: int, outSigHex: Option<string>)
      requires Valid()
      modifies this`commands, hw.device
      ensures Did(Command.SM2SignHex(slot, data), rc, outSigHex, None)
    {
      commands := commands + [Command.SM2SignHex(slot, data)];
      rc := hw.Open();
      if rc != RSP_STATUS_OK {
        return -1, None;
      }
      rc := hw.Authenticate();
      if rc != RSP_STATUS_OK {
        hw.Close();
        return -1, None;
      }
      ghost var inside := hw.device.log;
      var sig;
      rc, sig := hw.SM2Sign(slot, data);
      assert Reply(rc, hw.device.log, sig) == Work(hw.device.chip, inside, RequestOf(Command.SM2SignHex(slot, data)));
      hw.Close();
      if rc != RSP_STATUS_OK {
        return rc, None;
      }
      var hex := PrintHex(sig, false);
      return 0, Some(hex);
    }

    method SM2VerifyHex(pubHex: string, data: seq<byte>, sigHex: string) returns (rc: int)
      requires Valid()
      modifies this`commands, hw.device
      ensures Did(Command.SM2VerifyHex(pubHex, data, sigHex), rc, None, None)
    {
      commands := commands + [Command.SM2VerifyHex(pubHex, data, sigHex)];
      var parsed, pub := HexToBytesVec(pubHex, []);
      if !parsed {
        return -1;
      }
      var parsedSig, sig := HexToBytesVec(sigHex, []);
      if !parsedSig {
        return -1;
      }
      rc := hw.SM2Verify(pub, data, sig);
    }
  }
}
