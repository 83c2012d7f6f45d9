/** The security chip as the SDK presents it: anything at all may come back from any call. */
module Sdk {
  import opened Bytes

  const RSP_STATUS_OK := 0

  /** One SDK call with the bytes the chip gets to read. */
  datatype Call =
    | FuncLibOpen
    | FuncLibClose
    | DevAuth
    | DownloadSM4Key(key: seq<byte>, index: uint8)
    | SM4Crypto(keyIndex: uint8, kind: byte, mode: byte, input: seq<byte>)
    | GenKeyPair(slot: uint8)
    | ExportPubKey(slot: uint8)
    | ImportPubKey(key: seq<byte>, slot: uint8)
    | Encrypt(msg: seq<byte>, slot: uint8)
    | Decrypt(cipher: seq<byte>, slot: uint8)
    | Sign(msg: seq<byte>, slot: uint8, id: uint8)
    | Verify(signature: seq<byte>, msg: seq<byte>, slot: uint8, id: uint8)

  /** The return code, and what the chip writes from the start of the output buffer it was given. */
  datatype Response = Response(rc: int, out: seq<byte>)

  datatype Event = Event(call: Call, response: Response)

  type Log = seq<Event>

  /** A chip answers a call as it likes, and may take everything that happened before into account. */
  type Chip = (Log, Call) -> Response

  class Device {
    const chip: Chip
    var log: Log

    constructor (chip: Chip)
      ensures this.chip == chip && log == []
    {
      this.chip, log := chip, [];
    }

    method Invoke(call: Call) returns (r: Response)
      modifies this
      ensures r == chip(old(log), call) && log == old(log) + [Event(call, r)]
    {
      r := chip(log, call);
      log := log + [Event(call, r)];
    }
  }
}

/** What the hardware adapter does with each request, on plain values. */
module AdapterSpec {
  import opened Bytes
  import opened Sdk

  const KEY_BUFFER := 512
  const SM4_BUFFER := 512
  const SIGN_BUFFER := 128
  const SIGNATURE_LEN := 64
  const SM2_OVERHEAD := 96
  const TEMP_SLOT: uint8 := 3

  /** A call through the hardware interface that does work. */
  datatype Request =
    | ImportSM4Key(key: seq<byte>)
    | SM4Crypto(keyIndex: int, kind: byte, mode: byte, input: seq<byte>)
    | SM2GenerateKey(slot: uint8)
    | SM2ExportPublicKey(slot: uint8)
    | SM2ImportPublicKey(slot: uint8, pub: seq<byte>)
    | SM2Encrypt(slot: uint8, plain: seq<byte>)
    | SM2Decrypt(slot: uint8, cipher: seq<byte>)
    | SM2Sign(slot: uint8, data: seq<byte>)
    | SM2Verify(pub: seq<byte>, data: seq<byte>, sig: seq<byte>)

  /** The return code, the log afterwards, and the bytes handed back. */
  datatype Reply = Reply(rc: int, log: Log, value: seq<byte>)

  function Ask(chip: Chip, log: Log, call: Call): Reply {
    var r := chip(log, call);
    Reply(r.rc, log + [Event(call, r)], r.out)
  }

  function Refuse(log: Log): Reply {
    Reply(-1, log, [])
  }

  /** What is left of a key buffer without its trailing zeros. */
  function TrimmedLength(s: seq<byte>): (n: nat)
    ensures n <= |s|
  {
    if s == [] || s[|s| - 1] != 0 then |s| else TrimmedLength(s[..|s| - 1])
  }

  /** The length taken for an exported key: by its prefix, or else without its trailing zeros. */
  function KeyLength(tmp: seq<byte>): (n: nat)
    requires |tmp| == KEY_BUFFER
    ensures n <= KEY_BUFFER
  {
    if tmp[0] == 0x04 then 65
    else if tmp[0] == 0x02 || tmp[0] == 0x03 then 33
    else TrimmedLength(tmp)
  }

  /** The key padded with zeros, as the SDK is given it. */
  function KeyImage(pub: seq<byte>): seq<byte> {
    Overlay(Zeros(KEY_BUFFER), pub)
  }

  /** The part of a message that a 16-bit length lets the SDK see. */
  function Seen(data: seq<byte>): seq<byte> {
    data[..UInt16(|data|)]
  }

  /** The adapter's own checks. */
  predicate Checks(req: Request) {
    match req
    case SM4Crypto(_, _, _, input) => |input| <= SM4_BUFFER
    case SM2ImportPublicKey(_, pub) => 0 < |pub| <= KEY_BUFFER
    case SM2Encrypt(_, plain) => plain != [] && |plain| + SM2_OVERHEAD <= 65535
    case SM2Decrypt(_, cipher) => |cipher| >= SM2_OVERHEAD
    case SM2Sign(_, data) => data != []
    case SM2Verify(pub, data, sig) => 0 < |pub| <= KEY_BUFFER && data != [] && sig != []
    case _ => true
  }

  /** The SDK call made for a request; a verification first imports the key. */
  function CallOf(req: Request): Call
    requires Checks(req)
  {
    match req
    case ImportSM4Key(key) => DownloadSM4Key(key, 0)
    case SM4Crypto(keyIndex, kind, mode, input) => Call.SM4Crypto(keyIndex % 0x100, kind, mode, input)
    case SM2GenerateKey(slot) => GenKeyPair(slot)
    case SM2ExportPublicKey(slot) => ExportPubKey(slot)
    case SM2ImportPublicKey(slot, pub) => ImportPubKey(KeyImage(pub), slot)
    case SM2Encrypt(slot, plain) => Encrypt(Seen(plain), slot)
    case SM2Decrypt(slot, cipher) => Decrypt(Seen(cipher), slot)
    case SM2Sign(slot, data) => Sign(Seen(data), slot, 0)
    case SM2Verify(pub, _, _) => ImportPubKey(KeyImage(pub), TEMP_SLOT)
  }

  /** The code and bytes handed back: nothing unless the status is OK, and then what a zeroed buffer holds. The
      cipher's output goes straight to the caller's buffer. */
  function Decode(req: Request, rc: int, out: seq<byte>): (int, seq<byte>)
    requires Checks(req)
  {
    if req.SM4Crypto? then (rc, out)
    else if rc != RSP_STATUS_OK then (rc, [])
    else match req
      case SM2ExportPublicKey(_) =>
        var tmp := KeyImage(out);
        if KeyLength(tmp) == 0 then (-1, []) else (rc, tmp[..KeyLength(tmp)])
      case SM2Encrypt(_, plain) => (rc, Overlay(Zeros(|plain| + SM2_OVERHEAD), out))
      case SM2Decrypt(_, cipher) => (rc, Overlay(Zeros(|cipher| - SM2_OVERHEAD), out))
      case SM2Sign(_, _) => (rc, Overlay(Zeros(SIGNATURE_LEN), out))
      case _ => (rc, [])
  }

  /** The second half of a verification. */
  function Verification(chip: Chip, log: Log, data: seq<byte>, sig: seq<byte>): Reply {
    if |sig| > SIGN_BUFFER then Refuse(log)
    else Ask(chip, log, Verify(Overlay(Zeros(SIGN_BUFFER), sig), Seen(data), TEMP_SLOT, 0)).(value := [])
  }

  function Perform(chip: Chip, log: Log, req: Request): Reply {
    if !Checks(req) then Refuse(log)
    else
      var asked := Ask(chip, log, CallOf(req));
      var decoded := Decode(req, asked.rc, asked.value);
      if req.SM2Verify? && asked.rc == RSP_STATUS_OK then Verification(chip, asked.log, req.data, req.sig)
      else Reply(decoded.0, asked.log, decoded.1)
  }

  // ---------- The length scan and the 16-bit lengths ----------

  /** The trimmed length is the least one after which everything is zero. */
  lemma {:induction false} TrimmedLengthLeast(s: seq<byte>)
    ensures var n := TrimmedLength(s);
      && (forall i :: n <= i < |s| ==> s[i] == 0)
      && (n > 0 ==> s[n - 1] != 0)
  {
    if s != [] && s[|s| - 1] == 0 {
      var front := s[..|s| - 1];
      TrimmedLengthLeast(front);
      assert forall i | 0 <= i < |front| :: s[i] == front[i];
    }
  }

  /** No length is found, and the export fails, exactly when the whole buffer is zero. */
  lemma NoKeyLengthExact(tmp: seq<byte>)
    requires |tmp| == KEY_BUFFER
    ensures KeyLength(tmp) == 0 <==> tmp == Zeros(KEY_BUFFER)
  {
    TrimmedLengthLeast(tmp);
    if tmp == Zeros(KEY_BUFFER) {
      assert tmp[0] == 0;
    }
  }

  /**
   * A key that was exported and is then imported, into any slot and at any time, reaches the SDK as the very buffer
   * the SDK had filled exactly when nothing in that buffer lies past the length chosen. By the length scan this is
   * always so.
   */
  lemma ExportThenImportExact(chip: Chip, log: Log, slot: uint8, tmp: seq<byte>)
    requires tmp == KeyImage(chip(log, ExportPubKey(slot)).out)
    requires Perform(chip, log, SM2ExportPublicKey(slot)).rc == RSP_STATUS_OK
    ensures var pub := Perform(chip, log, SM2ExportPublicKey(slot)).value;
      && 0 < |pub| <= KEY_BUFFER && pub == tmp[..KeyLength(tmp)]
      && (KeyImage(pub) == tmp <==> forall i :: KeyLength(tmp) <= i < KEY_BUFFER ==> tmp[i] == 0)
      && (tmp[0] != 0x02 && tmp[0] != 0x03 && tmp[0] != 0x04 ==> KeyImage(pub) == tmp)
  {
    var pub := Perform(chip, log, SM2ExportPublicKey(slot)).value;
    var n := KeyLength(tmp);
    assert pub == tmp[..n];
    TrimmedLengthLeast(tmp);
    if forall i :: n <= i < KEY_BUFFER ==> tmp[i] == 0 {
      assert KeyImage(pub) == tmp;
    } else {
      var i :| n <= i < KEY_BUFFER && tmp[i] != 0;
      assert KeyImage(pub)[i] == 0;
    }
  }

  /** The SDK sees the whole of a message exactly when its length fits sixteen bits. */
  lemma SeenExact(data: seq<byte>)
    ensures Seen(data) == data <==> |data| < 0x1_0000
  {
  }
}

/** The adapter itself, with its local buffers. */
module Hardware {
  import opened Bytes
  import opened Sdk
  import opened AdapterSpec

  class HardwareAdapter {
    const device: Device

    constructor (device: Device)
      ensures this.device == device
    {
      this.device := device;
    }

    /** What is left in a buffer after the chip wrote to it; it never writes past the end. */
    static method Receive(buf: array<byte>, out: seq<byte>)
      modifies buf
      ensures buf[..] == Overlay(old(buf[..]), out)
    {
      forall k | 0 <= k < buf.Length && k < |out| {
        buf[k] := out[k];
      }
    }

    method Open() returns (rc: int)
      modifies device
      ensures var r := Ask(device.chip, old(device.log), FuncLibOpen); rc == r.rc && device.log == r.log
    {
      var r := device.Invoke(FuncLibOpen);
      rc := r.rc;
    }

    method Close()
      modifies device
      ensures device.log == Ask(device.chip, old(device.log), FuncLibClose).log
    {
      var r := device.Invoke(FuncLibClose);
    }

    method Authenticate() returns (rc: int)
      modifies device
      ensures var r := Ask(device.chip, old(device.log), DevAuth); rc == r.rc && device.log == r.log
    {
      var r := device.Invoke(DevAuth);
      rc := r.rc;
    }

    method ImportSM4Key(key: array<byte>) returns (rc: int)
      requires key.Length == 16
      modifies device
      ensures Reply(rc, device.log, []) == Perform(device.chip, old(device.log), Request.ImportSM4Key(key[..]))
    {
      var keybuf := new byte[16];
      Receive(keybuf, key[..]);
      assert keybuf[..] == key[..];
      var r := device.Invoke(DownloadSM4Key(keybuf[..], 0));
      rc := r.rc;
    }

    method SM4Crypto(keyIndex: int, kind: byte, mode: byte, input: array<byte>, inLen: int, out: array<byte>)
      returns (rc: int)
      requires inLen <= SM4_BUFFER ==> 0 <= inLen <= input.Length
      modifies device, out
      ensures inLen > SM4_BUFFER ==> rc == -1 && device.log == old(device.log) && out[..] == old(out[..])
      ensures inLen <= SM4_BUFFER ==>
        var r := Perform(device.chip, old(device.log), Request.SM4Crypto(keyIndex, kind, mode, old(input[..inLen])));
        rc == r.rc && device.log == r.log && out[..] == Overlay(old(out[..]), r.value)
    {
      var inbuf := new byte[SM4_BUFFER];
      if inLen > SM4_BUFFER {
        return -1;
      }
      Receive(inbuf, input[..inLen]);
      var r := device.Invoke(Call.SM4Crypto(keyIndex % 0x100, kind, mode, inbuf[..inLen]));
      Receive(out, r.out);
      rc := r.rc;
    }

    method SM2GenerateKey(slot: uint8) returns (rc: int)
      modifies device
      ensures Reply(rc, device.log, []) == Perform(device.chip, old(device.log), Request.SM2GenerateKey(slot))
    {
      var r := device.Invoke(GenKeyPair(slot));
      rc := r.rc;
    }

    /** Vectors handed back stay as they were, here empty, unless the call succeeds. */
    method SM2ExportPublicKey(slot: uint8) returns (rc: int, outPub: seq<byte>)
      modifies device
      ensures Reply(rc, device.log, outPub) == Perform(device.chip, old(device.log), Request.SM2ExportPublicKey(slot))
    {
      var tmp := new byte[KEY_BUFFER](_ => 0);
      assert tmp[..] == Zeros(KEY_BUFFER);
      var r := device.Invoke(ExportPubKey(slot));
      Receive(tmp, r.out);
      if r.rc != RSP_STATUS_OK {
        return r.rc, [];
      }
      var len := 0;
      if tmp[0] == 0x04 {
        len := 65;
      } else if tmp[0] == 0x02 || tmp[0] == 0x03 {
        len := 33;
      } else {
        len := Scan(tmp);
      }
      if len == 0 || len > tmp.Length {
        return -1, [];
      }
      return RSP_STATUS_OK, tmp[..len];
    }

    /** The backward loop that looks for the last byte that is not zero. */
    static method Scan(tmp: array<byte>) returns (len: nat)
      ensures len == TrimmedLength(tmp[..])
    {
      len := 0;
      var i := tmp.Length - 1;
      assert tmp[..i + 1] == tmp[..];
      while i >= 0
        invariant -1 <= i < tmp.Length
        invariant TrimmedLength(tmp[..]) == TrimmedLength(tmp[..i + 1])
      {
        if tmp[i] != 0 {
          return i + 1;
        }
        assert tmp[..i + 1][..i] == tmp[..i];
        i := i - 1;
      }
    }

    method SM2ImportPublicKey(slot: uint8, pub: seq<byte>) returns (rc: int)
      modifies device
      ensures Reply(rc, device.log, []) == Perform(device.chip, old(device.log), Request.SM2ImportPublicKey(slot, pub))
    {
      if pub == [] {
        return -1;
      }
      var buf := new byte[KEY_BUFFER](_ => 0);
      assert buf[..] == Zeros(KEY_BUFFER);
      if |pub| > buf.Length {
        return -1;
      }
      Receive(buf, pub);
      var r := device.Invoke(ImportPubKey(buf[..], slot));
      rc := r.rc;
    }

    method SM2Encrypt(slot: uint8, plaintext: seq<byte>) returns (rc: int, outCipher: seq<byte>)
      modifies device
      ensures Reply(rc, device.log, outCipher)
           == Perform(device.chip, old(device.log), Request.SM2Encrypt(slot, plaintext))
    {
      if plaintext == [] {
        return -1, [];
      }
      var expectOut := |plaintext| + SM2_OVERHEAD;
      if expectOut > 65535 {
        return -1, [];
      }
      var outbuf := new byte[expectOut](_ => 0);
      assert outbuf[..] == Zeros(expectOut);
      var r := device.Invoke(Encrypt(plaintext[..UInt16(|plaintext|)], slot));
      Receive(outbuf, r.out);
      if r.rc != RSP_STATUS_OK {
        return r.rc, [];
      }
      return RSP_STATUS_OK, outbuf[..];
    }

    method SM2Decrypt(slot: uint8, cipher: seq<byte>) returns (rc: int, outPlain: seq<byte>)
      modifies device
      ensures Reply(rc, device.log, outPlain)
           == Perform(device.chip, old(device.log), Request.SM2Decrypt(slot, cipher))
    {
      if cipher == [] {
        return -1, [];
      }
      if |cipher| < SM2_OVERHEAD {
        return -1, [];
      }
      var outbuf := new byte[|cipher| - SM2_OVERHEAD](_ => 0);
      assert outbuf[..] == Zeros(|cipher| - SM2_OVERHEAD);
      var r := device.Invoke(Decrypt(cipher[..UInt16(|cipher|)], slot));
      Receive(outbuf, r.out);
      if r.rc != RSP_STATUS_OK {
        return r.rc, [];
      }
      return RSP_STATUS_OK, outbuf[..];
    }

    method SM2Sign(slot: uint8, data: seq<byte>) returns (rc: int, outSig: seq<byte>)
      modifies device
      ensures Reply(rc, device.log, outSig) == Perform(device.chip, old(device.log), Request.SM2Sign(slot, data))
    {
      if data == [] {
        return -1, [];
      }
      var sigbuf := new byte[SIGNATURE_LEN](_ => 0);
      assert sigbuf[..] == Zeros(SIGNATURE_LEN);
      var r := device.Invoke(Sign(data[..UInt16(|data|)], slot, 0));
      Receive(sigbuf, r.out);
      if r.rc != RSP_STATUS_OK {
        return r.rc, [];
      }
      return RSP_STATUS_OK, sigbuf[..];
    }

    /** The public key is imported into the temporary slot, and stays there. */
    method SM2Verify(pubkey: seq<byte>, data: seq<byte>, sig: seq<byte>) returns (rc: int)
      modifies device
      ensures Reply(rc, device.log, [])
           == Perform(device.chip, old(device.log), Request.SM2Verify(pubkey, data, sig))
    {
      if pubkey == [] || data == [] || sig == [] {
        return -1;
      }
      var pubbuf := new byte[KEY_BUFFER](_ => 0);
      assert pubbuf[..] == Zeros(KEY_BUFFER);
      if |pubkey| > pubbuf.Length {
        return -1;
      }
      Receive(pubbuf, pubkey);
      var r := device.Invoke(ImportPubKey(pubbuf[..], TEMP_SLOT));
      if r.rc != RSP_STATUS_OK {
        return r.rc;
      }
      var signbuf := new byte[SIGN_BUFFER](_ => 0);
      assert signbuf[..] == Zeros(SIGN_BUFFER);
      if |sig| > signbuf.Length {
        return -1;
      }
      Receive(signbuf, sig);
      r := device.Invoke(Verify(signbuf[..], data[..UInt16(|data|)], TEMP_SLOT, 0));
      rc := r.rc;
    }
  }
}
