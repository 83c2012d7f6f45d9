/** Feeding data to SM3 or SM4 in pieces, with any other calls in between, agrees with handing it over whole. */
module Streaming {
  import opened Bytes
  import opened Ciphers
  import opened CipherLaws
  import opened Provider
  import opened History

  // ---------- SM3 ----------

  /** An sm3Update with data. */
  predicate Feeds(op: Op) {
    op.SM3? && op.sm3.SM3Update? && Given(op.sm3.msg)
  }

  /** The data of the sm3Update calls in a stretch of history, in the order the calls were made. */
  function Gather(calls: seq<Op>): seq<byte> {
    if calls == [] then []
    else
      var last := calls[|calls| - 1];
      Gather(calls[..|calls| - 1]) + if Feeds(last) then last.sm3.msg.value else []
  }

  /** Call `k` is the latest sm3Init, and no sm3Final with a buffer came after it. */
  ghost predicate OpenSince(calls: seq<Op>, k: nat) {
    && k < |calls| && calls[k] == SM3(SM3Init)
    && forall j :: k < j < |calls| ==> calls[j] != SM3(SM3Init) && calls[j] != SM3(SM3Final(true))
  }

  lemma {:induction false} StreamHoldsChunks(h: Hasher, calls: seq<Op>, k: nat)
    requires OpenSince(calls, k)
    ensures Look(Run(h, calls), Stream) == Content(Gather(calls[k + 1..]), true)
  {
    var before, last := calls[..|calls| - 1], calls[|calls| - 1];
    StepStream(h, Run(h, before), last);
    if k < |before| {
      StreamHoldsChunks(h, before, k);
      assert calls[k + 1..][..|calls| - k - 2] == before[k + 1..];
    }
  }

  lemma {:induction false} StreamClosed(h: Hasher, calls: seq<Op>)
    requires forall k: nat :: !OpenSince(calls, k)
    ensures !Look(Run(h, calls), Stream).valid
  {
    if calls != [] {
      var before, last := calls[..|calls| - 1], calls[|calls| - 1];
      StepStream(h, Run(h, before), last);
      if last == SM3(SM3Init) {
        assert OpenSince(calls, |before|);
      } else if last != SM3(SM3Final(true)) {
        forall k: nat
          ensures !OpenSince(before, k)
        {
          assert OpenSince(before, k) ==> OpenSince(calls, k);
        }
        StreamClosed(h, before);
      }
    }
  }

  lemma FinalNeedsStream(h: Hasher, s: State)
    ensures Step(h, s, SM3(SM3Final(true))).rc == 0 <==> Look(s, Stream).valid
  {
  }

  /** A stream is open into which no data have been fed, so that there would be no digest to copy. */
  ghost predicate OpenEmpty(calls: seq<Op>) {
    exists k: nat :: OpenSince(calls, k) && Gather(calls[k + 1..]) == []
  }

  /** Apart from that case, sm3Final succeeds exactly when some sm3Init has not been finished yet. */
  lemma FinalSucceedsExact(h: Hasher, calls: seq<Op>)
    ensures !OpenEmpty(calls) ==>
      (Step(h, Run(h, calls), SM3(SM3Final(true))).rc == 0 <==> exists k: nat :: OpenSince(calls, k))
  {
    FinalNeedsStream(h, Run(h, calls));
    if k: nat :| OpenSince(calls, k) {
      StreamHoldsChunks(h, calls, k);
    } else {
      StreamClosed(h, calls);
    }
  }

  lemma FinalOfStream(h: Hasher, s: State, other: State, data: seq<byte>)
    requires Look(s, Stream) == Content(data, true) && data != []
    ensures var r := Step(h, s, SM3(SM3Final(true)));
      && r.rc == 0 && r.out == Digest(h, data)
      && (|data| < 0x1_0000 ==> r.out == Step(h, other, SM3(SM3Hash(Some(data), true))).out)
  {
  }

  /**
   * What sm3Final returns is the digest of all data accepted since the latest sm3Init, whatever else was called in
   * between; and it is what the one-shot call returns, in any state, for data short enough to be passed to it.
   */
  lemma {:induction false} FinalIsOneShot(h: Hasher, calls: seq<Op>, k: nat, other: State)
    requires OpenSince(calls, k) && Gather(calls[k + 1..]) != []
    ensures var data := Gather(calls[k + 1..]);
      var r := Step(h, Run(h, calls), SM3(SM3Final(true)));
      && r.rc == 0 && r.out == Digest(h, data)
      && (|data| < 0x1_0000 ==> r.out == Step(h, other, SM3(SM3Hash(Some(data), true))).out)
  {
    StreamHoldsChunks(h, calls, k);
    FinalOfStream(h, Run(h, calls), other, Gather(calls[k + 1..]));
  }

  /** There is something to digest exactly when a chunk was accepted since the latest sm3Init. */
  lemma {:induction false} GatheredExact(calls: seq<Op>)
    ensures Gather(calls) != [] <==> exists j :: 0 <= j < |calls| && Feeds(calls[j])
  {
    if calls != [] {
      var before, last := calls[..|calls| - 1], calls[|calls| - 1];
      GatheredExact(before);
      assert forall j | 0 <= j < |before| :: calls[j] == before[j];
      if Gather(before) != [] {
        var j :| 0 <= j < |before| && Feeds(before[j]);
        assert Feeds(calls[j]);
      } else {
        assert Gather(calls) != [] <==> Feeds(calls[|before|]);
      }
    }
  }

  // ---------- SM4 ----------

  /** A successful sm4Update under key slot `i`. */
  predicate Updates(op: Op, i: uint8) {
    op.SM4? && op.index == i && i < SM4_SLOTS && op.sm4.SM4Update? && SM4Accepts(op.sm4)
  }

  /** What the successful updates under slot `i` took in, from call number `from` on. */
  function Fed(calls: seq<Op>, from: nat, i: uint8): seq<byte> {
    if |calls| <= from then []
    else
      var last := calls[|calls| - 1];
      Fed(calls[..|calls| - 1], from, i) + if Updates(last, i) then last.sm4.msg.value else []
  }

  /** What they wrote to their callers' buffers. */
  function Emitted(h: Hasher, calls: seq<Op>, from: nat, i: uint8): seq<byte> {
    if |calls| <= from then []
    else
      var before, last := calls[..|calls| - 1], calls[|calls| - 1];
      Emitted(h, before, from, i) + if Updates(last, i) then Step(h, Run(h, before), last).out else []
  }

  /** All successful updates but the last have a length that is a multiple of 16. */
  ghost predicate WholeBlocksButLast(calls: seq<Op>, from: nat, i: uint8) {
    forall j, j' :: from <= j < j' < |calls| && Updates(calls[j], i) && Updates(calls[j'], i) ==>
      |calls[j].sm4.msg.value| % 16 == 0
  }

  lemma {:induction false} FedWholeBlocks(calls: seq<Op>, from: nat, i: uint8)
    requires forall j :: from <= j < |calls| && Updates(calls[j], i) ==> |calls[j].sm4.msg.value| % 16 == 0
    ensures |Fed(calls, from, i)| % 16 == 0
  {
    if |calls| > from {
      var before, last := calls[..|calls| - 1], calls[|calls| - 1];
      assert forall j | from <= j < |before| :: before[j] == calls[j];
      FedWholeBlocks(before, from, i);
      assert Updates(last, i) ==> last == calls[|before|];
    }
  }

  lemma {:induction false} KeyUnchanged(h: Hasher, calls: seq<Op>, from: nat, i: uint8)
    requires from <= |calls| && i < SM4_SLOTS
    requires forall j :: from <= j < |calls| ==> Writes(calls[j], Sym(i)).None?
    ensures Look(Run(h, calls), Sym(i)) == Look(Run(h, calls[..from]), Sym(i))
  {
    if |calls| == from {
      assert calls[..from] == calls;
    } else {
      var before := calls[..|calls| - 1];
      assert before[..from] == calls[..from];
      KeyUnchanged(h, before, from, i);
      StepWrites(h, Run(h, before), calls[|calls| - 1], Sym(i));
    }
  }

  lemma UpdateEncrypts(h: Hasher, s: State, op: Op, i: uint8)
    requires Updates(op, i)
    ensures Step(h, s, op).out == XorKey(op.sm4.msg.value, Look(s, Sym(i)).bytes)
  {
  }

  lemma WholeBlocksBefore(calls: seq<Op>, from: nat, i: uint8)
    requires from < |calls| && WholeBlocksButLast(calls, from, i)
    ensures var before := calls[..|calls| - 1];
      && WholeBlocksButLast(before, from, i)
      && (Updates(calls[|calls| - 1], i) ==>
            forall j :: from <= j < |before| && Updates(before[j], i) ==> |before[j].sm4.msg.value| % 16 == 0)
  {
    assert forall j | 0 <= j < |calls| - 1 :: calls[..|calls| - 1][j] == calls[j];
  }

  lemma UpdateContinues(h: Hasher, before: seq<Op>, from: nat, i: uint8, op: Op)
    requires Updates(op, i) && |Fed(before, from, i)| % 16 == 0
    requires Emitted(h, before, from, i) == XorKey(Fed(before, from, i), Look(Run(h, before), Sym(i)).bytes)
    ensures Emitted(h, before, from, i) + Step(h, Run(h, before), op).out
         == XorKey(Fed(before, from, i) + op.sm4.msg.value, Look(Run(h, before), Sym(i)).bytes)
  {
    UpdateEncrypts(h, Run(h, before), op, i);
    XorKeySplitAligned(Fed(before, from, i), op.sm4.msg.value, Look(Run(h, before), Sym(i)).bytes);
  }

  lemma {:induction false} ChunkedUnderCurrentKey(h: Hasher, calls: seq<Op>, from: nat, i: uint8)
    requires from <= |calls| && i < SM4_SLOTS
    requires forall j :: from <= j < |calls| ==> Writes(calls[j], Sym(i)).None?
    requires WholeBlocksButLast(calls, from, i)
    ensures Emitted(h, calls, from, i) == XorKey(Fed(calls, from, i), Look(Run(h, calls), Sym(i)).bytes)
  {
    if |calls| > from {
      var before, last := calls[..|calls| - 1], calls[|calls| - 1];
      WholeBlocksBefore(calls, from, i);
      ChunkedUnderCurrentKey(h, before, from, i);
      StepWrites(h, Run(h, before), last, Sym(i));
      if Updates(last, i) {
        FedWholeBlocks(before, from, i);
        UpdateContinues(h, before, from, i, last);
        assert Emitted(h, calls, from, i) == Emitted(h, before, from, i) + Step(h, Run(h, before), last).out;
        assert Fed(calls, from, i) == Fed(before, from, i) + last.sm4.msg.value;
      } else {
        assert Emitted(h, calls, from, i) == Emitted(h, before, from, i);
        assert Fed(calls, from, i) == Fed(before, from, i);
      }
    }
  }

  /**
   * While nobody rewrites the key, updates in whole blocks (the last may be any length) produce, put together, the
   * encryption of everything fed to them, whatever calls come in between.
   */
  lemma {:induction false} ChunkedIsWhole(h: Hasher, calls: seq<Op>, from: nat, i: uint8)
    requires from <= |calls| && i < SM4_SLOTS
    requires forall j :: from <= j < |calls| ==> Writes(calls[j], Sym(i)).None?
    requires WholeBlocksButLast(calls, from, i)
    ensures Emitted(h, calls, from, i) == XorKey(Fed(calls, from, i), Look(Run(h, calls[..from]), Sym(i)).bytes)
  {
    ChunkedUnderCurrentKey(h, calls, from, i);
    KeyUnchanged(h, calls, from, i);
  }

  lemma CryptoEncrypts(h: Hasher, s: State, i: uint8, data: Chunk)
    requires i < SM4_SLOTS && data != []
    ensures Step(h, s, SM4(i, SM4Crypto(Some(data), true))).out == XorKey(data, Look(s, Sym(i)).bytes)
  {
  }

  /** So it is what one sm4Crypto call writes, and, for data of any length, what vector sm4Encrypt with a zero IV
      does. */
  lemma {:induction false} ChunkedIsOneShot(h: Hasher, calls: seq<Op>, from: nat, i: uint8, sealed: seq<byte>)
    requires from <= |calls| && i < SM4_SLOTS
    requires forall j :: from <= j < |calls| ==> Writes(calls[j], Sym(i)).None?
    requires WholeBlocksButLast(calls, from, i)
    ensures var data := Fed(calls, from, i);
      var s := Run(h, calls[..from]);
      && (0 < |data| < 0x1_0000 ==>
           Emitted(h, calls, from, i) == Step(h, s, SM4(i, SM4Crypto(Some(data), true))).out)
      && (IsVectorCipher(data, s.sm4[i].key, Zeros(16), sealed) ==> Emitted(h, calls, from, i) == sealed)
  {
    ChunkedIsWhole(h, calls, from, i);
    if 0 < |Fed(calls, from, i)| < 0x1_0000 {
      CryptoEncrypts(h, Run(h, calls[..from]), i, Fed(calls, from, i));
    }
    VectorCipherIsSlotCipher(Fed(calls, from, i), Run(h, calls[..from]).sm4[i].key, Zeros(16), sealed);
    ZeroIv(Run(h, calls[..from]).sm4[i].key);
  }

  // ---------- SM2 framing ----------

  /**
   * Decrypting what encryption wrote, in any later state, gives the message back and changes no slot; the
   * ciphertext fits the 16-bit length of the decrypting call exactly when the message has at most 65439 bytes.
   */
  lemma SM2FramingRoundTrip(h: Hasher, s: State, t: State, i: uint8, j: uint8, msg: Chunk, noise: Noise)
    requires i < SM2_SLOTS && j < SM2_SLOTS && msg != []
    ensures var sealed := Step(h, s, SM2(i, SM2Encrypt(true, Some(msg), noise)));
      && sealed.rc == 0 && |sealed.out| == |msg| + SM2_OVERHEAD && sealed.state == s.(lastError := 0)
      && (|sealed.out| < 0x1_0000 <==> |msg| <= 65439)
      && (|msg| <= 65439 ==>
        Step(h, t, SM2(j, SM2Decrypt(true, Some(sealed.out)))) == Outcome(t.(lastError := 0), 0, msg))
  {
  }
}
