/**
 * Properties of whole call histories. The provider state splits into cells; what a cell holds, and what a call on it
 * returns, depends only on the calls addressed to that cell, and is the last thing successfully written there.
 */
module History {
  import opened Bytes
  import opened Ciphers
  import opened Provider

  /** The independent parts of the state: the two halves of each SM2 slot, each SM4 and ID slot, the SM3 stream,
      and the record of the last key chosen by sm4Init. */
  datatype Cell = Pub(i: uint8) | Pri(i: uint8) | Sym(i: uint8) | Id(i: uint8) | Stream | Current

  datatype Content = Content(bytes: seq<byte>, valid: bool)

  const NOTHING := Content([], false)

  function Look(s: State, c: Cell): Content {
    match c
    case Pub(i) => if i < SM2_SLOTS then Content(s.sm2[i].publicKey, s.sm2[i].hasPublicKey) else NOTHING
    case Pri(i) => if i < SM2_SLOTS then Content(s.sm2[i].privateKey, s.sm2[i].hasPrivateKey) else NOTHING
    case Sym(i) => if i < SM4_SLOTS then Content(s.sm4[i].key, s.sm4[i].isValid) else NOTHING
    case Id(i) => if i < ID_SLOTS then Content(s.ids[i].data, s.ids[i].isValid) else NOTHING
    case Stream => Content(StreamBytes(s), s.sm3Initialized)
    case Current => if SM4_CURRENT in s.userData then Content(s.userData[SM4_CURRENT], true) else NOTHING
  }

  /** The call names this cell, by its index or by its kind, whether or not it is going to succeed. */
  predicate Addresses(op: Op, c: Cell) {
    match c
    case Pub(i) => op == General(Cleanup) || (op.KeyPair? && op.index == i && !op.keyPair.ImportSM2PriKey?)
    case Pri(i) =>
      || op == General(Cleanup)
      || (op.KeyPair? && op.index == i && !op.keyPair.ImportSM2PubKey? && !op.keyPair.ExportSM2PubKey?)
    case Sym(i) =>
      || op == General(Cleanup)
      || (op.SM4? && op.index == i && (op.sm4.SetSM4Key? || op.sm4.SM4Update? || op.sm4.SM4Crypto?))
    case Id(i) => op == General(Cleanup) || (op.Identity? && op.index == i)
    case Stream => op.SM3? && !op.sm3.SM3Hash?
    case Current => op.SM4? && op.sm4.SM4Init?
  }

  /** The calls of a history that address one cell, in order. */
  function Project(calls: seq<Op>, c: Cell): seq<Op> {
    if calls == [] then []
    else
      var last := calls[|calls| - 1];
      Project(calls[..|calls| - 1], c) + if Addresses(last, c) then [last] else []
  }

  // ---------- One step ----------

  /** What a call makes of the SM3 stream. */
  function StreamAfter(op: Op, v: Content): Content {
    match op
    case SM3(SM3Init) => Content([], true)
    case SM3(SM3Update(msg)) => if Given(msg) && v.valid then Content(v.bytes + msg.value, true) else v
    case SM3(SM3Final(outBuf)) => if outBuf && v.valid then NOTHING else v
    case _ => v
  }

  lemma StepStream(h: Hasher, s: State, op: Op)
    ensures Look(Step(h, s, op).state, Stream) == StreamAfter(op, Look(s, Stream))
  {
    if Accepts(s.sm3Initialized, op) {
      assert Step(h, s, op).state == Effect(s, op).(lastError := 0);
    }
  }

  /** What a call makes of the record of the last key chosen. */
  function CurrentAfter(op: Op, v: Content): Content {
    match op
    case SM4(i, SM4Init(icv)) => if i < SM4_SLOTS && icv then Content([i as byte], true) else v
    case _ => v
  }

  lemma StepCurrent(h: Hasher, s: State, op: Op)
    ensures Look(Step(h, s, op).state, Current) == CurrentAfter(op, Look(s, Current))
  {
    if Accepts(s.sm3Initialized, op) {
      assert Step(h, s, op).state == Effect(s, op).(lastError := 0);
    }
  }

  /** A call leaves alone every cell it does not address. */
  lemma StepFrame(h: Hasher, s: State, op: Op, c: Cell)
    requires !Addresses(op, c)
    ensures Look(Step(h, s, op).state, c) == Look(s, c)
  {
    if IsSlot(c) {
      StepWrites(h, s, op, c);
    } else {
      StepStream(h, s, op);
      StepCurrent(h, s, op);
    }
  }

  /** What a call does to a cell it addresses depends on that cell only. */
  lemma StepLocal(h: Hasher, s: State, t: State, op: Op, c: Cell)
    requires Addresses(op, c) && Look(s, c) == Look(t, c)
    ensures Look(Step(h, s, op).state, c) == Look(Step(h, t, op).state, c)
  {
    if IsSlot(c) {
      StepWrites(h, s, op, c);
      StepWrites(h, t, op, c);
    } else if c.Stream? {
      StepStream(h, s, op);
      StepStream(h, t, op);
    } else {
      StepCurrent(h, s, op);
      StepCurrent(h, t, op);
    }
  }

  /** The cell an answer is read from, if any. */
  function Source(op: Op): Option<Cell> {
    match op
    case KeyPair(i, ExportSM2PubKey(_)) => Some(Pub(i))
    case Identity(i, ExportID(_, _)) => Some(Id(i))
    case SM4(i, SM4Update(_, _)) => Some(Sym(i))
    case SM4(i, SM4Crypto(_, _)) => Some(Sym(i))
    case SM3(SM3Update(_)) => Some(Stream)
    case SM3(SM3Final(_)) => Some(Stream)
    case _ => None
  }

  /** What the caller gets to see of a call. */
  datatype Answer = Answer(rc: int, out: seq<byte>)

  function AnswerTo(h: Hasher, s: State, op: Op): Answer {
    Answer(Step(h, s, op).rc, Step(h, s, op).out)
  }

  lemma AnswerFromSource(h: Hasher, s: State, t: State, op: Op)
    requires Source(op).Some? ==> Look(s, Source(op).value) == Look(t, Source(op).value)
    ensures AnswerTo(h, s, op) == AnswerTo(h, t, op)
  {
  }

  /** The return code and the bytes written depend only on the cells addressed. */
  lemma AnswerLocal(h: Hasher, s: State, t: State, op: Op)
    requires forall c | Addresses(op, c) :: Look(s, c) == Look(t, c)
    ensures AnswerTo(h, s, op) == AnswerTo(h, t, op)
  {
    assert Source(op).Some? ==> Addresses(op, Source(op).value);
    AnswerFromSource(h, s, t, op);
  }

  // ---------- Projection ----------

  /** Each cell ends as if only the calls addressed to it had been made. */
  lemma {:induction false} Projection(h: Hasher, calls: seq<Op>, c: Cell)
    ensures Look(Run(h, calls), c) == Look(Run(h, Project(calls, c)), c)
  {
    if calls != [] {
      var before, op := calls[..|calls| - 1], calls[|calls| - 1];
      Projection(h, before, c);
      if Addresses(op, c) {
        RunAppend(h, Project(before, c), op);
        StepLocal(h, Run(h, before), Run(h, Project(before, c)), op, c);
      } else {
        StepFrame(h, Run(h, before), op, c);
        assert Project(calls, c) == Project(before, c);
      }
    }
  }

  /**
   * Two interleavings that order the calls on every single cell in the same way leave the same cells, and any call
   * made next returns the same code and writes the same bytes.
   */
  lemma {:induction false} Interleaving(h: Hasher, calls: seq<Op>, calls': seq<Op>)
    requires forall c :: Project(calls, c) == Project(calls', c)
    ensures forall c :: Look(Run(h, calls), c) == Look(Run(h, calls'), c)
    ensures forall op :: AnswerTo(h, Run(h, calls), op) == AnswerTo(h, Run(h, calls'), op)
  {
    forall c
      ensures Look(Run(h, calls), c) == Look(Run(h, calls'), c)
    {
      Projection(h, calls, c);
      Projection(h, calls', c);
    }
    forall op
      ensures AnswerTo(h, Run(h, calls), op) == AnswerTo(h, Run(h, calls'), op)
    {
      AnswerLocal(h, Run(h, calls), Run(h, calls'), op);
    }
  }

  // ---------- Threads ----------

  /** A call and the thread that made it. A sequence of these, in the order in which the calls got hold of the lock, is
      a history in which the calls of any number of threads are mixed, each thread's in its own order. */
  datatype Made = Made(thread: nat, op: Op)

  /** The calls, whoever made them. */
  function Calls(m: seq<Made>): seq<Op> {
    if m == [] then [] else Calls(m[..|m| - 1]) + [m[|m| - 1].op]
  }

  /** The calls of one thread. */
  function By(t: nat, m: seq<Made>): seq<Op> {
    if m == [] then []
    else
      var last := m[|m| - 1];
      By(t, m[..|m| - 1]) + if last.thread == t then [last.op] else []
  }

  /** No other thread makes a call on this cell. */
  ghost predicate OthersAvoid(t: nat, m: seq<Made>, c: Cell) {
    forall k | 0 <= k < |m| && m[k].thread != t :: !Addresses(m[k].op, c)
  }

  lemma {:induction false} MergeProjects(t: nat, m: seq<Made>, c: Cell)
    requires OthersAvoid(t, m, c)
    ensures Project(Calls(m), c) == Project(By(t, m), c)
  {
    if m != [] {
      var before, last := m[..|m| - 1], m[|m| - 1];
      MergeProjects(t, before, c);
      assert Calls(m)[..|Calls(before)|] == Calls(before);
      if last.thread == t {
        assert By(t, m)[..|By(t, before)|] == By(t, before);
      } else {
        assert By(t, m) == By(t, before);
      }
    }
  }

  /** A thread cannot tell that others run beside it on other cells: its next call gets the answer that it would get
      if its own calls were the only ones, however the threads are mixed. */
  lemma {:induction false} ThreadIsolation(h: Hasher, t: nat, m: seq<Made>, op: Op)
    requires forall c | Addresses(op, c) :: OthersAvoid(t, m, c)
    ensures AnswerTo(h, Run(h, Calls(m)), op) == AnswerTo(h, Run(h, By(t, m)), op)
  {
    forall c | Addresses(op, c)
      ensures Look(Run(h, Calls(m)), c) == Look(Run(h, By(t, m)), c)
    {
      MergeProjects(t, m, c);
      Projection(h, Calls(m), c);
      Projection(h, By(t, m), c);
    }
    AnswerLocal(h, Run(h, Calls(m)), Run(h, By(t, m)), op);
  }

  /** All the answers a thread gets in a mixed history. */
  function Heard(h: Hasher, t: nat, m: seq<Made>): seq<Answer> {
    if m == [] then []
    else
      var before, last := m[..|m| - 1], m[|m| - 1];
      Heard(h, t, before) + if last.thread == t then [AnswerTo(h, Run(h, Calls(before)), last.op)] else []
  }

  /** The answers to a history of calls. */
  function Answers(h: Hasher, calls: seq<Op>): seq<Answer> {
    if calls == [] then []
    else
      var before := calls[..|calls| - 1];
      Answers(h, before) + [AnswerTo(h, Run(h, before), calls[|calls| - 1])]
  }

  /** No cell of the thread's calls is also a cell of another thread's. */
  ghost predicate KeepsApart(t: nat, m: seq<Made>) {
    forall k, c | 0 <= k < |m| && m[k].thread == t && Addresses(m[k].op, c) :: OthersAvoid(t, m, c)
  }

  lemma KeptApartBefore(t: nat, m: seq<Made>)
    requires m != [] && KeepsApart(t, m)
    ensures KeepsApart(t, m[..|m| - 1])
  {
    var before := m[..|m| - 1];
    forall k, c | 0 <= k < |before| && before[k].thread == t && Addresses(before[k].op, c)
      ensures OthersAvoid(t, before, c)
    {
      assert m[k] == before[k] && OthersAvoid(t, m, c);
    }
  }

  /** So a thread that keeps to cells of its own hears, call by call, exactly what it would hear alone. */
  lemma {:induction false} ThreadHearsItself(h: Hasher, t: nat, m: seq<Made>)
    requires KeepsApart(t, m)
    ensures Heard(h, t, m) == Answers(h, By(t, m))
  {
    if m != [] {
      var before, last := m[..|m| - 1], m[|m| - 1];
      KeptApartBefore(t, m);
      ThreadHearsItself(h, t, before);
      if last.thread == t {
        forall c | Addresses(last.op, c)
          ensures OthersAvoid(t, before, c)
        {
          assert Addresses(m[|before|].op, c) && OthersAvoid(t, m, c);
        }
        ThreadIsolation(h, t, before, last.op);
        assert By(t, m)[..|By(t, before)|] == By(t, before);
      } else {
        assert By(t, m) == By(t, before);
      }
    }
  }

  // ---------- Failure and the error code ----------

  /** The return code is what the error code is left at, and a rejected call changes nothing else. */
  lemma FailureChangesNothing(h: Hasher, s: State, op: Op)
    ensures Step(h, s, op).state.lastError == Step(h, s, op).rc
    ensures Step(h, s, op).rc == 0 || Step(h, s, op).rc == -1
    ensures Step(h, s, op).rc != 0 ==> Step(h, s, op).state == s.(lastError := -1) && Step(h, s, op).out == []
  {
  }

  lemma GeneralIgnoresError(s: State, code: int, call: GeneralCall)
    ensures GeneralEffect(s.(lastError := code), call) == GeneralEffect(s, call).(lastError := code)
  {
  }

  lemma SM3IgnoresError(h: Hasher, s: State, code: int, call: SM3Call)
    requires SM3Accepts(s.sm3Initialized, call)
    ensures SM3Effect(s.(lastError := code), call) == SM3Effect(s, call).(lastError := code)
    ensures SM3Output(h, s.(lastError := code), call) == SM3Output(h, s, call)
  {
  }

  lemma SM4IgnoresError(s: State, code: int, i: uint8, call: SM4Call)
    requires i < SM4_SLOTS && SM4Accepts(call)
    ensures SM4Effect(s.(lastError := code), i, call) == SM4Effect(s, i, call).(lastError := code)
  {
  }

  lemma EffectIgnoresError(h: Hasher, s: State, code: int, op: Op)
    requires Accepts(s.sm3Initialized, op)
    ensures Effect(s.(lastError := code), op) == Effect(s, op).(lastError := code)
    ensures Output(h, s.(lastError := code), op) == Output(h, s, op)
  {
    match op
    case General(call) => GeneralIgnoresError(s, code, call);
    case SM3(call) => SM3IgnoresError(h, s, code, call);
    case SM4(i, call) => SM4IgnoresError(s, code, i, call);
    case _ =>
  }

  /** No call consults the error code. */
  lemma ErrorCodeUnread(h: Hasher, s: State, code: int, op: Op)
    ensures Step(h, s.(lastError := code), op) == Step(h, s, op)
  {
    if Accepts(s.sm3Initialized, op) {
      EffectIgnoresError(h, s, code, op);
    }
  }

  // ---------- Slots hold what was last written ----------

  predicate IsSlot(c: Cell) {
    match c
    case Pub(i) => i < SM2_SLOTS
    case Pri(i) => i < SM2_SLOTS
    case Sym(i) => i < SM4_SLOTS
    case Id(i) => i < ID_SLOTS
    case Stream => false
    case Current => false
  }

  function Cleared(c: Cell): Content {
    match c
    case Pub(i) => Content(Zeros(65), false)
    case Pri(i) => Content(Zeros(32), false)
    case Sym(i) => Content(Zeros(16), false)
    case Id(i) => NOTHING
    case Stream => NOTHING
    case Current => NOTHING
  }

  function Present(bytes: Option<seq<byte>>): Option<Content> {
    if bytes.Some? then Some(Content(bytes.value, true)) else None
  }

  /** What a call puts in a slot, read off the call alone; None if it is not a successful writer of that slot. */
  function Writes(op: Op, c: Cell): Option<Content> {
    if !IsSlot(c) || !Addresses(op, c) then None
    else match op
      case General(_) => Some(Cleared(c))
      case KeyPair(_, call) => PairWrites(call, c)
      case Identity(_, ImportID(data)) => if Given(data) then Present(data) else None
      case SM4(_, SetSM4Key(key)) => Present(key)
      case _ => None
  }

  /** What a call on a key pair puts in its public or private half. */
  function PairWrites(call: KeyPairCall, c: Cell): Option<Content> {
    match call
    case GenerateSM2KeyPair(pub, pri) => Some(Content(if c.Pub? then pub else pri, true))
    case DeleteSM2KeyPair => Some(Cleared(c))
    case ImportSM2KeyPair(pri, pub) => if pri.None? || pub.None? then None else Present(if c.Pub? then pub else pri)
    case ImportSM2PubKey(pub) => Present(pub)
    case ImportSM2PriKey(pri) => Present(pri)
    case ExportSM2PubKey(_) => None
  }

  lemma PairKeepsOrWrites(slot: SM2Slot, call: KeyPairCall, i: uint8)
    requires KeyPairAccepts(call)
    ensures var pub, pri := PairWrites(call, Pub(i)), PairWrites(call, Pri(i));
      var after := KeyPairEffect(slot, call);
      && Content(after.publicKey, after.hasPublicKey) ==
           (if pub.Some? && !call.ImportSM2PriKey? then pub.value else Content(slot.publicKey, slot.hasPublicKey))
      && Content(after.privateKey, after.hasPrivateKey) ==
           (if pri.Some? && !call.ImportSM2PubKey? then pri.value else Content(slot.privateKey, slot.hasPrivateKey))
  {
  }

  lemma RejectedWritesNothing(s: State, op: Op, c: Cell)
    requires !Accepts(s.sm3Initialized, op)
    ensures Writes(op, c).None?
  {
  }

  lemma StepWritesPair(h: Hasher, s: State, op: Op, c: Cell)
    requires IsSlot(c) && (c.Pub? || c.Pri?) && Accepts(s.sm3Initialized, op) && op.KeyPair?
    ensures Look(Step(h, s, op).state, c) == (if Writes(op, c).Some? then Writes(op, c).value else Look(s, c))
  {
    PairKeepsOrWrites(s.sm2[op.index], op.keyPair, op.index);
  }

  lemma OtherWritesPair(h: Hasher, s: State, op: Op, c: Cell)
    requires IsSlot(c) && (c.Pub? || c.Pri?) && Accepts(s.sm3Initialized, op) && !op.KeyPair?
    ensures Look(Step(h, s, op).state, c) == (if Writes(op, c).Some? then Writes(op, c).value else Look(s, c))
  {
    assert Step(h, s, op).state.sm2 == if op == General(Cleanup) then Initial().sm2 else s.sm2;
  }

  lemma StepWritesSM4(h: Hasher, s: State, op: Op, c: Cell)
    requires IsSlot(c) && c.Sym? && Accepts(s.sm3Initialized, op)
    ensures Look(Step(h, s, op).state, c) == (if Writes(op, c).Some? then Writes(op, c).value else Look(s, c))
  {
    assert Step(h, s, op).state.sm4 ==
      if op == General(Cleanup) then Initial().sm4
      else if op.SM4? then SM4Effect(s, op.index, op.sm4).sm4
      else s.sm4;
  }

  lemma StepWritesId(h: Hasher, s: State, op: Op, c: Cell)
    requires IsSlot(c) && c.Id? && Accepts(s.sm3Initialized, op)
    ensures Look(Step(h, s, op).state, c) == (if Writes(op, c).Some? then Writes(op, c).value else Look(s, c))
  {
    assert Step(h, s, op).state.ids ==
      if op == General(Cleanup) then Initial().ids
      else if op.Identity? then s.ids[op.index := IdEffect(s.ids[op.index], op.identity)]
      else s.ids;
  }

  /** A call either writes a slot with a value of its own or leaves it as it was. */
  lemma StepWrites(h: Hasher, s: State, op: Op, c: Cell)
    requires IsSlot(c)
    ensures Look(Step(h, s, op).state, c) == (if Writes(op, c).Some? then Writes(op, c).value else Look(s, c))
  {
    if !Accepts(s.sm3Initialized, op) {
      RejectedWritesNothing(s, op, c);
    } else if c.Sym? {
      StepWritesSM4(h, s, op, c);
    } else if c.Id? {
      StepWritesId(h, s, op, c);
    } else if op.KeyPair? {
      StepWritesPair(h, s, op, c);
    } else {
      OtherWritesPair(h, s, op, c);
    }
  }

  /** A slot that nobody wrote is clear. */
  lemma {:induction false} Unwritten(h: Hasher, calls: seq<Op>, c: Cell)
    requires IsSlot(c)
    requires forall k :: 0 <= k < |calls| ==> Writes(calls[k], c).None?
    ensures Look(Run(h, calls), c) == Cleared(c)
  {
    if calls != [] {
      var before := calls[..|calls| - 1];
      Unwritten(h, before, c);
      StepWrites(h, Run(h, before), calls[|calls| - 1], c);
    }
  }

  /** A slot holds the value of its most recent successful writer. */
  lemma {:induction false} LastWriterWins(h: Hasher, calls: seq<Op>, c: Cell, w: nat)
    requires IsSlot(c) && w < |calls| && Writes(calls[w], c).Some?
    requires forall k :: w < k < |calls| ==> Writes(calls[k], c).None?
    ensures Look(Run(h, calls), c) == Writes(calls[w], c).value
  {
    var before, last := calls[..|calls| - 1], calls[|calls| - 1];
    StepWrites(h, Run(h, before), last, c);
    if w < |before| {
      LastWriterWins(h, before, c, w);
    }
  }

  lemma AnswersShow(h: Hasher, s: State, c: Cell, msg: Chunk)
    requires IsSlot(c)
    requires c.Id? ==> if s.ids[c.i].isValid then |s.ids[c.i].data| < 0x1_0000 else s.ids[c.i].data == []
    ensures var bytes := Look(s, c).bytes;
      && (c.Pub? ==> AnswerTo(h, s, KeyPair(c.i, ExportSM2PubKey(true))) == Answer(0, bytes))
      && (c.Id? ==> AnswerTo(h, s, Identity(c.i, ExportID(true, true))) == Answer(0, bytes))
      && (c.Sym? && msg != [] ==> AnswerTo(h, s, SM4(c.i, SM4Crypto(Some(msg), true))) == Answer(0, XorKey(msg, bytes)))
  {
  }

  /** So the exports, and the key that sm4Crypto uses, are what the most recent successful writer left. */
  lemma {:induction false} LastWriterAnswers(h: Hasher, calls: seq<Op>, c: Cell, w: nat, msg: Chunk)
    requires IsSlot(c) && w < |calls| && Writes(calls[w], c).Some?
    requires forall k :: w < k < |calls| ==> Writes(calls[k], c).None?
    ensures var bytes, s := Writes(calls[w], c).value.bytes, Run(h, calls);
      && (c.Pub? ==> AnswerTo(h, s, KeyPair(c.i, ExportSM2PubKey(true))) == Answer(0, bytes))
      && (c.Id? ==> AnswerTo(h, s, Identity(c.i, ExportID(true, true))) == Answer(0, bytes))
      && (c.Sym? && msg != [] ==> AnswerTo(h, s, SM4(c.i, SM4Crypto(Some(msg), true))) == Answer(0, XorKey(msg, bytes)))
  {
    LastWriterWins(h, calls, c, w);
    AnswersShow(h, Run(h, calls), c, msg);
  }

  /** An ID is taken exactly when there are data and the slot is one of the four; it can then be read back whole. */
  lemma IdTakenExact(h: Hasher, s: State, msg: Option<Chunk>, i: uint8)
    ensures AnswerTo(h, s, Identity(i, ImportID(msg))).rc == 0 <==> Given(msg) && i < ID_SLOTS
    ensures Given(msg) && i < ID_SLOTS ==>
      AnswerTo(h, Step(h, s, Identity(i, ImportID(msg))).state, Identity(i, ExportID(true, true)))
        == Answer(0, msg.value)
  {
    if Given(msg) && i < ID_SLOTS {
      StepWrites(h, s, Identity(i, ImportID(msg)), Id(i));
      AnswersShow(h, Step(h, s, Identity(i, ImportID(msg))).state, Id(i), []);
    }
  }

  // ---------- Flags and key bytes agree ----------

  /** What is not flagged valid is clear, and a valid ID has a length that fits sixteen bits and is not zero. */
  predicate Agrees(c: Cell, v: Content) {
    && (!v.valid ==> v == Cleared(c))
    && (v.valid && c.Id? ==> 1 <= |v.bytes| < 0x1_0000)
  }

  ghost predicate FlagsAgree(s: State) {
    forall c :: IsSlot(c) || c.Stream? ==> Agrees(c, Look(s, c))
  }

  /** Every value written agrees with its flag. */
  lemma WritesAgree(op: Op, c: Cell)
    requires Writes(op, c).Some?
    ensures Agrees(c, Writes(op, c).value)
  {
  }

  lemma StepKeepsFlags(h: Hasher, s: State, op: Op)
    requires FlagsAgree(s)
    ensures FlagsAgree(Step(h, s, op).state)
  {
    forall c | IsSlot(c) || c.Stream?
      ensures Agrees(c, Look(Step(h, s, op).state, c))
    {
      assert Agrees(c, Look(s, c));
      if IsSlot(c) {
        StepWrites(h, s, op, c);
        if Writes(op, c).Some? {
          WritesAgree(op, c);
        }
      } else {
        StepStream(h, s, op);
      }
    }
  }

  /** In every reachable state, the bytes of every slot and of the stream agree with its flag. */
  lemma {:induction false} ReachableFlags(h: Hasher, calls: seq<Op>)
    ensures FlagsAgree(Run(h, calls))
  {
    if calls != [] {
      ReachableFlags(h, calls[..|calls| - 1]);
      StepKeepsFlags(h, Run(h, calls[..|calls| - 1]), calls[|calls| - 1]);
    }
  }

  /** Hence the cipher under a key that was never set returns its input. */
  lemma UnsetKeyIsIdentity(h: Hasher, s: State, i: uint8, msg: Chunk)
    requires FlagsAgree(s) && i < SM4_SLOTS && msg != [] && !s.sm4[i].isValid
    ensures Step(h, s, SM4(i, SM4Crypto(Some(msg), true))).out == msg
  {
    assert Agrees(Sym(i), Look(s, Sym(i)));
    assert XorKey(msg, Zeros(16)) == msg;
  }

  /** Exporting a public key that was never set yields 65 zeros. */
  lemma UnsetPublicKeyIsZero(h: Hasher, s: State, i: uint8)
    requires FlagsAgree(s) && i < SM2_SLOTS && !s.sm2[i].hasPublicKey
    ensures Step(h, s, KeyPair(i, ExportSM2PubKey(true))).out == Zeros(65)
  {
    assert Agrees(Pub(i), Look(s, Pub(i)));
  }

  /** Exporting an ID loses nothing to the 16-bit length, and yields no bytes exactly when the slot is unset. */
  lemma ExportedIdIsWhole(h: Hasher, s: State, i: uint8)
    requires FlagsAgree(s) && i < ID_SLOTS
    ensures var out := Step(h, s, Identity(i, ExportID(true, true))).out;
      out == s.ids[i].data && (out == [] <==> !s.ids[i].isValid)
  {
    assert Agrees(Id(i), Look(s, Id(i)));
  }
}
