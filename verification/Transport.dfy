/** The queue transport on plain values, and what becomes of every byte put into it. */
module Transport {
  import opened Bytes

  datatype Net = Net(
    connected: bool,
    queue: seq<seq<byte>>,
    sent: seq<seq<byte>>,
    totalReceived: nat,
    lastError: int)

  const NEW_NET := Net(false, [], [], 0, 0)

  datatype Op =
    | Connect
    | Disconnect
    | Send(data: seq<byte>)
    | Recv(size: nat)
    | RecvVector(maxSize: nat)
    | SimulateReceive(data: seq<byte>)
    | ClearSent

  /** The transport after a call, the code returned, and the bytes handed to the caller. */
  datatype Outcome = Outcome(net: Net, rc: int, out: seq<byte>)

  /** The front message, cut to the caller's size. */
  function Cut(net: Net, size: nat): seq<byte>
    requires net.queue != []
  {
    net.queue[0][..Min(size, |net.queue[0]|)]
  }

  /** The vector form keeps as many bytes as the int says were received, if that is positive. */
  function Kept(out: seq<byte>): seq<byte> {
    if Int32(|out|) > 0 then out[..Int32(|out|)] else []
  }

  function Step(net: Net, op: Op): Outcome {
    match op
    case Connect => Outcome(net.(connected := true, lastError := 0), 0, [])
    case Disconnect => Outcome(net.(connected := false, queue := []), 0, [])
    case Send(data) =>
      if !net.connected then Outcome(net.(lastError := -1), -1, [])
      else Outcome(net.(sent := net.sent + [data]), Int32(|data|), [])
    case Recv(size) =>
      if !net.connected then Outcome(net.(lastError := -1), -1, [])
      else if net.queue == [] then Outcome(net, 0, [])
      else Outcome(net.(queue := net.queue[1..]), Int32(|Cut(net, size)|), Cut(net, size))
    case RecvVector(maxSize) =>
      if !net.connected then Outcome(net.(lastError := -1), 0, [])
      else if net.queue == [] then Outcome(net, 0, [])
      else Outcome(net.(queue := net.queue[1..]), 0, Kept(Cut(net, maxSize)))
    case SimulateReceive(data) =>
      Outcome(net.(queue := net.queue + [data], totalReceived := (net.totalReceived + |data|) % SIZE), 0, [])
    case ClearSent => Outcome(net.(sent := []), 0, [])
  }

  function Run(ops: seq<Op>): Net {
    if ops == [] then NEW_NET else Step(Run(ops[..|ops| - 1]), ops[|ops| - 1]).net
  }

  // ---------- What each call returns and leaves ----------

  /** `r` is what `static_cast<int>` makes of a size. */
  predicate IsIntOf(r: int, n: nat) {
    -0x8000_0000 <= r <= 0x7FFF_FFFF && (n - r) % 0x1_0000_0000 == 0
  }

  /** The front message is taken, and as much of it handed over as the caller has room for. */
  lemma RecvExact(net: Net, size: nat)
    ensures var r := Step(net, Recv(size));
      && (!net.connected ==> r.rc == -1 && r.out == [] && r.net == net.(lastError := -1))
      && (net.connected && net.queue == [] ==> r.rc == 0 && r.out == [] && r.net == net)
      && (net.connected && net.queue != [] ==>
            && r.out <= net.queue[0] && |r.out| == (if size <= |net.queue[0]| then size else |net.queue[0]|)
            && IsIntOf(r.rc, |r.out|) && r.net == net.(queue := net.queue[1..]))
  {
  }

  /** The same for the vector form; but it keeps only as many bytes as an int says were taken, and none if that is not
      positive. */
  lemma RecvVectorExact(net: Net, maxSize: nat)
    ensures var r := Step(net, RecvVector(maxSize));
      && (!net.connected ==> r.out == [] && r.net == net.(lastError := -1))
      && (net.connected && net.queue == [] ==> r.out == [] && r.net == net)
      && (net.connected && net.queue != [] ==>
            && r.net == net.(queue := net.queue[1..]) && r.out <= net.queue[0]
            && var taken := if maxSize <= |net.queue[0]| then maxSize else |net.queue[0]|;
               exists n :: IsIntOf(n, taken) && |r.out| == if n > 0 then n else 0)
  {
    if net.connected && net.queue != [] {
      var taken := if maxSize <= |net.queue[0]| then maxSize else |net.queue[0]|;
      assert IsIntOf(Int32(taken), taken);
    }
  }

  /** Data are recorded when there is a connection, and their size returned as an int. */
  lemma SendExact(net: Net, data: seq<byte>)
    ensures var r := Step(net, Send(data));
      && r.out == []
      && (net.connected ==> IsIntOf(r.rc, |data|) && r.net == net.(sent := net.sent + [data]))
      && (!net.connected ==> r.rc == -1 && r.net == net.(lastError := -1))
  {
  }

  lemma ConnectionExact(net: Net)
    ensures Step(net, Connect) == Outcome(net.(connected := true, lastError := 0), 0, [])
    ensures Step(net, Disconnect) == Outcome(net.(connected := false, queue := []), 0, [])
    ensures Step(net, ClearSent) == Outcome(net.(sent := []), 0, [])
  {
  }

  lemma SimulateExact(net: Net, data: seq<byte>)
    ensures var r := Step(net, SimulateReceive(data));
      && r.net.queue == net.queue + [data]
      && (r.net.totalReceived - net.totalReceived - |data|) % 0x1_0000_0000_0000_0000 == 0
      && 0 <= r.net.totalReceived < 0x1_0000_0000_0000_0000
      && r.net == net.(queue := r.net.queue, totalReceived := r.net.totalReceived)
  {
  }

  // ---------- The fate of every message ----------

  /** A message leaves the queue by being handed over to a caller with some room for it, or by being thrown away. */
  datatype Fate = Delivered(msg: seq<byte>, room: nat, out: seq<byte>) | Discarded(msg: seq<byte>)

  function Discards(queue: seq<seq<byte>>): seq<Fate> {
    seq(|queue|, i requires 0 <= i < |queue| => Discarded(queue[i]))
  }

  predicate Receives(op: Op) {
    op.Recv? || op.RecvVector?
  }

  /** The size that the caller of a receiving call has room for. */
  function Room(op: Op): nat
    requires Receives(op)
  {
    if op.Recv? then op.size else op.maxSize
  }

  /** The messages a call takes out of the queue, with what its caller got for each. */
  function Removed(net: Net, op: Op): seq<Fate> {
    if op.Disconnect? then Discards(net.queue)
    else if Receives(op) && net.connected && net.queue != [] then
      [Delivered(net.queue[0], Room(op), Step(net, op).out)]
    else []
  }

  function Fates(ops: seq<Op>): seq<Fate> {
    if ops == [] then []
    else Fates(ops[..|ops| - 1]) + Removed(Run(ops[..|ops| - 1]), ops[|ops| - 1])
  }

  /** The messages put in, in order. */
  function Injected(ops: seq<Op>): seq<seq<byte>> {
    if ops == [] then []
    else
      var last := ops[|ops| - 1];
      Injected(ops[..|ops| - 1]) + if last.SimulateReceive? then [last.data] else []
  }

  /** The bytes handed to callers, over all receiving calls. */
  function HandedOver(ops: seq<Op>): nat {
    if ops == [] then 0
    else
      var before, last := ops[..|ops| - 1], ops[|ops| - 1];
      HandedOver(before) + if Receives(last) then |Step(Run(before), last).out| else 0
  }

  function Messages(fates: seq<Fate>): seq<seq<byte>> {
    seq(|fates|, i requires 0 <= i < |fates| => fates[i].msg)
  }

  predicate Honest(f: Fate) {
    f.Delivered? ==> f.out <= f.msg
  }

  lemma MessagesConcat(a: seq<Fate>, b: seq<Fate>)
    ensures Messages(a + b) == Messages(a) + Messages(b)
  {
  }

  lemma Regroup(gone: seq<seq<byte>>, queue: seq<seq<byte>>, going: seq<seq<byte>>, left: seq<seq<byte>>,
                added: seq<seq<byte>>)
    requires going + left == queue + added
    ensures gone + queue + added == gone + going + left
  {
    assert gone + queue + added == gone + (queue + added);
    assert gone + going + left == gone + (going + left);
  }

  /** Messages leave in the order they came in, and none is lost track of. */
  lemma {:induction false} FirstInFirstOut(ops: seq<Op>)
    ensures Injected(ops) == Messages(Fates(ops)) + Run(ops).queue
  {
    if ops != [] {
      var before, last := ops[..|ops| - 1], ops[|ops| - 1];
      var net := Run(before);
      FirstInFirstOut(before);
      StepKeepsQueue(net, last);
      MessagesConcat(Fates(before), Removed(net, last));
      Regroup(Messages(Fates(before)), net.queue, Messages(Removed(net, last)), Step(net, last).net.queue,
              if last.SimulateReceive? then [last.data] else []);
    }
  }

  /** Every delivery is a prefix of its message. */
  lemma {:induction false} DeliveriesArePrefixes(ops: seq<Op>)
    ensures forall k | 0 <= k < |Fates(ops)| :: Honest(Fates(ops)[k])
  {
    if ops != [] {
      DeliveriesArePrefixes(ops[..|ops| - 1]);
      RemovedHonestly(Run(ops[..|ops| - 1]), ops[|ops| - 1]);
    }
  }

  /** As many bytes as there is room for, if an int can count them. */
  predicate HandedWhole(f: Fate) {
    f.Delivered? && (f.room <= 0x7FFF_FFFF || |f.msg| <= 0x7FFF_FFFF) ==>
      f.out == if f.room < |f.msg| then f.msg[..f.room] else f.msg
  }

  /** Over every run, a delivered message is cut only if its caller had too little room, and then to just that. */
  lemma {:induction false} CutForRoomOnly(ops: seq<Op>)
    ensures forall k | 0 <= k < |Fates(ops)| :: HandedWhole(Fates(ops)[k])
  {
    if ops != [] {
      CutForRoomOnly(ops[..|ops| - 1]);
      RemovedWhole(Run(ops[..|ops| - 1]), ops[|ops| - 1]);
    }
  }

  lemma RemovedWhole(net: Net, op: Op)
    ensures forall k | 0 <= k < |Removed(net, op)| :: HandedWhole(Removed(net, op)[k])
  {
  }

  /** A call takes messages off the front of the queue, or adds one at its end. */
  lemma StepKeepsQueue(net: Net, op: Op)
    ensures Messages(Removed(net, op)) + Step(net, op).net.queue ==
      net.queue + if op.SimulateReceive? then [op.data] else []
  {
  }

  /** The vector form hands over all it took from the queue exactly when that is no longer than an int can count. */
  lemma KeptExact(out: seq<byte>)
    ensures Kept(out) == out <==> |out| <= 0x7FFF_FFFF
  {
  }

  /** The vector form is the other one into a buffer of its own. */
  lemma VectorOfBuffer(net: Net, maxSize: nat, buffer: seq<byte>)
    requires buffer == Overlay(Zeros(maxSize), Step(net, Recv(maxSize)).out)
    ensures var r, v := Step(net, Recv(maxSize)), Step(net, RecvVector(maxSize));
      && v.net == r.net
      && r.rc <= maxSize
      && v.out == if r.rc > 0 then buffer[..r.rc] else []
  {
  }

  lemma RemovedHonestly(net: Net, op: Op)
    ensures forall k | 0 <= k < |Removed(net, op)| :: Honest(Removed(net, op)[k])
  {
  }

  // ---------- Conservation ----------

  function Total(msgs: seq<seq<byte>>): nat {
    if msgs == [] then 0 else Total(msgs[..|msgs| - 1]) + |msgs[|msgs| - 1]|
  }

  function DeliveredBytes(fates: seq<Fate>): nat {
    if fates == [] then 0
    else
      var f := fates[|fates| - 1];
      DeliveredBytes(fates[..|fates| - 1]) + if f.Delivered? then |f.out| else 0
  }

  /** Bytes of delivered messages that the caller's size cut off. */
  function CutBytes(fates: seq<Fate>): int {
    if fates == [] then 0
    else
      var f := fates[|fates| - 1];
      CutBytes(fates[..|fates| - 1]) + if f.Delivered? then |f.msg| - |f.out| else 0
  }

  function DiscardedBytes(fates: seq<Fate>): nat {
    if fates == [] then 0
    else
      var f := fates[|fates| - 1];
      DiscardedBytes(fates[..|fates| - 1]) + if f.Discarded? then |f.msg| else 0
  }

  lemma TotalOfOne(msg: seq<byte>)
    ensures Total([]) == 0 && Total([msg]) == |msg|
  {
  }

  lemma {:induction false} TotalConcat(a: seq<seq<byte>>, b: seq<seq<byte>>)
    ensures Total(a + b) == Total(a) + Total(b)
  {
    if b == [] {
      assert a + b == a;
    } else {
      TotalConcat(a, b[..|b| - 1]);
      assert (a + b)[..|a + b| - 1] == a + b[..|b| - 1];
    }
  }

  lemma {:induction false} FateBytes(fates: seq<Fate>)
    ensures Total(Messages(fates)) == DeliveredBytes(fates) + CutBytes(fates) + DiscardedBytes(fates)
  {
    if fates != [] {
      var before := fates[..|fates| - 1];
      FateBytes(before);
      assert Messages(fates)[..|fates| - 1] == Messages(before);
    }
  }

  lemma {:induction false} CutNaturally(fates: seq<Fate>)
    requires forall k | 0 <= k < |fates| :: Honest(fates[k])
    ensures CutBytes(fates) >= 0
  {
    if fates != [] {
      CutNaturally(fates[..|fates| - 1]);
      assert Honest(fates[|fates| - 1]);
    }
  }

  lemma {:induction false} DiscardsDeliverNothing(fates: seq<Fate>, queue: seq<seq<byte>>)
    ensures DeliveredBytes(fates + Discards(queue)) == DeliveredBytes(fates)
  {
    if queue == [] {
      assert fates + Discards(queue) == fates;
    } else {
      var front := queue[..|queue| - 1];
      DiscardsDeliverNothing(fates, front);
      assert (fates + Discards(queue))[..|fates| + |queue| - 1] == fates + Discards(front);
    }
  }

  lemma StepDelivers(fates: seq<Fate>, net: Net, op: Op)
    ensures DeliveredBytes(fates + Removed(net, op)) ==
      DeliveredBytes(fates) + if Receives(op) then |Step(net, op).out| else 0
  {
    if op.Disconnect? {
      DiscardsDeliverNothing(fates, net.queue);
    } else if Removed(net, op) != [] {
      assert (fates + Removed(net, op))[..|fates|] == fates;
    } else {
      assert fates + Removed(net, op) == fates;
    }
  }

  /** The delivered bytes are those that callers received. */
  lemma {:induction false} DeliveredIsHandedOver(ops: seq<Op>)
    ensures DeliveredBytes(Fates(ops)) == HandedOver(ops)
  {
    if ops != [] {
      var before, last := ops[..|ops| - 1], ops[|ops| - 1];
      DeliveredIsHandedOver(before);
      StepDelivers(Fates(before), Run(before), last);
    }
  }

  /** Counting one more message modulo the width of the counter. */
  lemma CountOn(counted: nat, total: nat, more: nat)
    requires counted == total % SIZE
    ensures (counted + more) % SIZE == (total + more) % SIZE
  {
  }

  /** The size of the message that a call puts in. */
  function Size(op: Op): nat {
    if op.SimulateReceive? then |op.data| else 0
  }

  lemma StepCounts(net: Net, op: Op, total: nat)
    requires net.totalReceived == total % SIZE
    ensures Step(net, op).net.totalReceived == (total + Size(op)) % SIZE
  {
    CountOn(net.totalReceived, total, Size(op));
  }

  lemma InjectedTotal(ops: seq<Op>)
    requires ops != []
    ensures Total(Injected(ops)) == Total(Injected(ops[..|ops| - 1])) + Size(ops[|ops| - 1])
  {
    var before, last := ops[..|ops| - 1], ops[|ops| - 1];
    if last.SimulateReceive? {
      TotalConcat(Injected(before), [last.data]);
      TotalOfOne(last.data);
    } else {
      assert Injected(ops) == Injected(before);
    }
  }

  lemma {:induction false} InjectedCount(ops: seq<Op>)
    ensures Run(ops).totalReceived == Total(Injected(ops)) % SIZE
  {
    if ops != [] {
      var before, last := ops[..|ops| - 1], ops[|ops| - 1];
      InjectedCount(before);
      InjectedTotal(ops);
      StepCounts(Run(before), last, Total(Injected(before)));
    }
  }

  /**
   * Every byte put in has been handed to a caller, cut off, thrown away by a disconnection, or is still queued; and
   * the byte counter shows what was put in, modulo its width.
   */
  lemma Conservation(ops: seq<Op>)
    ensures Total(Injected(ops)) ==
      HandedOver(ops) + CutBytes(Fates(ops)) + DiscardedBytes(Fates(ops)) + Total(Run(ops).queue)
    ensures CutBytes(Fates(ops)) >= 0
    ensures Run(ops).totalReceived == Total(Injected(ops)) % SIZE
  {
    FirstInFirstOut(ops);
    DeliveriesArePrefixes(ops);
    CutNaturally(Fates(ops));
    TotalConcat(Messages(Fates(ops)), Run(ops).queue);
    FateBytes(Fates(ops));
    DeliveredIsHandedOver(ops);
    InjectedCount(ops);
  }

  // ---------- What was sent ----------

  /** The data of the accepted sends, from call number `from` on. */
  function SentFrom(ops: seq<Op>, from: nat): seq<seq<byte>> {
    if |ops| <= from then []
    else
      var before, last := ops[..|ops| - 1], ops[|ops| - 1];
      SentFrom(before, from) + if last.Send? && Run(before).connected then [last.data] else []
  }

  lemma {:induction false} SentUncleared(ops: seq<Op>, from: nat)
    requires from <= |ops| && Run(ops[..from]).sent == []
    requires forall k | from <= k < |ops| :: ops[k] != ClearSent
    ensures Run(ops).sent == SentFrom(ops, from)
  {
    if |ops| > from {
      var before := ops[..|ops| - 1];
      assert before[..from] == ops[..from];
      SentUncleared(before, from);
    } else {
      assert ops[..from] == ops;
    }
  }

  /** What is recorded as sent is what was accepted since the latest clearing, or since the start. */
  lemma {:induction false} SentSinceClear(ops: seq<Op>, from: nat)
    requires from <= |ops| && (from == 0 || ops[from - 1] == ClearSent)
    requires forall k | from <= k < |ops| :: ops[k] != ClearSent
    ensures Run(ops).sent == SentFrom(ops, from)
  {
    assert from > 0 ==> ops[..from][from - 1] == ClearSent;
    SentUncleared(ops, from);
  }
}

/** The transport object. */
module MockTransport {
  import opened Bytes
  import opened Transport

  class MockTransportAdapter {
    var connected: bool
    var receiveQueue: seq<seq<byte>>
    var sentData: seq<seq<byte>>
    var totalBytesReceived: nat
    var lastErrorCode: int
    // The calls made so far
    ghost var history: seq<Op>

    ghost function State(): Net
      reads this
    {
      Net(connected, receiveQueue, sentData, totalBytesReceived, lastErrorCode)
    }

    /** The object is in the state its history leads to. */
    ghost predicate Valid()
      reads this
    {
      State() == Run(history)
    }

    /** The method carried out exactly this call. */
    twostate predicate Did(op: Op)
      reads this
    {
      Valid() && history == old(history) + [op] && State() == Step(old(State()), op).net
    }

    ghost method Note(op: Op)
      requires State() == Step(Run(history), op).net
      modifies this`history
      ensures Valid() && history == old(history) + [op]
    {
      assert (history + [op])[..|history|] == history;
      history := history + [op];
    }

    constructor ()
      ensures Valid() && history == []
    {
      connected, receiveQueue, sentData, totalBytesReceived, lastErrorCode := false, [], [], 0, 0;
      history := [];
    }

    method Connect() returns (ok: bool)
      requires Valid()
      modifies this
      ensures Did(Op.Connect) && ok
    {
      connected := true;
      lastErrorCode := 0;
      Note(Op.Connect);
      ok := true;
    }

    method Disconnect()
      requires Valid()
      modifies this
      ensures Did(Op.Disconnect)
    {
      connected := false;
      while receiveQueue != []
        invariant State() == old(State()).(connected := false, queue := receiveQueue) && history == old(history)
        decreases |receiveQueue|
      {
        receiveQueue := receiveQueue[1..];
      }
      Note(Op.Disconnect);
    }

    method Send(data: seq<byte>) returns (rc: int)
      requires Valid()
      modifies this
      ensures Did(Op.Send(data)) && rc == Step(old(State()), Op.Send(data)).rc
    {
      if !connected {
        lastErrorCode := -1;
        Note(Op.Send(data));
        return -1;
      }
      sentData := sentData + [data];
      Note(Op.Send(data));
      return Int32(|data|);
    }

    /** The body of recv into a buffer, which the vector form shares. */
    method Pop(buffer: array<byte>) returns (rc: int)
      modifies this`receiveQueue, this`lastErrorCode, buffer
      ensures var r := Step(old(State()), Op.Recv(buffer.Length));
        && State() == r.net && rc == r.rc
        && buffer[..] == Overlay(old(buffer[..]), r.out)
    {
      if !connected {
        lastErrorCode := -1;
        return -1;
      }
      if receiveQueue == [] {
        return 0;
      }
      var data := receiveQueue[0];
      receiveQueue := receiveQueue[1..];
      var copySize := Min(buffer.Length, |data|);
      forall k | 0 <= k < copySize {
        buffer[k] := data[k];
      }
      return Int32(copySize);
    }

    method Recv(buffer: array<byte>) returns (rc: int)
      requires Valid()
      modifies this, buffer
      ensures var op := Op.Recv(buffer.Length);
        && Did(op) && rc == Step(old(State()), op).rc
        && buffer[..] == Overlay(old(buffer[..]), Step(old(State()), op).out)
    {
      rc := Pop(buffer);
      Note(Op.Recv(buffer.Length));
    }

    method RecvVector(maxSize: nat) returns (out: seq<byte>)
      requires Valid()
      modifies this
      ensures Did(Op.RecvVector(maxSize)) && out == Step(old(State()), Op.RecvVector(maxSize)).out
    {
      var buffer := new byte[maxSize](_ => 0);
      assert buffer[..] == Zeros(maxSize);
      var received := Pop(buffer);
      VectorOfBuffer(old(State()), maxSize, buffer[..]);
      Note(Op.RecvVector(maxSize));
      if received > 0 {
        return buffer[..received];
      }
      return [];
    }

    method SimulateReceiveData(data: seq<byte>)
      requires Valid()
      modifies this
      ensures Did(Op.SimulateReceive(data))
    {
      receiveQueue := receiveQueue + [data];
      totalBytesReceived := (totalBytesReceived + |data|) % SIZE;
      Note(Op.SimulateReceive(data));
    }

    method ClearSentData()
      requires Valid()
      modifies this
      ensures Did(Op.ClearSent)
    {
      sentData := [];
      Note(Op.ClearSent);
    }

    /** The loop adds up modulo the width of size_t. */
    method GetTotalBytesSent() returns (total: nat)
      ensures total == Total(sentData) % SIZE
    {
      total := 0;
      for i := 0 to |sentData|
        invariant total == Total(sentData[..i]) % SIZE
      {
        assert sentData[..i + 1][..i] == sentData[..i];
        total := (total + |sentData[i]|) % SIZE;
      }
      assert sentData[..|sentData|] == sentData;
    }
  }
}
