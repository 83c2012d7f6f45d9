/**
 * Session safety. Whatever the chip answers, no client command opens a session twice, works outside one, uses SM2 or
 * imports a key without a successful authentication in the same session, or leaves a session open.
 */
module Sessions {
  import opened Bytes
  import opened Sdk
  import opened AdapterSpec
  import opened ClientSpec
  import opened Hex

  datatype Phase = Closed | Open(authenticated: bool) | Broken

  predicate Succeeded(e: Event) {
    e.response.rc == RSP_STATUS_OK
  }

  /** The calls that SM2VerifyHex makes without a session. */
  predicate VerifierCall(call: Call) {
    (call.ImportPubKey? && call.slot == TEMP_SLOT) || (call.Verify? && call.slot == TEMP_SLOT)
  }

  /** The session discipline; when it is `lenient` it lets the calls of SM2VerifyHex pass outside a session. */
  function Advance(lenient: bool, p: Phase, e: Event): Phase {
    match e.call
    case FuncLibOpen => if !p.Closed? then Broken else if Succeeded(e) then Open(false) else Closed
    case FuncLibClose => if p.Open? then Closed else Broken
    case DevAuth => if p.Open? then Open(p.authenticated || Succeeded(e)) else Broken
    case SM4Crypto(_, _, _, _) => if p.Open? then p else Broken
    case _ =>
      if p == Open(true) || (lenient && p.Closed? && VerifierCall(e.call)) then p else Broken
  }

  /** The phase reached by the calls of a log from number `from` on, when no session was open before them. */
  function Walk(lenient: bool, from: nat, log: Log): Phase {
    if |log| <= from then Closed
    else Advance(lenient, Walk(lenient, from, log[..|log| - 1]), log[|log| - 1])
  }

  // ---------- One command ----------

  lemma Asked(lenient: bool, from: nat, chip: Chip, log: Log, call: Call)
    requires from <= |log|
    ensures var e := Event(call, chip(log, call));
      Walk(lenient, from, Ask(chip, log, call).log) == Advance(lenient, Walk(lenient, from, log), e)
  {
  }

  /** The requests that may be made in a phase. */
  predicate MayAsk(p: Phase, req: Option<Request>) {
    p.Open? && (req.None? || (!req.value.SM2Verify? && (p.authenticated || req.value.SM4Crypto?)))
  }

  lemma WorkStaysOpen(from: nat, chip: Chip, log: Log, req: Option<Request>)
    requires from <= |log| && MayAsk(Walk(false, from, log), req)
    ensures log <= Work(chip, log, req).log && Walk(false, from, Work(chip, log, req).log) == Walk(false, from, log)
  {
    if req.Some? && Checks(req.value) {
      Asked(false, from, chip, log, CallOf(req.value));
    }
  }

  /** From its opening on, a session keeps the discipline and ends closed. */
  lemma OpenSessionCloses(from: nat, chip: Chip, log: Log, req: Option<Request>)
    requires from <= |log| && MayAsk(Walk(false, from, log), req)
    ensures Walk(false, from, Shut(chip, Work(chip, log, req)).log) == Closed
  {
    WorkStaysOpen(from, chip, log, req);
    Asked(false, from, chip, Work(chip, log, req).log, FuncLibClose);
  }

  lemma SessionCloses(from: nat, chip: Chip, log: Log, authenticate: bool, req: Option<Request>)
    requires from <= |log| && Walk(false, from, log) == Closed
    requires req.Some? ==> !req.value.SM2Verify? && (authenticate || req.value.SM4Crypto?)
    ensures Walk(false, from, Session(chip, log, authenticate, req).log) == Closed
  {
    var begun := Ask(chip, log, FuncLibOpen);
    Asked(false, from, chip, log, FuncLibOpen);
    if begun.rc == RSP_STATUS_OK && !authenticate {
      OpenSessionCloses(from, chip, begun.log, req);
    } else if begun.rc == RSP_STATUS_OK {
      var allowed := Ask(chip, begun.log, DevAuth);
      Asked(false, from, chip, begun.log, DevAuth);
      if allowed.rc == RSP_STATUS_OK {
        OpenSessionCloses(from, chip, allowed.log, req);
      } else {
        Asked(false, from, chip, allowed.log, FuncLibClose);
      }
    }
  }

  lemma RequestAllowed(cmd: Command)
    requires Sane(cmd) && !cmd.SM2VerifyHex? && RequestOf(cmd).Some?
    ensures !RequestOf(cmd).value.SM2Verify? && (Authenticates(cmd) || RequestOf(cmd).value.SM4Crypto?)
  {
  }

  lemma CommandIsSession(chip: Chip, log: Log, cmd: Command)
    requires Sane(cmd) && !cmd.SM2VerifyHex?
    ensures Exec(chip, log, cmd).log ==
      if Issues(cmd) then Session(chip, log, Authenticates(cmd), RequestOf(cmd)).log else log
  {
  }

  /** Every command but the verification keeps the strict discipline in all the calls it makes, and returns with the
      session closed. */
  lemma {:induction false} CommandCloses(chip: Chip, log: Log, cmd: Command)
    requires Sane(cmd) && !cmd.SM2VerifyHex?
    ensures Walk(false, |log|, Exec(chip, log, cmd).log) == Closed
  {
    CommandIsSession(chip, log, cmd);
    if Issues(cmd) {
      if RequestOf(cmd).Some? {
        RequestAllowed(cmd);
      }
      SessionCloses(|log|, chip, log, Authenticates(cmd), RequestOf(cmd));
    }
  }

  lemma VerificationCalls(chip: Chip, log: Log, req: Request)
    requires req.SM2Verify?
    ensures var after := Perform(chip, log, req).log;
      && log <= after && |after| <= |log| + 2
      && (|after| > |log| <==> Checks(req))
      && (|after| > |log| ==> after[|log|].call == ImportPubKey(KeyImage(req.pub), TEMP_SLOT))
      && (|after| > |log| + 1 <==> Checks(req) && Succeeded(after[|log|]) && |req.sig| <= SIGN_BUFFER)
      && (|after| > |log| + 1 ==>
            after[|log| + 1].call == Verify(Overlay(Zeros(SIGN_BUFFER), req.sig), Seen(req.data), TEMP_SLOT, 0))
  {
  }

  lemma {:induction false} VerifierWalk(from: nat, log: Log)
    requires from <= |log| && forall k | from <= k < |log| :: VerifierCall(log[k].call)
    ensures Walk(true, from, log) == Closed
  {
    if |log| > from {
      var before := log[..|log| - 1];
      assert forall k | from <= k < |before| :: before[k] == log[k];
      VerifierWalk(from, before);
      assert VerifierCall(log[|log| - 1].call);
    }
  }

  lemma VerificationWalks(chip: Chip, log: Log, req: Request)
    requires req.SM2Verify?
    ensures Walk(true, |log|, Perform(chip, log, req).log) == Closed
  {
    VerificationCalls(chip, log, req);
    var after := Perform(chip, log, req).log;
    forall k | |log| <= k < |after|
      ensures VerifierCall(after[k].call)
    {
      assert k == |log| || k == |log| + 1;
    }
    VerifierWalk(|log|, after);
  }

  /** The verification makes no call but an import of the caller's key into slot 3, when its arguments pass the checks,
      and then, if the chip took the key and the signature is not too long, a verification with it. */
  lemma VerifierCalls(chip: Chip, log: Log, cmd: Command)
    requires cmd.SM2VerifyHex?
    ensures var after := Exec(chip, log, cmd).log;
      var sig := Pairs(cmd.hex);
      && log <= after && |after| <= |log| + 2
      && (|after| > |log| <==> Issues(cmd) && Checks(RequestOf(cmd).value))
      && (|after| > |log| ==> after[|log|].call == ImportPubKey(KeyImage(Pairs(cmd.pubHex)), TEMP_SLOT))
      && (|after| > |log| + 1 <==> |after| > |log| && Succeeded(after[|log|]) && |sig| <= SIGN_BUFFER)
      && (|after| > |log| + 1 ==>
            after[|log| + 1].call == Verify(Overlay(Zeros(SIGN_BUFFER), sig), Seen(cmd.plain), TEMP_SLOT, 0))
      && Walk(true, |log|, after) == Closed
  {
    var req := SM2Verify(Pairs(cmd.pubHex), cmd.plain, Pairs(cmd.hex));
    var after := Exec(chip, log, cmd).log;
    assert after == if Issues(cmd) then Perform(chip, log, req).log else log;
    VerificationCalls(chip, log, req);
    VerificationWalks(chip, log, req);
  }

  // ---------- Whole runs ----------

  /** What keeps the strict discipline also keeps the lenient one. */
  lemma {:induction false} StrictIsLenient(from: nat, log: Log)
    requires Walk(false, from, log) != Broken
    ensures Walk(true, from, log) == Walk(false, from, log)
  {
    if |log| > from {
      StrictIsLenient(from, log[..|log| - 1]);
    }
  }

  lemma {:induction false} WalkOn(lenient: bool, from: nat, log: Log, longer: Log)
    requires from <= |log| && log <= longer && Walk(lenient, from, log) == Closed
    ensures Walk(lenient, from, longer) == Walk(lenient, |log|, longer)
  {
    if |longer| > |log| {
      WalkOn(lenient, from, log, longer[..|longer| - 1]);
    } else {
      assert log == longer;
    }
  }

  lemma SessionExtends(chip: Chip, log: Log, authenticate: bool, req: Option<Request>)
    ensures log <= Session(chip, log, authenticate, req).log
  {
  }

  lemma CommandExtends(chip: Chip, log: Log, cmd: Command)
    requires Sane(cmd)
    ensures log <= Exec(chip, log, cmd).log
  {
    SessionExtends(chip, log, Authenticates(cmd), RequestOf(cmd));
  }

  lemma {:induction false} RunExtends(chip: Chip, log: Log, cmds: seq<Command>)
    requires AllSane(cmds)
    ensures log <= RunLog(chip, log, cmds)
  {
    if cmds != [] {
      var before := cmds[..|cmds| - 1];
      RunExtends(chip, log, before);
      CommandExtends(chip, RunLog(chip, log, before), cmds[|cmds| - 1]);
    }
  }

  /** Over any sequence of commands, with any answers from the chip, the discipline holds throughout and no session is
      left open. */
  lemma {:induction false} RunIsSafe(chip: Chip, log: Log, cmds: seq<Command>)
    requires AllSane(cmds)
    ensures Walk(true, |log|, RunLog(chip, log, cmds)) == Closed
  {
    if cmds != [] {
      var before, cmd := cmds[..|cmds| - 1], cmds[|cmds| - 1];
      var mid := RunLog(chip, log, before);
      RunIsSafe(chip, log, before);
      RunExtends(chip, log, before);
      CommandExtends(chip, mid, cmd);
      if cmd.SM2VerifyHex? {
        VerifierCalls(chip, mid, cmd);
      } else {
        CommandCloses(chip, mid, cmd);
        StrictIsLenient(|mid|, Exec(chip, mid, cmd).log);
      }
      WalkOn(true, |log|, mid, Exec(chip, mid, cmd).log);
    }
  }

  // ---------- Calls outside a session ----------

  /** A run without verifications keeps the strict discipline. */
  lemma {:induction false} RunIsStrict(chip: Chip, log: Log, cmds: seq<Command>)
    requires AllSane(cmds) && forall k | 0 <= k < |cmds| :: !cmds[k].SM2VerifyHex?
    ensures Walk(false, |log|, RunLog(chip, log, cmds)) == Closed
  {
    if cmds != [] {
      var before, cmd := cmds[..|cmds| - 1], cmds[|cmds| - 1];
      var mid := RunLog(chip, log, before);
      RunIsStrict(chip, log, before);
      RunExtends(chip, log, before);
      CommandExtends(chip, mid, cmd);
      CommandCloses(chip, mid, cmd);
      WalkOn(false, |log|, mid, Exec(chip, mid, cmd).log);
    }
  }

  lemma {:induction false} NeverBroken(lenient: bool, from: nat, log: Log, k: nat)
    requires from <= k <= |log| && Walk(lenient, from, log) != Broken
    ensures Walk(lenient, from, log[..k]) != Broken
  {
    if k < |log| {
      NeverBroken(lenient, from, log[..|log| - 1], k);
      assert log[..|log| - 1][..k] == log[..k];
    } else {
      assert log[..k] == log;
    }
  }

  lemma WalkStep(lenient: bool, from: nat, log: Log, k: nat)
    requires from <= k < |log|
    ensures Walk(lenient, from, log[..k + 1]) == Advance(lenient, Walk(lenient, from, log[..k]), log[k])
  {
    assert log[..k + 1][..k] == log[..k];
  }

  /** Call number `k` of a log is made while no session is open, and is not an attempt to open one. */
  predicate Outside(from: nat, log: Log, k: nat)
    requires from <= k < |log|
  {
    Walk(true, from, log[..k]) == Closed && !log[k].call.FuncLibOpen?
  }

  lemma NoneOutside(from: nat, log: Log, k: nat)
    requires from <= k < |log| && Walk(false, from, log) != Broken
    ensures !Outside(from, log, k)
  {
    NeverBroken(false, from, log, k);
    NeverBroken(false, from, log, k + 1);
    StrictIsLenient(from, log[..k]);
    WalkStep(false, from, log, k);
  }

  /** Call number `k` of a run is made in the course of command number `j`. */
  predicate MadeBy(chip: Chip, log: Log, cmds: seq<Command>, k: nat, j: nat)
    requires AllSane(cmds) && j < |cmds|
  {
    |RunLog(chip, log, cmds[..j])| <= k < |RunLog(chip, log, cmds[..j + 1])|
  }

  lemma NewCallOutside(chip: Chip, from: nat, mid: Log, cmd: Command, k: nat)
    requires Sane(cmd) && from <= |mid| <= k < |Exec(chip, mid, cmd).log|
    requires Walk(true, from, mid) == Closed && Outside(from, Exec(chip, mid, cmd).log, k)
    ensures cmd.SM2VerifyHex?
  {
    var after := Exec(chip, mid, cmd).log;
    CommandExtends(chip, mid, cmd);
    assert mid <= after[..k];
    WalkOn(true, from, mid, after[..k]);
    if !cmd.SM2VerifyHex? {
      CommandCloses(chip, mid, cmd);
      NoneOutside(|mid|, after, k);
    }
  }

  /** Whatever the run and the chip, a call outside a session is made by a verification. */
  lemma {:induction false} OutsideIsVerification(chip: Chip, log: Log, cmds: seq<Command>, k: nat) returns (j: nat)
    requires AllSane(cmds) && |log| <= k < |RunLog(chip, log, cmds)|
    requires Outside(|log|, RunLog(chip, log, cmds), k)
    ensures j < |cmds| && MadeBy(chip, log, cmds, k, j) && cmds[j].SM2VerifyHex?
  {
    j := |cmds| - 1;
    var before := cmds[..j];
    var mid, after := RunLog(chip, log, before), RunLog(chip, log, cmds);
    RunExtends(chip, log, before);
    if k < |mid| {
      CommandExtends(chip, mid, cmds[j]);
      assert after[..k] == mid[..k];
      j := OutsideIsVerification(chip, log, before, k);
      assert before[..j] == cmds[..j] && before[..j + 1] == cmds[..j + 1];
    } else {
      assert cmds[..j + 1] == cmds;
      RunIsSafe(chip, log, before);
      NewCallOutside(chip, |log|, mid, cmds[j], k);
    }
  }

  /** Successful openings, and closings, from call number `from` on. */
  function Openings(from: nat, log: Log): nat {
    if |log| <= from then 0
    else
      var e := log[|log| - 1];
      Openings(from, log[..|log| - 1]) + if e.call.FuncLibOpen? && Succeeded(e) then 1 else 0
  }

  function Closings(from: nat, log: Log): nat {
    if |log| <= from then 0
    else Closings(from, log[..|log| - 1]) + if log[|log| - 1].call.FuncLibClose? then 1 else 0
  }

  lemma {:induction false} OpeningsAreClosed(from: nat, log: Log)
    requires Walk(true, from, log) != Broken
    ensures Openings(from, log) == Closings(from, log) + if Walk(true, from, log).Open? then 1 else 0
  {
    if |log| > from {
      OpeningsAreClosed(from, log[..|log| - 1]);
    }
  }

  /** Every successful opening of a run is matched by one closing. */
  lemma {:induction false} RunClosesWhatItOpens(chip: Chip, log: Log, cmds: seq<Command>)
    requires AllSane(cmds)
    ensures Openings(|log|, RunLog(chip, log, cmds)) == Closings(|log|, RunLog(chip, log, cmds))
  {
    RunIsSafe(chip, log, cmds);
    OpeningsAreClosed(|log|, RunLog(chip, log, cmds));
  }
}
