/** How far cleanup takes a provider back to a new one. */
module Reset {
  import opened Bytes
  import opened Ciphers
  import opened Provider
  import opened History
  import opened Streaming

  /** All cells that any call reads look the same. */
  ghost predicate Alike(s: State, t: State) {
    forall c | c != Current :: Look(s, c) == Look(t, c)
  }

  lemma AlikeAnswers(h: Hasher, s: State, t: State, op: Op)
    requires Alike(s, t)
    ensures AnswerTo(h, s, op) == AnswerTo(h, t, op)
  {
    AnswerFromSource(h, s, t, op);
  }

  lemma AlikeSteps(h: Hasher, s: State, t: State, op: Op)
    requires Alike(s, t)
    ensures Alike(Step(h, s, op).state, Step(h, t, op).state)
  {
    forall c | c != Current
      ensures Look(Step(h, s, op).state, c) == Look(Step(h, t, op).state, c)
    {
      if Addresses(op, c) {
        StepLocal(h, s, t, op, c);
      } else {
        StepFrame(h, s, op, c);
        StepFrame(h, t, op, c);
      }
    }
  }

  lemma {:induction false} AlikeRuns(h: Hasher, a: seq<Op>, b: seq<Op>, more: seq<Op>)
    requires Alike(Run(h, a), Run(h, b))
    ensures Alike(Run(h, a + more), Run(h, b + more))
  {
    if more == [] {
      assert a + more == a && b + more == b;
    } else {
      var before, last := more[..|more| - 1], more[|more| - 1];
      AlikeRuns(h, a, b, before);
      AlikeSteps(h, Run(h, a + before), Run(h, b + before), last);
      RunAppend(h, a + before, last);
      RunAppend(h, b + before, last);
      assert a + more == a + before + [last] && b + more == b + before + [last];
    }
  }

  /** The calls of a history on the SM3 stream write no slot. */
  lemma {:induction false} StreamCallsWriteNoSlot(calls: seq<Op>, c: Cell)
    requires IsSlot(c)
    ensures forall k :: 0 <= k < |Project(calls, Stream)| ==> Writes(Project(calls, Stream)[k], c).None?
  {
    if calls != [] {
      StreamCallsWriteNoSlot(calls[..|calls| - 1], c);
    }
  }

  lemma CleanedCell(h: Hasher, calls: seq<Op>, c: Cell)
    requires c != Current
    ensures Look(Run(h, calls + [General(Cleanup)]), c) == Look(Run(h, Project(calls, Stream)), c)
  {
    RunAppend(h, calls, General(Cleanup));
    if IsSlot(c) {
      StepWrites(h, Run(h, calls), General(Cleanup), c);
      StreamCallsWriteNoSlot(calls, c);
      Unwritten(h, Project(calls, Stream), c);
    } else if c.Stream? {
      StepFrame(h, Run(h, calls), General(Cleanup), c);
      Projection(h, calls, c);
    }
  }

  /** After cleanup, the provider answers all that is called from then on as a new one would to which only the calls on
      the SM3 stream had been made. */
  lemma {:induction false} CleanupKeepsOnlyStream(h: Hasher, calls: seq<Op>, more: seq<Op>, op: Op)
    ensures AnswerTo(h, Run(h, calls + [General(Cleanup)] + more), op)
         == AnswerTo(h, Run(h, Project(calls, Stream) + more), op)
  {
    forall c | c != Current
      ensures Look(Run(h, calls + [General(Cleanup)]), c) == Look(Run(h, Project(calls, Stream)), c)
    {
      CleanedCell(h, calls, c);
    }
    AlikeRuns(h, calls + [General(Cleanup)], Project(calls, Stream), more);
    AlikeAnswers(h, Run(h, calls + [General(Cleanup)] + more), Run(h, Project(calls, Stream) + more), op);
  }

  lemma ClosedIsReset(h: Hasher, calls: seq<Op>)
    requires forall k: nat :: !OpenSince(calls, k)
    ensures Alike(Run(h, calls + [General(Cleanup)]), Initial())
  {
    forall c | c != Current
      ensures Look(Run(h, calls + [General(Cleanup)]), c) == Look(Initial(), c)
    {
      if IsSlot(c) {
        RunAppend(h, calls, General(Cleanup));
        StepWrites(h, Run(h, calls), General(Cleanup), c);
        Unwritten(h, [], c);
      } else if c.Stream? {
        StreamClosed(h, calls);
        ReachableFlags(h, calls);
        assert Agrees(c, Look(Run(h, calls), c));
        RunAppend(h, calls, General(Cleanup));
        StepFrame(h, Run(h, calls), General(Cleanup), c);
      }
    }
  }

  /** A call that a new provider turns away. */
  const FEED := SM3(SM3Update(Some([1])))

  lemma FeedNeedsStream(h: Hasher, s: State)
    ensures AnswerTo(h, s, FEED).rc == 0 <==> Look(s, Stream).valid
  {
  }

  lemma OpenIsNoReset(h: Hasher, calls: seq<Op>, k: nat)
    requires OpenSince(calls, k)
    ensures AnswerTo(h, Run(h, calls + [General(Cleanup)]), FEED) != AnswerTo(h, Initial(), FEED)
  {
    StreamHoldsChunks(h, calls, k);
    RunAppend(h, calls, General(Cleanup));
    StepFrame(h, Run(h, calls), General(Cleanup), Stream);
    FeedNeedsStream(h, Run(h, calls + [General(Cleanup)]));
    FeedNeedsStream(h, Initial());
  }

  /** Cleanup is a reset, to any next call and to any further history of calls, exactly when no sm3Init is left
      unfinished. */
  lemma {:induction false} CleanupIsResetExact(h: Hasher, calls: seq<Op>)
    ensures (forall op :: AnswerTo(h, Run(h, calls + [General(Cleanup)]), op) == AnswerTo(h, Initial(), op))
       <==> forall k: nat :: !OpenSince(calls, k)
    ensures (forall more, op ::
               AnswerTo(h, Run(h, calls + [General(Cleanup)] + more), op) == AnswerTo(h, Run(h, more), op))
       <==> forall k: nat :: !OpenSince(calls, k)
  {
    var cleaned := calls + [General(Cleanup)];
    if k: nat :| OpenSince(calls, k) {
      OpenIsNoReset(h, calls, k);
      assert cleaned + [] == cleaned;
      assert AnswerTo(h, Run(h, cleaned + []), FEED) != AnswerTo(h, Run(h, []), FEED);
    } else {
      ClosedIsReset(h, calls);
      forall op
        ensures AnswerTo(h, Run(h, cleaned), op) == AnswerTo(h, Initial(), op)
      {
        AlikeAnswers(h, Run(h, cleaned), Initial(), op);
      }
      forall more, op
        ensures AnswerTo(h, Run(h, cleaned + more), op) == AnswerTo(h, Run(h, more), op)
      {
        AlikeRuns(h, cleaned, [], more);
        assert [] + more == more;
        AlikeAnswers(h, Run(h, cleaned + more), Run(h, more), op);
      }
    }
  }

  /** A digest begun before a cleanup can be taken after it. */
  lemma StreamOutlivesCleanup(h: Hasher)
    ensures var calls := [SM3(SM3Init), SM3(SM3Update(Some([1]))), General(Cleanup)];
      AnswerTo(h, Run(h, calls), SM3(SM3Final(true))) == Answer(0, Digest(h, [1]))
  {
    var feed := SM3(SM3Update(Some([1])));
    var calls := [SM3(SM3Init), feed, General(Cleanup)];
    assert calls[1..] == [feed, General(Cleanup)];
    assert Gather([feed]) == [1] && [feed, General(Cleanup)][..1] == [feed];
    FinalIsOneShot(h, calls, 0, Initial());
  }
}
