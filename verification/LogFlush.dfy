/** What a flush call of the log queue guarantees, and when it can return at all. */
module LogFlush {
  import opened LogQueue

  /** The run so far, then a flush call, then anything; in the end the flush has returned. */
  ghost predicate FlushReturns(steps: seq<Step>, id: SyncId, longer: seq<Step>) {
    && steps + [SyncBegin(id)] <= longer && LegalRun(longer)
    && id in Run(longer).syncs && Run(longer).syncs[id].returned
  }

  /** Whenever it returns, everything enqueued before it has been sent. */
  ghost predicate Delivers(steps: seq<Step>, longer: seq<Step>)
    requires LegalRun(steps) && LegalRun(longer)
  {
    Run(steps).enqueued <= Run(longer).sent
  }

  predicate NoSpurious(steps: seq<Step>, id: SyncId) {
    forall i :: 0 <= i < |steps| ==> steps[i] != SpuriousWake(id)
  }

  // ---------------------------------------------------------------- later states

  ghost predicate LaterSync(x: Sync, x': Sync) {
    x'.mark == x.mark && x'.waited == x.waited && (x.returned ==> x'.returned)
  }

  ghost predicate Later(s: State, s': State) {
    && s.sent <= s'.sent && s.enqueued <= s'.enqueued
    && forall id :: id in s.syncs ==> id in s'.syncs && LaterSync(s.syncs[id], s'.syncs[id])
  }

  lemma StepIsLater(s: State, step: Step)
    requires Enabled(s, step)
    ensures Later(s, Apply(s, step))
  {
  }

  lemma LaterThan(s: State, s': State, s'': State)
    requires Later(s, s') && Later(s', s'')
    ensures Later(s, s'')
  {
    forall id | id in s.syncs ensures id in s''.syncs && LaterSync(s.syncs[id], s''.syncs[id]) {
      assert LaterSync(s.syncs[id], s'.syncs[id]) && LaterSync(s'.syncs[id], s''.syncs[id]);
    }
  }

  lemma {:induction false} RunIsLater(steps: seq<Step>, longer: seq<Step>)
    requires steps <= longer && LegalRun(longer)
    ensures LegalRun(steps) && Later(Run(steps), Run(longer))
  {
    if steps == longer {
    } else {
      var init := longer[..|longer| - 1];
      assert steps <= init;
      RunIsLater(steps, init);
      StepIsLater(Run(init), longer[|longer| - 1]);
      LaterThan(Run(steps), Run(init), Run(longer));
    }
  }

  lemma AfterBegin(steps: seq<Step>, id: SyncId)
    requires LegalRun(steps) && id !in Run(steps).syncs
    ensures LegalRun(steps + [SyncBegin(id)])
    ensures Run(steps + [SyncBegin(id)]) == Apply(Run(steps), SyncBegin(id))
  {
    RunStep(steps, SyncBegin(id), Apply(Run(steps), SyncBegin(id)));
  }

  lemma Counts(s: State)
    requires Conserved(s)
    ensures |s.sent| + |InFlight(s)| + |s.queue| == |s.enqueued| && |InFlight(s)| <= 1 && s.sent <= s.enqueued
    ensures s.sent == s.enqueued <==> |s.sent| == |s.enqueued|
  {
    assert s.sent == s.enqueued[..|s.sent|];
  }

  lemma DeliversByCount(steps: seq<Step>, longer: seq<Step>)
    requires steps <= longer && LegalRun(longer) && LegalRun(steps)
    ensures Delivers(steps, longer) <==> |Run(steps).enqueued| <= |Run(longer).sent|
  {
    RunIsLater(steps, longer);
    RunKeepsInv(longer);
    Counts(Run(longer));
    var e, sent, all := Run(steps).enqueued, Run(longer).sent, Run(longer).enqueued;
    if |e| <= |sent| {
      assert e == all[..|e|] == sent[..|e|];
    }
  }

  // ---------------------------------------------------------------- flushes that are woken up for a reason

  /** A flush that has waited is woken up only after a later message was enqueued, or after everything
      was sent. */
  ghost predicate Prompt(s: State, id: SyncId) {
    && id in s.syncs && s.syncs[id].waited
    && (s.syncs[id].notified ==> s.syncs[id].mark < |s.enqueued| || s.syncs[id].mark <= |s.sent|)
    && (s.syncs[id].returned ==> s.syncs[id].mark <= |s.sent|)
  }

  lemma StepKeepsPrompt(s: State, step: Step, id: SyncId)
    requires Inv(s) && Enabled(s, step) && Prompt(s, id) && step != SpuriousWake(id)
    ensures Prompt(Apply(s, step), id)
  {
    Counts(s);
  }

  lemma {:induction false} RunKeepsPrompt(steps: seq<Step>, longer: seq<Step>, id: SyncId)
    requires steps <= longer && LegalRun(longer) && LegalRun(steps) && Prompt(Run(steps), id) && NoSpurious(longer, id)
    ensures Prompt(Run(longer), id)
  {
    if steps == longer {
    } else {
      var init := longer[..|longer| - 1];
      assert steps <= init;
      RunKeepsPrompt(steps, init, id);
      RunKeepsInv(init);
      StepKeepsPrompt(Run(init), longer[|longer| - 1], id);
    }
  }

  lemma WaitingFlushDelivers(steps: seq<Step>, id: SyncId, longer: seq<Step>)
    requires LegalRun(steps) && id !in Run(steps).syncs && Run(steps).queue != []
    requires FlushReturns(steps, id, longer) && NoSpurious(longer, id)
    ensures Delivers(steps, longer)
  {
    AfterBegin(steps, id);
    RunKeepsPrompt(steps + [SyncBegin(id)], longer, id);
    RunIsLater(steps + [SyncBegin(id)], longer);
    DeliversByCount(steps, longer);
  }

  lemma NothingUnsentDelivers(steps: seq<Step>, longer: seq<Step>)
    requires steps <= longer && LegalRun(longer) && LegalRun(steps) && Run(steps).sent == Run(steps).enqueued
    ensures Delivers(steps, longer)
  {
    RunIsLater(steps, longer);
  }

  lemma NotInside(steps: seq<Step>, id: SyncId)
    requires LegalRun(steps) && id !in Run(steps).syncs
    ensures NoSpurious(steps, id)
  {
    forall i | 0 <= i < |steps| ensures steps[i] != SpuriousWake(id) {
      var before := steps[..i + 1];
      RunIsLater(before, steps);
      assert before[..i] == before[..|before| - 1];
    }
  }

  lemma ReturnsAtOnce(steps: seq<Step>, id: SyncId)
    requires LegalRun(steps) && id !in Run(steps).syncs && Run(steps).queue == []
    ensures FlushReturns(steps, id, steps + [SyncBegin(id)]) && NoSpurious(steps + [SyncBegin(id)], id)
    ensures Delivers(steps, steps + [SyncBegin(id)]) <==> Run(steps).sent == Run(steps).enqueued
  {
    AfterBegin(steps, id);
    NotInside(steps, id);
    RunKeepsInv(steps);
    Counts(Run(steps));
    DeliversByCount(steps, steps + [SyncBegin(id)]);
  }

  /** When threads are woken up only by a notification, a flush guarantees that every earlier message
      has been sent if and only if it finds the queue not empty, or nothing unsent at all. So what can
      be missed is the last message, when the consumer has just taken it. */
  lemma FlushCompleteExactly(steps: seq<Step>, id: SyncId)
    requires LegalRun(steps) && id !in Run(steps).syncs
    ensures (forall longer | FlushReturns(steps, id, longer) && NoSpurious(longer, id) :: Delivers(steps, longer))
       <==> Run(steps).queue != [] || Run(steps).sent == Run(steps).enqueued
  {
    forall longer | FlushReturns(steps, id, longer) && NoSpurious(longer, id)
      ensures Run(steps).queue != [] || Run(steps).sent == Run(steps).enqueued ==> Delivers(steps, longer)
    {
      assert steps <= longer;
      if Run(steps).queue != [] {
        WaitingFlushDelivers(steps, id, longer);
      } else if Run(steps).sent == Run(steps).enqueued {
        NothingUnsentDelivers(steps, longer);
      }
    }
    if Run(steps).queue == [] {
      ReturnsAtOnce(steps, id);
    }
  }

  // ---------------------------------------------------------------- draining the queue

  /** How far the consumer is from taking the next message. */
  function Distance(c: Consumer): nat {
    match c
    case Sending(_) => 2
    case AtTop => 1
    case _ => 0
  }

  /** The consumer can take everything that is queued. */
  predicate Drainable(s: State) {
    && s.queue != [] && s.consumer != Exited
    && (s.isListening || ((s.consumer == InBody || s.consumer == Waiting) && |s.queue| == 1))
  }

  /** The last queued message has been taken and is not sent yet. */
  ghost predicate Drained(s: State, s': State) {
    && s'.queue == [] && s'.consumer.Sending? && s'.enqueued == s.enqueued && s'.syncs == s.syncs
    && s'.isListening == s.isListening
  }

  lemma {:induction false} Drain(steps: seq<Step>, id: SyncId) returns (longer: seq<Step>)
    requires LegalRun(steps) && Drainable(Run(steps)) && NoSpurious(steps, id)
    ensures steps <= longer && LegalRun(longer) && Drained(Run(steps), Run(longer)) && NoSpurious(longer, id)
    decreases |Run(steps).queue|, Distance(Run(steps).consumer)
  {
    var s := Run(steps);
    var step := match s.consumer
      case Sending(_) => Send([])
      case AtTop => TestListening
      case _ => Pop;
    RunStep(steps, step, Apply(s, step));
    longer := steps + [step];
    if Run(longer).queue != [] {
      longer := Drain(longer, id);
    }
  }

  lemma SpuriousReturn(steps: seq<Step>, id: SyncId) returns (longer: seq<Step>)
    requires LegalRun(steps) && Run(steps).queue == [] && id in Run(steps).syncs && !Run(steps).syncs[id].returned
    ensures steps <= longer && LegalRun(longer) && id in Run(longer).syncs && Run(longer).syncs[id].returned
    ensures Run(longer).sent == Run(steps).sent
  {
    RunStep(steps, SpuriousWake(id), Apply(Run(steps), SpuriousWake(id)));
    longer := steps + [SpuriousWake(id)];
    RunStep(longer, SyncWake(id), Apply(Run(longer), SyncWake(id)));
    longer := longer + [SyncWake(id)];
  }

  /** A waiting flush and a queue that will never be empty again. */
  ghost predicate NeverEmpty(s: State) {
    && s.queue != [] && !s.isListening
    && (s.consumer == InBody || s.consumer == Waiting ==> |s.queue| >= 2)
  }

  lemma StepKeepsNeverEmpty(s: State, step: Step, id: SyncId)
    requires Enabled(s, step) && NeverEmpty(s) && id in s.syncs && !s.syncs[id].returned
    ensures NeverEmpty(Apply(s, step)) && id in Apply(s, step).syncs && !Apply(s, step).syncs[id].returned
  {
  }

  lemma {:induction false} RunKeepsNeverEmpty(steps: seq<Step>, longer: seq<Step>, id: SyncId)
    requires steps <= longer && LegalRun(longer) && LegalRun(steps)
    requires NeverEmpty(Run(steps)) && id in Run(steps).syncs && !Run(steps).syncs[id].returned
    ensures NeverEmpty(Run(longer)) && id in Run(longer).syncs && !Run(longer).syncs[id].returned
  {
    if steps == longer {
    } else {
      var init := longer[..|longer| - 1];
      assert steps <= init;
      RunKeepsNeverEmpty(steps, init, id);
      StepKeepsNeverEmpty(Run(init), longer[|longer| - 1], id);
    }
  }

  lemma {:induction false} ExitedIsStopped(steps: seq<Step>)
    requires LegalRun(steps)
    ensures Run(steps).consumer == Exited ==> !Run(steps).isListening
  {
    if steps == [] {
    } else {
      ExitedIsStopped(steps[..|steps| - 1]);
    }
  }

  lemma EarlyReturnExists(steps: seq<Step>, id: SyncId) returns (longer: seq<Step>)
    requires LegalRun(steps) && id !in Run(steps).syncs
    requires Run(steps).sent != Run(steps).enqueued && !NeverEmpty(Run(steps))
    ensures FlushReturns(steps, id, longer) && !Delivers(steps, longer)
  {
    AfterBegin(steps, id);
    longer := steps + [SyncBegin(id)];
    if Run(steps).queue == [] {
      ReturnsAtOnce(steps, id);
    } else {
      ExitedIsStopped(steps);
      NotInside(steps, id);
      var drained := Drain(longer, id);
      longer := SpuriousReturn(drained, id);
      RunKeepsInv(drained);
      Counts(Run(drained));
      DeliversByCount(steps, longer);
    }
  }

  /** When threads may be woken up without a reason, as condition variables allow, a flush guarantees
      that every earlier message has been sent if and only if nothing was unsent to begin with, or it
      cannot return at all, because the consumer will stop before it has emptied the queue. */
  lemma FlushCompleteDespiteSpuriousWakeUps(steps: seq<Step>, id: SyncId)
    requires LegalRun(steps) && id !in Run(steps).syncs
    ensures (forall longer | FlushReturns(steps, id, longer) :: Delivers(steps, longer))
       <==> Run(steps).sent == Run(steps).enqueued || NeverEmpty(Run(steps))
  {
    AfterBegin(steps, id);
    forall longer | FlushReturns(steps, id, longer)
      ensures Run(steps).sent == Run(steps).enqueued || NeverEmpty(Run(steps)) ==> Delivers(steps, longer)
    {
      assert steps <= longer;
      if Run(steps).sent == Run(steps).enqueued {
        NothingUnsentDelivers(steps, longer);
      } else if NeverEmpty(Run(steps)) {
        RunKeepsNeverEmpty(steps + [SyncBegin(id)], longer, id);
      }
    }
    if Run(steps).sent != Run(steps).enqueued && !NeverEmpty(Run(steps)) {
      var longer := EarlyReturnExists(steps, id);
    }
  }

  // ---------------------------------------------------------------- returning at all

  /** The consumer is going to stop, and no notification will find the queue empty. */
  ghost predicate Abandoned(s: State, id: SyncId) {
    && id in s.syncs && !s.syncs[id].returned && !s.isListening
    && (s.syncs[id].notified ==> s.queue != [])
    && (s.consumer == InBody || s.consumer == Waiting ==> |s.queue| >= if s.syncs[id].notified then 2 else 1)
  }

  lemma StepKeepsAbandoned(s: State, step: Step, id: SyncId)
    requires Enabled(s, step) && Abandoned(s, id) && step != SpuriousWake(id)
    ensures Abandoned(Apply(s, step), id)
  {
  }

  lemma {:induction false} RunKeepsAbandoned(steps: seq<Step>, longer: seq<Step>, id: SyncId)
    requires steps <= longer && LegalRun(longer) && LegalRun(steps)
    requires Abandoned(Run(steps), id) && NoSpurious(longer, id)
    ensures Abandoned(Run(longer), id)
  {
    if steps == longer {
    } else {
      var init := longer[..|longer| - 1];
      assert steps <= init;
      RunKeepsAbandoned(steps, init, id);
      StepKeepsAbandoned(Run(init), longer[|longer| - 1], id);
    }
  }

  /** From a drained queue the running consumer comes back, finds nothing and notifies. */
  lemma ComesBack(steps: seq<Step>, id: SyncId) returns (longer: seq<Step>)
    requires LegalRun(steps) && Run(steps).queue == [] && Run(steps).consumer.Sending? && Run(steps).isListening
    requires NoSpurious(steps, id)
    ensures steps <= longer && LegalRun(longer) && NoSpurious(longer, id)
    ensures Run(longer).queue == [] && Run(longer).syncs == AllNotified(Run(steps).syncs)
  {
    RunStep(steps, Send([]), Apply(Run(steps), Send([])));
    longer := steps + [Send([])];
    RunStep(longer, TestListening, Apply(Run(longer), TestListening));
    longer := longer + [TestListening];
    RunStep(longer, Wait, Apply(Run(longer), Wait));
    longer := longer + [Wait];
  }

  lemma NotifiedReturn(steps: seq<Step>, id: SyncId) returns (longer: seq<Step>)
    requires LegalRun(steps) && Run(steps).queue == [] && Run(steps).consumer.Sending? && Run(steps).isListening
    requires id in Run(steps).syncs && !Run(steps).syncs[id].returned && NoSpurious(steps, id)
    ensures steps <= longer && LegalRun(longer) && NoSpurious(longer, id)
    ensures id in Run(longer).syncs && Run(longer).syncs[id].returned
  {
    longer := ComesBack(steps, id);
    RunStep(longer, SyncWake(id), Apply(Run(longer), SyncWake(id)));
    longer := longer + [SyncWake(id)];
  }

  lemma ReturnExists(steps: seq<Step>, id: SyncId) returns (longer: seq<Step>)
    requires LegalRun(steps) && id !in Run(steps).syncs
    requires Run(steps).queue == [] || Run(steps).isListening
    ensures FlushReturns(steps, id, longer) && NoSpurious(longer, id)
  {
    AfterBegin(steps, id);
    NotInside(steps, id);
    longer := steps + [SyncBegin(id)];
    if Run(steps).queue == [] {
      ReturnsAtOnce(steps, id);
    } else {
      ExitedIsStopped(steps);
      var drained := Drain(longer, id);
      longer := NotifiedReturn(drained, id);
    }
  }

  /** A flush can return, by notifications alone, if and only if it finds the queue empty or the
      consumer has not been told to stop: one that meets a stopping consumer hangs. */
  lemma FlushReturnsExactly(steps: seq<Step>, id: SyncId)
    requires LegalRun(steps) && id !in Run(steps).syncs
    ensures (exists longer :: FlushReturns(steps, id, longer) && NoSpurious(longer, id))
       <==> Run(steps).queue == [] || Run(steps).isListening
  {
    AfterBegin(steps, id);
    if Run(steps).queue == [] || Run(steps).isListening {
      var longer := ReturnExists(steps, id);
    } else {
      forall longer | FlushReturns(steps, id, longer) ensures !NoSpurious(longer, id) {
        if NoSpurious(longer, id) {
          RunKeepsAbandoned(steps + [SyncBegin(id)], longer, id);
        }
      }
    }
  }
}
