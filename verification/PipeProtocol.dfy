/** All threads of one process that run PipeCall, and all children they forked, interleaved. A step
    is one critical section of the mutex, one step of a child, or an action of unrelated code. */
module PipeProtocol {
  import opened PipeTables

  type Pid = nat

  datatype Phase = Start | HaveStdin | HaveBoth | Unwinding | Forked | StdinReadClosed | Transfer | Finished

  /** ends holds the members of the two pipe arrays that are not -1. */
  datatype Call = Call(phase: Phase, ends: map<EndKind, Fd>)

  /** A child is a copy of its parent at the fork that has made some of its actions since. */
  datatype Child = Child(call: CallId, snapshot: Proc, ends: map<EndKind, Fd>, step: nat)

  datatype State = State(proc: Proc, calls: map<CallId, Call>, children: map<Pid, Child>)

  datatype Step =
    | Begin(c: CallId)
    | CreateStdin(c: CallId, r: Fd, w: Fd)
    | CreateStdinFails(c: CallId)
    | CreateStdout(c: CallId, r: Fd, w: Fd)
    | CreateStdoutFails(c: CallId)
    | Fork(c: CallId, pid: Pid)
    | ForkFails(c: CallId)
    | UnwindClose(c: CallId)
    | UnwindDone(c: CallId)
    | CloseStdinRead(c: CallId)
    | CloseStdoutWrite(c: CallId)
    | WriterCloses(c: CallId)
    | ReaderCloses(c: CallId)
    | Return(c: CallId)
    | ChildActs(pid: Pid)
    | ChildExits(pid: Pid)
    | OtherOpens(fd: Fd)
    | OtherCloses(fd: Fd)

  const CHILD_DONE := 8

  predicate InPhase(s: State, c: CallId, phase: Phase) {
    c in s.calls && s.calls[c].phase == phase
  }

  predicate FreshPair(s: State, r: Fd, w: Fd) {
    r != w && r !in s.proc.files && w !in s.proc.files
  }

  predicate IsOpen(s: State, c: CallId, k: EndKind) {
    c in s.calls && k in s.calls[c].ends
  }

  /** The destructors run in reverse order of declaration, read end first. */
  function NextToUnwind(ends: map<EndKind, Fd>): EndKind {
    if STDOUT_READ in ends then STDOUT_READ
    else if STDOUT_WRITE in ends then STDOUT_WRITE
    else if STDIN_READ in ends then STDIN_READ
    else STDIN_WRITE
  }

  predicate Enabled(s: State, step: Step) {
    match step
    case Begin(c) => c !in s.calls
    case CreateStdin(c, r, w) => InPhase(s, c, Start) && FreshPair(s, r, w)
    case CreateStdinFails(c) => InPhase(s, c, Start)
    case CreateStdout(c, r, w) => InPhase(s, c, HaveStdin) && FreshPair(s, r, w)
    case CreateStdoutFails(c) => InPhase(s, c, HaveStdin)
    case Fork(c, pid) => InPhase(s, c, HaveBoth) && pid !in s.children
    case ForkFails(c) => InPhase(s, c, HaveBoth)
    case UnwindClose(c) => InPhase(s, c, Unwinding) && s.calls[c].ends.Keys != {}
    case UnwindDone(c) => InPhase(s, c, Unwinding) && s.calls[c].ends.Keys == {}
    case CloseStdinRead(c) => InPhase(s, c, Forked)
    case CloseStdoutWrite(c) => InPhase(s, c, StdinReadClosed)
    case WriterCloses(c) => InPhase(s, c, Transfer) && IsOpen(s, c, STDIN_WRITE)
    case ReaderCloses(c) => InPhase(s, c, Transfer) && IsOpen(s, c, STDOUT_READ)
    case Return(c) => InPhase(s, c, Transfer) && s.calls[c].ends.Keys == {}
    case ChildActs(pid) => pid in s.children && s.children[pid].step < CHILD_DONE
    case ChildExits(pid) => pid in s.children && s.children[pid].step == CHILD_DONE
    case OtherOpens(fd) => fd !in s.proc.files
    case OtherCloses(fd) => fd in s.proc.files && s.proc.files[fd] == Other
  }

  // ---------------------------------------------------------------- effects

  function WithPhase(s: State, c: CallId, phase: Phase): State
    requires c in s.calls
  {
    s.(calls := s.calls[c := s.calls[c].(phase := phase)])
  }

  function PipeAdded(s: State, c: CallId, readKind: EndKind, writeKind: EndKind, r: Fd, w: Fd, phase: Phase): State
    requires c in s.calls
  {
    s.(proc := Created(s.proc, c, readKind, writeKind, r, w),
       calls := s.calls[c := Call(phase, s.calls[c].ends[readKind := r][writeKind := w])])
  }

  /** Pipe::Close on one member of the arrays, which becomes -1. */
  function EndClosed(s: State, c: CallId, k: EndKind, phase: Phase): State
    requires IsOpen(s, c, k)
  {
    s.(proc := Closed(s.proc, s.calls[c].ends[k]),
       calls := s.calls[c := Call(phase, s.calls[c].ends - {k})])
  }

  /** A child that has made its next action. */
  function Advanced(ch: Child): Child {
    ch.(step := ch.step + 1)
  }

  /** An end that is already closed cannot be closed again; the invariant rules this case out. */
  function Apply(s: State, step: Step): State
    requires Enabled(s, step)
  {
    match step
    case Begin(c) => s.(calls := s.calls[c := Call(Start, map[])])
    case CreateStdin(c, r, w) => PipeAdded(s, c, STDIN_READ, STDIN_WRITE, r, w, HaveStdin)
    case CreateStdinFails(c) => WithPhase(s, c, Finished)
    case CreateStdout(c, r, w) => PipeAdded(s, c, STDOUT_READ, STDOUT_WRITE, r, w, HaveBoth)
    case CreateStdoutFails(c) => WithPhase(s, c, Unwinding)
    case Fork(c, pid) =>
      WithPhase(s, c, Forked).(children := s.children[pid := Child(c, s.proc, s.calls[c].ends, 0)])
    case ForkFails(c) => WithPhase(s, c, Unwinding)
    case UnwindClose(c) => CloseIfOpen(s, c, NextToUnwind(s.calls[c].ends), Unwinding)
    case UnwindDone(c) => WithPhase(s, c, Finished)
    case CloseStdinRead(c) => CloseIfOpen(s, c, STDIN_READ, StdinReadClosed)
    case CloseStdoutWrite(c) => CloseIfOpen(s, c, STDOUT_WRITE, Transfer)
    case WriterCloses(c) => CloseIfOpen(s, c, STDIN_WRITE, Transfer)
    case ReaderCloses(c) => CloseIfOpen(s, c, STDOUT_READ, Transfer)
    case Return(c) => WithPhase(s, c, Finished)
    case ChildActs(pid) => s.(children := s.children[pid := Advanced(s.children[pid])])
    case ChildExits(pid) => s.(children := s.children - {pid})
    case OtherOpens(fd) => s.(proc := s.proc.(files := s.proc.files[fd := Other]))
    case OtherCloses(fd) => s.(proc := s.proc.(files := s.proc.files - {fd}))
  }

  function CloseIfOpen(s: State, c: CallId, k: EndKind, phase: Phase): State {
    if IsOpen(s, c, k) then EndClosed(s, c, k, phase) else s
  }

  /** The end a step closes in the parent, if it closes one. */
  predicate Closes(s: State, step: Step, k: EndKind)
    requires Enabled(s, step)
  {
    match step
    case UnwindClose(c) => k == NextToUnwind(s.calls[c].ends)
    case CloseStdinRead(_) => k == STDIN_READ
    case CloseStdoutWrite(_) => k == STDOUT_WRITE
    case WriterCloses(_) => k == STDIN_WRITE
    case ReaderCloses(_) => k == STDOUT_READ
    case _ => false
  }

  /** At the start nothing is listed and no pipe end is open. */
  ghost predicate Initial(s: State) {
    && s.proc.closeList == [] && s.calls == map[] && s.children == map[]
    && (forall fd :: fd in s.proc.files ==> s.proc.files[fd] == Other)
  }

  ghost predicate LegalRun(s: State, steps: seq<Step>)
    decreases |steps|, 0
  {
    steps == [] || (LegalRun(s, steps[..|steps| - 1]) && Enabled(Run(s, steps[..|steps| - 1]), steps[|steps| - 1]))
  }

  ghost function Run(s: State, steps: seq<Step>): State
    requires LegalRun(s, steps)
    decreases |steps|, 1
  {
    if steps == [] then s else Apply(Run(s, steps[..|steps| - 1]), steps[|steps| - 1])
  }

  // ---------------------------------------------------------------- the invariant

  /** Every array member leads to its pipe end in the table. */
  ghost predicate ArraysValid(s: State) {
    forall c, k :: IsOpen(s, c, k) ==>
      s.calls[c].ends[k] in s.proc.files && s.proc.files[s.calls[c].ends[k]] == PipeEnd(c, k)
  }

  /** Every pipe end in the table is a member of its call's arrays. */
  ghost predicate TableOwned(s: State) {
    forall fd :: fd in s.proc.files && s.proc.files[fd].PipeEnd? ==> OwnedBy(s, s.proc.files[fd], fd)
  }

  ghost predicate OwnedBy(s: State, f: File, fd: Fd)
    requires f.PipeEnd?
  {
    IsOpen(s, f.call, f.kind) && s.calls[f.call].ends[f.kind] == fd
  }

  predicate PhaseEnds(call: Call) {
    match call.phase
    case Start => call.ends.Keys == {}
    case HaveStdin => call.ends.Keys == {STDIN_READ, STDIN_WRITE}
    case HaveBoth => HasAllEnds(call.ends)
    case Unwinding => true
    case Forked => HasAllEnds(call.ends)
    case StdinReadClosed => call.ends.Keys == {STDIN_WRITE, STDOUT_READ, STDOUT_WRITE}
    case Transfer => call.ends.Keys <= {STDIN_WRITE, STDOUT_READ}
    case Finished => call.ends.Keys == {}
  }

  ghost predicate ChildOk(ch: Child) {
    ch.step <= CHILD_DONE && ForkState(ch.snapshot, ch.call, ch.ends)
  }

  ghost predicate PhasesOk(calls: map<CallId, Call>) {
    forall c :: c in calls ==> PhaseEnds(calls[c])
  }

  ghost predicate ChildrenOk(children: map<Pid, Child>) {
    forall pid :: pid in children ==> ChildOk(children[pid])
  }

  ghost predicate Inv(s: State) {
    && ListExact(s.proc) && ArraysValid(s) && TableOwned(s)
    && PhasesOk(s.calls) && ChildrenOk(s.children)
  }

  lemma CreatedKeepsList(p: Proc, c: CallId, readKind: EndKind, writeKind: EndKind, r: Fd, w: Fd)
    requires ListExact(p) && r != w && r !in p.files && w !in p.files
    ensures ListExact(Created(p, c, readKind, writeKind, r, w))
  {
    assert r !in p.closeList && w !in p.closeList;
    var p' := Created(p, c, readKind, writeKind, r, w);
    assert forall fd :: fd in p'.closeList <==> fd in p.closeList || fd == r || fd == w;
  }

  lemma ClosedKeepsList(p: Proc, fd: Fd)
    requires ListExact(p) && fd in p.files && p.files[fd].PipeEnd?
    ensures fd in p.closeList && ListExact(Closed(p, fd))
  {
    WithoutExact(p.closeList, fd);
  }

  lemma PipeAddedKeepsOwners(s: State, c: CallId, readKind: EndKind, writeKind: EndKind, r: Fd, w: Fd, phase: Phase)
    requires ArraysValid(s) && TableOwned(s) && c in s.calls && FreshPair(s, r, w)
    requires readKind != writeKind && !IsOpen(s, c, readKind) && !IsOpen(s, c, writeKind)
    ensures ArraysValid(PipeAdded(s, c, readKind, writeKind, r, w, phase))
    ensures TableOwned(PipeAdded(s, c, readKind, writeKind, r, w, phase))
  {
    var s' := PipeAdded(s, c, readKind, writeKind, r, w, phase);
    forall d, k | IsOpen(s', d, k)
      ensures s'.calls[d].ends[k] in s'.proc.files && s'.proc.files[s'.calls[d].ends[k]] == PipeEnd(d, k)
    {
      assert IsOpen(s, d, k) || (d == c && (k == readKind || k == writeKind));
    }
    forall fd | fd in s'.proc.files && s'.proc.files[fd].PipeEnd? ensures OwnedBy(s', s'.proc.files[fd], fd) {
      assert fd != r && fd != w ==> OwnedBy(s, s.proc.files[fd], fd);
    }
  }

  lemma EndClosedKeepsOwners(s: State, c: CallId, k: EndKind, phase: Phase)
    requires ArraysValid(s) && TableOwned(s) && IsOpen(s, c, k)
    ensures ArraysValid(EndClosed(s, c, k, phase)) && TableOwned(EndClosed(s, c, k, phase))
  {
    var s' := EndClosed(s, c, k, phase);
    forall d, j | IsOpen(s', d, j)
      ensures s'.calls[d].ends[j] in s'.proc.files && s'.proc.files[s'.calls[d].ends[j]] == PipeEnd(d, j)
    {
      assert IsOpen(s, d, j) && (d != c || j != k);
    }
    forall fd | fd in s'.proc.files && s'.proc.files[fd].PipeEnd? ensures OwnedBy(s', s'.proc.files[fd], fd) {
      assert OwnedBy(s, s.proc.files[fd], fd);
    }
  }

  lemma PipeAddedKeepsInv(s: State, c: CallId, readKind: EndKind, writeKind: EndKind, r: Fd, w: Fd, phase: Phase)
    requires Inv(s) && c in s.calls && FreshPair(s, r, w)
    requires readKind != writeKind && !IsOpen(s, c, readKind) && !IsOpen(s, c, writeKind)
    requires PhaseEnds(Call(phase, s.calls[c].ends[readKind := r][writeKind := w]))
    ensures Inv(PipeAdded(s, c, readKind, writeKind, r, w, phase))
  {
    CreatedKeepsList(s.proc, c, readKind, writeKind, r, w);
    PipeAddedKeepsOwners(s, c, readKind, writeKind, r, w, phase);
  }

  /** Pipe::Close finds its entry, and keeps the invariant. */
  lemma EndClosedKeepsInv(s: State, c: CallId, k: EndKind, phase: Phase)
    requires Inv(s) && IsOpen(s, c, k) && PhaseEnds(Call(phase, s.calls[c].ends - {k}))
    ensures s.calls[c].ends[k] in s.proc.closeList
    ensures Inv(EndClosed(s, c, k, phase))
  {
    ClosedKeepsList(s.proc, s.calls[c].ends[k]);
    EndClosedKeepsOwners(s, c, k, phase);
  }

  /** A step that touches no pipe end and no array member keeps the correspondence. */
  lemma SameEndsKeepOwners(s: State, s': State)
    requires ArraysValid(s) && TableOwned(s)
    requires forall c, k :: IsOpen(s', c, k) <==> IsOpen(s, c, k)
    requires forall c, k :: IsOpen(s', c, k) ==> s'.calls[c].ends[k] == s.calls[c].ends[k]
    requires forall fd :: fd in s.proc.files && s.proc.files[fd].PipeEnd? ==>
      fd in s'.proc.files && s'.proc.files[fd] == s.proc.files[fd]
    requires forall fd :: fd in s'.proc.files && s'.proc.files[fd].PipeEnd? ==>
      fd in s.proc.files && s'.proc.files[fd] == s.proc.files[fd]
    ensures ArraysValid(s') && TableOwned(s')
  {
    forall fd | fd in s'.proc.files && s'.proc.files[fd].PipeEnd? ensures OwnedBy(s', s'.proc.files[fd], fd) {
      assert OwnedBy(s, s.proc.files[fd], fd);
    }
  }

  lemma WithPhaseKeepsInv(s: State, c: CallId, phase: Phase)
    requires Inv(s) && c in s.calls && PhaseEnds(s.calls[c].(phase := phase))
    ensures Inv(WithPhase(s, c, phase))
  {
    SameEndsKeepOwners(s, WithPhase(s, c, phase));
  }

  lemma BeginKeepsOwners(s: State, c: CallId)
    requires ArraysValid(s) && TableOwned(s) && c !in s.calls
    ensures ArraysValid(s.(calls := s.calls[c := Call(Start, map[])]))
    ensures TableOwned(s.(calls := s.calls[c := Call(Start, map[])]))
  {
    SameEndsKeepOwners(s, s.(calls := s.calls[c := Call(Start, map[])]));
  }

  lemma BeginKeepsInv(s: State, c: CallId)
    requires Inv(s) && Enabled(s, Begin(c))
    ensures Inv(Apply(s, Begin(c)))
  {
    BeginKeepsOwners(s, c);
    assert Apply(s, Begin(c)) == s.(calls := s.calls[c := Call(Start, map[])]);
  }

  lemma ForkKeepsInv(s: State, c: CallId, pid: Pid)
    requires Inv(s) && Enabled(s, Fork(c, pid))
    ensures Inv(Apply(s, Fork(c, pid)))
  {
    SameEndsKeepOwners(s, Apply(s, Fork(c, pid)));
    assert forall k :: k in s.calls[c].ends ==> IsOpen(s, c, k);
  }

  lemma ChildrenChanged(s: State, s': State)
    requires Inv(s) && s'.proc == s.proc && s'.calls == s.calls && ChildrenOk(s'.children)
    ensures Inv(s')
  {
    SameEndsKeepOwners(s, s');
  }

  lemma AdvancedOk(children: map<Pid, Child>, pid: Pid)
    requires ChildrenOk(children) && pid in children && children[pid].step < CHILD_DONE
    ensures ChildrenOk(children[pid := Advanced(children[pid])])
  {
    assert ChildOk(children[pid]);
  }

  lemma ChildActsKeepsInv(s: State, pid: Pid)
    requires Inv(s) && Enabled(s, ChildActs(pid))
    ensures Inv(Apply(s, ChildActs(pid)))
  {
    AdvancedOk(s.children, pid);
    ChildrenChanged(s, Apply(s, ChildActs(pid)));
  }

  lemma ChildExitsKeepsInv(s: State, pid: Pid)
    requires Inv(s) && Enabled(s, ChildExits(pid))
    ensures Inv(Apply(s, ChildExits(pid)))
  {
    ChildrenChanged(s, Apply(s, ChildExits(pid)));
  }

  lemma OtherFilesKeepList(p: Proc, step: Step)
    requires ListExact(p)
    requires step.OtherOpens? || step.OtherCloses?
    requires step.OtherOpens? ==> step.fd !in p.files
    requires step.OtherCloses? ==> step.fd in p.files && p.files[step.fd] == Other
    ensures ListExact(p.(files := if step.OtherOpens? then p.files[step.fd := Other] else p.files - {step.fd}))
  {
  }

  lemma OtherStepKeepsInv(s: State, step: Step)
    requires Inv(s) && Enabled(s, step) && (step.OtherOpens? || step.OtherCloses?)
    ensures Inv(Apply(s, step))
  {
    OtherFilesKeepList(s.proc, step);
    SameEndsKeepOwners(s, Apply(s, step));
  }

  lemma CloseStepKeepsInv(s: State, c: CallId, k: EndKind, phase: Phase)
    requires Inv(s) && c in s.calls && k in s.calls[c].ends
    requires PhaseEnds(Call(phase, s.calls[c].ends - {k}))
    ensures Inv(CloseIfOpen(s, c, k, phase))
  {
    EndClosedKeepsInv(s, c, k, phase);
  }

  lemma ParentCloseKeepsInv(s: State, step: Step)
    requires Inv(s) && Enabled(s, step)
    requires step.CloseStdinRead? || step.CloseStdoutWrite? || step.WriterCloses? || step.ReaderCloses?
    ensures Inv(Apply(s, step))
  {
    var c := step.c;
    match step {
      case CloseStdinRead(_) =>
        EndsButStdinRead(s.calls[c].ends);
        CloseStepKeepsInv(s, c, STDIN_READ, StdinReadClosed);
      case CloseStdoutWrite(_) => CloseStepKeepsInv(s, c, STDOUT_WRITE, Transfer);
      case WriterCloses(_) => CloseStepKeepsInv(s, c, STDIN_WRITE, Transfer);
      case ReaderCloses(_) => CloseStepKeepsInv(s, c, STDOUT_READ, Transfer);
    }
  }

  lemma UnwindCloseKeepsInv(s: State, c: CallId)
    requires Inv(s) && Enabled(s, UnwindClose(c))
    ensures Inv(Apply(s, UnwindClose(c)))
  {
    UnwindHasNext(s.calls[c].ends);
    CloseStepKeepsInv(s, c, NextToUnwind(s.calls[c].ends), Unwinding);
  }

  /** Steps that only move their call on. */
  lemma PhaseStepKeepsInv(s: State, step: Step)
    requires Inv(s) && Enabled(s, step)
    requires step.CreateStdinFails? || step.CreateStdoutFails? || step.ForkFails? || step.UnwindDone? || step.Return?
    ensures Inv(Apply(s, step))
  {
    WithPhaseKeepsInv(s, step.c, if step.CreateStdoutFails? || step.ForkFails? then Unwinding else Finished);
  }

  lemma OpeningStepKeepsInv(s: State, step: Step)
    requires Inv(s) && Enabled(s, step)
    requires step.Begin? || step.CreateStdin? || step.CreateStdout? || step.Fork?
    ensures Inv(Apply(s, step))
  {
    match step {
      case Begin(c) => BeginKeepsInv(s, c);
      case CreateStdin(c, r, w) => PipeAddedKeepsInv(s, c, STDIN_READ, STDIN_WRITE, r, w, HaveStdin);
      case CreateStdout(c, r, w) => PipeAddedKeepsInv(s, c, STDOUT_READ, STDOUT_WRITE, r, w, HaveBoth);
      case Fork(c, pid) => ForkKeepsInv(s, c, pid);
    }
  }

  lemma StepKeepsInv(s: State, step: Step)
    requires Inv(s) && Enabled(s, step)
    ensures Inv(Apply(s, step))
  {
    if step.Begin? || step.CreateStdin? || step.CreateStdout? || step.Fork? {
      OpeningStepKeepsInv(s, step);
    } else if step.UnwindClose? {
      UnwindCloseKeepsInv(s, step.c);
    } else if step.CloseStdinRead? || step.CloseStdoutWrite? || step.WriterCloses? || step.ReaderCloses? {
      ParentCloseKeepsInv(s, step);
    } else if step.ChildActs? {
      ChildActsKeepsInv(s, step.pid);
    } else if step.ChildExits? {
      ChildExitsKeepsInv(s, step.pid);
    } else if step.OtherOpens? || step.OtherCloses? {
      OtherStepKeepsInv(s, step);
    } else {
      PhaseStepKeepsInv(s, step);
    }
  }

  lemma UnwindHasNext(ends: map<EndKind, Fd>)
    requires ends.Keys != {}
    ensures NextToUnwind(ends) in ends
  {
    var k :| k in ends;
    match k {
      case STDIN_READ => case STDIN_WRITE => case STDOUT_READ => case STDOUT_WRITE =>
    }
  }

  lemma EndsButStdinRead(ends: map<EndKind, Fd>)
    requires HasAllEnds(ends)
    ensures (ends - {STDIN_READ}).Keys == {STDIN_WRITE, STDOUT_READ, STDOUT_WRITE}
  {
    forall k | k in (ends - {STDIN_READ}).Keys ensures k in {STDIN_WRITE, STDOUT_READ, STDOUT_WRITE} {
      match k {
        case STDIN_READ => case STDIN_WRITE => case STDOUT_READ => case STDOUT_WRITE =>
      }
    }
  }

  // ---------------------------------------------------------------- results for every run

  /** In every state that any interleaving reaches, the invariant holds. */
  lemma {:induction false} RunKeepsInv(s: State, steps: seq<Step>)
    requires Initial(s) && LegalRun(s, steps)
    ensures Inv(Run(s, steps))
  {
    if steps == [] {
    } else {
      RunKeepsInv(s, steps[..|steps| - 1]);
      StepKeepsInv(Run(s, steps[..|steps| - 1]), steps[|steps| - 1]);
    }
  }

  /** The global list holds exactly the parent's open pipe ends, each once, and these are exactly
      the ends the running calls have in their arrays. */
  lemma ListIsExact(s: State, steps: seq<Step>)
    requires Initial(s) && LegalRun(s, steps)
    ensures var t := Run(s, steps);
      && ListExact(t.proc)
      && forall fd :: fd in t.proc.closeList <==>
           exists c, k :: IsOpen(t, c, k) && t.calls[c].ends[k] == fd
  {
    RunKeepsInv(s, steps);
    var t := Run(s, steps);
    forall fd | fd in t.proc.closeList ensures exists c, k :: IsOpen(t, c, k) && t.calls[c].ends[k] == fd {
      assert OwnedBy(t, t.proc.files[fd], fd);
    }
  }

  /** Whenever a step closes an end, the end is open and Close finds its entry in the list. */
  lemma CloseFindsEntry(s: State, steps: seq<Step>, step: Step, k: EndKind)
    requires Initial(s) && LegalRun(s, steps) && Enabled(Run(s, steps), step)
    requires Closes(Run(s, steps), step, k)
    ensures var t := Run(s, steps);
      IsOpen(t, step.c, k) && t.calls[step.c].ends[k] in t.proc.closeList
  {
    RunKeepsInv(s, steps);
    var t := Run(s, steps);
    if step.UnwindClose? {
      UnwindHasNext(t.calls[step.c].ends);
    }
    assert IsOpen(t, step.c, k);
  }

  /** The descriptors of a child at its current step. */
  ghost function ChildProc(ch: Child): Proc
    requires HasAllEnds(ch.ends) && ch.step <= CHILD_DONE
  {
    Perform(ch.snapshot, ChildProgram(ch.ends)[..ch.step])
  }

  ghost predicate PastExec(s: State, pid: Pid) {
    pid in s.children && s.children[pid].step == CHILD_DONE
  }

  /** The child holds its own input and output at the standard numbers, and no other pipe end. */
  ghost predicate Ready(ch: Child) {
    HasAllEnds(ch.ends) && ch.step == CHILD_DONE && ReadyToExec(ChildProc(ch), ch.call)
  }

  /** At the fork no pipe end of any call had a standard number. */
  predicate NoStandardListed(p: Proc) {
    forall fd :: fd in p.closeList ==> fd > STDERR_FILENO
  }

  /** In every run, each child that reaches exec is ready if and only if no pipe end had a standard
      number when it was forked. */
  lemma ChildReadyInRunExactly(s: State, steps: seq<Step>, pid: Pid)
    requires Initial(s) && LegalRun(s, steps) && PastExec(Run(s, steps), pid)
    ensures ChildOk(Run(s, steps).children[pid])
    ensures Ready(Run(s, steps).children[pid]) <==> NoStandardListed(Run(s, steps).children[pid].snapshot)
  {
    RunKeepsInv(s, steps);
    ReadyExactly(Run(s, steps).children[pid]);
  }

  lemma ReadyExactly(ch: Child)
    requires ChildOk(ch) && ch.step == CHILD_DONE
    ensures Ready(ch) <==> NoStandardListed(ch.snapshot)
  {
    assert ChildProgram(ch.ends)[..CHILD_DONE] == ChildProgram(ch.ends);
    ChildReadyExactly(ch.snapshot, ch.call, ch.ends);
  }

  ghost predicate Holds(p: Proc, c: CallId, k: EndKind) {
    exists fd :: fd in p.files && p.files[fd] == PipeEnd(c, k)
  }

  /** Who holds an end of a pipe, in every run: the parent exactly while the end is in the call's
      arrays, and a child past exec, forked when no pipe end had a standard number, exactly when the
      end is its own input or output. So closing the last writer in the parent delivers end-of-file to
      the child. */
  lemma HoldersAreExact(s: State, steps: seq<Step>, c: CallId, k: EndKind)
    requires Initial(s) && LegalRun(s, steps)
    ensures Holds(Run(s, steps).proc, c, k) <==> IsOpen(Run(s, steps), c, k)
    ensures forall pid :: PastExec(Run(s, steps), pid) && NoStandardListed(Run(s, steps).children[pid].snapshot) ==>
      && HasAllEnds(Run(s, steps).children[pid].ends)
      && (Holds(ChildProc(Run(s, steps).children[pid]), c, k) <==>
            Run(s, steps).children[pid].call == c && (k == STDIN_READ || k == STDOUT_WRITE))
  {
    RunKeepsInv(s, steps);
    var t := Run(s, steps);
    if IsOpen(t, c, k) {
      assert t.proc.files[t.calls[c].ends[k]] == PipeEnd(c, k);
    }
    forall pid | PastExec(t, pid) && NoStandardListed(t.children[pid].snapshot)
      ensures HasAllEnds(t.children[pid].ends)
      ensures Holds(ChildProc(t.children[pid]), c, k) <==>
                t.children[pid].call == c && (k == STDIN_READ || k == STDOUT_WRITE)
    {
      ChildReadyInRunExactly(s, steps, pid);
      ReadyHolds(t.children[pid], c, k);
    }
  }

  lemma ReadyHolds(ch: Child, c: CallId, k: EndKind)
    requires Ready(ch)
    ensures Holds(ChildProc(ch), c, k) <==> ch.call == c && (k == STDIN_READ || k == STDOUT_WRITE)
  {
    var p := ChildProc(ch);
    assert p.files[STDIN_FILENO] == PipeEnd(ch.call, STDIN_READ);
    assert p.files[STDOUT_FILENO] == PipeEnd(ch.call, STDOUT_WRITE);
  }

  // ---------------------------------------------------------------- the standard descriptors

  predicate StandardOpen(p: Proc) {
    forall fd :: 0 <= fd <= STDERR_FILENO ==> fd in p.files && p.files[fd] == Other
  }

  /** Unrelated code does not close a standard descriptor. */
  predicate KeepsStandard(steps: seq<Step>) {
    forall i :: 0 <= i < |steps| && steps[i].OtherCloses? ==> steps[i].fd > STDERR_FILENO
  }

  lemma ClosedKeepsStandard(p: Proc, fd: Fd)
    requires StandardOpen(p) && fd in p.files && p.files[fd].PipeEnd?
    ensures StandardOpen(Closed(p, fd))
  {
  }

  lemma CreatedKeepsStandard(p: Proc, c: CallId, readKind: EndKind, writeKind: EndKind, r: Fd, w: Fd)
    requires StandardOpen(p) && r !in p.files && w !in p.files
    ensures StandardOpen(Created(p, c, readKind, writeKind, r, w))
  {
  }

  lemma CloseKeepsStandard(s: State, c: CallId, k: EndKind, phase: Phase)
    requires ArraysValid(s) && StandardOpen(s.proc)
    ensures StandardOpen(CloseIfOpen(s, c, k, phase).proc)
  {
    if IsOpen(s, c, k) {
      ClosedKeepsStandard(s.proc, s.calls[c].ends[k]);
    }
  }

  lemma StepKeepsStandardOpen(s: State, step: Step)
    requires Inv(s) && StandardOpen(s.proc) && Enabled(s, step) && (step.OtherCloses? ==> step.fd > STDERR_FILENO)
    ensures StandardOpen(Apply(s, step).proc)
  {
    match step {
      case CreateStdin(c, r, w) => CreatedKeepsStandard(s.proc, c, STDIN_READ, STDIN_WRITE, r, w);
      case CreateStdout(c, r, w) => CreatedKeepsStandard(s.proc, c, STDOUT_READ, STDOUT_WRITE, r, w);
      case UnwindClose(c) => CloseKeepsStandard(s, c, NextToUnwind(s.calls[c].ends), Unwinding);
      case CloseStdinRead(c) => CloseKeepsStandard(s, c, STDIN_READ, StdinReadClosed);
      case CloseStdoutWrite(c) => CloseKeepsStandard(s, c, STDOUT_WRITE, Transfer);
      case WriterCloses(c) => CloseKeepsStandard(s, c, STDIN_WRITE, Transfer);
      case ReaderCloses(c) => CloseKeepsStandard(s, c, STDOUT_READ, Transfer);
      case OtherOpens(fd) => assert StandardOpen(s.proc.(files := s.proc.files[fd := Other]));
      case OtherCloses(fd) => assert StandardOpen(s.proc.(files := s.proc.files - {fd}));
      case _ =>
    }
  }

  ghost predicate SnapshotsStandard(children: map<Pid, Child>) {
    forall pid :: pid in children ==> StandardOpen(children[pid].snapshot)
  }

  lemma StepKeepsSnapshots(s: State, step: Step)
    requires StandardOpen(s.proc) && SnapshotsStandard(s.children) && Enabled(s, step)
    ensures SnapshotsStandard(Apply(s, step).children)
  {
  }

  lemma {:induction false} RunKeepsStandard(s: State, steps: seq<Step>)
    requires Initial(s) && StandardOpen(s.proc) && LegalRun(s, steps) && KeepsStandard(steps)
    ensures StandardOpen(Run(s, steps).proc) && SnapshotsStandard(Run(s, steps).children)
  {
    if steps == [] {
    } else {
      var init := steps[..|steps| - 1];
      assert forall i :: 0 <= i < |init| ==> init[i] == steps[i];
      RunKeepsStandard(s, init);
      RunKeepsInv(s, init);
      StepKeepsStandardOpen(Run(s, init), steps[|steps| - 1]);
      StepKeepsSnapshots(Run(s, init), steps[|steps| - 1]);
    }
  }

  /** When the parent starts with its three standard descriptors and keeps them, every child that
      reaches exec is ready. */
  lemma ChildReachesExecReady(s: State, steps: seq<Step>, pid: Pid)
    requires Initial(s) && StandardOpen(s.proc) && LegalRun(s, steps) && KeepsStandard(steps)
    requires PastExec(Run(s, steps), pid)
    ensures Ready(Run(s, steps).children[pid])
  {
    RunKeepsStandard(s, steps);
    ChildReadyInRunExactly(s, steps, pid);
  }

  lemma RunStep(s: State, steps: seq<Step>, step: Step)
    requires LegalRun(s, steps) && Enabled(Run(s, steps), step)
    ensures LegalRun(s, steps + [step]) && Run(s, steps + [step]) == Apply(Run(s, steps), step)
  {
    assert (steps + [step])[..|steps + [step]| - 1] == steps;
  }

  /** The lowest free number at or above a given one. */
  lemma {:induction false} LowestFree(files: map<Fd, File>, from: Fd) returns (fd: Fd)
    ensures from <= fd && fd !in files && forall k :: from <= k < fd ==> k in files
    decreases |set k | k in files && k >= from|
  {
    if from !in files {
      fd := from;
    } else {
      var here, above := set k | k in files && k >= from, set k | k in files && k >= from + 1;
      assert above == here - {from};
      fd := LowestFree(files, from + 1);
    }
  }

  /** A child makes all its actions. */
  lemma {:induction false} ChildFinishes(s: State, steps: seq<Step>, pid: Pid) returns (longer: seq<Step>)
    requires LegalRun(s, steps) && pid in Run(s, steps).children && Run(s, steps).children[pid].step <= CHILD_DONE
    requires KeepsStandard(steps)
    ensures LegalRun(s, longer) && KeepsStandard(longer) && PastExec(Run(s, longer), pid)
    ensures Run(s, longer).children[pid] == Run(s, steps).children[pid].(step := CHILD_DONE)
    decreases CHILD_DONE - Run(s, steps).children[pid].step
  {
    if Run(s, steps).children[pid].step == CHILD_DONE {
      longer := steps;
    } else {
      RunStep(s, steps, ChildActs(pid));
      longer := ChildFinishes(s, steps + [ChildActs(pid)], pid);
    }
  }

  predicate IsLowestFree(files: map<Fd, File>, fd: Fd) {
    fd !in files && forall k :: 0 <= k < fd ==> k in files
  }

  /** The first call creates its pipes; every end gets the lowest free number. */
  lemma FirstStdin(s: State) returns (steps: seq<Step>, fd: Fd)
    requires Initial(s)
    ensures LegalRun(s, steps) && KeepsStandard(steps) && InPhase(Run(s, steps), 0, HaveStdin)
    ensures Run(s, steps).children == map[]
    ensures IsLowestFree(s.proc.files, fd) && fd in Run(s, steps).proc.closeList
  {
    RunStep(s, [], Begin(0));
    steps := [] + [Begin(0)];
    fd := LowestFree(s.proc.files, 0);
    var w := LowestFree(s.proc.files, fd + 1);
    RunStep(s, steps, CreateStdin(0, fd, w));
    steps := steps + [CreateStdin(0, fd, w)];
    assert Run(s, steps).proc.closeList == [fd, w];
  }

  lemma FirstStdout(s: State, before: seq<Step>, fd: Fd) returns (steps: seq<Step>)
    requires LegalRun(s, before) && KeepsStandard(before) && InPhase(Run(s, before), 0, HaveStdin)
    requires Run(s, before).children == map[] && fd in Run(s, before).proc.closeList
    ensures LegalRun(s, steps) && KeepsStandard(steps) && InPhase(Run(s, steps), 0, HaveBoth)
    ensures Run(s, steps).children == map[] && fd in Run(s, steps).proc.closeList
  {
    var r := LowestFree(Run(s, before).proc.files, 0);
    var w := LowestFree(Run(s, before).proc.files, r + 1);
    RunStep(s, before, CreateStdout(0, r, w));
    steps := before + [CreateStdout(0, r, w)];
  }

  lemma ListedNumberMissing(ch: Child, fd: Fd)
    requires ChildOk(ch) && ch.step == CHILD_DONE && fd in ch.snapshot.closeList
    ensures fd !in ChildProc(ch).files
  {
    assert ChildProgram(ch.ends)[..CHILD_DONE] == ChildProgram(ch.ends);
    ChildFinalFiles(ch.snapshot, ch.call, ch.ends);
  }

  /** A parent that starts without one of its standard descriptors: its first call hands out the missing
      number, and the new program of that child finds nothing at that number. */
  lemma MissingNumberBreaksChild(s: State) returns (steps: seq<Step>, fd: Fd)
    requires Initial(s) && !StandardOpen(s.proc)
    ensures LegalRun(s, steps) && KeepsStandard(steps) && PastExec(Run(s, steps), 0)
    ensures ChildOk(Run(s, steps).children[0]) && !Ready(Run(s, steps).children[0])
    ensures fd <= STDERR_FILENO && fd !in ChildProc(Run(s, steps).children[0]).files
  {
    steps, fd := FirstStdin(s);
    steps := FirstStdout(s, steps, fd);
    RunStep(s, steps, Fork(0, 0));
    steps := ChildFinishes(s, steps + [Fork(0, 0)], 0);
    ChildReadyInRunExactly(s, steps, 0);
    ListedNumberMissing(Run(s, steps).children[0], fd);
  }

  ghost predicate AllReady(s: State, steps: seq<Step>)
    requires LegalRun(s, steps)
  {
    forall pid :: PastExec(Run(s, steps), pid) ==> Ready(Run(s, steps).children[pid])
  }

  /** As long as unrelated code does not close a standard descriptor: every child of every run is ready
      at exec if and only if the parent started with its three standard descriptors open. */
  lemma ChildrenReadyExactly(s: State)
    requires Initial(s)
    ensures (forall steps | LegalRun(s, steps) && KeepsStandard(steps) :: AllReady(s, steps)) <==> StandardOpen(s.proc)
  {
    if StandardOpen(s.proc) {
      forall steps | LegalRun(s, steps) && KeepsStandard(steps) ensures AllReady(s, steps) {
        forall pid | PastExec(Run(s, steps), pid) ensures Ready(Run(s, steps).children[pid]) {
          ChildReachesExecReady(s, steps, pid);
        }
      }
    } else {
      var steps, fd := MissingNumberBreaksChild(s);
      assert !AllReady(s, steps);
    }
  }

  // ---------------------------------------------------------------- the end

  /** Once all calls have returned, nothing is listed and no pipe end is open. */
  lemma NothingLeaks(s: State, steps: seq<Step>)
    requires Initial(s) && LegalRun(s, steps)
    requires forall c :: c in Run(s, steps).calls ==> Run(s, steps).calls[c].phase == Finished
    ensures Run(s, steps).proc.closeList == []
    ensures forall fd :: fd in Run(s, steps).proc.files ==> Run(s, steps).proc.files[fd] == Other
  {
    RunKeepsInv(s, steps);
    if Run(s, steps).proc.closeList != [] {
      SomeMember(Run(s, steps).proc.closeList);
    }
  }

  lemma SomeMember(fds: seq<Fd>)
    requires fds != []
    ensures exists fd :: fd in fds
  {
    assert fds[0] in fds;
  }
}
