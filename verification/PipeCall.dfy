/** Descriptors of one process, as PipeCall handles them: pipe ends it created are entered in a
    global list, so that a forked child can close those that belong to sibling threads. */
module PipeTables {
  import opened Ustring

  type Fd = nat
  type CallId = nat

  const STDIN_FILENO: Fd := 0
  const STDOUT_FILENO: Fd := 1
  const STDERR_FILENO: Fd := 2

  /** The four ends of the two pipes of one call. */
  datatype EndKind = STDIN_READ | STDIN_WRITE | STDOUT_READ | STDOUT_WRITE

  /** What a descriptor refers to: an end of a pipe of some call, or anything else. */
  datatype File = PipeEnd(call: CallId, kind: EndKind) | Other

  datatype Proc = Proc(files: map<Fd, File>, closeList: seq<Fd>)

  function Without(s: seq<Fd>, fd: Fd): seq<Fd> {
    var k := IndexOf(s, fd);
    if k < |s| then s[..k] + s[k + 1..] else s
  }

  predicate NoDuplicates(s: seq<Fd>) {
    forall i, j :: 0 <= i < j < |s| ==> s[i] != s[j]
  }

  function Created(p: Proc, call: CallId, readKind: EndKind, writeKind: EndKind, r: Fd, w: Fd): Proc {
    Proc(p.files[r := PipeEnd(call, readKind)][w := PipeEnd(call, writeKind)], p.closeList + [r, w])
  }

  /** Closing a descriptor and dropping its entry from the list, if it has one. */
  function Closed(p: Proc, fd: Fd): Proc {
    Proc(p.files - {fd}, Without(p.closeList, fd))
  }

  function AllClosed(p: Proc): Proc {
    Proc(p.files - (set fd | fd in p.closeList), [])
  }

  /** dup2; it fails, and changes nothing, when the source is not open. */
  function Dup2(p: Proc, from: Fd, to: Fd): Proc {
    if from in p.files then p.(files := p.files[to := p.files[from]]) else p
  }

  lemma WithoutExact(s: seq<Fd>, x: Fd)
    requires NoDuplicates(s)
    ensures NoDuplicates(Without(s, x))
    ensures forall y :: y in Without(s, x) <==> y in s && y != x
  {
    var k, t := IndexOf(s, x), Without(s, x);
    if k < |s| {
      forall y | y in s && y != x ensures y in t {
        var i :| 0 <= i < |s| && s[i] == y;
        assert t[if i < k then i else i - 1] == y;
      }
    }
  }

  /** The list holds exactly the open pipe ends, each once. */
  ghost predicate ListExact(p: Proc) {
    && NoDuplicates(p.closeList)
    && forall fd :: fd in p.closeList <==> fd in p.files && p.files[fd].PipeEnd?
  }

  // ---------------------------------------------------------------- the child between fork and exec

  datatype Action = Redirect(from: Fd, to: Fd) | CloseOne(fd: Fd) | CloseListed

  predicate HasAllEnds(ends: map<EndKind, Fd>) {
    STDIN_READ in ends && STDIN_WRITE in ends && STDOUT_READ in ends && STDOUT_WRITE in ends
  }

  function Redirections(ends: map<EndKind, Fd>): seq<Action>
    requires HasAllEnds(ends)
  {
    [Redirect(ends[STDIN_READ], STDIN_FILENO), Redirect(ends[STDOUT_WRITE], STDOUT_FILENO),
     Redirect(STDOUT_FILENO, STDERR_FILENO)]
  }

  function OwnCloses(ends: map<EndKind, Fd>): seq<Action>
    requires HasAllEnds(ends)
  {
    [CloseOne(ends[STDIN_READ]), CloseOne(ends[STDIN_WRITE]), CloseOne(ends[STDOUT_READ]), CloseOne(ends[STDOUT_WRITE])]
  }

  /** What the child does before exec. */
  function ChildProgram(ends: map<EndKind, Fd>): seq<Action>
    requires HasAllEnds(ends)
  {
    Redirections(ends) + OwnCloses(ends) + [CloseListed]
  }

  function Act(p: Proc, a: Action): Proc {
    match a
    case Redirect(from, to) => Dup2(p, from, to)
    case CloseOne(fd) => Closed(p, fd)
    case CloseListed => AllClosed(p)
  }

  function Perform(p: Proc, acts: seq<Action>): Proc {
    if acts == [] then p else Act(Perform(p, acts[..|acts| - 1]), acts[|acts| - 1])
  }

  /** What the new program must find: its input, its output twice, and no other pipe end. */
  ghost predicate ReadyToExec(p: Proc, call: CallId) {
    && STDIN_FILENO in p.files && p.files[STDIN_FILENO] == PipeEnd(call, STDIN_READ)
    && STDOUT_FILENO in p.files && p.files[STDOUT_FILENO] == PipeEnd(call, STDOUT_WRITE)
    && STDERR_FILENO in p.files && p.files[STDERR_FILENO] == PipeEnd(call, STDOUT_WRITE)
    && forall fd :: fd in p.files && p.files[fd].PipeEnd? ==> fd <= STDERR_FILENO
  }

  /** The state in which a fork happens: the list is exact and the four ends are the call's own. */
  ghost predicate ForkState(p: Proc, call: CallId, ends: map<EndKind, Fd>) {
    && ListExact(p) && HasAllEnds(ends)
    && forall k :: k in ends ==> ends[k] in p.files && p.files[ends[k]] == PipeEnd(call, k)
  }

  lemma {:induction false} PerformConcat(p: Proc, a: seq<Action>, b: seq<Action>)
    ensures Perform(p, a + b) == Perform(Perform(p, a), b)
  {
    if b == [] {
      assert a + b == a;
    } else {
      PerformConcat(p, a, b[..|b| - 1]);
      assert (a + b)[..|a + b| - 1] == a + b[..|b| - 1];
    }
  }

  /** Redirections leave the list alone; a close removes its own entry only. */
  lemma {:induction false} ListAfter(p: Proc, acts: seq<Action>)
    requires NoDuplicates(p.closeList) && CloseListed !in acts
    ensures NoDuplicates(Perform(p, acts).closeList)
    ensures forall fd :: fd in Perform(p, acts).closeList <==> fd in p.closeList && CloseOne(fd) !in acts
  {
    if acts == [] {
    } else {
      var init, last := acts[..|acts| - 1], acts[|acts| - 1];
      assert forall a :: a in acts <==> a in init || a == last;
      ListAfter(p, init);
      if last.CloseOne? {
        WithoutExact(Perform(p, init).closeList, last.fd);
      }
    }
  }

  /** Closes remove their descriptors from the table and leave the others as they are. */
  lemma {:induction false} FilesAfterCloses(p: Proc, acts: seq<Action>)
    requires forall a :: a in acts ==> a.CloseOne?
    ensures forall fd :: fd in Perform(p, acts).files <==> fd in p.files && CloseOne(fd) !in acts
    ensures forall fd :: fd in Perform(p, acts).files ==> Perform(p, acts).files[fd] == p.files[fd]
  {
    if acts == [] {
    } else {
      var init, last := acts[..|acts| - 1], acts[|acts| - 1];
      assert forall a :: a in acts <==> a in init || a == last;
      FilesAfterCloses(p, init);
      assert last in acts && last == CloseOne(last.fd);
      assert Perform(p, acts).files == Perform(p, init).files - {last.fd};
    }
  }

  lemma EndsDistinct(p: Proc, call: CallId, ends: map<EndKind, Fd>)
    requires ForkState(p, call, ends)
    ensures forall j, k :: j in ends && k in ends && j != k ==> ends[j] != ends[k]
    ensures forall k :: k in ends ==> ends[k] in p.closeList
  {
  }

  /** The end that is closed at a position of the child's program. */
  function ClosedAt(step: nat): EndKind {
    if step == 3 then STDIN_READ else if step == 4 then STDIN_WRITE else if step == 5 then STDOUT_READ else STDOUT_WRITE
  }

  lemma ProgramAt(ends: map<EndKind, Fd>, step: nat)
    requires HasAllEnds(ends) && step < |ChildProgram(ends)|
    ensures |ChildProgram(ends)| == 8
    ensures ChildProgram(ends)[step].CloseOne? <==> 3 <= step <= 6
    ensures 3 <= step <= 6 ==> ChildProgram(ends)[step] == CloseOne(ends[ClosedAt(step)])
    ensures ChildProgram(ends)[step] == CloseListed ==> step == 7
  {
  }

  lemma NotClosedBefore(p: Proc, call: CallId, ends: map<EndKind, Fd>, step: nat)
    requires ForkState(p, call, ends) && 3 <= step <= 6
    ensures CloseOne(ends[ClosedAt(step)]) !in ChildProgram(ends)[..step]
    ensures CloseListed !in ChildProgram(ends)[..step]
  {
    EndsDistinct(p, call, ends);
    forall j | 0 <= j < step
      ensures ChildProgram(ends)[j] != CloseOne(ends[ClosedAt(step)]) && ChildProgram(ends)[j] != CloseListed
    {
      ProgramAt(ends, j);
    }
  }

  /** Every Close of the child finds its entry in the list. */
  lemma ChildClosesFindEntries(p: Proc, call: CallId, ends: map<EndKind, Fd>, step: nat)
    requires ForkState(p, call, ends)
    requires step < |ChildProgram(ends)| && ChildProgram(ends)[step].CloseOne?
    ensures ChildProgram(ends)[step].fd in Perform(p, ChildProgram(ends)[..step]).closeList
  {
    ProgramAt(ends, step);
    EndsDistinct(p, call, ends);
    NotClosedBefore(p, call, ends, step);
    ListAfter(p, ChildProgram(ends)[..step]);
  }

  lemma RedirectedFiles(p: Proc, ends: map<EndKind, Fd>)
    requires HasAllEnds(ends)
    ensures Perform(p, Redirections(ends))
         == Dup2(Dup2(Dup2(p, ends[STDIN_READ], STDIN_FILENO), ends[STDOUT_WRITE], STDOUT_FILENO),
                 STDOUT_FILENO, STDERR_FILENO)
  {
    var r := Redirections(ends);
    assert r[..2][..1] == r[..1] && r[..1][..0] == [];
    assert Perform(p, r[..1]) == Act(p, r[0]);
    assert Perform(p, r[..2]) == Act(Perform(p, r[..1]), r[1]);
  }

  lemma ChildProgramInParts(p: Proc, ends: map<EndKind, Fd>)
    requires HasAllEnds(ends)
    ensures Perform(p, ChildProgram(ends)) == AllClosed(Perform(Perform(p, Redirections(ends)), OwnCloses(ends)))
  {
    var closed := Perform(Perform(p, Redirections(ends)), OwnCloses(ends));
    PerformConcat(p, Redirections(ends) + OwnCloses(ends), [CloseListed]);
    PerformConcat(p, Redirections(ends), OwnCloses(ends));
    assert Perform(closed, [CloseListed]) == AllClosed(closed) by { assert [CloseListed][..0] == []; }
  }

  lemma OwnClosesAreListed(p: Proc, call: CallId, ends: map<EndKind, Fd>)
    requires ForkState(p, call, ends)
    ensures forall a :: a in OwnCloses(ends) ==> a.CloseOne? && a.fd in p.closeList
  {
    EndsDistinct(p, call, ends);
  }

  /** In the end the child has closed every listed descriptor, standard ones included. */
  lemma ChildFinalFiles(p: Proc, call: CallId, ends: map<EndKind, Fd>)
    requires ForkState(p, call, ends)
    ensures var redirected, final := Perform(p, Redirections(ends)).files, Perform(p, ChildProgram(ends)).files;
      && (forall fd :: fd in final <==> fd in redirected && fd !in p.closeList)
      && (forall fd :: fd in final ==> final[fd] == redirected[fd])
  {
    var redirected := Perform(p, Redirections(ends));
    ChildProgramInParts(p, ends);
    OwnClosesAreListed(p, call, ends);
    ListAfter(p, Redirections(ends));
    ListAfter(redirected, OwnCloses(ends));
    FilesAfterCloses(redirected, OwnCloses(ends));
  }

  /** The redirections when their sources are other than their targets. */
  lemma RedirectedStandard(p: Proc, call: CallId, ends: map<EndKind, Fd>)
    requires ForkState(p, call, ends)
    requires forall fd :: fd in p.closeList ==> fd > STDERR_FILENO
    ensures Perform(p, Redirections(ends)).files
         == p.files[STDIN_FILENO := PipeEnd(call, STDIN_READ)][STDOUT_FILENO := PipeEnd(call, STDOUT_WRITE)]
                   [STDERR_FILENO := PipeEnd(call, STDOUT_WRITE)]
  {
    RedirectedFiles(p, ends);
    EndsDistinct(p, call, ends);
  }

  lemma ReadyFrom(before: Proc, after: Proc, call: CallId)
    requires ListExact(before) && forall fd :: fd in before.closeList ==> fd > STDERR_FILENO
    requires var redirected :=
        before.files[STDIN_FILENO := PipeEnd(call, STDIN_READ)][STDOUT_FILENO := PipeEnd(call, STDOUT_WRITE)]
                    [STDERR_FILENO := PipeEnd(call, STDOUT_WRITE)];
      && (forall fd :: fd in after.files <==> fd in redirected && fd !in before.closeList)
      && (forall fd :: fd in after.files ==> after.files[fd] == redirected[fd])
    ensures ReadyToExec(after, call)
  {
  }

  lemma StandardNumbersFree(p: Proc, call: CallId, ends: map<EndKind, Fd>)
    requires ForkState(p, call, ends)
    requires forall fd :: fd in p.closeList ==> fd > STDERR_FILENO
    ensures ReadyToExec(Perform(p, ChildProgram(ends)), call)
  {
    RedirectedStandard(p, call, ends);
    ChildFinalFiles(p, call, ends);
    ReadyFrom(p, Perform(p, ChildProgram(ends)), call);
  }

  lemma StandardNumberListed(p: Proc, call: CallId, ends: map<EndKind, Fd>, fd: Fd)
    requires ForkState(p, call, ends) && fd in p.closeList && fd <= STDERR_FILENO
    ensures !ReadyToExec(Perform(p, ChildProgram(ends)), call)
  {
    ChildFinalFiles(p, call, ends);
  }

  /** A child reaches exec with its own two ends, and no sibling's, exactly when no listed
      descriptor has a standard number: such a one would be closed after the redirection. */
  lemma ChildReadyExactly(p: Proc, call: CallId, ends: map<EndKind, Fd>)
    requires ForkState(p, call, ends)
    ensures ReadyToExec(Perform(p, ChildProgram(ends)), call)
       <==> forall fd :: fd in p.closeList ==> fd > STDERR_FILENO
  {
    if forall fd :: fd in p.closeList ==> fd > STDERR_FILENO {
      StandardNumbersFree(p, call, ends);
    } else {
      var fd :| fd in p.closeList && fd <= STDERR_FILENO;
      StandardNumberListed(p, call, ends, fd);
    }
  }

  // ---------------------------------------------------------------- the operations as code

  class Process {
    var files: map<Fd, File>
    var fdsForClose: seq<Fd>

    ghost function Model(): Proc
      reads this
    {
      Proc(files, fdsForClose)
    }

    constructor (files: map<Fd, File>, fdsForClose: seq<Fd>)
      ensures Model() == Proc(files, fdsForClose)
    {
      this.files, this.fdsForClose := files, fdsForClose;
    }

    /** pipeOk, r and w are the outcome of the pipe call. */
    method Create(call: CallId, readKind: EndKind, writeKind: EndKind, pipeOk: bool, r: Fd, w: Fd) returns (ok: bool)
      requires pipeOk ==> r != w && r !in files && w !in files
      modifies this
      ensures ok == pipeOk
      ensures Model() == if ok then Created(old(Model()), call, readKind, writeKind, r, w) else old(Model())
    {
      ok := pipeOk;
      if ok {
        files := files[r := PipeEnd(call, readKind)][w := PipeEnd(call, writeKind)];
        fdsForClose := fdsForClose + [r];
        fdsForClose := fdsForClose + [w];
      }
    }

    method Close(fd: Fd)
      requires fd in fdsForClose
      modifies this
      ensures Model() == Closed(old(Model()), fd)
    {
      files := files - {fd};
      var it := 0;
      while fdsForClose[it] != fd
        invariant 0 <= it < |fdsForClose| && fd in fdsForClose[it..]
        invariant forall i :: 0 <= i < it ==> fdsForClose[i] != fd
        invariant fdsForClose == old(fdsForClose) && files == old(files) - {fd}
        decreases |fdsForClose| - it
      {
        it := it + 1;
      }
      fdsForClose := fdsForClose[..it] + fdsForClose[it + 1..];
    }

    method CloseAll()
      modifies this
      ensures Model() == AllClosed(old(Model()))
    {
      var i := 0;
      while i < |fdsForClose|
        invariant 0 <= i <= |fdsForClose| && fdsForClose == old(fdsForClose)
        invariant files == old(files) - (set fd | fd in fdsForClose[..i])
      {
        assert fdsForClose[..i + 1] == fdsForClose[..i] + [fdsForClose[i]];
        files := files - {fdsForClose[i]};
        i := i + 1;
      }
      assert fdsForClose[..i] == fdsForClose;
      fdsForClose := [];
    }

    method RedirectTo(from: Fd, to: Fd)
      modifies this
      ensures Model() == Dup2(old(Model()), from, to)
    {
      if from in files {
        files := files[to := files[from]];
      }
    }

    method RedirectStandard(input: Fd, output: Fd)
      modifies this
      ensures Model() == Dup2(Dup2(Dup2(old(Model()), input, STDIN_FILENO), output, STDOUT_FILENO),
                              STDOUT_FILENO, STDERR_FILENO)
    {
      RedirectTo(input, STDIN_FILENO);
      RedirectTo(output, STDOUT_FILENO);
      RedirectTo(STDOUT_FILENO, STDERR_FILENO);
    }

    /** The child's statements between fork and execvp. */
    method PrepareChild(ghost call: CallId, stdin: (Fd, Fd), stdout: (Fd, Fd))
      requires ForkState(Model(), call, EndsOf(stdin, stdout))
      modifies this
      ensures Model() == Perform(old(Model()), ChildProgram(EndsOf(stdin, stdout)))
      ensures ReadyToExec(Model(), call) <==> forall fd :: fd in old(fdsForClose) ==> fd > STDERR_FILENO
    {
      ChildReadyExactly(Model(), call, EndsOf(stdin, stdout));
      ChildProgramUnfolded(Model(), call, stdin, stdout);
      RedirectStandard(stdin.0, stdout.1);
      Close(stdin.0);
      Close(stdin.1);
      Close(stdout.0);
      Close(stdout.1);
      CloseAll();
    }
  }

  /** The child's actions one by one; each Close finds its entry. */
  lemma ChildProgramUnfolded(p: Proc, call: CallId, stdin: (Fd, Fd), stdout: (Fd, Fd))
    requires ForkState(p, call, EndsOf(stdin, stdout))
    ensures
      var p3 := Dup2(Dup2(Dup2(p, stdin.0, STDIN_FILENO), stdout.1, STDOUT_FILENO), STDOUT_FILENO, STDERR_FILENO);
      var p4 := Closed(p3, stdin.0);
      var p5 := Closed(p4, stdin.1);
      var p6 := Closed(p5, stdout.0);
      var p7 := Closed(p6, stdout.1);
      && stdin.0 in p3.closeList && stdin.1 in p4.closeList && stdout.0 in p5.closeList && stdout.1 in p6.closeList
      && Perform(p, ChildProgram(EndsOf(stdin, stdout))) == AllClosed(p7)
  {
    var ends := EndsOf(stdin, stdout);
    var acts := ChildProgram(ends);
    RedirectedFiles(p, ends);
    assert acts[..3] == Redirections(ends);
    assert acts[..8] == acts;
    forall step | 3 <= step < 8
      ensures Perform(p, acts[..step + 1]) == Act(Perform(p, acts[..step]), acts[step])
      ensures acts[step].CloseOne? ==> acts[step].fd in Perform(p, acts[..step]).closeList
    {
      assert acts[..step + 1][..step] == acts[..step];
      if acts[step].CloseOne? {
        ChildClosesFindEntries(p, call, ends, step);
      }
    }
    assert Perform(p, acts[..3 + 1]) == Act(Perform(p, acts[..3]), acts[3]);
    assert Perform(p, acts[..4 + 1]) == Act(Perform(p, acts[..4]), acts[4]);
    assert Perform(p, acts[..5 + 1]) == Act(Perform(p, acts[..5]), acts[5]);
    assert Perform(p, acts[..6 + 1]) == Act(Perform(p, acts[..6]), acts[6]);
    assert Perform(p, acts[..7 + 1]) == Act(Perform(p, acts[..7]), acts[7]);
  }

  function EndsOf(stdin: (Fd, Fd), stdout: (Fd, Fd)): map<EndKind, Fd> {
    map[STDIN_READ := stdin.0, STDIN_WRITE := stdin.1, STDOUT_READ := stdout.0, STDOUT_WRITE := stdout.1]
  }
}
