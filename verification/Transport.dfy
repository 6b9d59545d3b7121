/** Client threads that notify over one stream socket. The lock is held for one write call, and a
    write call may accept any non-empty part of what it is given, or fail. */
module Transport {
  import opened Bytes
  import opened Options
  import opened Ustring

  type CallId = nat

  /** The kernel transfers at most this many bytes per call, so the cast of the result to 32 bits
      never changes it. */
  const MAX_WRITE: nat := 0x7fff_f000

  // ---------------------------------------------------------------- one thread on its own

  /** after is before followed by a prefix of msg. */
  ghost predicate PrefixAdded(before: seq<byte>, after: seq<byte>, msg: seq<byte>) {
    before <= after && after[|before|..] <= msg
  }

  /** The sending end of a connected stream socket. */
  class Stream {
    var wire: seq<byte>

    constructor ()
      ensures wire == []
    {
      wire := [];
    }

    method Write(data: seq<byte>) returns (ret: int)
      requires data != []
      modifies this
      ensures ret == -1 || 1 <= ret <= |data|
      ensures wire == old(wire) + if ret == -1 then [] else data[..ret]
    {
      ret := *;
      if !(1 <= ret <= |data| && ret <= MAX_WRITE) {
        ret := -1;
      }
      wire := wire + if ret == -1 then [] else data[..ret];
    }
  }

  class SocketClient {
    const stream: Stream
    const isOpen: bool

    constructor (stream: Stream, isOpen: bool)
      ensures this.stream == stream && this.isOpen == isOpen
    {
      this.stream, this.isOpen := stream, isOpen;
    }

    /** DomainSocketClient::Write. sentIn is the caller's variable, which a closed socket leaves
        alone. */
    method SocketWrite(message: seq<byte>, sentIn: nat) returns (ok: bool, sentBytes: nat)
      modifies stream
      ensures !isOpen ==> !ok && sentBytes == sentIn && stream.wire == old(stream.wire)
      ensures isOpen ==>
        && sentBytes <= |message| && stream.wire == old(stream.wire) + message[..sentBytes]
        && (ok <==> sentBytes == |message|)
    {
      if !isOpen {
        return false, sentIn;
      }
      sentBytes := 0;
      var size := |message|;
      while size > 0
        invariant 0 <= size && sentBytes + size == |message|
        invariant stream.wire == old(stream.wire) + message[..sentBytes]
        decreases size
      {
        var ret := stream.Write(message[sentBytes..]);
        if ret == -1 {
          return false, sentBytes;
        }
        assert message[..sentBytes] + message[sentBytes..][..ret] == message[..sentBytes + ret];
        sentBytes := sentBytes + ret;
        size := size - ret;
      }
      return true, sentBytes;
    }

    /** SocketClient::Write: all of the message, or -1. */
    method Write(message: seq<byte>) returns (len: int)
      modifies stream
      ensures PrefixAdded(old(stream.wire), stream.wire, message)
      ensures !isOpen ==> stream.wire == old(stream.wire)
      ensures len == if isOpen && stream.wire == old(stream.wire) + message then |message| else -1
    {
      var ok, sendBytes := SocketWrite(message, 0);
      len := if ok then sendBytes else -1;
      assert stream.wire[|old(stream.wire)|..] == if isOpen then message[..sendBytes] else [];
    }

    /** LocalProcess::Notify: the full length exactly when all of the message is on the wire, and 0
        in every other case, even when a part of the message was sent. */
    method Notify(msg: seq<byte>) returns (len: int)
      modifies stream
      ensures PrefixAdded(old(stream.wire), stream.wire, msg)
      ensures len == if stream.wire == old(stream.wire) + msg then |msg| else 0
    {
      var totalSent := 0;
      while totalSent < |msg|
        invariant totalSent == 0 || totalSent == |msg|
        invariant stream.wire == old(stream.wire) + msg[..totalSent]
        decreases |msg| - totalSent
      {
        assert msg[0..] == msg;
        var sentBytes := Write(msg[totalSent..]);
        if sentBytes <= 0 {
          return totalSent;
        }
        totalSent := totalSent + sentBytes;
      }
      return totalSent;
    }
  }

  // ---------------------------------------------------------------- all threads together

  /** One Notify call: totalSent counts what its finished Write calls sent, writeSent what the
      current one has sent so far. It is locked when its caller holds a lock of its own around it,
      which excludes other locked calls only. */
  datatype Call = Call(msg: seq<byte>, locked: bool, totalSent: nat, writeSent: nat, result: Option<int>)

  /** What one write call put on the wire. */
  datatype Chunk = Chunk(call: CallId, bytes: seq<byte>)

  /** order lists the locked calls in the order in which they began. */
  datatype State = State(wire: seq<Chunk>, calls: map<CallId, Call>, order: seq<CallId>)

  const INITIAL := State([], map[], [])

  datatype Step =
    | Begin(c: CallId, msg: seq<byte>, locked: bool)
    | Accept(c: CallId, n: nat)   // one critical section: the socket takes n bytes
    | WriteDone(c: CallId)
    | Fail(c: CallId)             // one critical section: the socket fails
    | Return(c: CallId)

  predicate Running(s: State, c: CallId) {
    c in s.calls && s.calls[c].result.None?
  }

  predicate LockFree(s: State) {
    forall c :: c in s.calls && s.calls[c].locked ==> !Running(s, c)
  }

  function Sent(call: Call): nat {
    call.totalSent + call.writeSent
  }

  /** What the call has put on the wire, if it kept to its message. */
  function SentPart(call: Call): seq<byte> {
    call.msg[..Min(Sent(call), |call.msg|)]
  }

  predicate Enabled(s: State, step: Step) {
    match step
    case Begin(c, msg, locked) => c !in s.calls && (locked ==> LockFree(s))
    case Accept(c, n) => Running(s, c) && 1 <= n <= |s.calls[c].msg| - Sent(s.calls[c]) && n <= MAX_WRITE
    case WriteDone(c) => Running(s, c) && s.calls[c].totalSent < |s.calls[c].msg| == Sent(s.calls[c])
    case Fail(c) => Running(s, c) && Sent(s.calls[c]) < |s.calls[c].msg|
    case Return(c) => Running(s, c) && s.calls[c].totalSent >= |s.calls[c].msg|
  }

  /** The next n bytes of a call. */
  function NextBytes(call: Call, n: nat): seq<byte>
    requires Sent(call) + n <= |call.msg|
  {
    call.msg[Sent(call)..Sent(call) + n]
  }

  function Apply(s: State, step: Step): State
    requires Enabled(s, step)
  {
    match step
    case Begin(c, msg, locked) =>
      s.(calls := s.calls[c := Call(msg, locked, 0, 0, None)], order := if locked then s.order + [c] else s.order)
    case Accept(c, n) =>
      s.(wire := s.wire + [Chunk(c, NextBytes(s.calls[c], n))],
         calls := s.calls[c := s.calls[c].(writeSent := s.calls[c].writeSent + n)])
    case WriteDone(c) =>
      s.(calls := s.calls[c := s.calls[c].(totalSent := Sent(s.calls[c]), writeSent := 0)])
    case Fail(c) => s.(calls := s.calls[c := s.calls[c].(result := Some(s.calls[c].totalSent))])
    case Return(c) => s.(calls := s.calls[c := s.calls[c].(result := Some(s.calls[c].totalSent))])
  }

  predicate LegalRun(steps: seq<Step>)
    decreases |steps|, 0
  {
    steps == [] || (LegalRun(steps[..|steps| - 1]) && Enabled(Run(steps[..|steps| - 1]), steps[|steps| - 1]))
  }

  function Run(steps: seq<Step>): State
    requires LegalRun(steps)
    decreases |steps|, 1
  {
    if steps == [] then INITIAL else Apply(Run(steps[..|steps| - 1]), steps[|steps| - 1])
  }

  /** The bytes of the wire, and those that belong to one call. */
  function WireBytes(wire: seq<Chunk>): seq<byte> {
    if wire == [] then [] else WireBytes(wire[..|wire| - 1]) + wire[|wire| - 1].bytes
  }

  function BytesOf(wire: seq<Chunk>, c: CallId): seq<byte> {
    if wire == [] then []
    else BytesOf(wire[..|wire| - 1], c) + if wire[|wire| - 1].call == c then wire[|wire| - 1].bytes else []
  }

  lemma BytesOfSnoc(wire: seq<Chunk>, chunk: Chunk, c: CallId)
    ensures BytesOf(wire + [chunk], c) == BytesOf(wire, c) + if chunk.call == c then chunk.bytes else []
  {
    assert (wire + [chunk])[..|wire|] == wire;
  }

  ghost predicate CallOk(call: Call, bytes: seq<byte>) {
    && Sent(call) <= |call.msg| && bytes == SentPart(call)
    && (call.totalSent == 0 || (call.totalSent == |call.msg| && call.writeSent == 0))
    && (call.result.Some? ==> call.result == Some(if Sent(call) == |call.msg| then |call.msg| else 0))
  }

  ghost predicate CallInv(s: State, c: CallId)
    requires c in s.calls
  {
    CallOk(s.calls[c], BytesOf(s.wire, c))
  }

  ghost predicate ChunksOk(s: State) {
    forall i :: 0 <= i < |s.wire| ==> s.wire[i].bytes != [] && s.wire[i].call in s.calls
  }

  ghost predicate Inv(s: State) {
    && ChunksOk(s)
    && (forall c :: c in s.calls ==> CallInv(s, c))
    && (forall c :: c !in s.calls ==> BytesOf(s.wire, c) == [])
  }

  lemma SentPartGrows(call: Call, n: nat)
    requires Sent(call) + n <= |call.msg|
    ensures SentPart(call.(writeSent := call.writeSent + n)) == SentPart(call) + NextBytes(call, n)
  {
  }

  lemma AcceptKeepsCall(call: Call, bytes: seq<byte>, n: nat)
    requires CallOk(call, bytes) && call.result.None? && 1 <= n <= |call.msg| - Sent(call)
    ensures CallOk(call.(writeSent := call.writeSent + n), bytes + NextBytes(call, n))
  {
    SentPartGrows(call, n);
  }

  lemma AcceptKeepsCalls(s: State, c: CallId, n: nat, d: CallId)
    requires Inv(s) && Enabled(s, Accept(c, n))
    ensures d in s.calls ==> CallInv(Apply(s, Accept(c, n)), d)
    ensures d !in s.calls ==> BytesOf(Apply(s, Accept(c, n)).wire, d) == []
  {
    BytesOfSnoc(s.wire, Chunk(c, NextBytes(s.calls[c], n)), d);
    assert d in s.calls ==> CallInv(s, d);
    if d == c {
      AcceptKeepsCall(s.calls[c], BytesOf(s.wire, c), n);
    }
  }

  lemma AcceptKeepsInv(s: State, c: CallId, n: nat)
    requires Inv(s) && Enabled(s, Accept(c, n))
    ensures Inv(Apply(s, Accept(c, n)))
  {
    forall d ensures d in s.calls ==> CallInv(Apply(s, Accept(c, n)), d)
             ensures d !in s.calls ==> BytesOf(Apply(s, Accept(c, n)).wire, d) == []
    {
      AcceptKeepsCalls(s, c, n, d);
    }
  }

  lemma StepKeepsInv(s: State, step: Step)
    requires Inv(s) && Enabled(s, step)
    ensures Inv(Apply(s, step))
  {
    if step.Accept? {
      AcceptKeepsInv(s, step.c, step.n);
    } else {
      var s' := Apply(s, step);
      forall d | d in s'.calls ensures CallInv(s', d) {
        assert d in s.calls ==> CallInv(s, d);
      }
    }
  }

  lemma {:induction false} RunKeepsInv(steps: seq<Step>)
    requires LegalRun(steps)
    ensures Inv(Run(steps))
  {
    if steps == [] {
    } else {
      RunKeepsInv(steps[..|steps| - 1]);
      StepKeepsInv(Run(steps[..|steps| - 1]), steps[|steps| - 1]);
    }
  }

  /** In every interleaving, what the wire holds of a call is a prefix of its message; a finished
      call returned the full length exactly when that prefix is the whole message, otherwise 0. */
  lemma WireOfCallIsPrefix(steps: seq<Step>, c: CallId)
    requires LegalRun(steps) && c in Run(steps).calls
    ensures var s := Run(steps);
      && BytesOf(s.wire, c) <= s.calls[c].msg
      && (s.calls[c].result.Some? ==>
            s.calls[c].result.value == if BytesOf(s.wire, c) == s.calls[c].msg then |s.calls[c].msg| else 0)
  {
    RunKeepsInv(steps);
    assert CallInv(Run(steps), c);
  }

  // ---------------------------------------------------------------- locked calls

  /** order holds the locked calls, and only the last one may be running. */
  ghost predicate OrderInv(s: State) {
    && (forall c :: c in s.calls && s.calls[c].locked <==> c in s.order)
    && (forall i, j :: 0 <= i < j < |s.order| ==> s.order[i] != s.order[j])
    && (forall i :: 0 <= i < |s.order| - 1 ==> !Running(s, s.order[i]))
  }

  lemma StepKeepsOrder(s: State, step: Step)
    requires OrderInv(s) && Enabled(s, step)
    ensures OrderInv(Apply(s, step))
  {
    var s' := Apply(s, step);
    if step.Begin? && step.locked {
      assert forall c :: c in s'.order <==> c in s.order || c == step.c;
      forall i | 0 <= i < |s'.order| - 1 ensures !Running(s', s'.order[i]) {
        assert s'.order[i] == s.order[i] && s.order[i] in s.order;
      }
    }
  }

  lemma RunningIsLast(s: State, c: CallId)
    requires OrderInv(s) && Running(s, c) && s.calls[c].locked
    ensures s.order != [] && s.order[|s.order| - 1] == c
  {
    var i :| 0 <= i < |s.order| && s.order[i] == c;
  }

  /** On the wire, chunks of locked calls come in the order of these calls. */
  ghost predicate LockedSorted(s: State) {
    forall i, j, a, b |
      0 <= i < j < |s.wire| && 0 <= a < |s.order| && 0 <= b < |s.order|
      && s.wire[i].call == s.order[a] && s.wire[j].call == s.order[b] :: a <= b
  }

  lemma BeginKeepsSorted(s: State, c: CallId, msg: seq<byte>, locked: bool)
    requires ChunksOk(s) && LockedSorted(s) && Enabled(s, Begin(c, msg, locked))
    ensures LockedSorted(Apply(s, Begin(c, msg, locked)))
  {
  }

  lemma AcceptKeepsSorted(s: State, c: CallId, n: nat)
    requires OrderInv(s) && LockedSorted(s) && Enabled(s, Accept(c, n))
    ensures LockedSorted(Apply(s, Accept(c, n)))
  {
    var s' := Apply(s, Accept(c, n));
    if c in s.order {
      RunningIsLast(s, c);
    }
    forall i, j, a, b |
      0 <= i < j < |s'.wire| && 0 <= a < |s'.order| && 0 <= b < |s'.order|
      && s'.wire[i].call == s'.order[a] && s'.wire[j].call == s'.order[b]
      ensures a <= b
    {
      if j == |s.wire| {
        assert s.order[b] in s.order;
      }
    }
  }

  lemma StepKeepsSorted(s: State, step: Step)
    requires ChunksOk(s) && OrderInv(s) && LockedSorted(s) && Enabled(s, step)
    ensures LockedSorted(Apply(s, step))
  {
    match step {
      case Begin(c, msg, locked) => BeginKeepsSorted(s, c, msg, locked);
      case Accept(c, n) => AcceptKeepsSorted(s, c, n);
      case _ =>
    }
  }

  /** The bytes on the wire that belong to any of these calls. */
  function BytesAmong(wire: seq<Chunk>, ids: set<CallId>): seq<byte> {
    if wire == [] then []
    else
      BytesAmong(wire[..|wire| - 1], ids) + if wire[|wire| - 1].call in ids then wire[|wire| - 1].bytes else []
  }

  lemma BytesAmongSnoc(wire: seq<Chunk>, chunk: Chunk, ids: set<CallId>)
    ensures BytesAmong(wire + [chunk], ids) == BytesAmong(wire, ids) + if chunk.call in ids then chunk.bytes else []
  {
    assert (wire + [chunk])[..|wire|] == wire;
  }

  lemma {:induction false} BytesAmongSame(wire: seq<Chunk>, ids: set<CallId>, ids': set<CallId>)
    requires forall i :: 0 <= i < |wire| ==> (wire[i].call in ids <==> wire[i].call in ids')
    ensures BytesAmong(wire, ids) == BytesAmong(wire, ids')
  {
    if wire == [] {
    } else {
      BytesAmongSame(wire[..|wire| - 1], ids, ids');
    }
  }

  function Locked(calls: map<CallId, Call>): set<CallId> {
    set c | c in calls && calls[c].locked
  }

  /** The sent parts of the messages of these calls. */
  function Parts(calls: map<CallId, Call>, order: seq<CallId>): (r: seq<seq<byte>>)
    requires forall i :: 0 <= i < |order| ==> order[i] in calls
    ensures |r| == |order| && forall i :: 0 <= i < |order| ==> r[i] == SentPart(calls[order[i]])
  {
    seq(|order|, i requires 0 <= i < |order| => SentPart(calls[order[i]]))
  }

  ghost predicate LockedInOrder(s: State) {
    && (forall i :: 0 <= i < |s.order| ==> s.order[i] in s.calls)
    && BytesAmong(s.wire, Locked(s.calls)) == Concat(Parts(s.calls, s.order))
  }

  lemma PartsSame(calls: map<CallId, Call>, calls': map<CallId, Call>, order: seq<CallId>)
    requires forall i :: 0 <= i < |order| ==>
      order[i] in calls && order[i] in calls' && SentPart(calls'[order[i]]) == SentPart(calls[order[i]])
    ensures Parts(calls', order) == Parts(calls, order)
  {
  }

  lemma PartsOfLast(calls: map<CallId, Call>, order: seq<CallId>, c: CallId)
    requires c in calls && forall i :: 0 <= i < |order| ==> order[i] in calls
    ensures Concat(Parts(calls, order + [c])) == Concat(Parts(calls, order)) + SentPart(calls[c])
  {
    assert Parts(calls, order + [c]) == Parts(calls, order) + [SentPart(calls[c])];
    ConcatSnoc(Parts(calls, order), SentPart(calls[c]));
  }

  lemma BeginKeepsInOrder(s: State, c: CallId, msg: seq<byte>, locked: bool)
    requires ChunksOk(s) && LockedInOrder(s) && Enabled(s, Begin(c, msg, locked))
    ensures LockedInOrder(Apply(s, Begin(c, msg, locked)))
  {
    var s' := Apply(s, Begin(c, msg, locked));
    BytesAmongSame(s.wire, Locked(s.calls), Locked(s'.calls));
    PartsSame(s.calls, s'.calls, s.order);
    if locked {
      PartsOfLast(s'.calls, s.order, c);
      assert SentPart(s'.calls[c]) == [];
    }
  }

  lemma AcceptUnlockedKeepsInOrder(s: State, c: CallId, n: nat)
    requires OrderInv(s) && LockedInOrder(s) && Enabled(s, Accept(c, n)) && !s.calls[c].locked
    ensures LockedInOrder(Apply(s, Accept(c, n)))
  {
    var s' := Apply(s, Accept(c, n));
    BytesAmongSnoc(s.wire, Chunk(c, NextBytes(s.calls[c], n)), Locked(s.calls));
    assert Locked(s'.calls) == Locked(s.calls);
    assert forall i :: 0 <= i < |s.order| ==> s.order[i] in s.order;
    PartsSame(s.calls, s'.calls, s.order);
  }

  lemma LastPartGrows(calls: map<CallId, Call>, calls': map<CallId, Call>, others: seq<CallId>, c: CallId, more: seq<byte>)
    requires c in calls && c in calls' && SentPart(calls'[c]) == SentPart(calls[c]) + more
    requires forall i :: 0 <= i < |others| ==>
      others[i] in calls && others[i] in calls' && SentPart(calls'[others[i]]) == SentPart(calls[others[i]])
    ensures Concat(Parts(calls', others + [c])) == Concat(Parts(calls, others + [c])) + more
  {
    PartsSame(calls, calls', others);
    PartsOfLast(calls, others, c);
    PartsOfLast(calls', others, c);
    Regrouped(Concat(Parts(calls, others)), SentPart(calls[c]), more);
  }

  lemma AcceptLockedKeepsInOrder(s: State, c: CallId, n: nat)
    requires Inv(s) && OrderInv(s) && LockedInOrder(s) && Enabled(s, Accept(c, n)) && s.calls[c].locked
    ensures LockedInOrder(Apply(s, Accept(c, n)))
  {
    var s', more := Apply(s, Accept(c, n)), NextBytes(s.calls[c], n);
    RunningIsLast(s, c);
    var others := s.order[..|s.order| - 1];
    assert s.order == others + [c];
    assert Locked(s'.calls) == Locked(s.calls);
    SentPartGrows(s.calls[c], n);
    LastPartGrows(s.calls, s'.calls, others, c, more);
    BytesAmongSnoc(s.wire, Chunk(c, more), Locked(s.calls));
  }

  lemma EndKeepsInOrder(s: State, step: Step)
    requires LockedInOrder(s) && Enabled(s, step) && (step.WriteDone? || step.Fail? || step.Return?)
    ensures LockedInOrder(Apply(s, step))
  {
    var s' := Apply(s, step);
    assert Locked(s'.calls) == Locked(s.calls);
    PartsSame(s.calls, s'.calls, s.order);
  }

  lemma StepKeepsInOrder(s: State, step: Step)
    requires Inv(s) && OrderInv(s) && LockedInOrder(s) && Enabled(s, step)
    ensures LockedInOrder(Apply(s, step))
  {
    match step {
      case Begin(c, msg, locked) => BeginKeepsInOrder(s, c, msg, locked);
      case Accept(c, n) =>
        if s.calls[c].locked {
          AcceptLockedKeepsInOrder(s, c, n);
        } else {
          AcceptUnlockedKeepsInOrder(s, c, n);
        }
      case _ => EndKeepsInOrder(s, step);
    }
  }

  lemma {:induction false} RunKeepsLocked(steps: seq<Step>)
    requires LegalRun(steps)
    ensures OrderInv(Run(steps)) && LockedSorted(Run(steps)) && LockedInOrder(Run(steps))
  {
    if steps == [] {
    } else {
      var init, step := steps[..|steps| - 1], steps[|steps| - 1];
      RunKeepsLocked(init);
      RunKeepsInv(init);
      StepKeepsOrder(Run(init), step);
      StepKeepsSorted(Run(init), step);
      StepKeepsInOrder(Run(init), step);
    }
  }

  /** Whatever unlocked calls do meanwhile: the bytes of all locked calls on the wire are what these
      calls sent, one call after the other, in the order in which they began. */
  lemma LockedMessagesInOrder(steps: seq<Step>)
    requires LegalRun(steps)
    ensures var s := Run(steps);
      && (forall c :: c in s.order <==> c in s.calls && s.calls[c].locked)
      && BytesAmong(s.wire, Locked(s.calls)) == Concat(Parts(s.calls, s.order))
      && forall c :: c in s.order && s.calls[c].result == Some(|s.calls[c].msg|) ==>
           SentPart(s.calls[c]) == s.calls[c].msg
  {
    RunKeepsInv(steps);
    RunKeepsLocked(steps);
    forall c | c in Run(steps).order ensures CallInv(Run(steps), c) {
    }
  }

  // ---------------------------------------------------------------- tearing

  /** A chunk of d lies between two chunks of c. */
  ghost predicate Tears(wire: seq<Chunk>, c: CallId, d: CallId) {
    exists i, j, k :: 0 <= i < j < k < |wire| && wire[i].call == c && wire[j].call == d && wire[k].call == c
  }

  lemma {:induction false} ChunkInBytes(wire: seq<Chunk>, i: nat)
    requires i < |wire|
    ensures |BytesOf(wire, wire[i].call)| >= |wire[i].bytes|
    ensures forall k :: i < k < |wire| && wire[k].call == wire[i].call ==>
      |BytesOf(wire, wire[i].call)| >= |wire[i].bytes| + |wire[k].bytes|
  {
    var n := |wire| - 1;
    if i == n {
    } else {
      ChunkInBytes(wire[..n], i);
    }
  }

  /** A run with the call c torn by the call d. */
  ghost predicate TornRun(steps: seq<Step>, c: CallId, m: seq<byte>, l: bool, d: CallId, m': seq<byte>, l': bool) {
    && LegalRun(steps) && c in Run(steps).calls && d in Run(steps).calls
    && Run(steps).calls[c].msg == m && Run(steps).calls[c].locked == l
    && Run(steps).calls[d].msg == m' && Run(steps).calls[d].locked == l'
    && Tears(Run(steps).wire, c, d)
  }

  lemma TornRunNeeds(steps: seq<Step>, c: CallId, m: seq<byte>, l: bool, d: CallId, m': seq<byte>, l': bool)
    requires c != d && TornRun(steps, c, m, l, d, m', l')
    ensures |m| >= 2 && m' != [] && !(l && l')
  {
    RunKeepsInv(steps);
    RunKeepsLocked(steps);
    var s := Run(steps);
    var i, j, k :| 0 <= i < j < k < |s.wire| && s.wire[i].call == c && s.wire[j].call == d && s.wire[k].call == c;
    TornSizes(s, c, d, i, j, k);
    if l && l' {
      LockedDoNotTear(s, c, d, i, j, k);
    }
  }

  lemma TornSizes(s: State, c: CallId, d: CallId, i: nat, j: nat, k: nat)
    requires Inv(s) && c in s.calls && d in s.calls
    requires i < j < k < |s.wire| && s.wire[i].call == c && s.wire[j].call == d && s.wire[k].call == c
    ensures |s.calls[c].msg| >= 2 && s.calls[d].msg != []
  {
    ChunkInBytes(s.wire, i);
    ChunkInBytes(s.wire, j);
    assert CallInv(s, c) && CallInv(s, d);
    assert s.wire[i].bytes != [] && s.wire[j].bytes != [] && s.wire[k].bytes != [];
  }

  lemma LockedDoNotTear(s: State, c: CallId, d: CallId, i: nat, j: nat, k: nat)
    requires OrderInv(s) && LockedSorted(s) && c in s.calls && d in s.calls && s.calls[c].locked && s.calls[d].locked
    requires i < j < k < |s.wire| && s.wire[i].call == c && s.wire[j].call == d && s.wire[k].call == c
    ensures c == d
  {
    assert c in s.order && d in s.order;
    var a :| 0 <= a < |s.order| && s.order[a] == c;
    var b :| 0 <= b < |s.order| && s.order[b] == d;
    assert a <= b && b <= a;
  }

  lemma RunStep(steps: seq<Step>, step: Step, s': State)
    requires LegalRun(steps) && Enabled(Run(steps), step) && Apply(Run(steps), step) == s'
    ensures LegalRun(steps + [step]) && Run(steps + [step]) == s'
  {
    assert (steps + [step])[..|steps + [step]| - 1] == steps;
  }

  /** One more byte of a call goes out. */
  lemma RunByte(steps: seq<Step>, c: CallId)
    requires LegalRun(steps) && Running(Run(steps), c) && Sent(Run(steps).calls[c]) < |Run(steps).calls[c].msg|
    ensures var s, call := Run(steps), Run(steps).calls[c];
      && LegalRun(steps + [Accept(c, 1)])
      && Run(steps + [Accept(c, 1)]).wire == s.wire + [Chunk(c, NextBytes(call, 1))]
      && Run(steps + [Accept(c, 1)]).calls == s.calls[c := call.(writeSent := call.writeSent + 1)]
  {
    RunStep(steps, Accept(c, 1), Apply(Run(steps), Accept(c, 1)));
  }

  lemma TwoBegun(c: CallId, m: seq<byte>, l: bool, d: CallId, m': seq<byte>, l': bool) returns (steps: seq<Step>)
    requires c != d && !(l && l')
    ensures LegalRun(steps) && Run(steps).wire == []
    ensures Run(steps).calls == map[c := Call(m, l, 0, 0, None)][d := Call(m', l', 0, 0, None)]
  {
    RunStep([], Begin(c, m, l), Apply(INITIAL, Begin(c, m, l)));
    steps := [] + [Begin(c, m, l)];
    RunStep(steps, Begin(d, m', l'), Apply(Run(steps), Begin(d, m', l')));
    steps := steps + [Begin(d, m', l')];
  }

  lemma TornRunExists(c: CallId, m: seq<byte>, l: bool, d: CallId, m': seq<byte>, l': bool) returns (steps: seq<Step>)
    requires c != d && |m| >= 2 && m' != [] && !(l && l')
    ensures TornRun(steps, c, m, l, d, m', l')
  {
    steps := TwoBegun(c, m, l, d, m', l');
    RunByte(steps, c);
    steps := steps + [Accept(c, 1)];
    RunByte(steps, d);
    steps := steps + [Accept(d, 1)];
    RunByte(steps, c);
    steps := steps + [Accept(c, 1)];
    var wire := Run(steps).wire;
    assert wire[0].call == c && wire[1].call == d && wire[2].call == c;
  }

  /** Which messages can be torn apart on the wire, and by which: a message of two bytes or more, by
      any message that is not empty, unless both calls are locked. */
  lemma TornExactly(c: CallId, m: seq<byte>, l: bool, d: CallId, m': seq<byte>, l': bool)
    requires c != d
    ensures (exists steps :: TornRun(steps, c, m, l, d, m', l')) <==> |m| >= 2 && m' != [] && !(l && l')
  {
    if |m| >= 2 && m' != [] && !(l && l') {
      var steps := TornRunExists(c, m, l, d, m', l');
    }
    forall steps | TornRun(steps, c, m, l, d, m', l') ensures |m| >= 2 && m' != [] && !(l && l') {
      TornRunNeeds(steps, c, m, l, d, m', l');
    }
  }

  /** No chunk of another call lies between two chunks of c. */
  ghost predicate InOnePiece(wire: seq<Chunk>, c: CallId) {
    forall d :: d != c ==> !Tears(wire, c, d)
  }

  /** A message is in one piece in every run, whatever other calls there are, if and only if it has
      at most one byte. */
  lemma InOnePieceExactly(c: CallId, m: seq<byte>, l: bool)
    ensures (forall steps | LegalRun(steps) && c in Run(steps).calls
                            && Run(steps).calls[c].msg == m && Run(steps).calls[c].locked == l ::
               InOnePiece(Run(steps).wire, c))
       <==> |m| <= 1
  {
    if |m| >= 2 {
      var steps := TornRunExists(c, m, l, c + 1, [0], false);
      assert !InOnePiece(Run(steps).wire, c);
    } else {
      forall steps | LegalRun(steps) && c in Run(steps).calls
                     && Run(steps).calls[c].msg == m && Run(steps).calls[c].locked == l
        ensures InOnePiece(Run(steps).wire, c)
      {
        AlwaysWhole(steps, c);
      }
    }
  }

  lemma AlwaysWhole(steps: seq<Step>, c: CallId)
    requires LegalRun(steps) && c in Run(steps).calls && |Run(steps).calls[c].msg| <= 1
    ensures InOnePiece(Run(steps).wire, c)
  {
    RunKeepsInv(steps);
    var s := Run(steps);
    forall d | d != c ensures !Tears(s.wire, c, d) {
      if Tears(s.wire, c, d) {
        var i, j, k :| 0 <= i < j < k < |s.wire| && s.wire[i].call == c && s.wire[j].call == d && s.wire[k].call == c;
        assert s.wire[j].call in s.calls;
        TornRunNeeds(steps, c, s.calls[c].msg, s.calls[c].locked, d, s.calls[d].msg, s.calls[d].locked);
      }
    }
  }
}
