/** The simulator log queue: producers enqueue, one consumer thread frames and sends, and a flush
    call waits for the queue to be empty. */
module LogQueue {
  import opened Bytes
  import opened Options
  import opened Ustring

  const INSTR_LOG: u32 := 20
  const POPPED_LOG: u32 := 21
  const ICACHE_LOG: u32 := 22
  const MTE_LOG: u32 := 23

  const INSTR_LOG_SIZE: nat := 424
  const ICACHE_LOG_SIZE: nat := 40
  const MTE_LOG_SIZE: nat := 64
  const HEAD_SIZE: nat := 8

  datatype Message = Message(kind: u32, payload: seq<byte>)

  /** Only the four log types are framed; a message of any other type becomes an empty packet. */
  predicate Framed(kind: u32) {
    kind == INSTR_LOG || kind == POPPED_LOG || kind == ICACHE_LOG || kind == MTE_LOG
  }

  function PayloadSize(kind: u32): u32
    requires Framed(kind)
  {
    if kind == ICACHE_LOG then ICACHE_LOG_SIZE else if kind == MTE_LOG then MTE_LOG_SIZE else INSTR_LOG_SIZE
  }

  /** The holder class of a message fixes the size of its payload. */
  predicate WellTyped(m: Message) {
    Framed(m.kind) ==> |m.payload| == PayloadSize(m.kind)
  }

  predicate AllWellTyped(ms: seq<Message>) {
    forall i :: 0 <= i < |ms| ==> WellTyped(ms[i])
  }

  function Head(kind: u32, length: u32): (r: seq<byte>)
    ensures |r| == HEAD_SIZE
  {
    ToLE(4, kind) + ToLE(4, length)
  }

  function Frame(m: Message): seq<byte> {
    if Framed(m.kind) then Head(m.kind, PayloadSize(m.kind)) + m.payload else []
  }

  function FramesOf(ms: seq<Message>): (r: seq<seq<byte>>)
    ensures |r| == |ms| && forall i :: 0 <= i < |ms| ==> r[i] == Frame(ms[i])
  {
    seq(|ms|, i requires 0 <= i < |ms| => Frame(ms[i]))
  }

  function Frames(ms: seq<Message>): seq<byte> {
    Concat(FramesOf(ms))
  }

  lemma FramesOfSnoc(ms: seq<Message>, m: Message)
    ensures FramesOf(ms + [m]) == FramesOf(ms) + [Frame(m)]
  {
  }

  lemma FramesSnoc(ms: seq<Message>, m: Message)
    ensures Frames(ms + [m]) == Frames(ms) + Frame(m)
  {
    FramesOfSnoc(ms, m);
    ConcatSnoc(FramesOf(ms), Frame(m));
  }

  /** The chunk of each message is what reached the wire of its frame. */
  predicate ChunksOf(chunks: seq<seq<byte>>, ms: seq<Message>) {
    CutShort(chunks, FramesOf(ms))
  }

  lemma ChunksSnoc(chunks: seq<seq<byte>>, ms: seq<Message>, c: seq<byte>, m: Message)
    requires ChunksOf(chunks, ms) && c <= Frame(m)
    ensures ChunksOf(chunks + [c], ms + [m])
    ensures Concat(chunks + [c]) == Concat(chunks) + c
  {
    FramesOfSnoc(ms, m);
    ConcatSnoc(chunks, c);
  }

  // ---------------------------------------------------------------- the receiver

  /** Packets are read one after the other: head, then as many bytes as the head announces. */
  function Decode(wire: seq<byte>): Option<seq<Message>> {
    if wire == [] then Some([])
    else if |wire| < HEAD_SIZE then None
    else
      var kind, length := FromLE(wire[..4]), FromLE(wire[4..HEAD_SIZE]);
      if |wire| < HEAD_SIZE + length || kind >= TWO_32 then None
      else
        Prepend([Message(kind, wire[HEAD_SIZE..HEAD_SIZE + length])], Decode(wire[HEAD_SIZE + length..]))
  }

  function Sendable(ms: seq<Message>): seq<Message> {
    if ms == [] then []
    else Sendable(ms[..|ms| - 1]) + if Framed(ms[|ms| - 1].kind) then [ms[|ms| - 1]] else []
  }

  lemma DecodeFrame(m: Message, rest: seq<byte>)
    requires WellTyped(m) && Framed(m.kind)
    ensures Decode(Frame(m) + rest) == Prepend([m], Decode(rest))
  {
    var wire, size := Frame(m) + rest, PayloadSize(m.kind);
    RadixValues();
    FromToLE(4, m.kind);
    FromToLE(4, size);
    assert wire[..4] == ToLE(4, m.kind) && wire[4..HEAD_SIZE] == ToLE(4, size);
    assert wire[HEAD_SIZE..HEAD_SIZE + size] == m.payload && wire[HEAD_SIZE + size..] == rest;
  }

  /** Frames in front of anything decode to their messages in front of whatever that decodes to. */
  lemma {:induction false} DecodeFramesThen(ms: seq<Message>, rest: seq<byte>)
    requires AllWellTyped(ms)
    ensures Decode(Frames(ms) + rest) == Prepend(Sendable(ms), Decode(rest))
  {
    if ms == [] {
      assert Frames(ms) + rest == rest;
      PrependConcat([], [], Decode(rest));
    } else {
      var init, m := ms[..|ms| - 1], ms[|ms| - 1];
      assert ms == init + [m];
      FramesThen(init, m, rest);
      DecodeFramesThen(init, Frame(m) + rest);
      DecodeFrameOrNothing(m, rest);
      PrependConcat(Sendable(init), Sendable([m]), Decode(rest));
      SendableSnoc(init, m);
    }
  }

  lemma FramesThen(init: seq<Message>, m: Message, rest: seq<byte>)
    ensures Frames(init + [m]) + rest == Frames(init) + (Frame(m) + rest)
  {
    FramesSnoc(init, m);
    Regrouped(Frames(init), Frame(m), rest);
  }

  lemma SendableSnoc(init: seq<Message>, m: Message)
    ensures Sendable(init + [m]) == Sendable(init) + Sendable([m])
  {
    assert (init + [m])[..|init|] == init;
    assert [m][..0] == [];
  }

  lemma DecodeFrameOrNothing(m: Message, rest: seq<byte>)
    requires WellTyped(m)
    ensures Decode(Frame(m) + rest) == Prepend(Sendable([m]), Decode(rest))
  {
    assert [m][..0] == [];
    if Framed(m.kind) {
      assert [] + [m] == [m];
      DecodeFrame(m, rest);
    } else {
      assert Frame(m) + rest == rest;
      PrependConcat([], [], Decode(rest));
    }
  }

  /** The stream of packets decodes to exactly the framed messages, in order. */
  lemma DecodeInvertsFrames(ms: seq<Message>)
    requires AllWellTyped(ms)
    ensures Decode(Frames(ms)) == Some(Sendable(ms))
  {
    DecodeFramesThen(ms, []);
    assert Frames(ms) + [] == Frames(ms) && Sendable(ms) + [] == Sendable(ms);
  }

  // The payloads are C structures; their sizes follow from their members.

  datatype CType = U64 | U32 | U8 | Chars(n: nat)

  function SizeOfType(t: CType): nat {
    match t
    case U64 => 8
    case U32 => 4
    case U8 => 1
    case Chars(n) => n
  }

  function AlignOfType(t: CType): nat {
    match t
    case U64 => 8
    case U32 => 4
    case _ => 1
  }

  function AlignedUp(offset: nat, align: nat): nat {
    if align == 8 then (offset + 7) / 8 * 8 else if align == 4 then (offset + 3) / 4 * 4 else offset
  }

  /** The end of a member that follows what ends at offset. */
  function With(offset: nat, t: CType): nat {
    AlignedUp(offset, AlignOfType(t)) + SizeOfType(t)
  }

  function InstrLogSize(): nat {
    AlignedUp(With(With(With(With(With(With(0, U64), U64), U32), U32), Chars(200)), Chars(200)), 8)
  }

  function IcacheLogSize(): nat {
    AlignedUp(With(With(With(With(With(With(With(0, U64), U64), U32), U32), U32), U32), U8), 8)
  }

  function MteLogSize(): nat {
    AlignedUp(With(With(With(With(With(With(0, U64), U64), U64), U32), U32), Chars(32)), 8)
  }

  lemma NoGap(offset: nat, t: CType)
    requires (t == U64 && offset % 8 == 0) || (t == U32 && offset % 4 == 0) || t == U8 || t.Chars?
    ensures With(offset, t) == offset + SizeOfType(t)
  {
  }

  lemma FrontOfLogs()
    ensures With(With(With(With(0, U64), U64), U32), U32) == 24 && With(With(With(0, U64), U64), U64) == 24
  {
    NoGap(0, U64);
    NoGap(8, U64);
    NoGap(16, U64);
    NoGap(16, U32);
    NoGap(20, U32);
  }

  /** The announced payload sizes are those of the structures. */
  lemma PayloadSizesOfStructures()
    ensures PayloadSize(20) == PayloadSize(21) == InstrLogSize()
    ensures PayloadSize(22) == IcacheLogSize() && PayloadSize(23) == MteLogSize()
  {
    FrontOfLogs();
    NoGap(24, Chars(200));
    NoGap(224, Chars(200));
    NoGap(24, U32);
    NoGap(28, U32);
    NoGap(32, U8);
    NoGap(32, Chars(32));
  }

  predicate IsLog(m: Message) {
    || ((m.kind == 20 || m.kind == 21) && |m.payload| == InstrLogSize())
    || (m.kind == 22 && |m.payload| == IcacheLogSize())
    || (m.kind == 23 && |m.payload| == MteLogSize())
  }

  /** Every list of logs of the four kinds, with the structures as payloads, decodes back from its packets. */
  lemma LogsDecodeBack(ms: seq<Message>)
    requires forall i :: 0 <= i < |ms| ==> IsLog(ms[i])
    ensures Decode(Frames(ms)) == Some(ms)
  {
    PayloadSizesOfStructures();
    SendableExact(ms);
    DecodeInvertsFrames(ms);
  }

  /** The bytes that messages take on the wire. */
  function WireSize(ms: seq<Message>): nat {
    if ms == [] then 0 else HEAD_SIZE + |ms[0].payload| + WireSize(ms[1..])
  }

  lemma {:induction false} WireSizeConcat(a: seq<Message>, b: seq<Message>)
    ensures WireSize(a + b) == WireSize(a) + WireSize(b)
  {
    if a == [] {
      assert a + b == b;
    } else {
      WireSizeConcat(a[1..], b);
      assert (a + b)[1..] == a[1..] + b;
    }
  }

  /** What decodes has exactly the size of its messages. */
  lemma {:induction false} DecodedSize(wire: seq<byte>)
    requires Decode(wire).Some?
    ensures WireSize(Decode(wire).value) == |wire|
    decreases |wire|
  {
    if wire == [] {
    } else {
      var length := FromLE(wire[4..HEAD_SIZE]);
      DecodedSize(wire[HEAD_SIZE + length..]);
      var m := Message(FromLE(wire[..4]), wire[HEAD_SIZE..HEAD_SIZE + length]);
      var rest := Decode(wire[HEAD_SIZE + length..]).value;
      assert ([m] + rest)[1..] == rest;
    }
  }

  lemma {:induction false} FramesSize(ms: seq<Message>)
    requires AllWellTyped(ms)
    ensures |Frames(ms)| == WireSize(Sendable(ms))
  {
    if ms == [] {
    } else {
      var init, m := ms[..|ms| - 1], ms[|ms| - 1];
      assert ms == init + [m];
      FramesSize(init);
      FramesSnoc(init, m);
      SendableSnoc(init, m);
      WireSizeConcat(Sendable(init), Sendable([m]));
      FrameSize(m);
    }
  }

  lemma FrameSize(m: Message)
    requires WellTyped(m)
    ensures |Frame(m)| == WireSize(Sendable([m]))
  {
    assert [m][..0] == [] && [m][1..] == [];
    assert [] + [m] == [m];
  }

  /** What reaches the wire decodes to exactly the framed messages if and only if no send was cut
      short. */
  lemma DecodesExactly(ms: seq<Message>, chunks: seq<seq<byte>>)
    requires AllWellTyped(ms) && ChunksOf(chunks, ms)
    ensures Decode(Concat(chunks)) == Some(Sendable(ms)) <==> chunks == FramesOf(ms)
  {
    CutShortSize(chunks, FramesOf(ms));
    FramesSize(ms);
    if chunks == FramesOf(ms) {
      DecodeInvertsFrames(ms);
    } else if Decode(Concat(chunks)) == Some(Sendable(ms)) {
      DecodedSize(Concat(chunks));
    }
  }

  /** Nothing is lost on the way exactly when every message is of a log type. */
  lemma {:induction false} SendableExact(ms: seq<Message>)
    ensures |Sendable(ms)| <= |ms|
    ensures Sendable(ms) == ms <==> forall i :: 0 <= i < |ms| ==> Framed(ms[i].kind)
  {
    if ms == [] {
    } else {
      var init, last := ms[..|ms| - 1], ms[|ms| - 1];
      SendableExact(init);
      assert ms == init + [last];
      if !Framed(last.kind) {
        assert |Sendable(ms)| < |ms|;
      } else if Sendable(ms) == ms {
        assert Sendable(init) == Sendable(ms)[..|ms| - 1];
      }
    }
  }

  // ---------------------------------------------------------------- the code of each side

  /** These messages have been sent. */
  ghost predicate Progress(before: seq<byte>, wire: seq<byte>, ms: seq<Message>, chunks: seq<seq<byte>>) {
    ChunksOf(chunks, ms) && wire == before + Concat(chunks)
  }

  lemma ProgressStep(before: seq<byte>, wire: seq<byte>, ms: seq<Message>, m: Message, chunks: seq<seq<byte>>,
                     chunk: seq<byte>)
    requires Progress(before, wire, ms, chunks) && chunk <= Frame(m)
    ensures Progress(before, wire + chunk, ms + [m], chunks + [chunk])
  {
    ChunksSnoc(chunks, ms, chunk, m);
    Regrouped(before, Concat(chunks), chunk);
  }

  lemma QueueStep(all: seq<Message>, n: nat)
    requires n < |all|
    ensures all[n..][0] == all[n] && all[n..][1..] == all[n + 1..] && all[..n] + [all[n]] == all[..n + 1]
  {
  }

  class CamodelHelper {
    var queue: seq<Message>
    var wire: seq<byte>

    constructor ()
      ensures queue == [] && wire == []
    {
      queue, wire := [], [];
    }

    method SendCaLog(m: Message)
      modifies this`queue
      ensures queue == old(queue) + [m]
    {
      queue := queue + [m];
    }

    /** The consumer loop while no one else acts: each round takes the oldest message, if any, and
        sends it, of which any part may reach the wire. */
    method PopMessage(rounds: nat) returns (chunks: seq<seq<byte>>)
      modifies this
      ensures var n := if rounds < |old(queue)| then rounds else |old(queue)|;
        queue == old(queue)[n..] && ChunksOf(chunks, old(queue)[..n])
      ensures wire == old(wire) + Concat(chunks)
    {
      chunks := [];
      ghost var all, n: nat := queue, 0;
      for i := 0 to rounds
        invariant n == if i < |all| then i else |all|
        invariant queue == all[n..] && Progress(old(wire), wire, all[..n], chunks)
      {
        if queue != [] {
          QueueStep(all, n);
          ghost var wire0 := wire;
          var chunk := SendFront();
          ProgressStep(old(wire), wire0, all[..n], all[n], chunks, chunk);
          chunks := chunks + [chunk];
          n := n + 1;
        }
      }
    }

    method SendFront() returns (chunk: seq<byte>)
      requires queue != []
      modifies this
      ensures queue == old(queue)[1..]
      ensures chunk <= Frame(old(queue)[0]) && wire == old(wire) + chunk
    {
      var data := queue[0];
      queue := queue[1..];
      var mes := Packet(data);
      chunk := SendMsg(mes);
    }

    /** An incomplete send is logged, and the consumer goes on. */
    method SendMsg(mes: seq<byte>) returns (chunk: seq<byte>)
      modifies this`wire
      ensures chunk <= mes && wire == old(wire) + chunk
    {
      assert mes[..0] <= mes;
      chunk :| chunk <= mes;
      wire := wire + chunk;
    }

    method Packet(data: Message) returns (mes: seq<byte>)
      ensures mes == Frame(data)
    {
      mes := [];
      if data.kind == ICACHE_LOG {
        mes := Head(data.kind, ICACHE_LOG_SIZE) + data.payload;
      } else if data.kind == INSTR_LOG || data.kind == POPPED_LOG {
        mes := Head(data.kind, INSTR_LOG_SIZE) + data.payload;
      } else if data.kind == MTE_LOG {
        mes := Head(data.kind, MTE_LOG_SIZE) + data.payload;
      }
    }
  }

  // ---------------------------------------------------------------- all threads together

  type SyncId = nat

  /** Where the consumer is: before the test of isListening, after it, waiting for a message, with a
      message in hand, or out of the loop. */
  datatype Consumer = AtTop | InBody | Waiting | Sending(m: Message) | Exited

  /** A flush call; mark is the number of messages enqueued before it. It waited if the queue was not
      empty then, and is notified when the condition variable has woken it up since its last look at
      the queue. */
  datatype Sync = Sync(mark: nat, waited: bool, notified: bool, returned: bool)

  /** enqueued and sent are the histories; chunks holds what reached the wire of each
      sent message's frame. */
  datatype State = State(queue: seq<Message>, consumer: Consumer, wire: seq<byte>, isListening: bool,
                         enqueued: seq<Message>, sent: seq<Message>, chunks: seq<seq<byte>>,
                         syncs: map<SyncId, Sync>)

  const INITIAL := State([], AtTop, [], true, [], [], [], map[])

  datatype Step =
    | Enqueue(m: Message)
    | TestListening
    | Wait                     // the queue is empty: the consumer notifies and waits
    | TimeOut
    | Pop
    | Send(chunk: seq<byte>)   // this beginning of the frame reaches the wire
    | SyncBegin(id: SyncId)
    | SyncWake(id: SyncId)     // a notified flush looks at the queue
    | SpuriousWake(id: SyncId) // a condition variable may wake up a thread for no reason
    | Stop

  function AllNotified(syncs: map<SyncId, Sync>): map<SyncId, Sync> {
    map id | id in syncs :: syncs[id].(notified := true)
  }

  predicate Enabled(s: State, step: Step) {
    match step
    case Enqueue(m) => WellTyped(m)
    case TestListening => s.consumer == AtTop
    case Wait => s.consumer == InBody && s.queue == []
    case TimeOut => s.consumer == Waiting && s.queue == []
    case Pop => (s.consumer == InBody || s.consumer == Waiting) && s.queue != []
    case Send(chunk) => s.consumer.Sending? && chunk <= Frame(s.consumer.m)
    case SyncBegin(id) => id !in s.syncs
    case SyncWake(id) => id in s.syncs && !s.syncs[id].returned && s.syncs[id].notified
    case SpuriousWake(id) => id in s.syncs && !s.syncs[id].returned
    case Stop => s.isListening
  }

  function Apply(s: State, step: Step): State
    requires Enabled(s, step)
  {
    match step
    case Enqueue(m) =>
      s.(queue := s.queue + [m], enqueued := s.enqueued + [m], syncs := AllNotified(s.syncs))
    case TestListening => s.(consumer := if s.isListening then InBody else Exited)
    case Wait => s.(consumer := Waiting, syncs := AllNotified(s.syncs))
    case TimeOut => s.(consumer := AtTop)
    case Pop => s.(queue := s.queue[1..], consumer := Sending(s.queue[0]))
    case Send(chunk) =>
      s.(consumer := AtTop, wire := s.wire + chunk, sent := s.sent + [s.consumer.m], chunks := s.chunks + [chunk])
    case SyncBegin(id) => s.(syncs := s.syncs[id := Sync(|s.enqueued|, s.queue != [], false, s.queue == [])])
    case SyncWake(id) => s.(syncs := s.syncs[id := s.syncs[id].(notified := false, returned := s.queue == [])])
    case SpuriousWake(id) => s.(syncs := s.syncs[id := s.syncs[id].(notified := true)])
    case Stop => s.(isListening := false)
  }

  predicate LegalRun(steps: seq<Step>)
    decreases |steps|, 0
  {
    steps == [] || (LegalRun(steps[..|steps| - 1]) && Enabled(Run(steps[..|steps| - 1]), steps[|steps| - 1]))
  }

  function Run(steps: seq<Step>): State
    requires LegalRun(steps)
    decreases |steps|, 1
  {
    if steps == [] then INITIAL else Apply(Run(steps[..|steps| - 1]), steps[|steps| - 1])
  }

  function InFlight(s: State): seq<Message> {
    if s.consumer.Sending? then [s.consumer.m] else []
  }

  ghost predicate Conserved(s: State) {
    s.sent + InFlight(s) + s.queue == s.enqueued
  }

  ghost predicate FlushesOk(s: State) {
    forall id :: id in s.syncs ==>
      && s.syncs[id].mark <= |s.enqueued|
      && (s.syncs[id].returned ==> s.syncs[id].mark <= |s.sent| + 1)
  }

  ghost predicate WireOk(s: State) {
    ChunksOf(s.chunks, s.sent) && s.wire == Concat(s.chunks)
  }

  ghost predicate Inv(s: State) {
    Conserved(s) && WireOk(s) && AllWellTyped(s.enqueued) && FlushesOk(s)
  }

  lemma StepKeepsConserved(s: State, step: Step)
    requires Conserved(s) && Enabled(s, step)
    ensures Conserved(Apply(s, step))
  {
    match step {
      case Enqueue(m) => assert s.sent + InFlight(s) + (s.queue + [m]) == (s.sent + InFlight(s) + s.queue) + [m];
      case Pop => PopRegroups(s);
      case Send(_) => assert s.sent + [s.consumer.m] + [] == s.sent + [s.consumer.m];
      case _ =>
    }
  }

  lemma PopRegroups(s: State)
    requires Enabled(s, Pop)
    ensures s.sent + [s.queue[0]] + s.queue[1..] == s.sent + [] + s.queue
  {
    assert s.queue == [s.queue[0]] + s.queue[1..];
  }

  lemma StepKeepsFlushesOk(s: State, step: Step)
    requires Conserved(s) && FlushesOk(s) && Enabled(s, step)
    ensures FlushesOk(Apply(s, step))
  {
    assert |s.sent| + |InFlight(s)| + |s.queue| == |s.enqueued|;
  }

  lemma StepKeepsWire(s: State, step: Step)
    requires WireOk(s) && Enabled(s, step)
    ensures WireOk(Apply(s, step))
  {
    if step.Send? {
      ChunksSnoc(s.chunks, s.sent, step.chunk, s.consumer.m);
    }
  }

  lemma StepKeepsWellTyped(s: State, step: Step)
    requires AllWellTyped(s.enqueued) && Enabled(s, step)
    ensures AllWellTyped(Apply(s, step).enqueued)
  {
  }

  lemma StepKeepsInv(s: State, step: Step)
    requires Inv(s) && Enabled(s, step)
    ensures Inv(Apply(s, step))
  {
    StepKeepsConserved(s, step);
    StepKeepsFlushesOk(s, step);
    StepKeepsWire(s, step);
    StepKeepsWellTyped(s, step);
  }

  lemma {:induction false} RunKeepsInv(steps: seq<Step>)
    requires LegalRun(steps)
    ensures Inv(Run(steps))
  {
    if steps == [] {
    } else {
      RunKeepsInv(steps[..|steps| - 1]);
      StepKeepsInv(Run(steps[..|steps| - 1]), steps[|steps| - 1]);
    }
  }

  /** Conservation: in every reachable state the sent messages, the one in flight and the queue are,
      in this order, everything enqueued, whether or not sends were cut short; and the wire decodes
      to the framed messages sent if and only if none was. */
  lemma NothingLostOrReordered(steps: seq<Step>)
    requires LegalRun(steps)
    ensures var s := Run(steps);
      && s.sent + InFlight(s) + s.queue == s.enqueued
      && (Decode(s.wire) == Some(Sendable(s.sent)) <==> s.chunks == FramesOf(s.sent))
  {
    RunKeepsInv(steps);
    SentWellTyped(Run(steps));
    DecodesExactly(Run(steps).sent, Run(steps).chunks);
  }

  lemma SentWellTyped(s: State)
    requires Inv(s)
    ensures AllWellTyped(s.sent)
  {
    forall i | 0 <= i < |s.sent| ensures WellTyped(s.sent[i]) {
      assert s.sent[i] == (s.sent + InFlight(s) + s.queue)[i];
    }
  }

  /** Messages sent before the first send that was cut short are always received, in front of what
      the receiver makes of the rest. */
  lemma DecodedUpToFirstFailure(steps: seq<Step>, c: nat)
    requires LegalRun(steps) && c <= |Run(steps).sent| && c <= |Run(steps).chunks|
    requires Run(steps).chunks[..c] == FramesOf(Run(steps).sent[..c])
    ensures Run(steps).wire == Frames(Run(steps).sent[..c]) + Concat(Run(steps).chunks[c..])
    ensures Decode(Run(steps).wire)
         == Prepend(Sendable(Run(steps).sent[..c]), Decode(Concat(Run(steps).chunks[c..])))
  {
    RunKeepsInv(steps);
    var s := Run(steps);
    SentWellTyped(s);
    assert s.wire == Concat(s.chunks);
    ConcatAt(s.chunks, c);
    DecodeFramesThen(s.sent[..c], Concat(s.chunks[c..]));
  }

  /** A flush call that has returned leaves at most one of the messages enqueued before it unsent,
      and only the last of them. */
  lemma FlushLeavesAtMostOne(steps: seq<Step>, id: SyncId)
    requires LegalRun(steps) && id in Run(steps).syncs && Run(steps).syncs[id].returned
    ensures var s := Run(steps); var mark := s.syncs[id].mark;
      && mark <= |s.enqueued|
      && (mark > 0 ==> s.enqueued[..mark - 1] <= s.sent)
  {
    RunKeepsInv(steps);
    var s := Run(steps);
    var mark := s.syncs[id].mark;
    if mark > 0 {
      assert s.enqueued[..mark - 1] == s.sent[..mark - 1];
    }
  }

  lemma RunStep(steps: seq<Step>, step: Step, s': State)
    requires LegalRun(steps) && Enabled(Run(steps), step) && Apply(Run(steps), step) == s'
    ensures LegalRun(steps + [step]) && Run(steps + [step]) == s'
  {
    assert (steps + [step])[..|steps + [step]| - 1] == steps;
  }

  /** A flush may return while the only message is still unsent. */
  lemma FlushMayReturnEarly(m: Message) returns (steps: seq<Step>)
    requires WellTyped(m)
    ensures LegalRun(steps)
    ensures Run(steps) == State([], Sending(m), [], true, [m], [], [], map[0 := Sync(1, false, false, true)])
  {
    steps := RunToSending(m);
    RunStep(steps, SyncBegin(0), State([], Sending(m), [], true, [m], [], [], map[0 := Sync(1, false, false, true)]));
    steps := steps + [SyncBegin(0)];
  }

  lemma RunToSending(m: Message) returns (steps: seq<Step>)
    requires WellTyped(m)
    ensures LegalRun(steps) && Run(steps) == State([], Sending(m), [], true, [m], [], [], map[])
  {
    RunStep([], Enqueue(m), State([m], AtTop, [], true, [m], [], [], map[]));
    steps := [] + [Enqueue(m)];
    RunStep(steps, TestListening, State([m], InBody, [], true, [m], [], [], map[]));
    steps := steps + [TestListening];
    RunStep(steps, Pop, State([], Sending(m), [], true, [m], [], [], map[]));
    steps := steps + [Pop];
  }

  /** Once the socket takes one byte of a message and then fails, the receiver cannot decode. */
  lemma TornFrameIsUnreadable(m: Message) returns (steps: seq<Step>)
    requires WellTyped(m) && Framed(m.kind)
    ensures LegalRun(steps) && Run(steps).sent == [m] && |Run(steps).wire| == 1
    ensures Decode(Run(steps).wire) == None
  {
    steps := RunToSending(m);
    var byte0 := Frame(m)[..1];
    RunStep(steps, Send(byte0), State([], AtTop, [] + byte0, true, [m], [m], [byte0], map[]));
    steps := steps + [Send(byte0)];
  }
}
