/** The server side: client ids, and what the message handler of each client is given. */
module ServerDelivery {
  import opened Bytes
  import opened Ustring
  import T = Transport
  import W = LocalProcessWait

  type ConnId = nat
  type ClientId = nat

  const MAX_SIZE: nat := 1024

  // ---------------------------------------------------------------- the client table as code

  class DomainSocketServer {
    const maxClientNum: nat
    var cfds: seq<int>

    ghost predicate Valid()
      reads this
    {
      |cfds| <= maxClientNum && forall i :: 0 <= i < |cfds| ==> cfds[i] != -1
    }

    constructor (maxClientNum: nat)
      ensures Valid() && this.maxClientNum == maxClientNum && cfds == []
    {
      this.maxClientNum, cfds := maxClientNum, [];
    }

    /** cfd is what accept returned, -1 for a failure; the flags tell whether the time-out could be
        set, the credentials could be read, and they are the server's own. */
    method Accept(cfd: int, timeoutSet: bool, credRead: bool, credOk: bool) returns (ok: bool, id: ClientId)
      requires Valid()
      modifies this
      ensures Valid()
      ensures ok <==> |old(cfds)| < maxClientNum && cfd != -1 && timeoutSet && credRead && credOk
      ensures ok ==> id == |old(cfds)| && cfds == old(cfds) + [cfd] && cfds[id] == cfd
      ensures !ok ==> cfds == old(cfds)
    {
      if |cfds| >= maxClientNum || cfd == -1 || !timeoutSet || !credRead || !credOk {
        return false, 0;
      }
      id := |cfds|;
      cfds := cfds + [cfd];
      return true, id;
    }

    /** The descriptor behind an id, as Read and Write look it up. */
    method Lookup(id: ClientId) returns (found: bool, cfd: int)
      requires Valid()
      ensures found <==> id < |cfds|
      ensures found ==> cfd == cfds[id]
    {
      if id >= |cfds| || cfds[id] == -1 {
        return false, -1;
      }
      return true, cfds[id];
    }
  }

  // ---------------------------------------------------------------- the listening loop as code

  /** The reads that delivered something. */
  function NonEmptyReads(script: seq<W.ReadOutcome>): seq<seq<byte>> {
    if script == [] then []
    else
      var last := script[|script| - 1];
      NonEmptyReads(script[..|script| - 1]) + if last.Data? then [last.bytes] else []
  }

  /** SocketServer::Read: a read that delivers nothing leaves the caller's message as it is. */
  method Read(outcome: W.ReadOutcome, msgIn: seq<byte>) returns (len: int, msg: seq<byte>)
    requires W.SocketOutcome(outcome)
    ensures len > 0 <==> outcome.Data?
    ensures msg == if outcome.Data? then outcome.bytes else msgIn
  {
    match outcome {
      case Data(bytes) =>
        msg, len := bytes, |bytes|;
      case Nothing =>
        msg, len := msgIn, *;
        if len > 0 {
          len := -1;
        }
    }
  }

  /** SocketServer::Listen while the server runs; script lists the outcomes of its reads. The message
      variable outlives a round, but the handler is given exactly the non-empty reads, in order. */
  method Listen(script: seq<W.ReadOutcome>) returns (handled: seq<seq<byte>>)
    requires forall i :: 0 <= i < |script| ==> W.SocketOutcome(script[i])
    ensures handled == NonEmptyReads(script)
  {
    handled := [];
    var msg := [];
    for i := 0 to |script|
      invariant handled == NonEmptyReads(script[..i])
    {
      assert script[..i + 1][..i] == script[..i];
      var len;
      len, msg := Read(script[i], msg);
      if len <= 0 {
        continue;
      }
      handled := handled + [msg];
    }
    assert script[..|script|] == script;
  }

  /** Each read takes the next bytes of the stream. */
  predicate ReadsFrom(stream: seq<byte>, script: seq<W.ReadOutcome>) {
    forall i :: 0 <= i < |script| && script[i].Data? ==>
      var at := |W.Received(script, i)|;
      at + |script[i].bytes| <= |stream| && script[i].bytes == stream[at..at + |script[i].bytes|]
  }

  lemma PrefixGrowsBy(stream: seq<byte>, front: seq<byte>, more: seq<byte>)
    requires front <= stream && |front| + |more| <= |stream| && more == stream[|front|..|front| + |more|]
    ensures front + more <= stream
  {
  }

  lemma {:induction false} ReceivedIsPrefix(stream: seq<byte>, script: seq<W.ReadOutcome>, k: nat)
    requires ReadsFrom(stream, script) && k <= |script|
    ensures W.Received(script, k) <= stream
  {
    if k == 0 {
    } else {
      ReceivedIsPrefix(stream, script, k - 1);
      if script[k - 1].Data? {
        PrefixGrowsBy(stream, W.Received(script, k - 1), script[k - 1].bytes);
      }
    }
  }

  lemma {:induction false} HandledIsReceived(script: seq<W.ReadOutcome>, k: nat)
    requires k <= |script|
    ensures Concat(NonEmptyReads(script[..k])) == W.Received(script, k)
  {
    if k == 0 {
    } else {
      HandledIsReceived(script, k - 1);
      assert script[..k][..k - 1] == script[..k - 1];
      if script[k - 1].Data? {
        ConcatSnoc(NonEmptyReads(script[..k - 1]), script[k - 1].bytes);
      } else {
        assert NonEmptyReads(script[..k]) == NonEmptyReads(script[..k - 1]);
      }
    }
  }

  /** So whatever reads fail in between, the handler's chunks concatenate to a prefix of the stream. */
  lemma ListenHandsOnPrefix(stream: seq<byte>, script: seq<W.ReadOutcome>)
    requires ReadsFrom(stream, script)
    ensures Concat(NonEmptyReads(script)) <= stream
  {
    assert script[..|script|] == script;
    HandledIsReceived(script, |script|);
    ReceivedIsPrefix(stream, script, |script|);
  }

  lemma PrefixExtends(w: seq<byte>, k: nat, n: nat)
    requires k + n <= |w|
    ensures w[..k] + w[k..k + n] == w[..k + n]
  {
  }

  // ---------------------------------------------------------------- clients and server together

  /** delivered lists, per client id, the chunks handed to the handler; consumed counts their bytes. */
  datatype State = State(max: nat, clients: map<ConnId, T.State>, cfds: seq<ConnId>,
                         consumed: seq<nat>, delivered: seq<seq<seq<byte>>>)

  datatype Step =
    | Connect(conn: ConnId)
    | ClientActs(conn: ConnId, step: T.Step)
    | Accept(conn: ConnId)
    | Deliver(id: ClientId, n: nat)

  function Initial(max: nat): State {
    State(max, map[], [], [], [])
  }

  /** All bytes a client has put on its connection. */
  function Written(s: State, conn: ConnId): seq<byte>
    requires conn in s.clients
  {
    T.WireBytes(s.clients[conn].wire)
  }

  ghost predicate Shape(s: State) {
    && |s.cfds| == |s.consumed| == |s.delivered| <= s.max
    && (forall id :: 0 <= id < |s.cfds| ==> s.cfds[id] in s.clients)
    && (forall i, j :: 0 <= i < j < |s.cfds| ==> s.cfds[i] != s.cfds[j])
  }

  /** A read takes what is there, up to the size of its buffer; each connection is accepted once. */
  ghost predicate Enabled(s: State, step: Step)
    requires Shape(s)
  {
    match step
    case Connect(conn) => conn !in s.clients
    case ClientActs(conn, t) => conn in s.clients && T.Enabled(s.clients[conn], t)
    case Accept(conn) => |s.cfds| < s.max && conn in s.clients && conn !in s.cfds
    case Deliver(id, n) =>
      id < |s.cfds| && 1 <= n <= MAX_SIZE && s.consumed[id] + n <= |Written(s, s.cfds[id])|
  }

  ghost function Apply(s: State, step: Step): (s': State)
    requires Shape(s) && Enabled(s, step)
    ensures Shape(s')
  {
    match step
    case Connect(conn) => s.(clients := s.clients[conn := T.INITIAL])
    case ClientActs(conn, t) => s.(clients := s.clients[conn := T.Apply(s.clients[conn], t)])
    case Accept(conn) =>
      s.(cfds := s.cfds + [conn], consumed := s.consumed + [0], delivered := s.delivered + [[]])
    case Deliver(id, n) =>
      var chunk := Written(s, s.cfds[id])[s.consumed[id]..s.consumed[id] + n];
      s.(consumed := s.consumed[id := s.consumed[id] + n],
         delivered := s.delivered[id := s.delivered[id] + [chunk]])
  }

  ghost predicate LegalRun(max: nat, steps: seq<Step>)
    decreases |steps|, 0
  {
    steps == [] ||
    (LegalRun(max, steps[..|steps| - 1]) && Enabled(Run(max, steps[..|steps| - 1]), steps[|steps| - 1]))
  }

  ghost function Run(max: nat, steps: seq<Step>): (s: State)
    requires LegalRun(max, steps)
    ensures Shape(s)
    decreases |steps|, 1
  {
    if steps == [] then Initial(max) else Apply(Run(max, steps[..|steps| - 1]), steps[|steps| - 1])
  }

  ghost predicate DeliveredOk(s: State, id: ClientId)
    requires Shape(s) && id < |s.cfds|
  {
    && s.consumed[id] <= |Written(s, s.cfds[id])|
    && Concat(s.delivered[id]) == Written(s, s.cfds[id])[..s.consumed[id]]
    && forall k :: 0 <= k < |s.delivered[id]| ==> 1 <= |s.delivered[id][k]| <= MAX_SIZE
  }

  ghost predicate Inv(s: State) {
    && Shape(s)
    && (forall conn :: conn in s.clients ==> T.Inv(s.clients[conn]))
    && (forall id :: 0 <= id < |s.cfds| ==> DeliveredOk(s, id))
  }

  lemma WireGrows(t: T.State, step: T.Step)
    requires T.Enabled(t, step)
    ensures T.WireBytes(t.wire) <= T.WireBytes(T.Apply(t, step).wire)
  {
    if step.Accept? {
      var wire := T.Apply(t, step).wire;
      assert wire[..|wire| - 1] == t.wire;
    }
  }

  lemma PrefixGrows(w: seq<byte>, w': seq<byte>, k: nat)
    requires w <= w' && k <= |w|
    ensures w'[..k] == w[..k]
  {
  }

  lemma ClientStepKeepsDelivered(s: State, conn: ConnId, t: T.Step, id: ClientId)
    requires Inv(s) && Enabled(s, ClientActs(conn, t)) && id < |s.cfds|
    ensures DeliveredOk(Apply(s, ClientActs(conn, t)), id)
  {
    WireGrows(s.clients[conn], t);
    assert DeliveredOk(s, id);
    var s' := Apply(s, ClientActs(conn, t));
    assert Written(s, s.cfds[id]) <= Written(s', s.cfds[id]);
    PrefixGrows(Written(s, s.cfds[id]), Written(s', s.cfds[id]), s.consumed[id]);
  }

  lemma DeliverKeepsDelivered(s: State, id: ClientId, n: nat)
    requires Inv(s) && Enabled(s, Deliver(id, n))
    ensures DeliveredOk(Apply(s, Deliver(id, n)), id)
  {
    assert DeliveredOk(s, id);
    var w, k := Written(s, s.cfds[id]), s.consumed[id];
    ConcatSnoc(s.delivered[id], w[k..k + n]);
    PrefixExtends(w, k, n);
  }

  lemma StepKeepsInv(s: State, step: Step)
    requires Inv(s) && Enabled(s, step)
    ensures Inv(Apply(s, step))
  {
    var s' := Apply(s, step);
    forall conn | conn in s'.clients ensures T.Inv(s'.clients[conn]) {
      if step.ClientActs? && conn == step.conn {
        T.StepKeepsInv(s.clients[conn], step.step);
      }
    }
    forall id | 0 <= id < |s'.cfds| ensures DeliveredOk(s', id) {
      assert id < |s.cfds| ==> DeliveredOk(s, id);
      match step {
        case ClientActs(conn, t) => ClientStepKeepsDelivered(s, conn, t, id);
        case Deliver(k, n) => if k == id { DeliverKeepsDelivered(s, id, n); }
        case _ =>
      }
    }
  }

  lemma {:induction false} RunKeepsInv(max: nat, steps: seq<Step>)
    requires LegalRun(max, steps)
    ensures Inv(Run(max, steps)) && Run(max, steps).max == max
  {
    if steps == [] {
    } else {
      RunKeepsInv(max, steps[..|steps| - 1]);
      StepKeepsInv(Run(max, steps[..|steps| - 1]), steps[|steps| - 1]);
    }
  }

  /** Client ids are dense and stable: later states only append to the table, an accepted client
      gets the next number, no two ids share a connection, and the maximum is never exceeded. */
  lemma {:induction false} IdsAreStable(max: nat, steps: seq<Step>, k: nat)
    requires LegalRun(max, steps) && k <= |steps|
    ensures LegalRun(max, steps[..k])
    ensures Run(max, steps[..k]).cfds <= Run(max, steps).cfds
    ensures |Run(max, steps).cfds| <= max
    ensures k < |steps| && steps[k].Accept? ==>
      |Run(max, steps[..k]).cfds| < |Run(max, steps).cfds|
      && Run(max, steps).cfds[|Run(max, steps[..k]).cfds|] == steps[k].conn
    decreases |steps|
  {
    RunKeepsInv(max, steps);
    if k == |steps| {
      assert steps[..k] == steps;
    } else {
      var init := steps[..|steps| - 1];
      IdsAreStable(max, init, k);
      assert init[..k] == steps[..k];
      if k == |steps| - 1 {
        assert steps[..k] == init;
      }
    }
  }

  /** The handler of an id is given, in order and without gaps, a prefix of what that client wrote,
      in chunks of 1 to 1024 bytes. */
  lemma DeliveredIsPrefix(max: nat, steps: seq<Step>, id: ClientId)
    requires LegalRun(max, steps) && id < |Run(max, steps).cfds|
    ensures var s := Run(max, steps);
      && Concat(s.delivered[id]) <= Written(s, s.cfds[id])
      && forall k :: 0 <= k < |s.delivered[id]| ==> 1 <= |s.delivered[id][k]| <= MAX_SIZE
  {
    RunKeepsInv(max, steps);
    assert DeliveredOk(Run(max, steps), id);
  }

  // ---------------------------------------------------------------- from a call to the handler

  /** The call that each byte of the wire belongs to. */
  function Owners(wire: seq<T.Chunk>): (r: seq<T.CallId>)
    ensures |r| == |T.WireBytes(wire)|
  {
    if wire == [] then []
    else Owners(wire[..|wire| - 1]) + seq(|wire[|wire| - 1].bytes|, _ => wire[|wire| - 1].call)
  }

  /** The bytes whose owner is c. */
  function Select(bytes: seq<byte>, owners: seq<T.CallId>, c: T.CallId): seq<byte>
    requires |bytes| == |owners|
  {
    if bytes == [] then []
    else
      var n := |bytes| - 1;
      Select(bytes[..n], owners[..n], c) + if owners[n] == c then [bytes[n]] else []
  }

  lemma {:induction false} SelectConcat(a: seq<byte>, ao: seq<T.CallId>, b: seq<byte>, bo: seq<T.CallId>, c: T.CallId)
    requires |a| == |ao| && |b| == |bo|
    ensures Select(a + b, ao + bo, c) == Select(a, ao, c) + Select(b, bo, c)
  {
    if b == [] {
      assert a + b == a && ao + bo == ao;
    } else {
      var n := |b| - 1;
      SelectConcat(a, ao, b[..n], bo[..n], c);
      assert (a + b)[..|a + b| - 1] == a + b[..n];
      assert (ao + bo)[..|a + b| - 1] == ao + bo[..n];
    }
  }

  lemma {:induction false} SelectUniform(bytes: seq<byte>, owner: T.CallId, c: T.CallId)
    ensures Select(bytes, seq(|bytes|, _ => owner), c) == if owner == c then bytes else []
  {
    if bytes == [] {
    } else {
      var n := |bytes| - 1;
      SelectUniform(bytes[..n], owner, c);
      assert seq(|bytes|, _ => owner)[..n] == seq(n, _ => owner);
    }
  }

  lemma {:induction false} SelectIsBytesOf(wire: seq<T.Chunk>, c: T.CallId)
    ensures Select(T.WireBytes(wire), Owners(wire), c) == T.BytesOf(wire, c)
  {
    if wire == [] {
    } else {
      var init, last := wire[..|wire| - 1], wire[|wire| - 1];
      SelectIsBytesOf(init, c);
      SelectConcat(T.WireBytes(init), Owners(init), last.bytes, seq(|last.bytes|, _ => last.call), c);
      SelectUniform(last.bytes, last.call, c);
    }
  }

  lemma SelectPrefix(bytes: seq<byte>, owners: seq<T.CallId>, k: nat, c: T.CallId)
    requires k <= |bytes| == |owners|
    ensures Select(bytes[..k], owners[..k], c) <= Select(bytes, owners, c)
  {
    SelectConcat(bytes[..k], owners[..k], bytes[k..], owners[k..], c);
    assert bytes[..k] + bytes[k..] == bytes && owners[..k] + owners[k..] == owners;
  }

  lemma PrefixOfWireIsPrefixOfMessage(client: T.State, k: nat, c: T.CallId)
    requires T.Inv(client) && c in client.calls && k <= |T.WireBytes(client.wire)|
    ensures Select(T.WireBytes(client.wire)[..k], Owners(client.wire)[..k], c) <= client.calls[c].msg
  {
    assert T.CallInv(client, c);
    SelectIsBytesOf(client.wire, c);
    SelectPrefix(T.WireBytes(client.wire), Owners(client.wire), k, c);
  }

  /** End to end: of every Notify call of every accepted client, what has reached the server's
      handler so far is a prefix of the message, whatever the threads, the partial writes and the
      read sizes were. */
  lemma CallReachesHandlerAsPrefix(max: nat, steps: seq<Step>, id: ClientId, c: T.CallId)
    requires LegalRun(max, steps) && id < |Run(max, steps).cfds|
    requires var s := Run(max, steps); c in s.clients[s.cfds[id]].calls
    ensures
      var s := Run(max, steps);
      var client := s.clients[s.cfds[id]];
      && |Concat(s.delivered[id])| <= |Owners(client.wire)|
      && Select(Concat(s.delivered[id]), Owners(client.wire)[..|Concat(s.delivered[id])|], c)
         <= client.calls[c].msg
  {
    RunKeepsInv(max, steps);
    var s := Run(max, steps);
    assert DeliveredOk(s, id);
    PrefixOfWireIsPrefixOfMessage(s.clients[s.cfds[id]], s.consumed[id], c);
  }
}
