/** LocalProcess::Wait: reads of at most 1024 bytes are joined until a message seems complete. */
module LocalProcessWait {
  import opened Bytes

  const RECV_BUFF_SIZE: nat := 1024

  /** The outcome of one read: some bytes, or a time-out, an end of file or an error. */
  datatype ReadOutcome = Data(bytes: seq<byte>) | Nothing

  predicate SocketOutcome(r: ReadOutcome) {
    r.Data? ==> 1 <= |r.bytes| <= RECV_BUFF_SIZE
  }

  /** All bytes of the first k reads. */
  function Received(script: seq<ReadOutcome>, k: nat): seq<byte>
    requires k <= |script|
  {
    if k == 0 then []
    else Received(script, k - 1) + if script[k - 1].Data? then script[k - 1].bytes else []
  }

  /** The number of failed ones among the first k reads. */
  function Failures(script: seq<ReadOutcome>, k: nat): nat
    requires k <= |script|
  {
    if k == 0 then 0 else Failures(script, k - 1) + if script[k - 1].Nothing? then 1 else 0
  }

  /** Reading stops after k reads: with a chunk that does not fill the buffer, with a failed read
      once data has arrived, or with one failed read more than timeOut allows. */
  predicate Stops(script: seq<ReadOutcome>, timeOut: u32, k: nat)
    requires k <= |script|
  {
    k > 0 &&
    match script[k - 1]
    case Data(bytes) => |bytes| != RECV_BUFF_SIZE
    case Nothing => Received(script, k) != [] || (timeOut > 0 && Failures(script, k) > timeOut)
  }

  predicate FirstStop(script: seq<ReadOutcome>, timeOut: u32, k: nat) {
    k <= |script| && Stops(script, timeOut, k) && forall j :: 0 <= j < k ==> !Stops(script, timeOut, j)
  }

  /** script lists the outcomes of the reads to come; when it is used up and the loop would read
      again, the call has not returned. */
  method Wait(script: seq<ReadOutcome>, timeOut: u32) returns (returned: bool, msg: seq<byte>, used: nat)
    requires forall i :: 0 <= i < |script| ==> SocketOutcome(script[i])
    ensures used <= |script| && msg == Received(script, used)
    ensures returned ==> FirstStop(script, timeOut, used)
    ensures !returned ==> used == |script| && forall j :: 0 <= j <= used ==> !Stops(script, timeOut, j)
  {
    msg, used := [], 0;
    var len, count := 0, 0;
    while msg == [] || len == RECV_BUFF_SIZE
      invariant used <= |script| && msg == Received(script, used)
      invariant timeOut > 0 ==> count == Failures(script, used) <= timeOut
      invariant used > 0 ==> len == if script[used - 1].Data? then |script[used - 1].bytes| else 0
      invariant used == 0 ==> msg == []
      invariant forall j :: 0 <= j < used ==> !Stops(script, timeOut, j)
      invariant used > 0 ==> (Stops(script, timeOut, used) <==> !(msg == [] || len == RECV_BUFF_SIZE))
      decreases |script| - used
    {
      if used == |script| {
        return false, msg, used;
      }
      var outcome := script[used];
      used := used + 1;
      len := if outcome.Data? then |outcome.bytes| else 0;
      if len > 0 {
        msg := msg + outcome.bytes;
        continue;
      }
      if timeOut > 0 {
        if count >= timeOut {
          return true, msg, used;
        }
        count := count + 1;
      }
    }
    return true, msg, used;
  }

  /** With a time-out, no run has more than timeOut + 1 failed reads: after k reads without a stop
      in front of them, the bound holds. */
  lemma FailuresBounded(script: seq<ReadOutcome>, timeOut: u32, k: nat)
    requires timeOut > 0 && k <= |script|
    requires forall i :: 0 <= i < |script| ==> SocketOutcome(script[i])
    requires forall j :: 0 <= j < k ==> !Stops(script, timeOut, j)
    ensures Failures(script, k) <= timeOut + 1
  {
    if k > 0 {
      FailuresBeforeStop(script, timeOut, k - 1);
    }
  }

  lemma {:induction false} FailuresBeforeStop(script: seq<ReadOutcome>, timeOut: u32, k: nat)
    requires timeOut > 0 && k <= |script|
    requires forall j :: 0 <= j <= k ==> !Stops(script, timeOut, j)
    ensures Failures(script, k) <= timeOut
  {
    if k == 0 {
    } else {
      FailuresBeforeStop(script, timeOut, k - 1);
      assert !Stops(script, timeOut, k);
    }
  }

  // ---------------------------------------------------------------- reassembly

  /** The number of chunks of a message and each chunk. */
  function ChunkCount(m: seq<byte>): nat {
    (|m| + 1023) / 1024
  }

  function ChunkAt(m: seq<byte>, i: nat): seq<byte>
    requires i < ChunkCount(m)
  {
    m[i * 1024..Min((i + 1) * 1024, |m|)]
  }

  /** At first f failed reads, then the message in buffer-sized chunks. */
  predicate Delivers(script: seq<ReadOutcome>, f: nat, m: seq<byte>) {
    && f + ChunkCount(m) <= |script|
    && (forall i :: 0 <= i < f ==> script[i] == Nothing)
    && (forall i :: 0 <= i < ChunkCount(m) ==> script[f + i] == Data(ChunkAt(m, i)))
  }

  lemma {:induction false} NothingReceived(script: seq<ReadOutcome>, f: nat)
    requires f <= |script| && forall i :: 0 <= i < f ==> script[i] == Nothing
    ensures Received(script, f) == [] && Failures(script, f) == f
  {
    if f == 0 {
    } else {
      NothingReceived(script, f - 1);
    }
  }

  lemma {:induction false} ChunksReceived(script: seq<ReadOutcome>, f: nat, m: seq<byte>, i: nat)
    requires Delivers(script, f, m) && i <= ChunkCount(m)
    ensures Received(script, f + i) == m[..Min(i * 1024, |m|)] && Failures(script, f + i) == f
  {
    if i == 0 {
      NothingReceived(script, f);
    } else {
      ChunksReceived(script, f, m, i - 1);
      assert script[f + (i - 1)] == Data(ChunkAt(m, i - 1));
      assert m[..(i - 1) * 1024] + ChunkAt(m, i - 1) == m[..Min(i * 1024, |m|)];
    }
  }

  lemma LastChunk(m: seq<byte>)
    requires m != []
    ensures ChunkCount(m) > 0 && Min(ChunkCount(m) * 1024, |m|) == |m|
    ensures |ChunkAt(m, ChunkCount(m) - 1)| == RECV_BUFF_SIZE <==> |m| % 1024 == 0
  {
  }

  /** After its chunks have been read, the message is complete, and reading stops there exactly
      when the last chunk is short. */
  lemma MessageReceived(script: seq<ReadOutcome>, timeOut: u32, f: nat, m: seq<byte>)
    requires m != [] && Delivers(script, f, m)
    ensures Received(script, f + ChunkCount(m)) == m
    ensures Stops(script, timeOut, f + ChunkCount(m)) <==> |m| % 1024 != 0
  {
    var n := ChunkCount(m);
    LastChunk(m);
    ChunksReceived(script, f, m, n);
    assert m[..|m|] == m;
    assert script[f + (n - 1)] == Data(ChunkAt(m, n - 1));
  }

  /** A message that arrives in buffer-sized chunks, after no more failed reads than timeOut
      allows, is returned exactly when its last chunk is short, or else the next read fails. When
      more data follows a full last chunk, it is taken for a part of the message. */
  lemma ReassemblyExact(script: seq<ReadOutcome>, timeOut: u32, f: nat, m: seq<byte>, k: nat)
    requires forall i :: 0 <= i < |script| ==> SocketOutcome(script[i])
    requires m != [] && Delivers(script, f, m) && (timeOut > 0 ==> f <= timeOut)
    requires FirstStop(script, timeOut, k)
    ensures m <= Received(script, k)
    ensures Received(script, k) == m
       <==> |m| % 1024 != 0 || (f + ChunkCount(m) < |script| && script[f + ChunkCount(m)] == Nothing)
  {
    var end := f + ChunkCount(m);
    if k < end {
      NoStopInside(script, timeOut, f, m, k);
    }
    MessageReceived(script, timeOut, f, m);
    if |m| % 1024 != 0 {
      assert k == end;
    } else {
      assert k > end;
      if script[end] == Nothing {
        assert Stops(script, timeOut, end + 1);
      } else {
        ReceivedGrows(script, end + 1, k);
      }
    }
  }

  lemma NoStopInside(script: seq<ReadOutcome>, timeOut: u32, f: nat, m: seq<byte>, j: nat)
    requires m != [] && Delivers(script, f, m) && (timeOut > 0 ==> f <= timeOut)
    requires j < f + ChunkCount(m)
    ensures !Stops(script, timeOut, j)
  {
    if j <= f {
      NothingReceived(script, j);
    } else {
      assert script[f + (j - 1 - f)] == Data(ChunkAt(m, j - 1 - f));
    }
  }

  lemma {:induction false} ReceivedGrows(script: seq<ReadOutcome>, j: nat, k: nat)
    requires j <= k <= |script|
    ensures Received(script, j) <= Received(script, k)
    decreases k - j
  {
    if j == k {
    } else {
      ReceivedGrows(script, j, k - 1);
    }
  }
}
