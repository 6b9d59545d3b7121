/** Record and replay: the application's calls act both on the runtime's handle and, through the
    hooks, on the recording context; the replayed handle must show the kernel the same arguments. */
module ReplayProperties {
  import opened AclTypes
  import opened Bytes
  import opened ArgsHandleContexts
  import opened Options

  /** One call of the application, with the result the runtime gave it. */
  datatype Op =
    | Append(h: Ptr, data: seq<byte>)
    | AppendPlaceHolder(h: Ptr)
    | GetBuffer(h: Ptr, size: nat, buffer: Ptr, contents: seq<byte>)
    | Update(h: Ptr, data: seq<byte>)
    | WriteBuffer(buffer: Ptr, at: nat, data: seq<byte>)

  /** index resolves a parameter handle to its slot; params is what the hooks recorded. */
  datatype World = World(index: map<Ptr, nat>, slots: seq<Slot>, params: seq<ParamData>, mem: Memory)

  const INITIAL := World(map[], [], [], map[])

  /** What the runtime accepts: new handles are distinct and not null, a buffer is requested for a
      placeholder and is new memory of the requested size, an update names a normal parameter. */
  predicate Legal(w: World, op: Op) {
    match op
    case Append(h, _) => h != 0 && h !in w.index
    case AppendPlaceHolder(h) => h != 0 && h !in w.index
    case GetBuffer(h, size, buffer, contents) =>
      && h in w.index && w.index[h] < |w.slots| && w.slots[w.index[h]].PlaceHolderSlot?
      && buffer !in w.mem && |contents| == size
    case Update(h, _) => h in w.index && w.index[h] < |w.slots| && w.slots[w.index[h]].NormalSlot?
    case WriteBuffer(buffer, at, data) => buffer in w.mem && at + |data| <= |w.mem[buffer]|
  }

  predicate Oversized(op: Op) {
    op.Append? && |op.data| > MAX_SINGLE_PARAM_SIZE
  }

  /** What the hooks record of a call. */
  function ParamsAfter(params: seq<ParamData>, op: Op): seq<ParamData> {
    match op
    case Append(h, data) => Appended(params, data, h)
    case AppendPlaceHolder(h) => PlaceholderAppended(params, h)
    case GetBuffer(h, size, buffer, _) =>
      if size <= MAX_ALL_PARAM_SIZE then BufferRecorded(params, h, size, buffer) else params
    case Update(h, data) => if |data| <= MAX_SINGLE_PARAM_SIZE then Updated(params, h, data) else params
    case WriteBuffer(_, _, _) => params
  }

  function Step(w: World, op: Op): World
    requires Legal(w, op)
  {
    match op
    case Append(h, data) =>
      World(w.index[h := |w.slots|], w.slots + [NormalSlot(data)], ParamsAfter(w.params, op), w.mem)
    case AppendPlaceHolder(h) =>
      World(w.index[h := |w.slots|], w.slots + [PlaceHolderSlot(0, 0)], ParamsAfter(w.params, op), w.mem)
    case GetBuffer(h, size, buffer, contents) =>
      w.(slots := w.slots[w.index[h] := PlaceHolderSlot(buffer, size)],
         params := ParamsAfter(w.params, op), mem := w.mem[buffer := contents])
    case Update(h, data) =>
      w.(slots := w.slots[w.index[h] := NormalSlot(data)], params := ParamsAfter(w.params, op))
    case WriteBuffer(buffer, at, data) =>
      var m := w.mem[buffer];
      w.(mem := w.mem[buffer := m[..at] + data + m[at + |data|..]])
  }

  predicate LegalRun(ops: seq<Op>)
    decreases |ops|, 0
  {
    ops == [] || (LegalRun(ops[..|ops| - 1]) && Legal(Run(ops[..|ops| - 1]), ops[|ops| - 1]))
  }

  function Run(ops: seq<Op>): World
    requires LegalRun(ops)
    decreases |ops|, 1
  {
    if ops == [] then INITIAL else Step(Run(ops[..|ops| - 1]), ops[|ops| - 1])
  }

  // ---------------------------------------------------------------- invariants

  /** Handles lead to slots, different ones to different slots. */
  ghost predicate IndexOk(w: World) {
    && (forall h :: h in w.index ==> h != 0 && w.index[h] < |w.slots|)
    && (forall g, h :: g in w.index && h in w.index && g != h ==> w.index[g] != w.index[h])
  }

  /** Memory is there for the buffer of every slot. */
  predicate SlotsReadable(w: World) {
    forall i :: 0 <= i < |w.slots| ==> SlotReadable(w.slots[i], w.mem)
  }

  ghost predicate RecordsOk(w: World) {
    forall k :: 0 <= k < |w.params| ==> RecordOfSlot(w, w.params[k])
  }

  ghost predicate HandlesDistinct(params: seq<ParamData>) {
    forall j, k :: 0 <= j < k < |params| ==> params[j].paramHandle != params[k].paramHandle
  }

  /** A record belongs to a slot of its kind, and its buffer is there. */
  ghost predicate RecordOfSlot(w: World, p: ParamData) {
    && p.paramHandle in w.index && w.index[p.paramHandle] < |w.slots|
    && (p.kind == PLACEHOLDER <==> w.slots[w.index[p.paramHandle]].PlaceHolderSlot?)
    && (p.kind == PLACEHOLDER ==> ReadableAt(w.mem, p.srcBuffer, |p.param|))
  }

  /** Holds in every run. */
  ghost predicate Consistent(w: World) {
    IndexOk(w) && SlotsReadable(w) && RecordsOk(w) && HandlesDistinct(w.params)
  }

  predicate WithinLimit(s: Slot) {
    match s
    case NormalSlot(data) => |data| <= MAX_SINGLE_PARAM_SIZE
    case PlaceHolderSlot(_, size) => size <= MAX_ALL_PARAM_SIZE
  }

  predicate AllWithinLimit(slots: seq<Slot>) {
    forall k :: 0 <= k < |slots| ==> WithinLimit(slots[k])
  }

  /** A record agrees with its slot, unless the slot is over its limit; the record never is. */
  predicate RecordFits(p: ParamData, s: Slot) {
    match s
    case NormalSlot(data) =>
      p.kind == NORMAL && |p.param| <= MAX_SINGLE_PARAM_SIZE && (WithinLimit(s) ==> p.param == data)
    case PlaceHolderSlot(buffer, size) =>
      && p.kind == PLACEHOLDER && |p.param| <= MAX_ALL_PARAM_SIZE
      && (WithinLimit(s) ==> p.srcBuffer == buffer && |p.param| == size)
  }

  /** Holds as long as every append was recorded: record k describes slot k. */
  ghost predicate Complete(w: World) {
    && |w.params| == |w.slots|
    && forall k :: 0 <= k < |w.params| ==> Describes(w, k)
  }

  ghost predicate Describes(w: World, k: nat)
    requires k < |w.params| && k < |w.slots|
  {
    && w.params[k].paramHandle in w.index && w.index[w.params[k].paramHandle] == k
    && RecordFits(w.params[k], w.slots[k])
  }

  lemma RecordsKept(w: World, w': World)
    requires RecordsOk(w) && HandlesDistinct(w.params) && |w'.params| == |w.params|
    requires w'.index == w.index
    requires |w.slots| == |w'.slots|
      && forall i :: 0 <= i < |w.slots| ==> w'.slots[i].PlaceHolderSlot? == w.slots[i].PlaceHolderSlot?
    requires forall k :: 0 <= k < |w.params| ==>
      && w'.params[k].paramHandle == w.params[k].paramHandle && w'.params[k].kind == w.params[k].kind
      && (w.params[k].kind == PLACEHOLDER && ReadableAt(w.mem, w.params[k].srcBuffer, |w.params[k].param|)
          ==> ReadableAt(w'.mem, w'.params[k].srcBuffer, |w'.params[k].param|))
    ensures RecordsOk(w') && HandlesDistinct(w'.params)
  {
    forall k | 0 <= k < |w'.params| ensures RecordOfSlot(w', w'.params[k]) {
      assert RecordOfSlot(w, w.params[k]);
    }
  }

  lemma NewHandleUnused(w: World, h: Ptr)
    requires RecordsOk(w) && h !in w.index
    ensures forall k :: 0 <= k < |w.params| ==> w.params[k].paramHandle != h
  {
    forall k | 0 <= k < |w.params| ensures w.params[k].paramHandle != h {
      assert RecordOfSlot(w, w.params[k]);
    }
  }

  lemma AppendKeepsRecords(w: World, op: Op)
    requires (op.Append? || op.AppendPlaceHolder?) && Legal(w, op) && Consistent(w)
    ensures RecordsOk(Step(w, op)) && HandlesDistinct(Step(w, op).params)
  {
    var w' := Step(w, op);
    NewHandleUnused(w, op.h);
    forall k | 0 <= k < |w'.params| ensures RecordOfSlot(w', w'.params[k]) {
      assert k < |w.params| ==> RecordOfSlot(w, w.params[k]);
    }
  }

  lemma StepKeepsIndex(w: World, op: Op)
    requires Legal(w, op) && IndexOk(w)
    ensures IndexOk(Step(w, op))
  {
  }

  lemma ReadableStays(w: World, op: Op, p: Ptr, n: nat)
    requires Legal(w, op) && ReadableAt(w.mem, p, n)
    ensures ReadableAt(Step(w, op).mem, p, n)
  {
  }

  lemma StepKeepsSlots(w: World, op: Op)
    requires Legal(w, op) && SlotsReadable(w)
    ensures SlotsReadable(Step(w, op))
  {
    var w' := Step(w, op);
    forall i | 0 <= i < |w'.slots| ensures SlotReadable(w'.slots[i], w'.mem) {
      if i < |w.slots| && w'.slots[i] == w.slots[i] && w.slots[i].PlaceHolderSlot? {
        ReadableStays(w, op, w.slots[i].buffer, w.slots[i].size);
      }
    }
  }

  lemma EditKeepsRecords(w: World, op: Op)
    requires (op.GetBuffer? || op.Update? || op.WriteBuffer?) && Legal(w, op) && Consistent(w)
    ensures RecordsOk(Step(w, op)) && HandlesDistinct(Step(w, op).params)
  {
    var w' := Step(w, op);
    if !op.WriteBuffer? && FirstWith(w.params, op.h) < |w.params| {
      assert RecordOfSlot(w, w.params[FirstWith(w.params, op.h)]);
    }
    forall k | 0 <= k < |w.params|
      ensures w'.params[k].paramHandle == w.params[k].paramHandle && w'.params[k].kind == w.params[k].kind
      ensures w.params[k].kind == PLACEHOLDER && ReadableAt(w.mem, w.params[k].srcBuffer, |w.params[k].param|)
          ==> ReadableAt(w'.mem, w'.params[k].srcBuffer, |w'.params[k].param|)
    {
      if w'.params[k] == w.params[k] && ReadableAt(w.mem, w.params[k].srcBuffer, |w.params[k].param|) {
        ReadableStays(w, op, w.params[k].srcBuffer, |w.params[k].param|);
      }
    }
    RecordsKept(w, w');
  }

  lemma StepKeepsConsistent(w: World, op: Op)
    requires Legal(w, op) && Consistent(w)
    ensures Consistent(Step(w, op))
  {
    StepKeepsIndex(w, op);
    StepKeepsSlots(w, op);
    if op.Append? || op.AppendPlaceHolder? {
      AppendKeepsRecords(w, op);
    } else {
      EditKeepsRecords(w, op);
    }
  }

  /** The record an edit reaches is the one of its slot. */
  lemma EditedRecord(w: World, h: Ptr)
    requires Complete(w) && HandlesDistinct(w.params) && h in w.index && w.index[h] < |w.slots| && IndexOk(w)
    ensures FirstWith(w.params, h) == w.index[h]
  {
    var k := w.index[h];
    assert Describes(w, k);
    assert w.params[k].paramHandle == h;
  }

  lemma StepKeepsComplete(w: World, op: Op)
    requires Legal(w, op) && !Oversized(op) && Consistent(w) && Complete(w)
    ensures Complete(Step(w, op))
  {
    var w' := Step(w, op);
    if op.GetBuffer? || op.Update? {
      EditedRecord(w, op.h);
    }
    forall k | 0 <= k < |w'.params| ensures Describes(w', k) {
      assert k < |w.params| ==> Describes(w, k);
    }
  }

  function OversizedCount(ops: seq<Op>): nat {
    if ops == [] then 0
    else OversizedCount(ops[..|ops| - 1]) + if Oversized(ops[|ops| - 1]) then 1 else 0
  }

  /** In every run: records are consistent with slots, one is missing for every oversized append,
      and when none is missing record k describes slot k. */
  lemma {:induction false} RunInvariant(ops: seq<Op>)
    requires LegalRun(ops)
    ensures Consistent(Run(ops))
    ensures |Run(ops).params| + OversizedCount(ops) == |Run(ops).slots|
    ensures OversizedCount(ops) == 0 ==> Complete(Run(ops))
  {
    if ops == [] {
    } else {
      var init, op := ops[..|ops| - 1], ops[|ops| - 1];
      RunInvariant(init);
      StepKeepsConsistent(Run(init), op);
      StepKeepsCount(Run(init), op);
      if OversizedCount(ops) == 0 {
        StepKeepsComplete(Run(init), op);
      }
    }
  }

  lemma StepKeepsCount(w: World, op: Op)
    requires Legal(w, op)
    ensures |Step(w, op).params| + (if Oversized(op) then 1 else 0) - |w.params| == |Step(w, op).slots| - |w.slots|
  {
  }

  lemma {:induction false} OversizedCountZero(ops: seq<Op>)
    ensures OversizedCount(ops) == 0 <==> forall i :: 0 <= i < |ops| ==> !Oversized(ops[i])
  {
    if ops == [] {
    } else {
      var init := ops[..|ops| - 1];
      OversizedCountZero(init);
      assert forall i :: 0 <= i < |init| ==> init[i] == ops[i];
    }
  }

  /** What the kernel sees through the application's own handle. */
  function Original(w: World): (r: seq<SlotImage>)
    requires SlotsReadable(w)
    ensures |r| == |w.slots|
  {
    Image(w.slots, w.mem)
  }

  /** What the kernel would see through the records taken at Finalize. */
  function Recorded(w: World): (r: seq<SlotImage>)
    requires Readable(w.params, w.mem)
    ensures |r| == |w.params|
  {
    ParamImages(Finalized(w.params, w.mem))
  }

  lemma RecordsReadable(w: World)
    requires RecordsOk(w)
    ensures Readable(w.params, w.mem)
  {
    forall k | 0 <= k < |w.params| && w.params[k].kind == PLACEHOLDER
      ensures ReadableAt(w.mem, w.params[k].srcBuffer, |w.params[k].param|)
    {
      assert RecordOfSlot(w, w.params[k]);
    }
  }

  /** A slot over its limit is longer than its record can be. */
  lemma RecordShowsSlotExactly(p: ParamData, s: Slot, mem: Memory)
    requires RecordFits(p, s) && SlotReadable(s, mem)
    requires p.kind == PLACEHOLDER ==> ReadableAt(mem, p.srcBuffer, |p.param|)
    ensures ParamImage(FinalizedParam(p, mem)) == ImageOf(s, mem) <==> WithinLimit(s)
  {
  }

  lemma CompleteShowsExactly(w: World)
    requires Consistent(w) && Complete(w) && Readable(w.params, w.mem)
    ensures Recorded(w) == Original(w) <==> AllWithinLimit(w.slots)
  {
    forall k | 0 <= k < |w.slots| ensures Recorded(w)[k] == Original(w)[k] <==> WithinLimit(w.slots[k]) {
      assert Describes(w, k);
      RecordShowsSlotExactly(w.params[k], w.slots[k], w.mem);
    }
  }

  /** No append was too long to be recorded, and no slot ended up too long to be edited. */
  predicate Recordable(ops: seq<Op>)
    requires LegalRun(ops)
  {
    (forall i :: 0 <= i < |ops| ==> !Oversized(ops[i])) && AllWithinLimit(Run(ops).slots)
  }

  /** Recording is faithful: after any run of calls, the records taken at Finalize show the kernel
      exactly what the application's handle shows it, if and only if no append exceeded the limit of
      a single parameter and in the end no slot exceeds its limit. */
  lemma ReplayFaithfulExactly(ops: seq<Op>)
    requires LegalRun(ops)
    ensures var w := Run(ops);
      && Readable(w.params, w.mem) && SlotsReadable(w)
      && (Recorded(w) == Original(w) <==> Recordable(ops))
  {
    var w := Run(ops);
    RunInvariant(ops);
    OversizedCountZero(ops);
    RecordsReadable(w);
    if OversizedCount(ops) == 0 {
      CompleteShowsExactly(w);
    } else {
      assert |Recorded(w)| < |Original(w)|;
    }
  }

  /** An update above the limit leaves the old record in place. */
  lemma OversizedUpdateIsNotRecorded(data: seq<byte>) returns (ops: seq<Op>)
    requires |data| > MAX_SINGLE_PARAM_SIZE
    ensures LegalRun(ops) && forall i :: 0 <= i < |ops| ==> !Oversized(ops[i])
    ensures Run(ops).slots == [NormalSlot(data)] && Run(ops).params == [ParamData(1, [0], NORMAL, 0)]
  {
    RunStep([], Append(1, [0]), World(map[1 := 0], [NormalSlot([0])], [ParamData(1, [0], NORMAL, 0)], map[]));
    ops := [] + [Append(1, [0])];
    RunStep(ops, Update(1, data), World(map[1 := 0], [NormalSlot(data)], [ParamData(1, [0], NORMAL, 0)], map[]));
    ops := ops + [Update(1, data)];
  }

  lemma RunStep(ops: seq<Op>, op: Op, w: World)
    requires LegalRun(ops) && Legal(Run(ops), op) && Step(Run(ops), op) == w
    ensures LegalRun(ops + [op]) && Run(ops + [op]) == w
  {
    assert (ops + [op])[..|ops + [op]| - 1] == ops;
  }

  // ---------------------------------------------------------------- record and replay as code

  /** What the hooks do to the recording context on one successful call. */
  method Record(ctx: ArgsHandleContext, op: Op)
    modifies ctx`params
    ensures ctx.params == ParamsAfter(old(ctx.params), op)
  {
    match op {
      case Append(h, data) => ctx.CacheArgsAppendOp(data, h);
      case AppendPlaceHolder(h) => ctx.CacheArgsAppendPlaceholderOp(h);
      case GetBuffer(h, size, buffer, _) =>
        if size <= MAX_ALL_PARAM_SIZE {
          ctx.CacheArgsGetPlaceholderBufferOp(h, size, buffer);
        }
      case Update(h, data) =>
        if |data| <= MAX_SINGLE_PARAM_SIZE {
          ctx.CacheArgsParaUpdateOp(h, data);
        }
      case WriteBuffer(_, _, _) =>
    }
  }

  lemma {:induction false} PrefixIsLegal(ops: seq<Op>, k: nat)
    requires LegalRun(ops) && k <= |ops|
    ensures LegalRun(ops[..k])
  {
    if k == |ops| {
      assert ops[..k] == ops;
    } else {
      PrefixIsLegal(ops[..|ops| - 1], k);
      assert ops[..|ops| - 1][..k] == ops[..k];
    }
  }

  method RecordAll(ctx: ArgsHandleContext, ops: seq<Op>)
    requires LegalRun(ops) && ctx.params == []
    modifies ctx`params
    ensures ctx.params == Run(ops).params
  {
    for i := 0 to |ops|
      invariant LegalRun(ops[..i]) && ctx.params == Run(ops[..i]).params
    {
      PrefixIsLegal(ops, i + 1);
      assert ops[..i + 1][..i] == ops[..i];
      Record(ctx, ops[i]);
    }
    assert ops[..|ops|] == ops;
  }

  /** What the expanded handle should show. */
  function WithExtra(image: seq<SlotImage>, extra: Option<seq<byte>>): seq<SlotImage> {
    match extra
    case None => image
    case Some(data) => image + [NormalArg(data)]
  }

  /** The whole simulation: a context that has recorded any run of calls is finalized, expanded by an
      extra parameter if there is one, and replayed into a new handle. When the runtime refuses
      nothing, the kernel sees through the new handle what it would see through the application's
      handle, and the extra parameter last, if and only if the run is recordable and the extra
      parameter is within the limit. */
  method RecordAndReplay(ops: seq<Op>, extra: Option<seq<byte>>, handle: KernelArgs) returns (ok: bool)
    requires LegalRun(ops)
    requires handle.Empty()
    modifies handle
    ensures ok <==> !handle.failed
    ensures SlotsReadable(Run(ops))
    ensures ok ==> forall i :: 0 <= i < |handle.slots| ==> SlotReadable(handle.slots[i], handle.mem)
    ensures ok ==>
      (Image(handle.slots, handle.mem) == WithExtra(Original(Run(ops)), extra)
       <==> Recordable(ops) && (extra.Some? ==> |extra.value| <= MAX_SINGLE_PARAM_SIZE))
  {
    var ctx := new ArgsHandleContext();
    RecordAll(ctx, ops);
    ReplayFaithfulExactly(ops);
    ctx.Finalize(Run(ops).mem);
    if extra.Some? {
      var _ := ctx.ExpandArgs(extra.value);
    }
    ExpandedShowsExactly(ops, extra);
    ok := ctx.ReplayArgs(handle);
  }

  function Expanded(params: seq<ParamData>, extra: Option<seq<byte>>): seq<ParamData> {
    if extra.Some? then Appended(params, extra.value, 0) else params
  }

  lemma ExpandedShowsExactly(ops: seq<Op>, extra: Option<seq<byte>>)
    requires LegalRun(ops)
    ensures var w := Run(ops);
      && Readable(w.params, w.mem) && SlotsReadable(w)
      && (ParamImages(Expanded(Finalized(w.params, w.mem), extra)) == WithExtra(Original(w), extra)
          <==> Recordable(ops) && (extra.Some? ==> |extra.value| <= MAX_SINGLE_PARAM_SIZE))
  {
    var w := Run(ops);
    ReplayFaithfulExactly(ops);
    RunInvariant(ops);
    if extra.Some? {
      ExpansionAddsLastSlot(Finalized(w.params, w.mem), extra.value);
      SameWithLast(Recorded(w), Original(w), NormalArg(extra.value));
    }
  }

  lemma SameWithLast(a: seq<SlotImage>, b: seq<SlotImage>, last: SlotImage)
    ensures a + [last] == b + [last] <==> a == b
  {
    if a + [last] == b + [last] {
      assert a == (a + [last])[..|a|] && b == (b + [last])[..|b|];
    }
  }

  /** An expansion after Finalize adds one last normal argument and changes no other, unless the
      parameter is above the recording limit; then it adds nothing. */
  lemma ExpansionAddsLastSlot(params: seq<ParamData>, data: seq<byte>)
    ensures ParamImages(Appended(params, data, 0)) == ParamImages(params) + [NormalArg(data)]
       <==> |data| <= MAX_SINGLE_PARAM_SIZE
    ensures |data| > MAX_SINGLE_PARAM_SIZE ==> Appended(params, data, 0) == params
  {
    if |data| > MAX_SINGLE_PARAM_SIZE {
      assert |ParamImages(Appended(params, data, 0))| < |ParamImages(params) + [NormalArg(data)]|;
    }
  }

  function ImageSize(image: seq<SlotImage>): nat {
    if image == [] then 0 else ImageSize(image[..|image| - 1]) + |image[|image| - 1].data|
  }

  /** The size announced to the runtime is the number of bytes the replay hands over. */
  lemma {:induction false} UserArgsSizeIsReplayedSize(params: seq<ParamData>)
    ensures UserArgsSize(params) == ImageSize(ParamImages(params))
  {
    if params == [] {
    } else {
      var init := params[..|params| - 1];
      UserArgsSizeIsReplayedSize(init);
      assert ParamImages(params)[..|params| - 1] == ParamImages(init);
    }
  }

  // ---------------------------------------------------------------- flattening

  function ParamBytes(params: seq<ParamData>): seq<byte> {
    if params == [] then [] else ParamBytes(params[..|params| - 1]) + params[|params| - 1].param
  }

  lemma BytesSnoc(params: seq<ParamData>, p: ParamData)
    ensures ParamBytes(params + [p]) == ParamBytes(params) + p.param
  {
    assert (params + [p])[..|params|] == params;
  }

  lemma {:induction false} BytesConcat(a: seq<ParamData>, b: seq<ParamData>)
    ensures ParamBytes(a + b) == ParamBytes(a) + ParamBytes(b)
  {
    if b == [] {
      assert a + b == a;
    } else {
      var init, last := b[..|b| - 1], b[|b| - 1];
      calc {
        ParamBytes(a + b);
        { assert a + b == a + init + [last]; }
        ParamBytes(a + init + [last]);
        { BytesSnoc(a + init, last); }
        ParamBytes(a + init) + last.param;
        { BytesConcat(a, init); }
        ParamBytes(a) + ParamBytes(init) + last.param;
        ParamBytes(a) + ParamBytes(b);
      }
    }
  }

  lemma {:induction false} BytesOfChunks(s: seq<byte>)
    ensures ParamBytes(Chunks(s)) == s[..|s| - |s| % POINTER_SIZE]
  {
    if |s| < POINTER_SIZE {
    } else {
      var c, rest := ParamData(0, s[..POINTER_SIZE], NORMAL, 0), s[POINTER_SIZE..];
      BytesOfChunks(rest);
      BytesConcat([c], Chunks(rest));
      assert ParamBytes([c]) == c.param by { assert [c][..0] == []; }
      assert |rest| % POINTER_SIZE == |s| % POINTER_SIZE;
      assert s[..POINTER_SIZE] + rest[..|rest| - |rest| % POINTER_SIZE] == s[..|s| - |s| % POINTER_SIZE];
    }
  }

  /** Every entry of the flattened list is a pointer-sized normal parameter or one of the placeholders. */
  lemma {:induction false} FlattenedPieces(params: seq<ParamData>)
    ensures forall i :: 0 <= i < |Flattened(params)| ==> IsPiece(Flattened(params)[i], params)
  {
    if params == [] {
    } else {
      var init, p := params[..|params| - 1], params[|params| - 1];
      FlattenedPieces(init);
      ChunksArePieces(p.param);
      forall i | 0 <= i < |Flattened(params)| ensures IsPiece(Flattened(params)[i], params) {
        if i < |Flattened(init)| {
          assert IsPiece(Flattened(init)[i], init);
        } else {
          assert Flattened(params)[i] == FlattenedParam(p)[i - |Flattened(init)|];
        }
      }
    }
  }

  predicate IsPiece(q: ParamData, params: seq<ParamData>) {
    if q.kind == NORMAL then |q.param| == POINTER_SIZE else q in params
  }

  lemma {:induction false} ChunksArePieces(s: seq<byte>)
    ensures forall i :: 0 <= i < |Chunks(s)| ==> Chunks(s)[i].kind == NORMAL && |Chunks(s)[i].param| == POINTER_SIZE
  {
    if |s| < POINTER_SIZE {
    } else {
      ChunksArePieces(s[POINTER_SIZE..]);
    }
  }

  predicate WholePointers(p: ParamData) {
    p.kind == NORMAL ==> |p.param| % POINTER_SIZE == 0
  }

  function Dropped(p: ParamData): nat {
    if p.kind == NORMAL then |p.param| % POINTER_SIZE else 0
  }

  lemma BytesOfFlattenedParam(p: ParamData)
    ensures ParamBytes(FlattenedParam(p)) == p.param[..|p.param| - Dropped(p)]
  {
    BytesOfChunks(p.param);
    assert [p][..0] == [];
  }

  function TotalDropped(params: seq<ParamData>): nat {
    if params == [] then 0 else TotalDropped(params[..|params| - 1]) + Dropped(params[|params| - 1])
  }

  lemma {:induction false} TotalDroppedZero(params: seq<ParamData>)
    requires TotalDropped(params) == 0
    ensures forall i :: 0 <= i < |params| ==> WholePointers(params[i])
  {
    if params == [] {
    } else {
      var init := params[..|params| - 1];
      TotalDroppedZero(init);
      assert forall i :: 0 <= i < |init| ==> params[i] == init[i];
    }
  }

  lemma {:induction false} FlatteningDrops(params: seq<ParamData>)
    ensures |ParamBytes(Flattened(params))| + TotalDropped(params) == |ParamBytes(params)|
  {
    if params == [] {
    } else {
      var init, p := params[..|params| - 1], params[|params| - 1];
      FlatteningDrops(init);
      BytesConcat(Flattened(init), FlattenedParam(p));
      BytesOfFlattenedParam(p);
    }
  }

  lemma {:induction false} FlatteningKeeps(params: seq<ParamData>)
    requires forall i :: 0 <= i < |params| ==> WholePointers(params[i])
    ensures ParamBytes(Flattened(params)) == ParamBytes(params)
  {
    if params == [] {
    } else {
      var init, p := params[..|params| - 1], params[|params| - 1];
      FlatteningKeeps(init);
      BytesConcat(Flattened(init), FlattenedParam(p));
      BytesOfFlattenedParam(p);
    }
  }

  /** Flattening keeps the concatenation of all bytes if and only if every normal parameter is a
      whole number of pointers long. */
  lemma FlatteningKeepsBytesExactly(params: seq<ParamData>)
    ensures ParamBytes(Flattened(params)) == ParamBytes(params)
       <==> forall i :: 0 <= i < |params| ==> WholePointers(params[i])
  {
    if ParamBytes(Flattened(params)) == ParamBytes(params) {
      FlatteningDrops(params);
      TotalDroppedZero(params);
    }
    if forall i :: 0 <= i < |params| ==> WholePointers(params[i]) {
      FlatteningKeeps(params);
    }
  }
}
