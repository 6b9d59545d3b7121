/** Kernel arguments built call by call through a runtime handle. The context records the calls
    and can replay them into a new handle. */
module ArgsHandleContexts {
  import opened AclTypes
  import opened Bytes

  /** Host addresses and runtime handles; 0 is the null pointer. */
  type Ptr = nat

  /** What can be read through each host address. */
  type Memory = map<Ptr, seq<byte>>

  datatype ParamType = NORMAL | PLACEHOLDER

  datatype ParamData = ParamData(paramHandle: Ptr, param: seq<byte>, kind: ParamType, srcBuffer: Ptr)

  // ---------------------------------------------------------------- specification functions

  /** Index of the first recorded parameter with handle h, or the number of parameters. */
  function FirstWith(params: seq<ParamData>, h: Ptr): (k: nat)
    ensures k <= |params|
    ensures forall i :: 0 <= i < k ==> params[i].paramHandle != h
    ensures k < |params| ==> params[k].paramHandle == h
  {
    if params == [] || params[0].paramHandle == h then 0 else 1 + FirstWith(params[1..], h)
  }

  function Resized(s: seq<byte>, n: nat): (r: seq<byte>)
    ensures |r| == n && forall i :: 0 <= i < n ==> r[i] == if i < |s| then s[i] else 0
  {
    if n <= |s| then s[..n] else s + Zeros(n - |s|)
  }

  function Appended(params: seq<ParamData>, data: seq<byte>, h: Ptr): seq<ParamData> {
    if |data| > MAX_SINGLE_PARAM_SIZE then params else params + [ParamData(h, data, NORMAL, 0)]
  }

  function PlaceholderAppended(params: seq<ParamData>, h: Ptr): seq<ParamData> {
    params + [ParamData(h, [], PLACEHOLDER, 0)]
  }

  function Updated(params: seq<ParamData>, h: Ptr, data: seq<byte>): seq<ParamData> {
    var k := FirstWith(params, h);
    if k < |params| then params[k := params[k].(param := data)] else params
  }

  function BufferRecorded(params: seq<ParamData>, h: Ptr, size: nat, buffer: Ptr): seq<ParamData> {
    var k := FirstWith(params, h);
    if k < |params| then params[k := params[k].(srcBuffer := buffer, param := Resized(params[k].param, size))]
    else params
  }

  predicate ReadableAt(mem: Memory, p: Ptr, n: nat) {
    n == 0 || (p in mem && n <= |mem[p]|)
  }

  function Read(mem: Memory, p: Ptr, n: nat): (r: seq<byte>)
    requires ReadableAt(mem, p, n)
    ensures |r| == n
  {
    if n == 0 then [] else mem[p][..n]
  }

  predicate Readable(params: seq<ParamData>, mem: Memory) {
    forall i :: 0 <= i < |params| && params[i].kind == PLACEHOLDER ==>
      ReadableAt(mem, params[i].srcBuffer, |params[i].param|)
  }

  function FinalizedParam(p: ParamData, mem: Memory): ParamData
    requires p.kind == PLACEHOLDER ==> ReadableAt(mem, p.srcBuffer, |p.param|)
  {
    if p.kind == PLACEHOLDER then p.(param := Read(mem, p.srcBuffer, |p.param|)) else p
  }

  function Finalized(params: seq<ParamData>, mem: Memory): (r: seq<ParamData>)
    requires Readable(params, mem)
    ensures |r| == |params|
    ensures forall i :: 0 <= i < |r| ==> r[i] == FinalizedParam(params[i], mem)
  {
    seq(|params|, i requires 0 <= i < |params| => FinalizedParam(params[i], mem))
  }

  function UserArgsSize(params: seq<ParamData>): nat {
    if params == [] then 0 else UserArgsSize(params[..|params| - 1]) + |params[|params| - 1].param|
  }

  function Chunks(s: seq<byte>): seq<ParamData> {
    if |s| < POINTER_SIZE then []
    else [ParamData(0, s[..POINTER_SIZE], NORMAL, 0)] + Chunks(s[POINTER_SIZE..])
  }

  function FlattenedParam(p: ParamData): seq<ParamData> {
    if p.kind == NORMAL then Chunks(p.param) else [p]
  }

  function Flattened(params: seq<ParamData>): seq<ParamData> {
    if params == [] then []
    else Flattened(params[..|params| - 1]) + FlattenedParam(params[|params| - 1])
  }

  /** The pointer that a parameter of one pointer's length holds. */
  function AddressIn(p: ParamData): u64 {
    Wrap64(FromLE(p.param))
  }

  /** The address is the one whose little-endian bytes the parameter holds. */
  lemma AddressInIsLittleEndian(p: ParamData)
    requires |p.param| == POINTER_SIZE
    ensures ToLE(POINTER_SIZE, AddressIn(p)) == p.param
  {
    ToFromLE(p.param);
    RadixValues();
  }

  /** The first of n entries that is not one pointer long, or n. */
  function FirstNonPointer(flat: seq<ParamData>, n: nat): (k: nat)
    requires n <= |flat|
    ensures k <= n && forall i :: 0 <= i < k ==> |flat[i].param| == POINTER_SIZE
    ensures k < n ==> |flat[k].param| != POINTER_SIZE
  {
    if n == 0 then 0
    else
      var k := FirstNonPointer(flat, n - 1);
      if k < n - 1 || |flat[n - 1].param| != POINTER_SIZE then k else n
  }

  // ---------------------------------------------------------------- the runtime's handle

  datatype Slot = NormalSlot(data: seq<byte>) | PlaceHolderSlot(buffer: Ptr, size: nat)

  datatype SlotImage = NormalArg(data: seq<byte>) | PlaceHolderArg(data: seq<byte>)

  predicate SlotReadable(s: Slot, mem: Memory) {
    s.PlaceHolderSlot? ==> ReadableAt(mem, s.buffer, s.size)
  }

  function ImageOf(s: Slot, mem: Memory): SlotImage
    requires SlotReadable(s, mem)
  {
    match s
    case NormalSlot(data) => NormalArg(data)
    case PlaceHolderSlot(buffer, size) => PlaceHolderArg(Read(mem, buffer, size))
  }

  /** What the kernel will be launched with. */
  function Image(slots: seq<Slot>, mem: Memory): (r: seq<SlotImage>)
    requires forall i :: 0 <= i < |slots| ==> SlotReadable(slots[i], mem)
    ensures |r| == |slots| && forall i :: 0 <= i < |r| ==> r[i] == ImageOf(slots[i], mem)
  {
    seq(|slots|, i requires 0 <= i < |slots| => ImageOf(slots[i], mem))
  }

  function ParamImage(p: ParamData): SlotImage {
    if p.kind == NORMAL then NormalArg(p.param) else PlaceHolderArg(p.param)
  }

  function ParamImages(params: seq<ParamData>): (r: seq<SlotImage>)
    ensures |r| == |params| && forall i :: 0 <= i < |r| ==> r[i] == ParamImage(params[i])
  {
    seq(|params|, i requires 0 <= i < |params| => ParamImage(params[i]))
  }

  /** A handle of the runtime, reduced to its slot list; index says which slot a parameter handle
      stands for. Every call may fail, and parameter handles are arbitrary new pointers. */
  class KernelArgs {
    var slots: seq<Slot>
    var index: map<Ptr, nat>
    var mem: Memory
    var failed: bool

    ghost predicate Empty()
      reads this
    {
      slots == [] && index == map[] && mem == map[] && !failed
    }

    constructor ()
      ensures Empty()
    {
      slots, index, mem, failed := [], map[], map[], false;
    }

    method AppendSlot(s: Slot) returns (ok: bool, h: Ptr)
      modifies this`slots, this`index, this`failed
      ensures failed == (old(failed) || !ok)
      ensures ok ==> slots == old(slots) + [s] && h !in old(index) && index == old(index)[h := |old(slots)|]
    {
      ok, h := *, *;
      ok := ok && h !in index;
      failed := failed || !ok;
      if ok {
        index := index[h := |slots|];
        slots := slots + [s];
      }
    }

    method Append(data: seq<byte>) returns (ok: bool, h: Ptr)
      modifies this`slots, this`index, this`failed
      ensures failed == (old(failed) || !ok)
      ensures ok ==> slots == old(slots) + [NormalSlot(data)]
      ensures ok ==> h !in old(index) && index == old(index)[h := |old(slots)|]
    {
      ok, h := AppendSlot(NormalSlot(data));
    }

    method AppendPlaceHolder() returns (ok: bool, h: Ptr)
      modifies this`slots, this`index, this`failed
      ensures failed == (old(failed) || !ok)
      ensures ok ==> slots == old(slots) + [PlaceHolderSlot(0, 0)]
      ensures ok ==> h !in old(index) && index == old(index)[h := |old(slots)|]
    {
      ok, h := AppendSlot(PlaceHolderSlot(0, 0));
    }

    /** The buffer handed out is a new one, with arbitrary contents. */
    method GetPlaceHolderBuffer(h: Ptr, size: nat) returns (ok: bool, buffer: Ptr)
      requires h in index && index[h] < |slots| && slots[index[h]].PlaceHolderSlot?
      modifies this`slots, this`mem, this`failed
      ensures failed == (old(failed) || !ok)
      ensures ok ==>
        && buffer !in old(mem) && buffer in mem && |mem[buffer]| == size
        && mem == old(mem)[buffer := mem[buffer]]
        && slots == old(slots)[index[h] := PlaceHolderSlot(buffer, size)]
    {
      ok := *;
      buffer := *;
      ok := ok && buffer !in mem;
      failed := failed || !ok;
      if ok {
        mem := mem[buffer := Zeros(size)];
        slots := slots[index[h] := PlaceHolderSlot(buffer, size)];
      }
    }

    method Store(buffer: Ptr, data: seq<byte>)
      requires buffer in mem && |mem[buffer]| == |data|
      modifies this`mem
      ensures mem == old(mem)[buffer := data]
    {
      mem := mem[buffer := data];
    }
  }

  // ---------------------------------------------------------------- the recording context

  class ArgsHandleContext {
    var params: seq<ParamData>
    var finalized: bool

    constructor ()
      ensures params == [] && !finalized
    {
      params, finalized := [], false;
    }

    method CacheArgsAppendOp(data: seq<byte>, h: Ptr)
      modifies this`params
      ensures params == Appended(old(params), data, h)
    {
      if |data| > MAX_SINGLE_PARAM_SIZE {
        return;
      }
      params := params + [ParamData(h, data, NORMAL, 0)];
    }

    method CacheArgsAppendPlaceholderOp(h: Ptr)
      modifies this`params
      ensures params == PlaceholderAppended(old(params), h)
    {
      params := params + [ParamData(h, [], PLACEHOLDER, 0)];
    }

    method CacheArgsParaUpdateOp(h: Ptr, data: seq<byte>)
      modifies this`params
      ensures params == Updated(old(params), h, data)
    {
      for i := 0 to |params|
        invariant params == old(params)
        invariant forall j :: 0 <= j < i ==> params[j].paramHandle != h
      {
        if params[i].paramHandle == h {
          params := params[i := params[i].(param := data)];
          return;
        }
      }
    }

    method CacheArgsGetPlaceholderBufferOp(h: Ptr, size: nat, buffer: Ptr)
      modifies this`params
      ensures params == BufferRecorded(old(params), h, size, buffer)
    {
      for i := 0 to |params|
        invariant params == old(params)
        invariant forall j :: 0 <= j < i ==> params[j].paramHandle != h
      {
        if params[i].paramHandle == h {
          params := params[i := params[i].(srcBuffer := buffer, param := Resized(params[i].param, size))];
          return;
        }
      }
    }

    /** mem is the host memory at the time of the call. */
    method Finalize(mem: Memory)
      requires Readable(params, mem)
      modifies this
      ensures params == Finalized(old(params), mem) && finalized
    {
      var i := 0;
      while i < |params|
        invariant 0 <= i <= |params| == |old(params)|
        invariant forall j :: 0 <= j < i ==> params[j] == FinalizedParam(old(params)[j], mem)
        invariant forall j :: i <= j < |params| ==> params[j] == old(params)[j]
      {
        if params[i].kind == PLACEHOLDER {
          var p := params[i];
          params := params[i := p.(param := Read(mem, p.srcBuffer, |p.param|))];
        }
        i := i + 1;
      }
      finalized := true;
    }

    /** The answer is true even when the parameter is too long to be recorded. */
    method ExpandArgs(data: seq<byte>) returns (ok: bool)
      modifies this`params
      ensures ok && params == Appended(old(params), data, 0)
    {
      CacheArgsAppendOp(data, 0);
      return true;
    }

    method CalcUserArgsSize() returns (size: nat)
      ensures size == UserArgsSize(params)
    {
      size := 0;
      for i := 0 to |params|
        invariant size == UserArgsSize(params[..i])
      {
        assert params[..i + 1][..i] == params[..i];
        size := size + |params[i].param|;
      }
      assert params[..|params|] == params;
    }

    /** All appends come first, then all buffers are requested and filled. The replay succeeds
        exactly when no runtime call fails, and then the new handle holds what was recorded. */
    method ReplayArgs(handle: KernelArgs) returns (ok: bool)
      requires handle.Empty()
      modifies handle
      ensures ok <==> !handle.failed
      ensures ok ==> (forall i :: 0 <= i < |handle.slots| ==> SlotReadable(handle.slots[i], handle.mem))
      ensures ok ==> Image(handle.slots, handle.mem) == ParamImages(params)
    {
      var paramHandles;
      ok, paramHandles := ReplayAppends(handle);
      if !ok {
        return;
      }
      var i := 0;
      while i < |params|
        invariant 0 <= i <= |params| == |handle.slots| && !handle.failed
        invariant HandlesOf(paramHandles, handle.index, |params|)
        invariant forall j :: 0 <= j < i ==> Filled(params[j], handle.slots[j], handle.mem)
        invariant forall j :: i <= j < |params| ==> handle.slots[j] == EmptySlot(params[j])
      {
        if params[i].kind == PLACEHOLDER {
          var buffer;
          ok, buffer := handle.GetPlaceHolderBuffer(paramHandles[i], |params[i].param|);
          if !ok {
            return;
          }
          handle.Store(buffer, params[i].param);
        }
        i := i + 1;
      }
      ok := true;
      assert forall j :: 0 <= j < |params| ==>
        SlotReadable(handle.slots[j], handle.mem) && ImageOf(handle.slots[j], handle.mem) == ParamImage(params[j]);
    }

    method ReplayAppends(handle: KernelArgs) returns (ok: bool, paramHandles: seq<Ptr>)
      requires handle.slots == [] && handle.index == map[] && !handle.failed
      modifies handle`slots, handle`index, handle`failed
      ensures ok <==> !handle.failed
      ensures ok ==> |handle.slots| == |params| && HandlesOf(paramHandles, handle.index, |params|)
      ensures ok ==> forall j :: 0 <= j < |params| ==> handle.slots[j] == EmptySlot(params[j])
    {
      ok := true;
      paramHandles := [];
      var i := 0;
      while i < |params|
        invariant 0 <= i <= |params| && |handle.slots| == i && !handle.failed && ok
        invariant HandlesOf(paramHandles, handle.index, i)
        invariant forall j :: 0 <= j < i ==> handle.slots[j] == EmptySlot(params[j])
      {
        var h;
        if params[i].kind == NORMAL {
          ok, h := handle.Append(params[i].param);
        } else {
          ok, h := handle.AppendPlaceHolder();
        }
        if !ok {
          return;
        }
        paramHandles := paramHandles + [h];
        i := i + 1;
      }
    }

    method GetFlattenedParams() returns (flat: seq<ParamData>)
      ensures flat == Flattened(params)
    {
      flat := [];
      for i := 0 to |params|
        invariant flat == Flattened(params[..i])
      {
        assert params[..i + 1][..i] == params[..i];
        ghost var before := flat;
        if params[i].kind != NORMAL {
          flat := flat + [params[i]];
        } else {
          var s := params[i].param;
          var paramLen := |s| / POINTER_SIZE;
          assert s[0..] == s;
          for j := 0 to paramLen
            invariant flat + Chunks(s[j * POINTER_SIZE..]) == before + Chunks(s)
          {
            ghost var rest := s[j * POINTER_SIZE..];
            assert rest[..POINTER_SIZE] == s[j * POINTER_SIZE..(j + 1) * POINTER_SIZE];
            assert rest[POINTER_SIZE..] == s[(j + 1) * POINTER_SIZE..];
            flat := flat + [ParamData(0, s[j * POINTER_SIZE..(j + 1) * POINTER_SIZE], NORMAL, 0)];
          }
        }
      }
      assert params[..|params|] == params;
    }

    /** On failure the addresses in front of the offending entry have been written already. */
    method UpdateNormalTaskArgsAddr(infos: array<AddrInfo>) returns (ok: bool)
      modifies infos
      ensures var flat, n := Flattened(params), infos.Length;
        && (ok <==> n <= |flat| && forall i :: 0 <= i < n ==> |flat[i].param| == POINTER_SIZE)
        && (forall i :: 0 <= i < n ==>
              infos[i] == if n <= |flat| && i < FirstNonPointer(flat, n)
                          then old(infos[i]).(addr := AddressIn(flat[i])) else old(infos[i]))
      ensures ok ==> forall i :: 0 <= i < infos.Length ==>
        ToLE(POINTER_SIZE, infos[i].addr) == Flattened(params)[i].param
    {
      var flat := GetFlattenedParams();
      if |flat| < infos.Length {
        return false;
      }
      ok := FillAddresses(flat, infos);
      if ok {
        forall i | 0 <= i < infos.Length ensures ToLE(POINTER_SIZE, infos[i].addr) == flat[i].param {
          AddressInIsLittleEndian(flat[i]);
        }
      }
    }

    method FillAddresses(flat: seq<ParamData>, infos: array<AddrInfo>) returns (ok: bool)
      requires infos.Length <= |flat|
      modifies infos
      ensures ok <==> FirstNonPointer(flat, infos.Length) == infos.Length
      ensures forall i :: 0 <= i < infos.Length ==>
        infos[i] == if i < FirstNonPointer(flat, infos.Length)
                    then old(infos[i]).(addr := AddressIn(flat[i])) else old(infos[i])
    {
      ghost var stop := FirstNonPointer(flat, infos.Length);
      var i := 0;
      while i < infos.Length
        invariant 0 <= i <= stop
        invariant forall j :: 0 <= j < i ==> infos[j] == old(infos[j]).(addr := AddressIn(flat[j]))
        invariant forall j :: i <= j < infos.Length ==> infos[j] == old(infos[j])
      {
        if |flat[i].param| != POINTER_SIZE {
          return false;
        }
        infos[i] := infos[i].(addr := AddressIn(flat[i]));
        i := i + 1;
      }
      return true;
    }
  }

  /** Handle j stands for slot j. */
  ghost predicate HandlesOf(paramHandles: seq<Ptr>, index: map<Ptr, nat>, n: nat) {
    |paramHandles| == n && forall j :: 0 <= j < n ==> paramHandles[j] in index && index[paramHandles[j]] == j
  }

  ghost function EmptySlot(p: ParamData): Slot {
    if p.kind == NORMAL then NormalSlot(p.param) else PlaceHolderSlot(0, 0)
  }

  ghost predicate Filled(p: ParamData, s: Slot, mem: Memory) {
    if p.kind == NORMAL then s == NormalSlot(p.param)
    else s.PlaceHolderSlot? && s.size == |p.param| && s.buffer in mem && mem[s.buffer] == p.param
  }
}
