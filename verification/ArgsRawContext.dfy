/** Kernel arguments held as one raw byte buffer. A placeholder says that a pointer slot of the
    buffer is to be filled, at launch, with the address of data in the same buffer. */
module ArgsRawContexts {
  import opened AclTypes
  import opened Bytes

  // ---------------------------------------------------------------- specification functions

  function Max(a: u32, b: u32): u32 {
    if a < b then b else a
  }

  function MaxAddrOffset(phs: seq<PlaceHolderInfo>): u32 {
    if phs == [] then 0 else Max(MaxAddrOffset(phs[..|phs| - 1]), phs[|phs| - 1].addrOffset)
  }

  /** Where the extra parameter goes; overflow says whether the chip keeps one more pointer
      (the overflow status address) behind the last placeholder slot. */
  function InsertOffset(argsSize: u32, phs: seq<PlaceHolderInfo>, overflow: bool): u32 {
    if phs == [] then CeilByAlign8(argsSize)
    else Wrap32(MaxAddrOffset(phs) + POINTER_SIZE + if overflow then POINTER_SIZE else 0)
  }

  function Padded(src: seq<byte>): (r: seq<byte>)
    requires |src| <= MAX_ALL_PARAM_SIZE
    ensures |r| == CeilByAlign8(|src|) && |src| <= |r| && r[..|src|] == src
    ensures forall i :: |src| <= i < |r| ==> r[i] == 0
  {
    CeilByAlign8Exact(|src|);
    src + Zeros(CeilByAlign8(|src|) - |src|)
  }

  function Inserted(buf: seq<byte>, off: nat, param: seq<byte>): seq<byte>
    requires off <= |buf|
  {
    buf[..off] + param + buf[off..]
  }

  function Moved(p: PlaceHolderInfo, n: nat): PlaceHolderInfo {
    p.(dataOffset := Wrap32(p.dataOffset + n))
  }

  function Relocated(phs: seq<PlaceHolderInfo>, n: nat): (r: seq<PlaceHolderInfo>)
    ensures |r| == |phs| && forall i :: 0 <= i < |phs| ==> r[i] == Moved(phs[i], n)
  {
    seq(|phs|, i requires 0 <= i < |phs| => Moved(phs[i], n))
  }

  /** The record the tiling search ends with: it starts from (0, 0) and is replaced only by a
      strictly larger addrOffset. */
  function TilingInfo(phs: seq<PlaceHolderInfo>): PlaceHolderInfo {
    if phs == [] then PlaceHolderInfo(0, 0)
    else
      var t, p := TilingInfo(phs[..|phs| - 1]), phs[|phs| - 1];
      if p.addrOffset > t.addrOffset then p else t
  }

  method NewArray(s: seq<byte>) returns (a: array<byte>)
    ensures fresh(a) && a[..] == s
  {
    a := new byte[|s|](i requires 0 <= i < |s| => s[i]);
  }

  // ---------------------------------------------------------------- the context

  class ArgsRawContext {
    var args: array?<byte>
    var argsSize: u32
    var isDeviceArgs: bool
    var needFree: bool
    var argsWithMemInfo: array<byte>
    var placeHolderArray: seq<PlaceHolderInfo>

    ghost predicate Valid()
      reads this
    {
      && args != null && argsSize <= args.Length
      && (isDeviceArgs ==> placeHolderArray == [])
    }

    /** The bytes ExpandArgs copies. When args already is the context's own buffer, clearing and
        resizing that buffer has zeroed them before the copy. */
    ghost function Source(): (s: seq<byte>)
      requires Valid()
      reads this, args
      ensures |s| == argsSize
    {
      if args == argsWithMemInfo then Zeros(argsSize) else args[..argsSize]
    }

    constructor (args: array<byte>, argsSize: u32, isDeviceArgs: bool,
                 placeHolderArray: seq<PlaceHolderInfo>)
      requires argsSize <= args.Length
      requires isDeviceArgs ==> placeHolderArray == []
      ensures Valid() && !needFree && args != argsWithMemInfo && fresh(argsWithMemInfo)
      ensures this.args == args && this.argsSize == argsSize
      ensures this.isDeviceArgs == isDeviceArgs && this.placeHolderArray == placeHolderArray
    {
      this.args, this.argsSize, this.isDeviceArgs := args, argsSize, isDeviceArgs;
      needFree, argsWithMemInfo := false, new byte[0];
      this.placeHolderArray := placeHolderArray;
    }

    method LastAddrOffset() returns (lastAddrOffset: u32)
      ensures lastAddrOffset == MaxAddrOffset(placeHolderArray)
    {
      lastAddrOffset := 0;
      var i := 0;
      while i < |placeHolderArray|
        invariant 0 <= i <= |placeHolderArray|
        invariant lastAddrOffset == MaxAddrOffset(placeHolderArray[..i])
      {
        assert placeHolderArray[..i + 1][..i] == placeHolderArray[..i];
        lastAddrOffset := Max(lastAddrOffset, placeHolderArray[i].addrOffset);
        i := i + 1;
      }
      assert placeHolderArray[..i] == placeHolderArray;
    }

    method OffsetAfterSlots(overflow: bool) returns (paramOffset: u32)
      requires placeHolderArray != []
      ensures paramOffset == InsertOffset(argsSize, placeHolderArray, overflow)
    {
      var lastAddrOffset := LastAddrOffset();
      paramOffset := Wrap32(lastAddrOffset + POINTER_SIZE);
      if overflow {
        paramOffset := Wrap32(paramOffset + POINTER_SIZE);
      }
    }

    method GetLastParamOffset(overflow: bool) returns (offset: u32)
      ensures offset == if argsSize > MAX_ALL_PARAM_SIZE then 0
                        else InsertOffset(argsSize, placeHolderArray, overflow)
    {
      if argsSize > MAX_ALL_PARAM_SIZE {
        return 0;
      }
      if placeHolderArray == [] {
        return CeilByAlign8(argsSize);
      }
      offset := OffsetAfterSlots(overflow);
    }

    /** The size asked for is the length the caller gave its data vector. */
    method GetTilingData(size: nat) returns (ok: bool, data: seq<byte>)
      requires Valid()
      requires TilingInfo(placeHolderArray).dataOffset + size <= args.Length
      ensures ok <==> placeHolderArray != [] && size > 0
      ensures ok ==>
        var d := TilingInfo(placeHolderArray).dataOffset;
        data == args[d..d + size]
    {
      if placeHolderArray == [] || size == 0 {
        return false, [];
      }
      var tilingInfo := PlaceHolderInfo(0, 0);
      var i := 0;
      while i < |placeHolderArray|
        invariant 0 <= i <= |placeHolderArray|
        invariant tilingInfo == TilingInfo(placeHolderArray[..i])
      {
        assert placeHolderArray[..i + 1][..i] == placeHolderArray[..i];
        if placeHolderArray[i].addrOffset > tilingInfo.addrOffset {
          tilingInfo := placeHolderArray[i];
        }
        i := i + 1;
      }
      assert placeHolderArray[..i] == placeHolderArray;
      return true, args[tilingInfo.dataOffset..tilingInfo.dataOffset + size];
    }

    method FreeArgs()
      modifies this`args, this`needFree
      ensures args == (if old(needFree) then null else old(args))
      ensures needFree == (old(needFree) && old(args) == null)
    {
      if needFree && args != null {
        args := null;
        needFree := false;
      }
    }

    method ShiftPlaceHolders(paramSize: nat)
      modifies this`placeHolderArray
      ensures placeHolderArray == Relocated(old(placeHolderArray), paramSize)
    {
      var i := 0;
      while i < |placeHolderArray|
        invariant 0 <= i <= |placeHolderArray| == |old(placeHolderArray)|
        invariant forall j :: 0 <= j < i ==> placeHolderArray[j] == Moved(old(placeHolderArray)[j], paramSize)
        invariant forall j :: i <= j < |placeHolderArray| ==> placeHolderArray[j] == old(placeHolderArray)[j]
      {
        placeHolderArray := placeHolderArray[i := Moved(placeHolderArray[i], paramSize)];
        i := i + 1;
      }
    }

    /** The host half: rebuild the buffer with the parameter in it and relocate. */
    method BuildBuffer(param: seq<byte>, overflow: bool) returns (paramOffset: u32)
      requires Valid() && argsSize <= MAX_ALL_PARAM_SIZE
      requires InsertOffset(argsSize, placeHolderArray, overflow) <= CeilByAlign8(argsSize)
      modifies this`argsWithMemInfo, this`argsSize, this`placeHolderArray
      ensures paramOffset == InsertOffset(old(argsSize), old(placeHolderArray), overflow)
      ensures fresh(argsWithMemInfo)
      ensures argsWithMemInfo[..] == Inserted(Padded(old(Source())), paramOffset, param)
      ensures argsSize == Wrap32(argsWithMemInfo.Length)
      ensures placeHolderArray == Relocated(old(placeHolderArray), |param|)
    {
      var buf := Padded(if args == argsWithMemInfo then Zeros(argsSize) else args[..argsSize]);
      if placeHolderArray == [] {
        paramOffset := |buf|;
      } else {
        paramOffset := OffsetAfterSlots(overflow);
        ShiftPlaceHolders(|param|);
      }
      argsWithMemInfo := NewArray(Inserted(buf, paramOffset, param));
      argsSize := Wrap32(argsWithMemInfo.Length);
    }

    /** The device half: the arguments move to newly allocated device memory. */
    method MoveToDevice(mallocOk: bool, copyBackOk: bool) returns (ok: bool)
      modifies this`args, this`needFree
      ensures ok <==> mallocOk && copyBackOk
      ensures !mallocOk ==> args == (if old(needFree) then null else old(args))
      ensures mallocOk ==> fresh(args) && needFree && args != null && args.Length == argsWithMemInfo.Length
      ensures ok ==> args[..] == argsWithMemInfo[..]
    {
      FreeArgs();
      if !mallocOk {
        return false;
      }
      needFree := true;
      if copyBackOk {
        args := NewArray(argsWithMemInfo[..]);
      } else {
        args := new byte[argsWithMemInfo.Length];
      }
      return copyBackOk;
    }

    /** mallocOk and copyBackOk are the results of the device allocation and of the copy back to
        the device. When the size guard fails the caller's offset stays as it was. */
    method ExpandArgs(param: seq<byte>, overflow: bool, offsetIn: u32, mallocOk: bool, copyBackOk: bool)
      returns (ok: bool, paramOffset: u32)
      requires Valid()
      requires args == argsWithMemInfo ==> argsSize % 8 == 0
      requires argsSize <= MAX_ALL_PARAM_SIZE ==>
        InsertOffset(argsSize, placeHolderArray, overflow) <= CeilByAlign8(argsSize)
      modifies this
      ensures unchanged(this`isDeviceArgs) && fresh(argsWithMemInfo)
      ensures old(argsSize) > MAX_ALL_PARAM_SIZE ==>
        && !ok && paramOffset == offsetIn && argsWithMemInfo.Length == 0
        && unchanged(this`args, this`argsSize, this`needFree, this`placeHolderArray)
      ensures old(argsSize) <= MAX_ALL_PARAM_SIZE ==>
        && paramOffset == InsertOffset(old(argsSize), old(placeHolderArray), overflow)
        && argsWithMemInfo[..] == Inserted(Padded(old(Source())), paramOffset, param)
        && argsSize == Wrap32(argsWithMemInfo.Length)
        && placeHolderArray == Relocated(old(placeHolderArray), |param|)
        && (ok <==> !isDeviceArgs || (mallocOk && copyBackOk))
      ensures old(argsSize) <= MAX_ALL_PARAM_SIZE && !isDeviceArgs ==>
        args == argsWithMemInfo && needFree == old(needFree)
      ensures old(argsSize) <= MAX_ALL_PARAM_SIZE && isDeviceArgs ==>
        && (mallocOk ==> fresh(args) && needFree && (ok ==> args != null && args[..] == argsWithMemInfo[..]))
        && (!mallocOk ==> args == (if old(needFree) then null else old(args)))
      ensures ok ==> Valid()
    {
      if argsSize > MAX_ALL_PARAM_SIZE {
        argsWithMemInfo := new byte[0];
        return false, offsetIn;
      }
      paramOffset := BuildBuffer(param, overflow);
      if !isDeviceArgs {
        args := argsWithMemInfo;
        return true, paramOffset;
      }
      ok := MoveToDevice(mallocOk, copyBackOk);
    }

    /** A member-wise copy: the new context shares args and owns a copy of the buffer. */
    method Clone() returns (c: ArgsRawContext)
      requires Valid()
      ensures fresh(c) && fresh(c.argsWithMemInfo) && c.Valid()
      ensures c.args == args && c.argsSize == argsSize && c.isDeviceArgs == isDeviceArgs
      ensures c.needFree == needFree && c.placeHolderArray == placeHolderArray
      ensures c.argsWithMemInfo[..] == argsWithMemInfo[..]
    {
      c := new ArgsRawContext(args, argsSize, isDeviceArgs, placeHolderArray);
      c.needFree := needFree;
      c.argsWithMemInfo := NewArray(argsWithMemInfo[..]);
    }

    /** The profiling hooks' way of expanding: the context they hold stays usable, because a clone
        is expanded. This works for a context that was itself expanded on the host, too. */
    method ExpandClone(param: seq<byte>, overflow: bool, mallocOk: bool, copyBackOk: bool)
      returns (ok: bool, c: ArgsRawContext, paramOffset: u32, lastParamOffset: u32)
      requires Valid() && !needFree
      requires argsSize <= MAX_ALL_PARAM_SIZE
      requires InsertOffset(argsSize, placeHolderArray, overflow) <= CeilByAlign8(argsSize)
      ensures unchanged(this) && unchanged(args) && unchanged(argsWithMemInfo)
      ensures fresh(c) && paramOffset == lastParamOffset
      ensures lastParamOffset == InsertOffset(argsSize, placeHolderArray, overflow)
      ensures ok <==> !isDeviceArgs || (mallocOk && copyBackOk)
      ensures ok ==> c.Valid() && c.args != null && c.argsSize <= c.args.Length
      ensures ok ==> c.args[..] == Inserted(Padded(args[..argsSize]), paramOffset, param)
    {
      c := Clone();
      lastParamOffset := GetLastParamOffset(overflow);
      ok, paramOffset := c.ExpandArgs(param, overflow, 0, mallocOk, copyBackOk);
    }

    /** Expanding an already expanded host context in place loses every argument: what is left
        is zeros around the second parameter. */
    method ExpandAgain(param: seq<byte>, overflow: bool) returns (offset: u32)
      requires Valid() && !isDeviceArgs && args == argsWithMemInfo
      requires argsSize % 8 == 0 && argsSize <= MAX_ALL_PARAM_SIZE
      requires InsertOffset(argsSize, placeHolderArray, overflow) <= argsSize
      modifies this
      ensures args == argsWithMemInfo && offset <= old(argsSize)
      ensures argsWithMemInfo[..] == Inserted(Zeros(old(argsSize)), offset, param)
    {
      CeilByAlign8Fixed(argsSize);
      assert Padded(Source()) == Zeros(argsSize);
      var ok;
      ok, offset := ExpandArgs(param, overflow, 0, true, true);
    }
  }
}
