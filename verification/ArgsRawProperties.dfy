/** What an expansion of raw arguments keeps: the bytes, the slots, the data behind every
    placeholder, and the tiling data. */
module ArgsRawProperties {
  import opened AclTypes
  import opened Bytes
  import opened ArgsRawContexts

  /** The pointer slots lie inside the arguments. */
  predicate SlotsInside(size: nat, phs: seq<PlaceHolderInfo>) {
    forall i :: 0 <= i < |phs| ==> phs[i].addrOffset + POINTER_SIZE <= size
  }

  /** All placeholder data lies at or after the insertion point. */
  predicate DataAfter(off: nat, size: nat, phs: seq<PlaceHolderInfo>) {
    forall i :: 0 <= i < |phs| ==> off <= phs[i].dataOffset <= size
  }

  predicate SlotsDisjoint(phs: seq<PlaceHolderInfo>) {
    forall i, j :: 0 <= i < j < |phs| ==>
      || phs[i].addrOffset + POINTER_SIZE <= phs[j].addrOffset
      || phs[j].addrOffset + POINTER_SIZE <= phs[i].addrOffset
  }

  lemma {:induction false} MaxAddrOffsetIsMaximum(phs: seq<PlaceHolderInfo>) returns (m: nat)
    ensures forall i :: 0 <= i < |phs| ==> phs[i].addrOffset <= MaxAddrOffset(phs)
    ensures phs != [] ==> m < |phs| && phs[m].addrOffset == MaxAddrOffset(phs)
  {
    m := 0;
    if phs == [] {
    } else {
      var n := |phs| - 1;
      m := MaxAddrOffsetIsMaximum(phs[..n]);
      if n == 0 || phs[n].addrOffset >= MaxAddrOffset(phs[..n]) {
        m := n;
      }
    }
  }

  /** The insertion point follows every slot, and the 32-bit sum does not wrap. */
  lemma InsertOffsetFollowsSlots(size: u32, phs: seq<PlaceHolderInfo>, overflow: bool)
    requires size <= MAX_ALL_PARAM_SIZE && SlotsInside(size, phs)
    ensures phs != [] ==>
      InsertOffset(size, phs, overflow)
      == MaxAddrOffset(phs) + if overflow then 2 * POINTER_SIZE else POINTER_SIZE
    ensures forall i :: 0 <= i < |phs| ==>
      phs[i].addrOffset + POINTER_SIZE <= InsertOffset(size, phs, overflow)
  {
    var _ := MaxAddrOffsetIsMaximum(phs);
  }

  /** A placeholder that means the same in two buffers: same slot, with the same bytes, in front
      of off, and the same bytes from its data offset on. */
  predicate SamePlaceHolder(buf: seq<byte>, p: PlaceHolderInfo, buf': seq<byte>, p': PlaceHolderInfo, off: nat) {
    && p'.addrOffset == p.addrOffset && p.addrOffset + POINTER_SIZE <= off <= |buf| <= |buf'|
    && buf'[p.addrOffset..p.addrOffset + POINTER_SIZE] == buf[p.addrOffset..p.addrOffset + POINTER_SIZE]
    && p.dataOffset <= |buf| && p'.dataOffset <= |buf'|
    && buf'[p'.dataOffset..] == buf[p.dataOffset..]
  }

  lemma InsertedKeepsPlaceHolder(buf: seq<byte>, p: PlaceHolderInfo, off: nat, param: seq<byte>)
    requires p.addrOffset + POINTER_SIZE <= off <= p.dataOffset <= |buf|
    requires |buf| + |param| < TWO_32
    ensures SamePlaceHolder(buf, p, Inserted(buf, off, param), Moved(p, |param|), off)
  {
  }

  lemma InsertedUndone(buf: seq<byte>, off: nat, param: seq<byte>)
    requires off <= |buf|
    ensures var new' := Inserted(buf, off, param);
      && new'[..off] + new'[off + |param|..] == buf
      && new'[off..off + |param|] == param
  {
    var new' := Inserted(buf, off, param);
    assert new'[..off] == buf[..off] && new'[off + |param|..] == buf[off..];
  }

  /** Expansion keeps the meaning of the buffer: dropping the inserted window gives the padded
      original, the window holds the parameter, and every placeholder means what it meant. */
  lemma ExpansionKeepsMeaning(src: seq<byte>, phs: seq<PlaceHolderInfo>, param: seq<byte>, overflow: bool)
    requires |src| <= MAX_ALL_PARAM_SIZE && SlotsInside(|src|, phs)
    requires InsertOffset(|src|, phs, overflow) <= CeilByAlign8(|src|)
    requires DataAfter(InsertOffset(|src|, phs, overflow), CeilByAlign8(|src|), phs)
    requires CeilByAlign8(|src|) + |param| < TWO_32
    ensures
      var off, old' := InsertOffset(|src|, phs, overflow), Padded(src);
      var new', phs' := Inserted(old', off, param), Relocated(phs, |param|);
      && new'[..off] + new'[off + |param|..] == old' && src <= old'
      && new'[off..off + |param|] == param
      && forall i :: 0 <= i < |phs| ==> SamePlaceHolder(old', phs[i], new', phs'[i], off)
  {
    InsertOffsetFollowsSlots(|src|, phs, overflow);
    var off, old' := InsertOffset(|src|, phs, overflow), Padded(src);
    InsertedUndone(old', off, param);
    forall i | 0 <= i < |phs|
      ensures SamePlaceHolder(old', phs[i], Inserted(old', off, param), Relocated(phs, |param|)[i], off)
    {
      InsertedKeepsPlaceHolder(old', phs[i], off, param);
    }
  }

  // ---------------------------------------------------------------- arguments without placeholders

  /** The fewest zeros behind size bytes that end at a multiple of 8. */
  predicate FillsUp(size: nat, zeros: nat) {
    zeros < 8 && (size + zeros) % 8 == 0
  }

  /** Without placeholders the parameter goes behind everything: old arguments, zeros up to a multiple
      of 8, parameter. */
  lemma PlainExpansionAppends(src: seq<byte>, param: seq<byte>, overflow: bool) returns (zeros: nat)
    requires |src| <= MAX_ALL_PARAM_SIZE
    ensures FillsUp(|src|, zeros) && InsertOffset(|src|, [], overflow) == |src| + zeros == |Padded(src)|
    ensures Inserted(Padded(src), InsertOffset(|src|, [], overflow), param) == src + Zeros(zeros) + param
  {
    CeilByAlign8Exact(|src|);
    zeros := CeilByAlign8(|src|) - |src|;
    assert Padded(src) == src + Zeros(zeros);
    assert Inserted(Padded(src), |Padded(src)|, param) == Padded(src) + param;
  }

  /** A host context without placeholders: every old byte keeps its offset, the parameter follows the
      padded arguments, and both operations report that place. */
  method ExpandPlain(args: array<byte>, param: seq<byte>, overflow: bool)
    returns (c: ArgsRawContext, paramOffset: u32, lastParamOffset: u32, ghost zeros: nat)
    requires args.Length <= MAX_ALL_PARAM_SIZE
    ensures fresh(c) && c.args != null && args[..] == old(args[..])
    ensures FillsUp(args.Length, zeros) && paramOffset == lastParamOffset == args.Length + zeros
    ensures c.args[..] == args[..] + Zeros(zeros) + param
  {
    zeros := PlainExpansionAppends(args[..], param, overflow);
    c := new ArgsRawContext(args, args.Length, false, []);
    assert c.args[..c.argsSize] == args[..];
    lastParamOffset := c.GetLastParamOffset(overflow);
    var ok;
    ok, paramOffset := c.ExpandArgs(param, overflow, 0, true, true);
  }

  /** The order condition is exact: for a non-empty parameter, the byte sequence behind a data
      offset survives relocation whatever the buffer holds if and only if the data does not
      start before the insertion point. */
  lemma RelocationExact(n: nat, off: nat, d: nat, p: nat)
    requires off <= n && d <= n && p > 0
    ensures (forall old': seq<byte>, param: seq<byte> | |old'| == n && |param| == p ::
               Inserted(old', off, param)[d + p..] == old'[d..])
       <==> off <= d
  {
    if off <= d {
      forall old': seq<byte>, param: seq<byte> | |old'| == n && |param| == p
        ensures Inserted(old', off, param)[d + p..] == old'[d..]
      {
        assert Inserted(old', off, param)[off + p..] == old'[off..];
        assert Inserted(old', off, param)[d + p..] == old'[off..][d - off..];
      }
    } else {
      var old', param: seq<byte> := Zeros(n), seq(p, _ => 1);
      var x := if d + p <= off then off else d + p;
      assert Inserted(old', off, param)[d + p..][x - d - p] == param[x - off];
      assert old'[d..][x - d - p] == 0;
    }
  }

  // ---------------------------------------------------------------- what the kernel sees

  function Overwritten(buf: seq<byte>, at: nat, bytes: seq<byte>): (r: seq<byte>)
    requires at + |bytes| <= |buf|
    ensures |r| == |buf|
  {
    buf[..at] + bytes + buf[at + |bytes|..]
  }

  /** Address arithmetic on 64 bits. */
  function Address(base: u64, offset: u64): u64 {
    if base + offset < TWO_64 then base + offset else base + offset - TWO_64
  }

  /** The launch: every slot receives the address of its data, base being where the buffer lies
      in device memory. */
  function Patched(buf: seq<byte>, phs: seq<PlaceHolderInfo>, base: u64): (r: seq<byte>)
    requires SlotsInside(|buf|, phs)
    ensures |r| == |buf|
  {
    if phs == [] then buf
    else
      var n := |phs| - 1;
      Overwritten(Patched(buf, phs[..n], base), phs[n].addrOffset,
                  ToLE(POINTER_SIZE, Address(base, phs[n].dataOffset)))
  }

  /** The bytes, up to the end of the buffer, that the pointer in a slot leads to. */
  function Reached(buf: seq<byte>, base: u64, slot: nat): seq<byte>
    requires slot + POINTER_SIZE <= |buf|
  {
    var address := FromLE(buf[slot..slot + POINTER_SIZE]);
    var d := if address < base then address + TWO_64 - base else address - base;
    if d <= |buf| then buf[d..] else []
  }

  lemma OverwrittenWindow(buf: seq<byte>, at: nat, bytes: seq<byte>, lo: nat, hi: nat)
    requires at + |bytes| <= |buf| && lo <= hi <= |buf|
    requires hi <= at || at + |bytes| <= lo
    ensures Overwritten(buf, at, bytes)[lo..hi] == buf[lo..hi]
  {
  }

  lemma OverwrittenTail(buf: seq<byte>, at: nat, bytes: seq<byte>, d: nat)
    requires at + |bytes| <= d <= |buf|
    ensures Overwritten(buf, at, bytes)[d..] == buf[d..]
  {
  }

  lemma {:induction false} PatchedKeepsTail(buf: seq<byte>, phs: seq<PlaceHolderInfo>, base: u64, d: nat)
    requires d <= |buf| && SlotsInside(d, phs)
    ensures Patched(buf, phs, base)[d..] == buf[d..]
  {
    if phs == [] {
    } else {
      var n := |phs| - 1;
      PatchedKeepsTail(buf, phs[..n], base, d);
      OverwrittenTail(Patched(buf, phs[..n], base), phs[n].addrOffset,
                      ToLE(POINTER_SIZE, Address(base, phs[n].dataOffset)), d);
    }
  }

  lemma {:induction false} PatchedSlot(buf: seq<byte>, phs: seq<PlaceHolderInfo>, base: u64, i: nat)
    requires SlotsInside(|buf|, phs) && SlotsDisjoint(phs) && i < |phs|
    ensures Patched(buf, phs, base)[phs[i].addrOffset..phs[i].addrOffset + POINTER_SIZE]
         == ToLE(POINTER_SIZE, Address(base, phs[i].dataOffset))
  {
    var n, a := |phs| - 1, phs[i].addrOffset;
    if i == n {
    } else {
      PatchedSlot(buf, phs[..n], base, i);
      OverwrittenWindow(Patched(buf, phs[..n], base), phs[n].addrOffset,
                        ToLE(POINTER_SIZE, Address(base, phs[n].dataOffset)), a, a + POINTER_SIZE);
    }
  }

  lemma ReachedThrough(buf: seq<byte>, base: u64, slot: nat, d: u64)
    requires slot + POINTER_SIZE <= |buf| && d <= |buf|
    requires buf[slot..slot + POINTER_SIZE] == ToLE(POINTER_SIZE, Address(base, d))
    ensures Reached(buf, base, slot) == buf[d..]
  {
    RadixValues();
    FromToLE(POINTER_SIZE, Address(base, d));
  }

  lemma PatchedReaches(buf: seq<byte>, phs: seq<PlaceHolderInfo>, base: u64, off: nat, i: nat)
    requires off <= |buf| && SlotsInside(off, phs) && SlotsDisjoint(phs)
    requires i < |phs| && off <= phs[i].dataOffset <= |buf|
    ensures Reached(Patched(buf, phs, base), base, phs[i].addrOffset) == buf[phs[i].dataOffset..]
  {
    PatchedSlot(buf, phs, base, i);
    ReachedThrough(Patched(buf, phs, base), base, phs[i].addrOffset, phs[i].dataOffset);
    PatchedKeepsTail(buf, phs, base, phs[i].dataOffset);
  }

  lemma RelocatedReaches(buf: seq<byte>, phs: seq<PlaceHolderInfo>, base: u64, off: nat, param: seq<byte>, i: nat)
    requires SlotsInside(off, phs) && SlotsDisjoint(phs) && DataAfter(off, |buf|, phs)
    requires off <= |buf| && |buf| + |param| < TWO_32 && i < |phs|
    ensures var new', phs' := Inserted(buf, off, param), Relocated(phs, |param|);
      && SlotsInside(|new'|, phs')
      && Reached(Patched(new', phs', base), base, phs'[i].addrOffset) == buf[phs[i].dataOffset..]
  {
    var new', phs' := Inserted(buf, off, param), Relocated(phs, |param|);
    assert SlotsInside(off, phs') && SlotsDisjoint(phs');
    InsertedKeepsPlaceHolder(buf, phs[i], off, param);
    PatchedReaches(new', phs', base, off, i);
  }

  /** After the launch has filled in the slots, the kernel reaches through every slot exactly the
      bytes it would have reached without the expansion, wherever the two buffers lie. */
  lemma LaunchSeesSameData(src: seq<byte>, phs: seq<PlaceHolderInfo>, param: seq<byte>, overflow: bool,
                           base: u64, base': u64, i: nat)
    requires |src| <= MAX_ALL_PARAM_SIZE && SlotsInside(|src|, phs) && SlotsDisjoint(phs)
    requires InsertOffset(|src|, phs, overflow) <= CeilByAlign8(|src|)
    requires DataAfter(InsertOffset(|src|, phs, overflow), CeilByAlign8(|src|), phs)
    requires CeilByAlign8(|src|) + |param| < TWO_32 && i < |phs|
    ensures
      var new' := Inserted(Padded(src), InsertOffset(|src|, phs, overflow), param);
      var phs' := Relocated(phs, |param|);
      && SlotsInside(|new'|, phs') && SlotsInside(CeilByAlign8(|src|), phs)
      && Reached(Patched(new', phs', base'), base', phs'[i].addrOffset)
         == Reached(Patched(Padded(src), phs, base), base, phs[i].addrOffset)
         == Padded(src)[phs[i].dataOffset..]
  {
    var off := InsertOffset(|src|, phs, overflow);
    InsertOffsetFollowsSlots(|src|, phs, overflow);
    PatchedReaches(Padded(src), phs, base, off, i);
    RelocatedReaches(Padded(src), phs, base', off, param, i);
  }

  // ---------------------------------------------------------------- tiling data

  /** The tiling search finds the first placeholder with the largest addrOffset, provided that
      offset is not zero; otherwise it never leaves its initial record. */
  lemma {:induction false} TilingInfoIsFirstMaximum(phs: seq<PlaceHolderInfo>) returns (m: nat)
    requires phs != []
    ensures m < |phs| && phs[m].addrOffset == MaxAddrOffset(phs)
    ensures forall i :: 0 <= i < m ==> phs[i].addrOffset < phs[m].addrOffset
    ensures TilingInfo(phs) == if MaxAddrOffset(phs) > 0 then phs[m] else PlaceHolderInfo(0, 0)
  {
    var n := |phs| - 1;
    if n == 0 {
      assert phs[..0] == [];
      m := 0;
    } else {
      m := TilingInfoIsFirstMaximum(phs[..n]);
      if phs[n].addrOffset > phs[m].addrOffset {
        var _ := MaxAddrOffsetIsMaximum(phs[..n]);
        m := n;
      }
    }
  }

  /** So the bytes returned are those of the last placeholder if and only if some slot is not at
      offset zero, or the data of the first placeholder is. */
  lemma TilingInfoExact(phs: seq<PlaceHolderInfo>) returns (m: nat)
    requires phs != []
    ensures m < |phs| && phs[m].addrOffset == MaxAddrOffset(phs)
    ensures forall i :: 0 <= i < m ==> phs[i].addrOffset < phs[m].addrOffset
    ensures TilingInfo(phs).dataOffset == phs[m].dataOffset
       <==> (exists i :: 0 <= i < |phs| && phs[i].addrOffset > 0) || phs[0].dataOffset == 0
  {
    m := TilingInfoIsFirstMaximum(phs);
    var _ := MaxAddrOffsetIsMaximum(phs);
    if m > 0 {
      assert phs[0].addrOffset < phs[m].addrOffset;
    }
  }

  lemma {:induction false} TilingInfoRelocated(phs: seq<PlaceHolderInfo>, n: nat)
    ensures TilingInfo(Relocated(phs, n)).addrOffset == TilingInfo(phs).addrOffset
    ensures TilingInfo(phs).addrOffset > 0 ==>
      TilingInfo(Relocated(phs, n)).dataOffset == Wrap32(TilingInfo(phs).dataOffset + n)
  {
    if phs == [] {
    } else {
      var init := phs[..|phs| - 1];
      TilingInfoRelocated(init, n);
      assert Relocated(phs, n)[..|phs| - 1] == Relocated(init, n);
    }
  }

  predicate SameWindow(a: seq<byte>, d: nat, b: seq<byte>, d': nat, size: nat) {
    d + size <= |a| && d' + size <= |b| && b[d'..d' + size] == a[d..d + size]
  }

  /** GetTilingData answers with the same bytes before and after the insertion. */
  predicate SameAnswer(src: seq<byte>, phs: seq<PlaceHolderInfo>, param: seq<byte>, off: nat, size: nat)
    requires |src| <= MAX_ALL_PARAM_SIZE && off <= CeilByAlign8(|src|)
    requires TilingInfo(phs).dataOffset + size <= |src|
  {
    SameWindow(src, TilingInfo(phs).dataOffset,
               Inserted(Padded(src), off, param), TilingInfo(Relocated(phs, |param|)).dataOffset, size)
  }

  /** Either the search finds a placeholder whose data is relocated, or it reads from the start of
      the buffer, where the parameter may come into the way. */
  predicate AnswerFixed(phs: seq<PlaceHolderInfo>, off: nat, size: nat) {
    if MaxAddrOffset(phs) > 0 then off <= TilingInfo(phs).dataOffset else size <= off
  }

  lemma TilingOffsets(phs: seq<PlaceHolderInfo>, n: nat)
    requires phs != [] && TilingInfo(phs).dataOffset + n < TWO_32
    ensures TilingInfo(Relocated(phs, n)).dataOffset
         == if MaxAddrOffset(phs) > 0 then TilingInfo(phs).dataOffset + n else 0
    ensures MaxAddrOffset(phs) == 0 ==> TilingInfo(phs).dataOffset == 0
  {
    var _ := TilingInfoIsFirstMaximum(phs);
    var _ := TilingInfoIsFirstMaximum(Relocated(phs, n));
    TilingInfoRelocated(phs, n);
    MaxAddrOffsetRelocated(phs, n);
  }

  lemma AnswerKept(src: seq<byte>, phs: seq<PlaceHolderInfo>, param: seq<byte>, off: nat, size: nat)
    requires phs != [] && |src| <= MAX_ALL_PARAM_SIZE && off <= CeilByAlign8(|src|)
    requires TilingInfo(phs).dataOffset + size <= |src| && |src| + |param| < TWO_32
    requires AnswerFixed(phs, off, size)
    ensures SameAnswer(src, phs, param, off, size)
  {
    TilingOffsets(phs, |param|);
    if MaxAddrOffset(phs) > 0 {
      KeptBehind(src, off, param, TilingInfo(phs).dataOffset, size);
    } else {
      KeptInFront(src, off, param, TilingInfo(phs).dataOffset, size);
    }
  }

  lemma KeptBehind(src: seq<byte>, off: nat, param: seq<byte>, d: nat, size: nat)
    requires |src| <= MAX_ALL_PARAM_SIZE && off <= CeilByAlign8(|src|) && off <= d && d + size <= |src|
    ensures SameWindow(src, d, Inserted(Padded(src), off, param), d + |param|, size)
  {
    PaddedWindow(src, d, size);
    WindowBehind(Padded(src), off, param, d, size);
  }

  lemma KeptInFront(src: seq<byte>, off: nat, param: seq<byte>, d: nat, size: nat)
    requires |src| <= MAX_ALL_PARAM_SIZE && off <= CeilByAlign8(|src|) && d + size <= off && d + size <= |src|
    ensures SameWindow(src, d, Inserted(Padded(src), off, param), d, size)
  {
    PaddedWindow(src, d, size);
    WindowInFront(Padded(src), off, param, d, size);
  }

  lemma PaddedWindow(src: seq<byte>, d: nat, size: nat)
    requires |src| <= MAX_ALL_PARAM_SIZE && d + size <= |src|
    ensures Padded(src)[d..d + size] == src[d..d + size]
  {
    SliceOfSlice(Padded(src), 0, |src|, d, d + size);
  }

  /** A window behind the insertion point moves, one in front of it stays. */
  lemma WindowBehind(buf: seq<byte>, off: nat, param: seq<byte>, d: nat, size: nat)
    requires off <= d && d + size <= |buf|
    ensures Inserted(buf, off, param)[d + |param|..d + |param| + size] == buf[d..d + size]
  {
    var new' := Inserted(buf, off, param);
    assert new'[off + |param|..] == buf[off..];
    SliceOfSlice(buf, off, |buf|, d - off, d - off + size);
    SliceOfSlice(new', off + |param|, |new'|, d - off, d - off + size);
  }

  lemma WindowInFront(buf: seq<byte>, off: nat, param: seq<byte>, d: nat, size: nat)
    requires d + size <= off <= |buf|
    ensures Inserted(buf, off, param)[d..d + size] == buf[d..d + size]
  {
  }

  /** All ones, but a zero at z. */
  function OneZero(n: nat, z: nat): (s: seq<byte>)
    ensures |s| == n && forall i :: 0 <= i < n ==> s[i] == if i == z then 0 else 1
  {
    seq(n, i => if i == z then 0 else 1)
  }

  lemma PaddedAt(src: seq<byte>, i: nat)
    requires |src| <= MAX_ALL_PARAM_SIZE && i < |src|
    ensures Padded(src)[i] == src[i]
  {
    assert Padded(src)[..|src|][i] == src[i];
  }

  lemma InsertedAt(buf: seq<byte>, off: nat, param: seq<byte>, i: nat)
    requires off <= |buf| && i < off + |param|
    ensures Inserted(buf, off, param)[i] == if i < off then buf[i] else param[i - off]
  {
  }

  /** A window that starts in front of the insertion point does not just move. */
  lemma WindowTorn(n: nat, off: nat, d: nat, p: nat) returns (src: seq<byte>)
    requires n <= MAX_ALL_PARAM_SIZE && d < n && d < off <= CeilByAlign8(n) && p > 0
    ensures |src| == n && Inserted(Padded(src), off, seq(p, _ => 1))[d + p] != src[d]
  {
    src := OneZero(n, if n <= d + p < off then n else d);
    CeilByAlign8Exact(n);
    InsertedAt(Padded(src), off, seq(p, _ => 1), d + p);
    if d + p < n {
      PaddedAt(src, d + p);
    }
  }

  lemma AnswerLost(phs: seq<PlaceHolderInfo>, n: nat, off: nat, p: nat, size: nat)
    returns (src: seq<byte>, param: seq<byte>)
    requires phs != [] && n <= MAX_ALL_PARAM_SIZE && off <= CeilByAlign8(n) && p > 0 && n + p < TWO_32
    requires size > 0 && TilingInfo(phs).dataOffset + size <= n && !AnswerFixed(phs, off, size)
    ensures |src| == n && |param| == p && !SameAnswer(src, phs, param, off, size)
  {
    TilingOffsets(phs, p);
    var d := TilingInfo(phs).dataOffset;
    param := seq(p, _ => 1);
    if MaxAddrOffset(phs) == 0 {
      src := OneZero(n, off);
      InsertedAt(Padded(src), off, param, off);
      WindowsDiffer(src, 0, Inserted(Padded(src), off, param), 0, size, off);
    } else {
      src := WindowTorn(n, off, d, p);
      WindowsDiffer(src, d, Inserted(Padded(src), off, param), d + p, size, 0);
    }
  }

  lemma WindowsDiffer(a: seq<byte>, d: nat, b: seq<byte>, d': nat, size: nat, i: nat)
    requires d + size <= |a| && d' + size <= |b| && i < size && b[d' + i] != a[d + i]
    ensures !SameWindow(a, d, b, d', size)
  {
    assert b[d'..d' + size][i] == b[d' + i] && a[d..d + size][i] == a[d + i];
  }

  /** GetTilingData answers with the same bytes before and after an expansion, whatever the buffer and
      the parameter hold, if and only if some slot is not at offset zero and the data of the last
      placeholder does not start before the insertion point, or else all slots are at offset zero and
      the bytes asked for end at the insertion point or before. */
  lemma TilingDataSurvivesExactly(phs: seq<PlaceHolderInfo>, n: nat, p: nat, overflow: bool, size: nat)
    requires phs != [] && n <= MAX_ALL_PARAM_SIZE && n + p < TWO_32 && p > 0 && size > 0
    requires InsertOffset(n, phs, overflow) <= CeilByAlign8(n)
    requires TilingInfo(phs).dataOffset + size <= n
    ensures (forall src: seq<byte>, param: seq<byte> | |src| == n && |param| == p ::
               SameAnswer(src, phs, param, InsertOffset(n, phs, overflow), size))
       <==> AnswerFixed(phs, InsertOffset(n, phs, overflow), size)
  {
    var off := InsertOffset(n, phs, overflow);
    if AnswerFixed(phs, off, size) {
      forall src: seq<byte>, param: seq<byte> | |src| == n && |param| == p
        ensures SameAnswer(src, phs, param, off, size)
      {
        AnswerKept(src, phs, param, off, size);
      }
    } else {
      var src, param := AnswerLost(phs, n, off, p, size);
      assert !SameAnswer(src, phs, param, off, size);
    }
  }

  // ---------------------------------------------------------------- two expansions

  lemma {:induction false} MaxAddrOffsetRelocated(phs: seq<PlaceHolderInfo>, n: nat)
    ensures MaxAddrOffset(Relocated(phs, n)) == MaxAddrOffset(phs)
  {
    if phs == [] {
    } else {
      var init := phs[..|phs| - 1];
      MaxAddrOffsetRelocated(init, n);
      assert Relocated(phs, n)[..|phs| - 1] == Relocated(init, n);
    }
  }

  /** The second expansion of a context inserts where the first one did. */
  lemma SecondExpansionOffset(size: u32, size': u32, phs: seq<PlaceHolderInfo>, n: nat, overflow: bool)
    requires phs != []
    ensures InsertOffset(size', Relocated(phs, n), overflow) == InsertOffset(size, phs, overflow)
  {
    MaxAddrOffsetRelocated(phs, n);
  }

  lemma RelocatedTwice(phs: seq<PlaceHolderInfo>, n: nat, m: nat)
    ensures Relocated(Relocated(phs, n), m) == Relocated(phs, n + m)
  {
  }

  lemma InsertedTwice(buf: seq<byte>, zeros: seq<byte>, off: nat, p: seq<byte>, q: seq<byte>)
    requires off <= |buf|
    ensures Inserted(Inserted(buf, off, p) + zeros, off, q) == Inserted(buf + zeros, off, q + p)
  {
    var once := Inserted(buf, off, p) + zeros;
    assert once[..off] == buf[..off] == (buf + zeros)[..off];
    assert once[off..] == p + (buf[off..] + zeros) && (buf + zeros)[off..] == buf[off..] + zeros;
  }

  /** Expanding a clone of an expanded context is one expansion by both parameters, the later one in
      front, of the original padded a second time; the placeholders agree, too. */
  lemma TwoExpansionsAreOne(src: seq<byte>, phs: seq<PlaceHolderInfo>, p: seq<byte>, q: seq<byte>, overflow: bool)
    requires phs != [] && |src| <= MAX_ALL_PARAM_SIZE
    requires InsertOffset(|src|, phs, overflow) <= CeilByAlign8(|src|)
    requires |Inserted(Padded(src), InsertOffset(|src|, phs, overflow), p)| <= MAX_ALL_PARAM_SIZE
    ensures
      var off := InsertOffset(|src|, phs, overflow);
      var once, phs' := Inserted(Padded(src), off, p), Relocated(phs, |p|);
      && InsertOffset(|once|, phs', overflow) == off
      && Relocated(phs', |q|) == Relocated(phs, |q + p|)
      && Inserted(Padded(once), off, q)
         == Inserted(Padded(src) + Zeros(|Padded(once)| - |once|), off, q + p)
  {
    var off := InsertOffset(|src|, phs, overflow);
    var once := Inserted(Padded(src), off, p);
    SecondExpansionOffset(|src|, |once|, phs, |p|, overflow);
    RelocatedTwice(phs, |p|, |q|);
    InsertedTwice(Padded(src), Zeros(|Padded(once)| - |once|), off, p, q);
  }

  // ---------------------------------------------------------------- expanding in place

  lemma PaddedInjective(a: seq<byte>, b: seq<byte>)
    requires |a| == |b| <= MAX_ALL_PARAM_SIZE
    ensures Padded(a) == Padded(b) <==> a == b
  {
    if Padded(a) == Padded(b) {
      assert a == Padded(a)[..|a|] == Padded(b)[..|b|] == b;
    }
  }

  lemma InsertedInjective(a: seq<byte>, b: seq<byte>, off: nat, param: seq<byte>)
    requires off <= |a| == |b|
    ensures Inserted(a, off, param) == Inserted(b, off, param) <==> a == b
  {
    if Inserted(a, off, param) == Inserted(b, off, param) {
      InsertedUndone(a, off, param);
      InsertedUndone(b, off, param);
    }
  }

  /** An expansion works on the context's arguments if and only if these are not in its own buffer,
      or are all zero anyway. */
  lemma ExpansionKeepsArgumentsExactly(c: ArgsRawContext, off: nat, param: seq<byte>)
    requires c.Valid() && c.argsSize <= MAX_ALL_PARAM_SIZE && off <= CeilByAlign8(c.argsSize)
    ensures Inserted(Padded(c.Source()), off, param) == Inserted(Padded(c.args[..c.argsSize]), off, param)
       <==> c.args != c.argsWithMemInfo || c.args[..c.argsSize] == Zeros(c.argsSize)
  {
    InsertedInjective(Padded(c.Source()), Padded(c.args[..c.argsSize]), off, param);
    PaddedInjective(c.Source(), c.args[..c.argsSize]);
  }

  lemma MultiplesAdd(a: nat, b: nat)
    requires a % 8 == 0 && b % 8 == 0
    ensures (a + b) % 8 == 0
  {
  }

  /** Where the second expansion inserts, as a condition on the first one. */
  lemma SecondInsertion(size: u32, phs: seq<PlaceHolderInfo>, p: nat, overflow: bool)
    requires size <= MAX_ALL_PARAM_SIZE && p % 8 == 0 && CeilByAlign8(size) + p <= MAX_ALL_PARAM_SIZE
    requires InsertOffset(size, phs, overflow) <= CeilByAlign8(size)
    ensures (CeilByAlign8(size) + p) % 8 == 0 && CeilByAlign8(CeilByAlign8(size) + p) == CeilByAlign8(size) + p
    ensures InsertOffset(CeilByAlign8(size) + p, Relocated(phs, p), overflow) <= CeilByAlign8(size) + p
  {
    CeilByAlign8Exact(size);
    MultiplesAdd(CeilByAlign8(size), p);
    CeilByAlign8Fixed(CeilByAlign8(size) + p);
    if phs != [] {
      SecondExpansionOffset(size, CeilByAlign8(size) + p, phs, p, overflow);
    }
  }

  /** A new host context that is expanded twice in place, without a clone. The second expansion works
      on zeros, so the arguments survive if and only if they and the first parameter are zeros. */
  method ExpandTwice(args: array<byte>, phs: seq<PlaceHolderInfo>, p: seq<byte>, q: seq<byte>, overflow: bool)
    returns (c: ArgsRawContext, off: u32, off': u32)
    requires args.Length <= MAX_ALL_PARAM_SIZE && |p| % 8 == 0
    requires CeilByAlign8(args.Length) + |p| <= MAX_ALL_PARAM_SIZE
    requires InsertOffset(args.Length, phs, overflow) <= CeilByAlign8(args.Length)
    ensures fresh(c) && c.args == c.argsWithMemInfo && args[..] == old(args[..])
    ensures off <= CeilByAlign8(args.Length) && off' <= CeilByAlign8(args.Length) + |p|
    ensures c.argsWithMemInfo[..] == Inserted(Zeros(CeilByAlign8(args.Length) + |p|), off', q)
    ensures var once := Inserted(Padded(args[..]), off, p);
      c.argsWithMemInfo[..] == Inserted(once, off', q) <==> once == Zeros(|once|)
  {
    SecondInsertion(args.Length, phs, |p|, overflow);
    c := new ArgsRawContext(args, args.Length, false, phs);
    off := ExpandOnce(c, args[..], p, overflow);
    ghost var once := c.args[..];
    assert c.argsSize == |once| && InsertOffset(c.argsSize, c.placeHolderArray, overflow) <= c.argsSize;
    off' := c.ExpandAgain(q, overflow);
    InsertedInjective(once, Zeros(|once|), off', q);
  }

  method ExpandOnce(c: ArgsRawContext, ghost src: seq<byte>, p: seq<byte>, overflow: bool) returns (off: u32)
    requires c.Valid() && !c.isDeviceArgs && c.args != c.argsWithMemInfo
    requires |src| == c.argsSize <= MAX_ALL_PARAM_SIZE && c.args[..] == src
    requires CeilByAlign8(|src|) + |p| <= MAX_ALL_PARAM_SIZE
    requires InsertOffset(|src|, c.placeHolderArray, overflow) <= CeilByAlign8(|src|)
    modifies c
    ensures c.Valid() && unchanged(c`isDeviceArgs) && c.args == c.argsWithMemInfo && fresh(c.args)
    ensures off == InsertOffset(|src|, old(c.placeHolderArray), overflow)
    ensures c.args[..] == Inserted(Padded(src), off, p) && c.argsSize == CeilByAlign8(|src|) + |p|
    ensures c.placeHolderArray == Relocated(old(c.placeHolderArray), |p|)
  {
    assert c.args[..c.argsSize] == c.args[..];
    var ok;
    ok, off := c.ExpandArgs(p, overflow, 0, true, true);
  }
}
