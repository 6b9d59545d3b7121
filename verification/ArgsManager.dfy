/** Lookup of the dynamic shape record announced in the tiling data, and decoding of the shapes
    and addresses behind a pointer to pointers. */
module ArgsManagers {
  import opened AclTypes
  import opened Bytes
  import opened Options

  const U64_BYTE_SIZE: nat := 8
  const META_MAGIC_NUM: u64 := 0xA5A5_A5A5_0000_0000

  /** addr 0 is the null pointer. */
  datatype AdumpInfo = AdumpInfo(addr: nat, argsSpace: u32)

  const NO_INFO := AdumpInfo(0, 0)

  datatype SecondPtrInfo = SecondPtrInfo(dtypeBytes: u64, addrInfoVec: seq<AddrInfo>)

  // ---------------------------------------------------------------- the magic word

  /** The little-endian 64-bit word at p. */
  function WordAt(t: seq<byte>, p: nat): u64
    requires p + 8 <= |t|
  {
    ToFromLE(t[p..p + 8]);
    RadixValues();
    FromLE(t[p..p + 8])
  }

  /** At p starts a registered word whose upper four bytes are the magic prefix. */
  predicate Hit(table: map<u64, AdumpInfo>, t: seq<byte>, p: nat) {
    && p + 8 <= |t|
    && t[p + 4] == t[p + 5] == t[p + 6] == t[p + 7] == 0xA5
    && WordAt(t, p) in table
  }

  /** No hit ends in front of q. */
  ghost predicate NoHitBefore(table: map<u64, AdumpInfo>, t: seq<byte>, q: nat) {
    forall p :: 0 <= p && p + 8 <= q ==> !Hit(table, t, p)
  }

  /** count magic bytes, and if less than three then no more, lie in front of i and behind byte 3. */
  ghost predicate Scanned(t: seq<byte>, i: nat, count: nat) {
    && count <= 3 && 4 <= i - count
    && (forall k :: i - count <= k < i && k < |t| ==> t[k] == 0xA5)
    && (count < 3 && 4 < i - count && i <= |t| ==> t[i - count - 1] != 0xA5)
  }

  /** After one more byte the counter is four exactly when the last four bytes are magic; taking one
      off again forgets nothing that a later match needs. */
  lemma ScanStep(t: seq<byte>, i: nat, count: nat)
    requires Scanned(t, i, count) && i < |t|
    ensures var count' := if t[i] == 0xA5 then count + 1 else 0;
      && (count' == 4 ==> i >= 7)
      && (i >= 7 ==> (count' == 4 <==> t[i - 3] == t[i - 2] == t[i - 1] == t[i] == 0xA5))
      && Scanned(t, i + 1, if count' == 4 then 3 else count')
  {
  }

  /** The first hit at or after p, by plain search. */
  function NaiveSearch(table: map<u64, AdumpInfo>, t: seq<byte>, p: nat): AdumpInfo
    decreases |t| - p
  {
    if p + 8 > |t| then NO_INFO
    else if Hit(table, t, p) then table[WordAt(t, p)]
    else NaiveSearch(table, t, p + 1)
  }

  lemma {:induction false} NaiveSearchSkips(table: map<u64, AdumpInfo>, t: seq<byte>, p: nat, q: nat)
    requires p <= q && forall k :: p <= k < q ==> !Hit(table, t, k)
    ensures NaiveSearch(table, t, p) == NaiveSearch(table, t, q)
    decreases q - p
  {
    if p < q && p + 8 <= |t| {
      NaiveSearchSkips(table, t, p + 1, q);
    }
  }

  lemma FromLECons(b: byte, rest: seq<byte>)
    ensures FromLE([b] + rest) == b + 256 * FromLE(rest)
  {
    assert ([b] + rest)[1..] == rest;
  }

  lemma MagicPrefix()
    ensures FromLE([0xA5, 0xA5, 0xA5, 0xA5]) == 0xA5A5_A5A5
  {
    FromLECons(0xA5, []);
    assert [0xA5] + [] == [0xA5];
    FromLECons(0xA5, [0xA5]);
    FromLECons(0xA5, [0xA5, 0xA5]);
    FromLECons(0xA5, [0xA5, 0xA5, 0xA5]);
    assert [0xA5] + [0xA5] == [0xA5, 0xA5];
    assert [0xA5] + [0xA5, 0xA5] == [0xA5, 0xA5, 0xA5];
    assert [0xA5] + [0xA5, 0xA5, 0xA5] == [0xA5, 0xA5, 0xA5, 0xA5];
  }

  /** The prefix joined with a little-endian 32-bit value is the 64-bit word that ends in it. */
  lemma MagicWord(t: seq<byte>, p: nat)
    requires p + 8 <= |t|
    requires t[p + 4] == t[p + 5] == t[p + 6] == t[p + 7] == 0xA5
    ensures WordAt(t, p) == META_MAGIC_NUM + FromLE(t[p..p + 4])
    ensures FromLE(t[p..p + 4]) < TWO_32
  {
    var low := t[p..p + 4];
    assert t[p..p + 8] == low + [0xA5, 0xA5, 0xA5, 0xA5];
    WordOfHalves(low, [0xA5, 0xA5, 0xA5, 0xA5]);
    MagicPrefix();
  }

  lemma WordOfHalves(low: seq<byte>, high: seq<byte>)
    requires |low| == |high| == 4
    ensures FromLE(low + high) == FromLE(low) + TWO_32 * FromLE(high)
    ensures FromLE(low) < TWO_32
  {
    FromLEConcat(low, high);
    ToFromLE(low);
    RadixValues();
  }

  /** At p are four arbitrary bytes and the magic prefix. */
  predicate MagicAt(t: seq<byte>, p: nat) {
    p + 8 <= |t| && t[p + 4..p + 8] == [0xA5, 0xA5, 0xA5, 0xA5]
  }

  /** The key that the four bytes make with the prefix in front, as a number. */
  function KeyAt(t: seq<byte>, p: nat): nat
    requires p + 8 <= |t|
  {
    0xA5A5_A5A5_0000_0000 + FromLE(t[p..p + 4])
  }

  lemma MagicBytes(t: seq<byte>, p: nat)
    requires p + 8 <= |t|
    ensures MagicAt(t, p) <==> t[p + 4] == t[p + 5] == t[p + 6] == t[p + 7] == 0xA5
  {
    var w := t[p + 4..p + 8];
    assert w[0] == t[p + 4] && w[1] == t[p + 5] && w[2] == t[p + 6] && w[3] == t[p + 7];
  }

  lemma HitIsKey(table: map<u64, AdumpInfo>, t: seq<byte>, p: nat)
    ensures Hit(table, t, p) <==> MagicAt(t, p) && KeyAt(t, p) in table
    ensures Hit(table, t, p) ==> WordAt(t, p) == KeyAt(t, p)
  {
    if p + 8 <= |t| {
      MagicBytes(t, p);
      if MagicAt(t, p) {
        MagicWord(t, p);
      }
    }
  }

  /** The search answers with the entry of the first registered key, and with nothing when no place of
      the data holds one. */
  lemma NaiveSearchFindsFirst(table: map<u64, AdumpInfo>, t: seq<byte>, p: nat)
    requires forall q :: 0 <= q < p && MagicAt(t, q) ==> KeyAt(t, q) !in table
    ensures MagicAt(t, p) && KeyAt(t, p) in table ==> NaiveSearch(table, t, 0) == table[KeyAt(t, p)]
    ensures p >= |t| ==> NaiveSearch(table, t, 0) == AdumpInfo(0, 0)
  {
    forall q | 0 <= q < p ensures !Hit(table, t, q) {
      HitIsKey(table, t, q);
    }
    NaiveSearchSkips(table, t, 0, p);
    HitIsKey(table, t, p);
  }

  // ---------------------------------------------------------------- shapes behind a pointer

  function RecordDim(w: u64): nat {
    w % 0x1_0000_0000
  }

  /** The words from the one a placeholder's data offset leads to. */
  function HostInputs(words: seq<u64>, p: PlaceHolderInfo): seq<u64> {
    if p.dataOffset / 8 <= |words| then words[p.dataOffset / 8..] else []
  }

  /** One tensor behind the pointer. */
  datatype Tensor = Tensor(dims: seq<u64>, addr: u64)

  /** The dimension index at which record k starts; records begin at word 1. */
  function RecordStart(host: seq<u64>, k: nat): nat {
    if k == 0 then 0
    else
      var at := RecordStart(host, k - 1);
      at + 1 + if 1 + at < |host| then RecordDim(host[1 + at]) else 0
  }

  lemma {:induction false} RecordStartGrows(host: seq<u64>, j: nat, k: nat)
    requires j <= k
    ensures RecordStart(host, j) + (k - j) <= RecordStart(host, k)
    decreases k - j
  {
    if j == k {
    } else {
      RecordStartGrows(host, j, k - 1);
    }
  }

  /** The number of records, counted from k on, that start in front of the pointer area. */
  function RecordCount(host: seq<u64>, ptrOffset: nat, k: nat): (n: nat)
    ensures n >= k && RecordStart(host, n) + 1 >= ptrOffset
    ensures forall i :: k <= i < n ==> RecordStart(host, i) + 1 < ptrOffset
    decreases ptrOffset - k
  {
    RecordStartGrows(host, 0, k);
    if RecordStart(host, k) + 1 < ptrOffset then RecordCount(host, ptrOffset, k + 1) else k
  }

  /** Word 0 holds the byte offset of the pointers. */
  function PtrOffset(host: seq<u64>): nat
    requires host != []
  {
    host[0] / 8
  }

  /** All reads of the decoding loop stay inside the words. */
  predicate HostReadable(host: seq<u64>) {
    && host != []
    && forall k :: 0 <= k < RecordCount(host, PtrOffset(host), 0) ==> TensorReadable(host, k)
  }

  predicate TensorReadable(host: seq<u64>, k: nat)
    requires host != []
  {
    1 + RecordStart(host, k) < |host| && 1 + RecordStart(host, k + 1) <= |host| && PtrOffset(host) + k < |host|
  }

  function TensorAt(host: seq<u64>, k: nat): Tensor
    requires host != [] && TensorReadable(host, k)
  {
    Tensor(host[2 + RecordStart(host, k)..1 + RecordStart(host, k + 1)], host[PtrOffset(host) + k])
  }

  function HostTensors(host: seq<u64>): (r: seq<Tensor>)
    requires HostReadable(host)
    ensures |r| == RecordCount(host, PtrOffset(host), 0)
    ensures forall k :: 0 <= k < |r| ==> r[k] == TensorAt(host, k)
  {
    seq(RecordCount(host, PtrOffset(host), 0),
        k requires 0 <= k < RecordCount(host, PtrOffset(host), 0) => TensorAt(host, k))
  }

  /** Element count of a shape, in 64-bit arithmetic. */
  function DimProduct(dims: seq<u64>): u64 {
    if dims == [] then 1 else Wrap64(DimProduct(dims[..|dims| - 1]) * dims[|dims| - 1])
  }

  function TensorInfo(t: Tensor, dtypeBytes: u64): AddrInfo {
    AddrInfo(t.addr, Wrap64(DimProduct(t.dims) * dtypeBytes))
  }

  function TensorInfos(ts: seq<Tensor>, dtypeBytes: u64): (r: seq<AddrInfo>)
    ensures |r| == |ts| && forall i :: 0 <= i < |r| ==> r[i] == TensorInfo(ts[i], dtypeBytes)
  {
    seq(|ts|, i requires 0 <= i < |ts| => TensorInfo(ts[i], dtypeBytes))
  }

  /** The entries of the first n tensors. */
  ghost predicate Decoded(host: seq<u64>, n: nat, dtypeBytes: u64, infos: seq<AddrInfo>)
    requires HostReadable(host) && n <= RecordCount(host, PtrOffset(host), 0)
  {
    |infos| == n && forall k :: 0 <= k < n ==> infos[k] == TensorInfo(TensorAt(host, k), dtypeBytes)
  }

  lemma DecodedStep(host: seq<u64>, n: nat, dtypeBytes: u64, infos: seq<AddrInfo>, info: AddrInfo)
    requires HostReadable(host) && n < RecordCount(host, PtrOffset(host), 0)
    requires Decoded(host, n, dtypeBytes, infos) && info == TensorInfo(TensorAt(host, n), dtypeBytes)
    ensures Decoded(host, n + 1, dtypeBytes, infos + [info])
  {
  }

  lemma AllDecoded(host: seq<u64>, dtypeBytes: u64, infos: seq<AddrInfo>)
    requires HostReadable(host) && Decoded(host, RecordCount(host, PtrOffset(host), 0), dtypeBytes, infos)
    ensures infos == TensorInfos(HostTensors(host), dtypeBytes)
  {
  }

  predicate Matches(p: PlaceHolderInfo, index: u32) {
    p.addrOffset / 8 == index
  }

  predicate AllReadable(words: seq<u64>, phs: seq<PlaceHolderInfo>, index: u32) {
    forall i :: 0 <= i < |phs| && Matches(phs[i], index) ==> HostReadable(HostInputs(words, phs[i]))
  }

  function Parsed(words: seq<u64>, phs: seq<PlaceHolderInfo>, index: u32, dtypeBytes: u64): seq<AddrInfo>
    requires AllReadable(words, phs, index)
  {
    if phs == [] then []
    else
      var n := |phs| - 1;
      Parsed(words, phs[..n], index, dtypeBytes)
      + if Matches(phs[n], index) then TensorInfos(HostTensors(HostInputs(words, phs[n])), dtypeBytes) else []
  }

  // ---------------------------------------------------------------- the manager

  class OpMemInfo {
    var secondPtrAddrInfos: map<u64, SecondPtrInfo>

    constructor (infos: map<u64, SecondPtrInfo>)
      ensures secondPtrAddrInfos == infos
    {
      secondPtrAddrInfos := infos;
    }
  }

  class ArgsManager {
    var atomicIndexToAddr: map<u64, AdumpInfo>
    var latestAtomicIndex: u64
    var isThroughAdump: bool

    constructor ()
      ensures atomicIndexToAddr == map[] && latestAtomicIndex == 0 && isThroughAdump
    {
      atomicIndexToAddr, latestAtomicIndex, isThroughAdump := map[], 0, true;
    }

    method AddAdumpInfo(index: u64, info: AdumpInfo)
      modifies this`atomicIndexToAddr, this`latestAtomicIndex
      ensures atomicIndexToAddr == old(atomicIndexToAddr)[index := info]
      ensures latestAtomicIndex == index && latestAtomicIndex in atomicIndexToAddr
    {
      atomicIndexToAddr := atomicIndexToAddr[index := info];
      latestAtomicIndex := index;
    }

    /** The scan with the running counter finds what the plain search finds. */
    method ScanForMagicWord(t: seq<byte>) returns (info: AdumpInfo)
      ensures info == NaiveSearch(atomicIndexToAddr, t, 0)
    {
      var count: nat := 0;
      var i: nat := 4;
      while i < |t|
        invariant Scanned(t, i, count) && (i <= |t| || i == 4)
        invariant NoHitBefore(atomicIndexToAddr, t, i)
      {
        ScanStep(t, i, count);
        if t[i] == 0xA5 {
          count := count + 1;
        } else {
          count := 0;
        }
        i := i + 1;
        if count != 4 || i - 1 < 7 {
          continue;
        }
        var p := i - 8;
        MagicWord(t, p);
        var value := FromLE(t[p..p + 4]);
        var atomicIndex := META_MAGIC_NUM + value;
        if atomicIndex in atomicIndexToAddr {
          NaiveSearchSkips(atomicIndexToAddr, t, 0, p);
          return atomicIndexToAddr[atomicIndex];
        }
        count := count - 1;
      }
      var end := if |t| < 8 then 0 else |t| - 7;
      NaiveSearchSkips(atomicIndexToAddr, t, 0, end);
      return NO_INFO;
    }

    /** For operators other than tik the last word is tried first, without a magic prefix. */
    method GetAdumpInfoFromTilingData(tilingData: seq<byte>, tilingDataSize: nat, isTik: bool)
      returns (info: AdumpInfo)
      requires tilingDataSize <= |tilingData|
      ensures var t := tilingData[..tilingDataSize];
        info == if !isTik && |t| < U64_BYTE_SIZE then NO_INFO
                else if !isTik && WordAt(t, |t| - 8) in atomicIndexToAddr
                then atomicIndexToAddr[WordAt(t, |t| - 8)]
                else NaiveSearch(atomicIndexToAddr, t, 0)
    {
      var t := tilingData[..tilingDataSize];
      if !isTik {
        if tilingDataSize < U64_BYTE_SIZE {
          return NO_INFO;
        }
        var atomicIndex := WordAt(t, tilingDataSize - U64_BYTE_SIZE);
        if atomicIndex in atomicIndexToAddr {
          return atomicIndexToAddr[atomicIndex];
        }
      }
      info := ScanForMagicWord(t);
    }

    /** words is the host argument buffer read as 64-bit words. */
    method ParseSecondPtrAddrs(words: seq<u64>, placeHolderArray: Option<seq<PlaceHolderInfo>>,
                               opMemInfo: OpMemInfo, index: u32)
      requires index in opMemInfo.secondPtrAddrInfos && placeHolderArray.Some? ==>
        AllReadable(words, placeHolderArray.value, index)
      modifies opMemInfo
      ensures index in old(opMemInfo.secondPtrAddrInfos) && placeHolderArray.Some? ==>
        var before := old(opMemInfo.secondPtrAddrInfos);
        opMemInfo.secondPtrAddrInfos == before[index := before[index].(
          addrInfoVec := before[index].addrInfoVec
                         + Parsed(words, placeHolderArray.value, index, before[index].dtypeBytes))]
      ensures index !in old(opMemInfo.secondPtrAddrInfos) || placeHolderArray.None? ==>
        opMemInfo.secondPtrAddrInfos == old(opMemInfo.secondPtrAddrInfos)
    {
      if index !in opMemInfo.secondPtrAddrInfos || placeHolderArray.None? {
        return;
      }
      var phs := placeHolderArray.value;
      var info := opMemInfo.secondPtrAddrInfos[index];
      var added := [];
      for i := 0 to |phs|
        invariant added == Parsed(words, phs[..i], index, info.dtypeBytes)
        invariant opMemInfo.secondPtrAddrInfos == old(opMemInfo.secondPtrAddrInfos)
      {
        assert phs[..i + 1][..i] == phs[..i];
        if phs[i].addrOffset / 8 != index {
          continue;
        }
        var more := ParseHostInputs(HostInputs(words, phs[i]), info.dtypeBytes);
        added := added + more;
      }
      assert phs[..|phs|] == phs;
      opMemInfo.secondPtrAddrInfos :=
        opMemInfo.secondPtrAddrInfos[index := info.(addrInfoVec := info.addrInfoVec + added)];
    }

    method ParseHostInputs(host: seq<u64>, dtypeBytes: u64) returns (infos: seq<AddrInfo>)
      requires HostReadable(host)
      ensures infos == TensorInfos(HostTensors(host), dtypeBytes)
    {
      infos := [];
      ghost var n := RecordCount(host, PtrOffset(host), 0);
      var ptrOffset: int := PtrOffset(host);
      var dimIdx: nat, ptrIdx: nat := 0, 0;
      while ptrOffset > 0 && dimIdx < ptrOffset - 1
        invariant ptrIdx <= n && dimIdx == RecordStart(host, ptrIdx)
        invariant Decoded(host, ptrIdx, dtypeBytes, infos)
        decreases ptrOffset - dimIdx
      {
        var info;
        info, dimIdx := ParseRecord(host, dimIdx, ptrIdx, dtypeBytes);
        DecodedStep(host, ptrIdx, dtypeBytes, infos, info);
        infos := infos + [info];
        ptrIdx := ptrIdx + 1;
      }
      AllDecoded(host, dtypeBytes, infos);
    }

    /** One round of the loop: a record and its pointer. */
    method ParseRecord(host: seq<u64>, dimIdx: nat, ptrIdx: nat, dtypeBytes: u64) returns (info: AddrInfo, next: nat)
      requires host != [] && TensorReadable(host, ptrIdx) && dimIdx == RecordStart(host, ptrIdx)
      ensures info == TensorInfo(TensorAt(host, ptrIdx), dtypeBytes)
      ensures dimIdx < next == RecordStart(host, ptrIdx + 1)
    {
      var dim := RecordDim(host[1 + dimIdx]);
      next := dimIdx + 1;
      info := InfoOf(host[1 + next..1 + next + dim], host[PtrOffset(host) + ptrIdx], dtypeBytes);
      next := next + dim;
    }

    method InfoOf(dims: seq<u64>, addr: u64, dtypeBytes: u64) returns (info: AddrInfo)
      ensures info == TensorInfo(Tensor(dims, addr), dtypeBytes)
    {
      var totalDim: u64 := 1;
      for j := 0 to |dims|
        invariant totalDim == DimProduct(dims[..j])
      {
        assert dims[..j + 1][..j] == dims[..j];
        totalDim := Wrap64(totalDim * dims[j]);
      }
      assert dims[..|dims|] == dims;
      info := AddrInfo(addr, Wrap64(totalDim * dtypeBytes));
    }
  }

  // ---------------------------------------------------------------- the encoding

  /** A record holds the dimension count in its low half and a repeat count, which decoding
      ignores, in its high half; the dimensions follow. */
  function Record(dims: seq<u64>, cnt: u32): (r: seq<u64>)
    requires |dims| < TWO_32
    ensures |r| == 1 + |dims| && RecordDim(r[0]) == |dims| && r[1..] == dims
  {
    [cnt * 0x1_0000_0000 + |dims|] + dims
  }

  predicate Encodable(ts: seq<Tensor>, cnts: seq<u32>) {
    |cnts| == |ts| && forall i :: 0 <= i < |ts| ==> |ts[i].dims| < TWO_32
  }

  function Records(ts: seq<Tensor>, cnts: seq<u32>): seq<u64>
    requires Encodable(ts, cnts)
  {
    if ts == [] then []
    else
      var n := |ts| - 1;
      Records(ts[..n], cnts[..n]) + Record(ts[n].dims, cnts[n])
  }

  function Pointers(ts: seq<Tensor>): (r: seq<u64>)
    ensures |r| == |ts| && forall i :: 0 <= i < |ts| ==> r[i] == ts[i].addr
  {
    seq(|ts|, i requires 0 <= i < |ts| => ts[i].addr)
  }

  /** The byte offset of the pointers, the records, the pointers; what follows is arbitrary. */
  predicate Encodes(host: seq<u64>, ts: seq<Tensor>, cnts: seq<u32>) {
    && Encodable(ts, cnts) && host != []
    && 8 * (1 + |Records(ts, cnts)|) <= host[0] < 8 * (1 + |Records(ts, cnts)|) + 8
    && Records(ts, cnts) <= host[1..]
    && 1 + |Records(ts, cnts)| + |ts| <= |host|
    && forall k :: 0 <= k < |ts| ==> host[1 + |Records(ts, cnts)| + k] == Pointers(ts)[k]
  }

  lemma {:induction false} RecordsPrefix(ts: seq<Tensor>, cnts: seq<u32>, k: nat)
    requires Encodable(ts, cnts) && k <= |ts|
    ensures Records(ts[..k], cnts[..k]) <= Records(ts, cnts)
  {
    if k == |ts| {
      assert ts[..k] == ts && cnts[..k] == cnts;
    } else {
      var n := |ts| - 1;
      RecordsPrefix(ts[..n], cnts[..n], k);
      assert ts[..n][..k] == ts[..k] && cnts[..n][..k] == cnts[..k];
    }
  }

  lemma RecordsStep(ts: seq<Tensor>, cnts: seq<u32>, k: nat)
    requires Encodable(ts, cnts) && k < |ts|
    ensures Records(ts[..k + 1], cnts[..k + 1]) == Records(ts[..k], cnts[..k]) + Record(ts[k].dims, cnts[k])
  {
    assert ts[..k + 1][..k] == ts[..k] && cnts[..k + 1][..k] == cnts[..k];
  }

  /** The words of record k, as they lie in the host words. */
  lemma RecordInHost(host: seq<u64>, ts: seq<Tensor>, cnts: seq<u32>, k: nat)
    requires Encodable(ts, cnts) && host != [] && Records(ts, cnts) <= host[1..] && k < |ts|
    ensures
      var at, dim := |Records(ts[..k], cnts[..k])|, |ts[k].dims|;
      && |Records(ts[..k + 1], cnts[..k + 1])| == at + 1 + dim
      && 2 + at + dim <= |host| && RecordDim(host[1 + at]) == dim && host[2 + at..2 + at + dim] == ts[k].dims
  {
    var before, record := Records(ts[..k], cnts[..k]), Record(ts[k].dims, cnts[k]);
    RecordsPrefix(ts, cnts, k + 1);
    RecordsStep(ts, cnts, k);
    SliceAfterPrefix(host[1..], before, record);
    RecordWords(host, |before|, record, ts[k].dims);
  }

  lemma RecordWords(host: seq<u64>, at: nat, record: seq<u64>, dims: seq<u64>)
    requires host != [] && at + |record| <= |host| - 1 && host[1..][at..at + |record|] == record
    requires |record| == 1 + |dims| && record[1..] == dims
    ensures host[1 + at] == record[0] && host[2 + at..2 + at + |dims|] == dims
  {
    SliceOfSlice(host, 1, |host|, at, at + |record|);
    SliceOfSlice(host, 1 + at, 1 + at + |record|, 1, |record|);
  }

  /** Record k starts where the records in front of it end. */
  lemma {:induction false} RecordStartOfEncoding(host: seq<u64>, ts: seq<Tensor>, cnts: seq<u32>, k: nat)
    requires Encodable(ts, cnts) && host != [] && Records(ts, cnts) <= host[1..] && k <= |ts|
    ensures RecordStart(host, k) == |Records(ts[..k], cnts[..k])|
  {
    if k == 0 {
    } else {
      RecordStartOfEncoding(host, ts, cnts, k - 1);
      RecordInHost(host, ts, cnts, k - 1);
    }
  }

  lemma PointersOfEncoding(host: seq<u64>, ts: seq<Tensor>, cnts: seq<u32>, k: nat)
    requires Encodes(host, ts, cnts) && k < |ts|
    ensures PtrOffset(host) + k < |host| && host[PtrOffset(host) + k] == ts[k].addr
  {
    assert PtrOffset(host) == 1 + |Records(ts, cnts)|;
    assert host[1 + |Records(ts, cnts)| + k] == Pointers(ts)[k];
  }

  lemma TensorAtOfEncoding(host: seq<u64>, ts: seq<Tensor>, cnts: seq<u32>, k: nat)
    requires Encodes(host, ts, cnts) && k < |ts|
    ensures TensorReadable(host, k) && TensorAt(host, k) == ts[k]
  {
    RecordStartOfEncoding(host, ts, cnts, k);
    RecordStartOfEncoding(host, ts, cnts, k + 1);
    RecordInHost(host, ts, cnts, k);
    PointersOfEncoding(host, ts, cnts, k);
    TensorFrom(host, k, |Records(ts[..k], cnts[..k])|, ts[k]);
  }

  lemma TensorFrom(host: seq<u64>, k: nat, at: nat, t: Tensor)
    requires host != [] && RecordStart(host, k) == at && RecordStart(host, k + 1) == at + 1 + |t.dims|
    requires 2 + at + |t.dims| <= |host| && host[2 + at..2 + at + |t.dims|] == t.dims
    requires PtrOffset(host) + k < |host| && host[PtrOffset(host) + k] == t.addr
    ensures TensorReadable(host, k) && TensorAt(host, k) == t
  {
  }

  /** Exactly the records of the list start in front of the pointer area. */
  lemma RecordCountOfEncoding(host: seq<u64>, ts: seq<Tensor>, cnts: seq<u32>)
    requires Encodes(host, ts, cnts)
    ensures RecordCount(host, PtrOffset(host), 0) == |ts|
    ensures RecordStart(host, |ts|) == PtrOffset(host) - 1
  {
    RecordStartOfEncoding(host, ts, cnts, |ts|);
    assert ts[..|ts|] == ts && cnts[..|ts|] == cnts;
    var n := RecordCount(host, PtrOffset(host), 0);
    if n < |ts| {
      RecordStartGrows(host, n, |ts|);
    }
  }

  /** Decoding inverts the encoding of any list of tensors, and the record index ends exactly at
      the pointer area. */
  lemma HostTensorsInvertsEncoding(host: seq<u64>, ts: seq<Tensor>, cnts: seq<u32>)
    requires Encodes(host, ts, cnts)
    ensures HostReadable(host) && HostTensors(host) == ts
    ensures RecordStart(host, |HostTensors(host)|) == PtrOffset(host) - 1
  {
    RecordCountOfEncoding(host, ts, cnts);
    forall k | 0 <= k < |ts| ensures TensorReadable(host, k) && TensorAt(host, k) == ts[k] {
      TensorAtOfEncoding(host, ts, cnts, k);
    }
  }

  function Product(dims: seq<u64>): nat {
    if dims == [] then 1 else Product(dims[..|dims| - 1]) * dims[|dims| - 1]
  }

  lemma WrapMultiple(k: nat, x: nat)
    ensures Wrap64(k * 0x1_0000_0000_0000_0000 + x) == Wrap64(x)
  {
  }

  lemma WrapFactor(a: nat, b: nat)
    ensures Wrap64(Wrap64(a) * b) == Wrap64(a * b)
  {
    var q, r := a / 0x1_0000_0000_0000_0000, Wrap64(a);
    calc {
      a * b;
      (q * 0x1_0000_0000_0000_0000 + r) * b;
      (q * b) * 0x1_0000_0000_0000_0000 + r * b;
    }
    WrapMultiple(q * b, r * b);
  }

  lemma {:induction false} DimProductWraps(dims: seq<u64>)
    ensures DimProduct(dims) == Wrap64(Product(dims))
  {
    if dims == [] {
    } else {
      DimProductWraps(dims[..|dims| - 1]);
      WrapFactor(Product(dims[..|dims| - 1]), dims[|dims| - 1]);
    }
  }

  /** The length recorded for a tensor is its true byte length, taken modulo 2^64. */
  lemma TensorInfoIsByteLength(t: Tensor, dtypeBytes: u64)
    ensures TensorInfo(t, dtypeBytes) == AddrInfo(t.addr, Wrap64(Product(t.dims) * dtypeBytes))
  {
    DimProductWraps(t.dims);
    WrapFactor(Product(t.dims), dtypeBytes);
  }

  /** The entries expected for a list of tensors: address and true byte length, in 64 bits. */
  function ExpectedInfos(ts: seq<Tensor>, dtypeBytes: u64): (r: seq<AddrInfo>)
    ensures |r| == |ts|
    ensures forall i :: 0 <= i < |ts| ==> r[i] == AddrInfo(ts[i].addr, Wrap64(Product(ts[i].dims) * dtypeBytes))
  {
    seq(|ts|, i requires 0 <= i < |ts| => AddrInfo(ts[i].addr, Wrap64(Product(ts[i].dims) * dtypeBytes)))
  }

  lemma InfosAsExpected(ts: seq<Tensor>, dtypeBytes: u64)
    ensures TensorInfos(ts, dtypeBytes) == ExpectedInfos(ts, dtypeBytes)
  {
    forall i | 0 <= i < |ts| ensures TensorInfos(ts, dtypeBytes)[i] == ExpectedInfos(ts, dtypeBytes)[i] {
      TensorInfoIsByteLength(ts[i], dtypeBytes);
    }
  }

  /** The placeholder's slot is the argument word with this index. */
  predicate SlotAt(p: PlaceHolderInfo, index: u32) {
    8 * index <= p.addrOffset < 8 * index + 8
  }

  /** The words from the placeholder's data offset to the end of the buffer are host. */
  predicate DataAt(words: seq<u64>, p: PlaceHolderInfo, host: seq<u64>) {
    && |host| <= |words| && words[|words| - |host|..] == host
    && 8 * (|words| - |host|) <= p.dataOffset < 8 * (|words| - |host|) + 8
  }

  lemma SlotAndDataFound(words: seq<u64>, p: PlaceHolderInfo, host: seq<u64>, index: u32)
    ensures Matches(p, index) <==> SlotAt(p, index)
    ensures DataAt(words, p, host) ==> HostInputs(words, p) == host
  {
  }

  /** What the placeholders of one argument should yield. */
  function MatchingInfos(phs: seq<PlaceHolderInfo>, lists: seq<seq<Tensor>>, index: u32, dtypeBytes: u64): seq<AddrInfo>
    requires |lists| == |phs|
  {
    if phs == [] then []
    else
      var n := |phs| - 1;
      MatchingInfos(phs[..n], lists[..n], index, dtypeBytes)
      + if SlotAt(phs[n], index) then ExpectedInfos(lists[n], dtypeBytes) else []
  }

  predicate LeadsTo(words: seq<u64>, p: PlaceHolderInfo, host: seq<u64>, ts: seq<Tensor>, cnts: seq<u32>) {
    DataAt(words, p, host) && Encodes(host, ts, cnts)
  }

  lemma LeadsToList(words: seq<u64>, p: PlaceHolderInfo, host: seq<u64>, ts: seq<Tensor>, cnts: seq<u32>)
    requires LeadsTo(words, p, host, ts, cnts)
    ensures HostReadable(HostInputs(words, p)) && HostTensors(HostInputs(words, p)) == ts
  {
    SlotAndDataFound(words, p, host, 0);
    HostTensorsInvertsEncoding(host, ts, cnts);
  }

  lemma AllLeadSomewhere(words: seq<u64>, phs: seq<PlaceHolderInfo>, hosts: seq<seq<u64>>, lists: seq<seq<Tensor>>,
                         cnts: seq<seq<u32>>, index: u32)
    requires |hosts| == |lists| == |cnts| == |phs|
    requires forall i :: 0 <= i < |phs| && SlotAt(phs[i], index) ==> LeadsTo(words, phs[i], hosts[i], lists[i], cnts[i])
    ensures AllReadable(words, phs, index)
  {
    forall i | 0 <= i < |phs| && Matches(phs[i], index) ensures HostReadable(HostInputs(words, phs[i])) {
      SlotAndDataFound(words, phs[i], hosts[i], index);
      LeadsToList(words, phs[i], hosts[i], lists[i], cnts[i]);
    }
  }

  /** When every placeholder of the argument leads, by its data offset, to an encoded list, the parser
      reads inside the buffer and yields those lists, in placeholder order, and nothing for the
      placeholders of other arguments. */
  lemma {:induction false} ParsedInvertsEncoding(words: seq<u64>, phs: seq<PlaceHolderInfo>, hosts: seq<seq<u64>>,
                                                 lists: seq<seq<Tensor>>, cnts: seq<seq<u32>>, index: u32,
                                                 dtypeBytes: u64)
    requires |hosts| == |lists| == |cnts| == |phs|
    requires forall i :: 0 <= i < |phs| && SlotAt(phs[i], index) ==> LeadsTo(words, phs[i], hosts[i], lists[i], cnts[i])
    ensures AllReadable(words, phs, index)
    ensures Parsed(words, phs, index, dtypeBytes) == MatchingInfos(phs, lists, index, dtypeBytes)
  {
    AllLeadSomewhere(words, phs, hosts, lists, cnts, index);
    if phs == [] {
    } else {
      var n := |phs| - 1;
      ParsedInvertsEncoding(words, phs[..n], hosts[..n], lists[..n], cnts[..n], index, dtypeBytes);
      SlotAndDataFound(words, phs[n], hosts[n], index);
      if SlotAt(phs[n], index) {
        LeadsToList(words, phs[n], hosts[n], lists[n], cnts[n]);
        InfosAsExpected(lists[n], dtypeBytes);
      }
    }
  }
}
