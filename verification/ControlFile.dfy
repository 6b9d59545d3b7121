/** The control file: bindings of instrumentation functions to instructions, with the function
    names interned, written in the packed layout agreed with the tuning tool. */
module ControlFile {
  import opened Bytes
  import opened Options
  import opened Ustring

  const FUNC_NAME_SEP: byte := 12
  const CTRL_INFO_SIZE: nat := 12
  const FUNC_INFO_SIZE: nat := 6
  const NAME_LIST_SIZE: nat := 4

  type Name = seq<byte>

  /** What Bind is given. */
  datatype Binding = Binding(instrId: u16, name: Name, paraMask: seq<u16>)

  datatype InjectInfo = InjectInfo(instrId: u16, injectFuncId: u16, paraMask: seq<u16>)

  datatype Table = Table(funcNames: seq<Name>, ids: map<Name, u16>, infos: seq<InjectInfo>)

  const EMPTY := Table([], map[], [])

  // ---------------------------------------------------------------- interning

  function Interned(t: Table, name: Name): Table {
    if name in t.ids then t
    else t.(ids := t.ids[name := Wrap16(|t.funcNames|)], funcNames := t.funcNames + [name])
  }

  function Bound(t: Table, b: Binding): Table {
    var t' := Interned(t, b.name);
    t'.(infos := t'.infos + [InjectInfo(b.instrId, t'.ids[b.name], b.paraMask)])
  }

  function BoundAll(bs: seq<Binding>): Table {
    if bs == [] then EMPTY else Bound(BoundAll(bs[..|bs| - 1]), bs[|bs| - 1])
  }

  // ---------------------------------------------------------------- layout

  function MaskBytes(mask: seq<u16>): seq<byte> {
    if mask == [] then [] else MaskBytes(mask[..|mask| - 1]) + ToLE(2, mask[|mask| - 1])
  }

  /** The parameter count is 16 bits wide, and only that many masks are written. */
  function Record(info: InjectInfo): seq<byte> {
    var n := Wrap16(|info.paraMask|);
    ToLE(2, info.instrId) + ToLE(2, info.injectFuncId) + ToLE(2, n) + MaskBytes(info.paraMask[..n])
  }

  function Records(infos: seq<InjectInfo>): seq<byte> {
    if infos == [] then [] else Records(infos[..|infos| - 1]) + Record(infos[|infos| - 1])
  }

  function JoinedNames(t: Table): seq<byte> {
    Join(t.funcNames, [FUNC_NAME_SEP])
  }

  function Header(size: u32, split: u16): (r: seq<byte>)
    ensures |r| == CTRL_INFO_SIZE
  {
    ToLE(4, size) + ToLE(2, 0) + ToLE(2, split) + ToLE(2, 0) + ToLE(2, 0)
  }

  /** tail is what lies in memory behind the joined names; the name list is written with the size
      of its own head added, so four bytes of it follow the names. */
  function Body(t: Table, tail: seq<byte>): seq<byte>
    requires |tail| == NAME_LIST_SIZE
  {
    var names := JoinedNames(t);
    var size := Wrap32(|names| + NAME_LIST_SIZE);
    Records(t.infos) + ToLE(4, size) + (names + tail)[..size]
  }

  function File(t: Table, tail: seq<byte>): seq<byte>
    requires |tail| == NAME_LIST_SIZE
  {
    var body := Body(t, tail);
    Header(Wrap32(|body| + CTRL_INFO_SIZE), Wrap16(|Records(t.infos)|)) + body
  }

  // ---------------------------------------------------------------- the helper as code

  class InjectBindHelper {
    var funcNames: seq<Name>
    var injectFuncIdMap: map<Name, u16>
    var injectInfo: seq<InjectInfo>

    ghost function Model(): Table
      reads this
    {
      Table(funcNames, injectFuncIdMap, injectInfo)
    }

    constructor ()
      ensures Model() == EMPTY
    {
      funcNames, injectFuncIdMap, injectInfo := [], map[], [];
    }

    method Reset()
      modifies this
      ensures Model() == EMPTY
    {
      funcNames, injectFuncIdMap, injectInfo := [], map[], [];
    }

    method Bind(instrId: u16, injectedFuncName: Name, paraMask: seq<u16>)
      modifies this
      ensures Model() == Bound(old(Model()), Binding(instrId, injectedFuncName, paraMask))
    {
      if injectedFuncName !in injectFuncIdMap {
        injectFuncIdMap := injectFuncIdMap[injectedFuncName := Wrap16(|funcNames|)];
        funcNames := funcNames + [injectedFuncName];
      }
      injectInfo := injectInfo + [InjectInfo(instrId, injectFuncIdMap[injectedFuncName], paraMask)];
    }

    method Serialize(tail: seq<byte>) returns (ss: seq<byte>)
      requires |tail| == NAME_LIST_SIZE
      ensures ss == File(Model(), tail)
    {
      var buffer := SerializeRecords();
      var splitOffset1 := Wrap16(|buffer|);
      var funcLists := JoinStrings(funcNames, [FUNC_NAME_SEP]);
      var size := Wrap32(|funcLists| + NAME_LIST_SIZE);
      buffer := buffer + ToLE(4, size);
      buffer := buffer + (funcLists + tail)[..size];
      ss := Header(Wrap32(|buffer| + CTRL_INFO_SIZE), splitOffset1);
      ss := ss + buffer;
    }

    method SerializeRecords() returns (buffer: seq<byte>)
      ensures buffer == Records(injectInfo)
    {
      buffer := [];
      for i := 0 to |injectInfo|
        invariant buffer == Records(injectInfo[..i])
      {
        assert injectInfo[..i + 1][..i] == injectInfo[..i];
        var record := SerializeInfo(injectInfo[i]);
        buffer := buffer + record;
      }
      assert injectInfo[..|injectInfo|] == injectInfo;
    }

    method SerializeInfo(info: InjectInfo) returns (ss: seq<byte>)
      ensures ss == Record(info)
    {
      var paraNum := Wrap16(|info.paraMask|);
      ss := ToLE(2, info.instrId) + ToLE(2, info.injectFuncId) + ToLE(2, paraNum);
      ss := ss + MaskBytes(info.paraMask[..paraNum]);
    }
  }

  // ---------------------------------------------------------------- the reader

  function ReadMask(bytes: seq<byte>): seq<u16>
    requires |bytes| % 2 == 0
  {
    if bytes == [] then []
    else
      var n := |bytes| - 2;
      ReadMask(bytes[..n]) + [Wrap16(FromLE(bytes[n..]))]
  }

  /** Packed records fill the region exactly. */
  function ReadRecords(region: seq<byte>): Option<seq<InjectInfo>> {
    if region == [] then Some([])
    else if |region| < FUNC_INFO_SIZE then None
    else
      var end := FUNC_INFO_SIZE + 2 * Wrap16(FromLE(region[4..6]));
      if |region| < end then None
      else
        var info := InjectInfo(Wrap16(FromLE(region[..2])), Wrap16(FromLE(region[2..4])),
                               ReadMask(region[FUNC_INFO_SIZE..end]));
        Prepend([info], ReadRecords(region[end..]))
  }

  function ToBindings(infos: seq<InjectInfo>, names: seq<Name>): Option<seq<Binding>> {
    if infos == [] then Some([])
    else
      var n := |infos| - 1;
      match ToBindings(infos[..n], names)
      case None => None
      case Some(bs) =>
        if infos[n].injectFuncId >= |names| then None
        else Some(bs + [Binding(infos[n].instrId, names[infos[n].injectFuncId], infos[n].paraMask)])
  }

  /** A reader written from the structures: the size field must be the file length, the records end
      at the split offset, and the name list says how long it is. */
  function ReadFile(file: seq<byte>): Option<seq<Binding>> {
    if |file| < CTRL_INFO_SIZE || FromLE(file[..4]) != |file| then None
    else ReadData(file[CTRL_INFO_SIZE..], FromLE(file[6..8]))
  }

  function ReadData(data: seq<byte>, split: nat): Option<seq<Binding>> {
    if |data| < split + NAME_LIST_SIZE then None
    else ReadParts(data, split, FromLE(data[split..split + NAME_LIST_SIZE]))
  }

  function ReadParts(data: seq<byte>, split: nat, size: nat): Option<seq<Binding>> {
    if size < NAME_LIST_SIZE || |data| < split + size then None
    else
      match ReadRecords(data[..split])
      case None => None
      case Some(infos) => ToBindings(infos, Split(data[split + NAME_LIST_SIZE..split + size], FUNC_NAME_SEP))
  }

  // ---------------------------------------------------------------- interning: results

  ghost predicate Distinct(names: seq<Name>) {
    forall i, j :: 0 <= i < j < |names| ==> names[i] != names[j]
  }

  ghost predicate TableOk(t: Table) {
    && Distinct(t.funcNames)
    && (forall name :: name in t.ids <==> name in t.funcNames)
    && (forall k :: 0 <= k < |t.funcNames| ==> t.ids[t.funcNames[k]] == Wrap16(k))
  }

  ghost predicate InfoOf(t: Table, info: InjectInfo, b: Binding) {
    && info.instrId == b.instrId && info.paraMask == b.paraMask
    && b.name in t.ids && info.injectFuncId == t.ids[b.name]
  }

  /** What a later table still knows of an earlier one. */
  ghost predicate Extends(t: Table, t': Table) {
    t.funcNames <= t'.funcNames && forall m :: m in t.ids ==> m in t'.ids && t'.ids[m] == t.ids[m]
  }

  lemma NewNameOk(t: Table, name: Name)
    requires TableOk(t) && name !in t.ids
    ensures TableOk(Interned(t, name))
  {
    var t' := Interned(t, name);
    DistinctSnoc(t.funcNames, name);
    assert forall m :: m in t'.funcNames <==> m in t.funcNames || m == name;
    forall k | 0 <= k < |t'.funcNames| ensures t'.ids[t'.funcNames[k]] == Wrap16(k) {
      if k < |t.funcNames| {
        assert t.funcNames[k] in t.funcNames;
      }
    }
  }

  lemma DistinctSnoc(names: seq<Name>, name: Name)
    requires Distinct(names) && name !in names
    ensures Distinct(names + [name])
  {
  }

  lemma InternedOk(t: Table, name: Name)
    requires TableOk(t)
    ensures TableOk(Interned(t, name)) && name in Interned(t, name).ids && Extends(t, Interned(t, name))
  {
    if name !in t.ids {
      NewNameOk(t, name);
    }
  }

  lemma InfoStays(t: Table, t': Table, info: InjectInfo, b: Binding)
    requires Extends(t, t') && InfoOf(t, info, b)
    ensures InfoOf(t', info, b)
  {
  }

  /** Record i describes binding i. */
  ghost predicate Describes(t: Table, bs: seq<Binding>) {
    |t.infos| == |bs| && forall i :: 0 <= i < |bs| ==> InfoOf(t, t.infos[i], bs[i])
  }

  lemma BoundDescribes(t: Table, bs: seq<Binding>, b: Binding)
    requires TableOk(t) && Describes(t, bs)
    ensures Describes(Bound(t, b), bs + [b])
  {
    InternedOk(t, b.name);
    var t' := Bound(t, b);
    forall i | 0 <= i < |bs| ensures InfoOf(t', t'.infos[i], (bs + [b])[i]) {
      InfoStays(t, t', t.infos[i], bs[i]);
    }
  }

  /** After any sequence of Bind calls the names are distinct, the map knows exactly them, and
      record i describes binding i. */
  lemma {:induction false} BoundAllOk(bs: seq<Binding>)
    ensures TableOk(BoundAll(bs)) && Describes(BoundAll(bs), bs)
    ensures |BoundAll(bs).funcNames| <= |bs|
  {
    if bs == [] {
    } else {
      var init, b := bs[..|bs| - 1], bs[|bs| - 1];
      BoundAllOk(init);
      InternedOk(BoundAll(init), b.name);
      BoundDescribes(BoundAll(init), init, b);
      assert bs == init + [b];
    }
  }

  /** Every name in the table was bound. */
  lemma {:induction false} NameWasBound(bs: seq<Binding>, name: Name) returns (i: nat)
    requires name in BoundAll(bs).funcNames
    ensures i < |bs| && bs[i].name == name
  {
    var n := |bs| - 1;
    if bs[n].name == name {
      i := n;
    } else {
      i := NameWasBound(bs[..n], name);
    }
  }

  /** Name table and id map are mutually inverse exactly as long as the ids fit in 16 bits. */
  lemma TablesInverseExactly(bs: seq<Binding>)
    ensures var t := BoundAll(bs);
      && (forall k :: 0 <= k < |t.funcNames| ==> t.funcNames[k] in t.ids)
      && ((forall k :: 0 <= k < |t.funcNames| ==> t.ids[t.funcNames[k]] == k) <==> |t.funcNames| <= TWO_16)
  {
    BoundAllOk(bs);
    var t := BoundAll(bs);
    if |t.funcNames| > TWO_16 {
      assert t.ids[t.funcNames[TWO_16]] == Wrap16(TWO_16) != TWO_16;
    }
  }
}
