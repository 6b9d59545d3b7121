/** The round trip of the control file, and exactly when it succeeds. */
module ControlFileProperties {
  import opened Bytes
  import opened ControlFile
  import opened Options
  import opened Ustring

  /** The space all records need when nothing is truncated. */
  function BlockSize(bs: seq<Binding>): nat {
    if bs == [] then 0
    else BlockSize(bs[..|bs| - 1]) + FUNC_INFO_SIZE + 2 * |bs[|bs| - 1].paraMask|
  }

  function InfosSize(infos: seq<InjectInfo>): nat {
    if infos == [] then 0
    else InfosSize(infos[..|infos| - 1]) + FUNC_INFO_SIZE + 2 * |infos[|infos| - 1].paraMask|
  }

  // ---------------------------------------------------------------- records

  lemma ReadMaskSnoc(bytes: seq<byte>, m: u16)
    requires |bytes| % 2 == 0
    ensures ReadMask(bytes + ToLE(2, m)) == ReadMask(bytes) + [m]
  {
    var all := bytes + ToLE(2, m);
    RadixValues();
    FromToLE(2, m);
    assert all[..|all| - 2] == bytes && all[|all| - 2..] == ToLE(2, m);
  }

  lemma {:induction false} MaskBytesSize(mask: seq<u16>)
    ensures |MaskBytes(mask)| == 2 * |mask|
  {
    if mask == [] {
    } else {
      MaskBytesSize(mask[..|mask| - 1]);
    }
  }

  lemma {:induction false} MaskRoundTrip(mask: seq<u16>)
    ensures |MaskBytes(mask)| % 2 == 0 && ReadMask(MaskBytes(mask)) == mask
  {
    MaskBytesSize(mask);
    if mask == [] {
    } else {
      var init, last := mask[..|mask| - 1], mask[|mask| - 1];
      MaskBytesSize(init);
      calc {
        ReadMask(MaskBytes(mask));
        ReadMask(MaskBytes(init) + ToLE(2, last));
        { ReadMaskSnoc(MaskBytes(init), last); }
        ReadMask(MaskBytes(init)) + [last];
        { MaskRoundTrip(init); }
        init + [last];
        mask;
      }
    }
  }

  lemma RecordSize(info: InjectInfo)
    requires |info.paraMask| < TWO_16
    ensures Record(info) == ToLE(2, info.instrId) + ToLE(2, info.injectFuncId) + ToLE(2, |info.paraMask|)
                            + MaskBytes(info.paraMask)
    ensures |Record(info)| == FUNC_INFO_SIZE + 2 * |info.paraMask|
  {
    MaskBytesSize(info.paraMask);
    assert info.paraMask[..|info.paraMask|] == info.paraMask;
  }

  /** The fields of a record at the front of a region. */
  lemma RecordFields(info: InjectInfo, rest: seq<byte>)
    requires |info.paraMask| < TWO_16
    ensures var region, end := Record(info) + rest, FUNC_INFO_SIZE + 2 * |info.paraMask|;
      && |region| >= end && region[end..] == rest
      && region[..2] == ToLE(2, info.instrId) && region[2..4] == ToLE(2, info.injectFuncId)
      && region[4..6] == ToLE(2, |info.paraMask|) && region[FUNC_INFO_SIZE..end] == MaskBytes(info.paraMask)
  {
    RecordSize(info);
  }

  lemma RecordRead(info: InjectInfo, rest: seq<byte>)
    requires |info.paraMask| < TWO_16
    ensures ReadRecords(Record(info) + rest) == Prepend([info], ReadRecords(rest))
  {
    RecordFields(info, rest);
    RadixValues();
    FromToLE(2, info.instrId);
    FromToLE(2, info.injectFuncId);
    FromToLE(2, |info.paraMask|);
    MaskRoundTrip(info.paraMask);
  }

  predicate MasksFit(infos: seq<InjectInfo>) {
    forall i :: 0 <= i < |infos| ==> |infos[i].paraMask| < TWO_16
  }

  lemma {:induction false} RecordsSize(infos: seq<InjectInfo>)
    requires MasksFit(infos)
    ensures |Records(infos)| == InfosSize(infos)
  {
    if infos == [] {
    } else {
      RecordsSize(infos[..|infos| - 1]);
      RecordSize(infos[|infos| - 1]);
    }
  }

  lemma RecordsConcat(init: seq<InjectInfo>, info: InjectInfo, rest: seq<byte>)
    ensures Records(init + [info]) + rest == Records(init) + (Record(info) + rest)
  {
    assert (init + [info])[..|init|] == init;
  }

  lemma {:induction false} RecordsReadThen(infos: seq<InjectInfo>, rest: seq<byte>)
    requires MasksFit(infos)
    ensures ReadRecords(Records(infos) + rest) == Prepend(infos, ReadRecords(rest))
  {
    if infos == [] {
      assert Records(infos) + rest == rest;
      PrependConcat([], [], ReadRecords(rest));
    } else {
      var init, info := infos[..|infos| - 1], infos[|infos| - 1];
      var record, more := Record(info), ReadRecords(rest);
      assert init + [info] == infos;
      RecordsConcat(init, info, rest);
      calc {
        ReadRecords(Records(infos) + rest);
        ReadRecords(Records(init) + (record + rest));
        { RecordsReadThen(init, record + rest); }
        Prepend(init, ReadRecords(record + rest));
        { RecordRead(info, rest); }
        Prepend(init, Prepend([info], more));
        { PrependConcat(init, [info], more); }
        Prepend(infos, more);
      }
    }
  }

  /** Reading inverts writing for any records whose masks fit their counts. */
  lemma RecordsRead(infos: seq<InjectInfo>)
    requires MasksFit(infos)
    ensures ReadRecords(Records(infos)) == Some(infos)
  {
    RecordsReadThen(infos, []);
    assert Records(infos) + [] == Records(infos) && infos + [] == infos;
  }

  lemma {:induction false} InfosSizeConcat(a: seq<InjectInfo>, b: seq<InjectInfo>)
    ensures InfosSize(a + b) == InfosSize(a) + InfosSize(b)
  {
    if b == [] {
      assert a + b == a;
    } else {
      InfosSizeConcat(a, b[..|b| - 1]);
      assert (a + b)[..|a + b| - 1] == a + b[..|b| - 1];
    }
  }

  lemma {:induction false} ReadMaskLength(bytes: seq<byte>)
    requires |bytes| % 2 == 0
    ensures 2 * |ReadMask(bytes)| == |bytes|
    decreases |bytes|
  {
    if bytes == [] {
    } else {
      ReadMaskLength(bytes[..|bytes| - 2]);
    }
  }

  /** Records that are read account for every byte of their region. */
  lemma {:induction false} ReadRecordsFillRegion(region: seq<byte>)
    requires ReadRecords(region).Some?
    ensures InfosSize(ReadRecords(region).value) == |region|
    decreases |region|
  {
    if region == [] {
    } else {
      var end := FUNC_INFO_SIZE + 2 * Wrap16(FromLE(region[4..6]));
      var info := InjectInfo(Wrap16(FromLE(region[..2])), Wrap16(FromLE(region[2..4])),
                             ReadMask(region[FUNC_INFO_SIZE..end]));
      ReadRecordsFillRegion(region[end..]);
      ReadMaskLength(region[FUNC_INFO_SIZE..end]);
      InfosSizeConcat([info], ReadRecords(region[end..]).value);
      assert [info][..0] == [];
      assert InfosSize([info]) == end;
    }
  }

  // ---------------------------------------------------------------- bindings

  lemma {:induction false} ToBindingsInverts(infos: seq<InjectInfo>, t: Table, bs: seq<Binding>)
    requires TableOk(t) && |t.funcNames| <= TWO_16 && |infos| == |bs|
    requires forall i :: 0 <= i < |bs| ==> InfoOf(t, infos[i], bs[i])
    ensures ToBindings(infos, t.funcNames) == Some(bs)
  {
    if bs == [] {
    } else {
      var n := |bs| - 1;
      ToBindingsInverts(infos[..n], t, bs[..n]);
      assert InfoOf(t, infos[n], bs[n]);
      var k :| 0 <= k < |t.funcNames| && t.funcNames[k] == bs[n].name;
      assert bs == bs[..n] + [bs[n]];
    }
  }

  lemma {:induction false} ToBindingsKeepsMasks(infos: seq<InjectInfo>, names: seq<Name>)
    requires ToBindings(infos, names).Some?
    ensures |ToBindings(infos, names).value| == |infos|
    ensures BlockSize(ToBindings(infos, names).value) == InfosSize(infos)
  {
    if infos == [] {
    } else {
      var n := |infos| - 1;
      ToBindingsKeepsMasks(infos[..n], names);
      var bs := ToBindings(infos, names).value;
      assert bs[..n] == ToBindings(infos[..n], names).value;
    }
  }

  lemma {:induction false} ToBindingsNames(infos: seq<InjectInfo>, names: seq<Name>)
    requires ToBindings(infos, names).Some?
    ensures forall i :: 0 <= i < |ToBindings(infos, names).value| ==> ToBindings(infos, names).value[i].name in names
  {
    if infos == [] {
    } else {
      ToBindingsNames(infos[..|infos| - 1], names);
    }
  }

  lemma {:induction false} SizesOfTable(bs: seq<Binding>, infos: seq<InjectInfo>)
    requires |infos| == |bs| && forall i :: 0 <= i < |bs| ==> infos[i].paraMask == bs[i].paraMask
    ensures InfosSize(infos) == BlockSize(bs)
    ensures FUNC_INFO_SIZE * |bs| <= BlockSize(bs)
    ensures forall i :: 0 <= i < |bs| ==> 2 * |bs[i].paraMask| <= BlockSize(bs)
  {
    if bs == [] {
    } else {
      var n := |bs| - 1;
      SizesOfTable(bs[..n], infos[..n]);
      assert forall i :: 0 <= i < n ==> bs[..n][i] == bs[i];
    }
  }

  // ---------------------------------------------------------------- the file

  /** The parts of a file whose sizes fit their fields. */
  lemma FileParts(t: Table, tail: seq<byte>)
    requires |tail| == NAME_LIST_SIZE
    requires |Records(t.infos)| + |JoinedNames(t)| + 20 < TWO_32
    ensures
      var file, records, names := File(t, tail), Records(t.infos), JoinedNames(t);
      && |file| == CTRL_INFO_SIZE + |records| + NAME_LIST_SIZE + |names| + NAME_LIST_SIZE
      && file[..4] == ToLE(4, |file|)
      && file[4..6] == ToLE(2, 0) && file[6..8] == ToLE(2, Wrap16(|records|)) && file[8..CTRL_INFO_SIZE] == Zeros(4)
      && file[CTRL_INFO_SIZE..] == records + ToLE(4, |names| + NAME_LIST_SIZE) + (names + tail)
  {
    var names := JoinedNames(t);
    assert (names + tail)[..|names| + NAME_LIST_SIZE] == names + tail;
    var body := Body(t, tail);
    var header := Header(Wrap32(|body| + CTRL_INFO_SIZE), Wrap16(|Records(t.infos)|));
    assert header[..4] == ToLE(4, |body| + CTRL_INFO_SIZE);
    assert header[4..6] == ToLE(2, 0) && header[6..8] == ToLE(2, Wrap16(|Records(t.infos)|));
    TwoZeros();
    assert header[8..] == ToLE(2, 0) + ToLE(2, 0);
    HeaderSlices(header, body);
  }

  lemma TwoZeros()
    ensures ToLE(2, 0) + ToLE(2, 0) == Zeros(4)
  {
    assert ToLE(2, 0) == [0] + ToLE(1, 0) && ToLE(1, 0) == [0] + ToLE(0, 0);
  }

  lemma HeaderSlices(header: seq<byte>, body: seq<byte>)
    requires |header| == CTRL_INFO_SIZE
    ensures var file := header + body;
      && file[..4] == header[..4] && file[4..6] == header[4..6] && file[6..8] == header[6..8]
      && file[8..CTRL_INFO_SIZE] == header[8..] && file[CTRL_INFO_SIZE..] == body
  {
  }

  /** The size field holds the length of the file; version and reserved fields are zero. */
  lemma SizeFieldIsFileLength(bs: seq<Binding>, tail: seq<byte>)
    requires |tail| == NAME_LIST_SIZE
    requires |Records(BoundAll(bs).infos)| + |JoinedNames(BoundAll(bs))| + 20 < TWO_32
    ensures |File(BoundAll(bs), tail)| >= CTRL_INFO_SIZE
    ensures FromLE(File(BoundAll(bs), tail)[..4]) == |File(BoundAll(bs), tail)|
    ensures FromLE(File(BoundAll(bs), tail)[4..6]) == 0 && File(BoundAll(bs), tail)[8..CTRL_INFO_SIZE] == Zeros(4)
  {
    FileParts(BoundAll(bs), tail);
    FromToLE(2, 0);
    RadixValues();
    FromToLE(4, |File(BoundAll(bs), tail)|);
  }

  predicate NamesSeparable(bs: seq<Binding>) {
    forall i :: 0 <= i < |bs| ==> FUNC_NAME_SEP !in bs[i].name
  }

  /** The name that was interned last, which is the last one in the file, is not empty. */
  predicate LastNameUsable(bs: seq<Binding>) {
    BoundAll(bs).funcNames == [] || Last(BoundAll(bs).funcNames) != []
  }

  /** The joined names split back into the name table if and only if the last one is not empty. */
  lemma NamesSplitBack(bs: seq<Binding>)
    requires NamesSeparable(bs)
    ensures Split(JoinedNames(BoundAll(bs)), FUNC_NAME_SEP) == BoundAll(bs).funcNames <==> LastNameUsable(bs)
    ensures Split(JoinedNames(BoundAll(bs)), FUNC_NAME_SEP) == WithoutTrailingEmpty(BoundAll(bs).funcNames)
  {
    var names := BoundAll(bs).funcNames;
    forall k | 0 <= k < |names| ensures FUNC_NAME_SEP !in names[k] {
      assert names[k] in names;
      var i := NameWasBound(bs, names[k]);
    }
    SplitInvertsJoinIff(names, FUNC_NAME_SEP);
    SplitOfJoin(names, FUNC_NAME_SEP);
  }

  lemma DataSlices(records: seq<byte>, head: seq<byte>, names: seq<byte>, tail: seq<byte>)
    requires |head| == |tail| == NAME_LIST_SIZE
    ensures var data, split := records + head + (names + tail), |records|;
      && data[..split] == records && data[split..split + NAME_LIST_SIZE] == head
      && data[split + NAME_LIST_SIZE..split + (|names| + NAME_LIST_SIZE)] == names
  {
  }

  /** The data area when the split offset and the list size are right. */
  lemma PartsRead(data: seq<byte>, split: nat, size: nat, infos: seq<InjectInfo>, names: seq<byte>)
    requires size == |names| + NAME_LIST_SIZE && split + size + NAME_LIST_SIZE <= |data|
    requires ReadRecords(data[..split]) == Some(infos)
    requires data[split + NAME_LIST_SIZE..split + size] == names
    ensures ReadParts(data, split, size) == ToBindings(infos, Split(names, FUNC_NAME_SEP))
  {
  }

  lemma RecordsOfBindings(bs: seq<Binding>)
    requires BlockSize(bs) < TWO_16
    ensures var t := BoundAll(bs);
      |Records(t.infos)| == BlockSize(bs) && ReadRecords(Records(t.infos)) == Some(t.infos) && |t.funcNames| <= TWO_16
  {
    var t := BoundAll(bs);
    BoundAllOk(bs);
    forall i | 0 <= i < |bs| ensures t.infos[i].paraMask == bs[i].paraMask {
      assert InfoOf(t, t.infos[i], bs[i]);
    }
    SizesOfTable(bs, t.infos);
    RecordsSize(t.infos);
    RecordsRead(t.infos);
  }

  lemma FileReadsData(t: Table, tail: seq<byte>)
    requires |tail| == NAME_LIST_SIZE && |Records(t.infos)| < TWO_16
    requires |Records(t.infos)| + |JoinedNames(t)| + 20 < TWO_32
    ensures var names := JoinedNames(t);
      ReadFile(File(t, tail))
      == ReadData(Records(t.infos) + ToLE(4, |names| + NAME_LIST_SIZE) + (names + tail), |Records(t.infos)|)
  {
    FileParts(t, tail);
    RadixValues();
    FromToLE(4, |File(t, tail)|);
    FromToLE(2, |Records(t.infos)|);
  }

  lemma FittingFileReads(bs: seq<Binding>, tail: seq<byte>)
    requires |tail| == NAME_LIST_SIZE && BlockSize(bs) < TWO_16
    requires |Records(BoundAll(bs).infos)| + |JoinedNames(BoundAll(bs))| + 20 < TWO_32
    ensures ReadFile(File(BoundAll(bs), tail))
         == ToBindings(BoundAll(bs).infos, Split(JoinedNames(BoundAll(bs)), FUNC_NAME_SEP))
  {
    RecordsOfBindings(bs);
    TableFileReads(BoundAll(bs), tail);
  }

  lemma TableFileReads(t: Table, tail: seq<byte>)
    requires |tail| == NAME_LIST_SIZE && |Records(t.infos)| < TWO_16 && ReadRecords(Records(t.infos)) == Some(t.infos)
    requires |Records(t.infos)| + |JoinedNames(t)| + 20 < TWO_32
    ensures ReadFile(File(t, tail)) == ToBindings(t.infos, Split(JoinedNames(t), FUNC_NAME_SEP))
  {
    var read := ReadFile(File(t, tail));
    assert read == ReadData(Records(t.infos) + ToLE(4, |JoinedNames(t)| + NAME_LIST_SIZE) + (JoinedNames(t) + tail),
                            |Records(t.infos)|) by {
      FileReadsData(t, tail);
    }
    PartsOfData(Records(t.infos), t.infos, JoinedNames(t), tail);
  }

  lemma PartsOfData(records: seq<byte>, infos: seq<InjectInfo>, names: seq<byte>, tail: seq<byte>)
    requires |tail| == NAME_LIST_SIZE && ReadRecords(records) == Some(infos) && |names| + NAME_LIST_SIZE < TWO_32
    ensures ReadData(records + ToLE(4, |names| + NAME_LIST_SIZE) + (names + tail), |records|)
         == ToBindings(infos, Split(names, FUNC_NAME_SEP))
  {
    var head := ToLE(4, |names| + NAME_LIST_SIZE);
    RadixValues();
    FromToLE(4, |names| + NAME_LIST_SIZE);
    DataSlices(records, head, names, tail);
    PartsRead(records + head + (names + tail), |records|, |names| + NAME_LIST_SIZE, infos, names);
  }

  lemma {:induction false} UnknownIdUnreadable(infos: seq<InjectInfo>, names: seq<Name>, i: nat)
    requires i < |infos| && infos[i].injectFuncId >= |names|
    ensures ToBindings(infos, names) == None
  {
    var n := |infos| - 1;
    if i == n {
    } else {
      UnknownIdUnreadable(infos[..n], names, i);
    }
  }

  /** When the last name is empty, the reader misses it, and with it every binding to that name. */
  lemma EmptyLastNameUnreadable(bs: seq<Binding>)
    requires !LastNameUsable(bs) && |BoundAll(bs).funcNames| <= TWO_16
    ensures ToBindings(BoundAll(bs).infos, WithoutTrailingEmpty(BoundAll(bs).funcNames)) == None
  {
    var t := BoundAll(bs);
    BoundAllOk(bs);
    var last := |t.funcNames| - 1;
    assert t.funcNames[last] in t.funcNames;
    var i := NameWasBound(bs, t.funcNames[last]);
    assert InfoOf(t, t.infos[i], bs[i]);
    UnknownIdUnreadable(t.infos, WithoutTrailingEmpty(t.funcNames), i);
  }

  lemma FittingFileExactly(bs: seq<Binding>, tail: seq<byte>)
    requires |tail| == NAME_LIST_SIZE && NamesSeparable(bs) && BlockSize(bs) < TWO_16
    requires |Records(BoundAll(bs).infos)| + |JoinedNames(BoundAll(bs))| + 20 < TWO_32
    ensures ReadFile(File(BoundAll(bs), tail)) == Some(bs) <==> LastNameUsable(bs)
  {
    BoundAllOk(bs);
    RecordsOfBindings(bs);
    FittingFileReads(bs, tail);
    NamesSplitBack(bs);
    if LastNameUsable(bs) {
      ToBindingsInverts(BoundAll(bs).infos, BoundAll(bs), bs);
    } else {
      EmptyLastNameUnreadable(bs);
    }
  }

  /** What is read back was small enough, and has no separator in a name. */
  lemma ReadBackFits(file: seq<byte>, bs: seq<Binding>)
    requires ReadFile(file) == Some(bs)
    ensures BlockSize(bs) < TWO_16 && NamesSeparable(bs)
  {
    var data, split := file[CTRL_INFO_SIZE..], FromLE(file[6..8]);
    RadixValues();
    ToFromLE(file[6..8]);
    ReadPartsFit(data, split, FromLE(data[split..split + NAME_LIST_SIZE]), bs);
  }

  lemma ReadPartsFit(data: seq<byte>, split: nat, size: nat, bs: seq<Binding>)
    requires ReadParts(data, split, size) == Some(bs) && split < TWO_16
    ensures BlockSize(bs) < TWO_16 && NamesSeparable(bs)
  {
    var infos := ReadRecords(data[..split]).value;
    var joined := data[split + NAME_LIST_SIZE..split + size];
    var names := Split(joined, FUNC_NAME_SEP);
    ReadRecordsFillRegion(data[..split]);
    ToBindingsKeepsMasks(infos, names);
    ToBindingsNames(infos, names);
    SplitTokensClean(joined, FUNC_NAME_SEP);
  }

  /** The round trip: for any sequence of Bind calls, whatever bytes follow the joined names in memory,
      reading the file yields the same list of bindings if and only if no name holds the separator,
      the untruncated records take less than 65536 bytes, and the name interned last is not empty. */
  lemma RoundTripExactly(bs: seq<Binding>, tail: seq<byte>)
    requires |tail| == NAME_LIST_SIZE
    requires |Records(BoundAll(bs).infos)| + |JoinedNames(BoundAll(bs))| + 20 < TWO_32
    ensures ReadFile(File(BoundAll(bs), tail)) == Some(bs)
       <==> NamesSeparable(bs) && BlockSize(bs) < TWO_16 && LastNameUsable(bs)
  {
    if NamesSeparable(bs) && BlockSize(bs) < TWO_16 {
      FittingFileExactly(bs, tail);
    } else if ReadFile(File(BoundAll(bs), tail)) == Some(bs) {
      ReadBackFits(File(BoundAll(bs), tail), bs);
    }
  }
}
