/** What a successful load guarantees, and which string tables are read back. */
module ElfProperties {
  import opened Bytes
  import opened ElfLoaders
  import opened Ustring

  /** In an image that loads, the count in front of the last index cannot underflow and every section
      header lies inside the image. */
  lemma HeadersInside(image: seq<byte>, idx: nat)
    requires Loadable(image) && idx < Header(image).shnum
    ensures LastSectionIndex(Header(image)) == Header(image).shnum - 1
    ensures SectionOffset(Header(image), idx) + SHDR_SIZE <= |image|
  {
    assert SectionAt(image, Header(image), idx).Some?;
  }

  /** idx is the last entry with its name. */
  ghost predicate LastWithName(entries: seq<Entry>, idx: nat) {
    idx < |entries| && forall j :: idx < j < |entries| ==> entries[j].name != entries[idx].name
  }

  lemma {:induction false} EnteredIsLastWins(entries: seq<Entry>, name: seq<byte>) returns (idx: nat)
    ensures name in Entered(map[], entries) ==>
      && LastWithName(entries, idx) && entries[idx].name == name
      && Entered(map[], entries)[name] == entries[idx].header
    ensures name !in Entered(map[], entries) ==> forall i :: 0 <= i < |entries| ==> entries[i].name != name
  {
    idx := 0;
    if entries == [] {
    } else {
      var n := |entries| - 1;
      if entries[n].name == name {
        idx := n;
      } else {
        idx := EnteredIsLastWins(entries[..n], name);
      }
    }
  }

  /** The map knows exactly the names of the entries, each with its last header. */
  ghost predicate IsLastWins(entries: seq<Entry>, m: map<seq<byte>, Shdr>) {
    && (forall i :: 0 <= i < |entries| ==> entries[i].name in m)
    && (forall name :: name in m ==> HasLast(entries, name, m[name]))
  }

  ghost predicate HasLast(entries: seq<Entry>, name: seq<byte>, header: Shdr) {
    exists idx: nat :: LastWithName(entries, idx) && entries[idx].name == name && entries[idx].header == header
  }

  lemma EnteredLastWins(entries: seq<Entry>)
    ensures IsLastWins(entries, Entered(map[], entries))
  {
    var m := Entered(map[], entries);
    forall i | 0 <= i < |entries| ensures entries[i].name in m {
      var _ := EnteredIsLastWins(entries, entries[i].name);
    }
    forall name | name in m ensures HasLast(entries, name, m[name]) {
      var idx := EnteredIsLastWins(entries, name);
      assert LastWithName(entries, idx);
    }
  }

  predicate AllHeadersInside(image: seq<byte>, h: Ehdr) {
    forall idx :: 0 <= idx < h.shnum ==> SectionOffset(h, idx) + SHDR_SIZE <= |image|
  }

  /** What a successful load into a fresh loader means. */
  ghost predicate LoadedAs(image: seq<byte>, m: map<seq<byte>, Shdr>)
    requires SafelyReadable(image) && Loadable(image)
  {
    var h := Header(image);
    AllHeadersInside(image, h) && IsLastWins(Entries(image, h, h.shnum), m)
  }

  lemma LoadedSections(image: seq<byte>)
    requires SafelyReadable(image) && Loadable(image)
    ensures LoadedAs(image, Entered(map[], Entries(image, Header(image), Header(image).shnum)))
  {
    forall idx | 0 <= idx < Header(image).shnum ensures SectionOffset(Header(image), idx) + SHDR_SIZE <= |image| {
      HeadersInside(image, idx);
    }
    EnteredLastWins(Entries(image, Header(image), Header(image).shnum));
  }

  /** Loading into a fresh loader succeeds exactly for a loadable image. Then all section headers lie
      inside it, and the loader knows exactly the names in the section table, each with its last header. */
  method LoadFresh(image: seq<byte>) returns (ok: bool, loader: ElfLoader)
    requires SafelyReadable(image)
    ensures fresh(loader) && (ok <==> Loadable(image))
    ensures ok ==> LoadedAs(image, loader.sections)
  {
    loader := new ElfLoader();
    ok := loader.FromBuffer(image);
    if ok {
      LoadedSections(image);
    }
  }

  // ---------------------------------------------------------------- string tables

  /** The layout of a string table: a NUL, then every string with a NUL behind it. */
  function Layout(strs: seq<seq<byte>>): seq<byte> {
    if strs == [] then [NUL] else Layout(strs[..|strs| - 1]) + strs[|strs| - 1] + [NUL]
  }

  lemma {:induction false} LayoutIsJoin(strs: seq<seq<byte>>)
    requires strs != []
    ensures Layout(strs) == [NUL] + Join(strs, [NUL]) + [NUL]
  {
    var init, last := strs[..|strs| - 1], strs[|strs| - 1];
    if init == [] {
      assert strs == [last];
    } else {
      LayoutIsJoin(init);
      JoinSnoc(init, [NUL], last);
      assert strs == init + [last];
    }
  }

  /** The section starts inside the buffer and holds the layout. */
  predicate Holds(buffer: seq<byte>, s: Shdr, strs: seq<seq<byte>>) {
    s.shSize == |Layout(strs)| && s.shOffset + s.shSize <= |buffer|
    && buffer[s.shOffset..s.shOffset + s.shSize] == Layout(strs)
  }

  lemma SectionData(buffer: seq<byte>, off: nat, joined: seq<byte>)
    requires off + |joined| + 2 <= |buffer|
    requires buffer[off..off + |joined| + 2] == [NUL] + joined + [NUL]
    ensures buffer[off] == NUL && buffer[off + 1..][..|joined|] == joined
  {
    var section := buffer[off..off + |joined| + 2];
    assert section[0] == NUL && section[1..1 + |joined|] == joined;
    SliceOfSlice(buffer, off, off + |joined| + 2, 1, 1 + |joined|);
    assert buffer[off + 1..][..|joined|] == buffer[off + 1..off + 1 + |joined|];
  }

  /** ReadStringTable undoes the layout of any list of NUL-free strings if and only if the list is
      empty or does not end in an empty string. */
  lemma StringTableExactly(buffer: seq<byte>, s: Shdr, strs: seq<seq<byte>>)
    requires NoneContain(strs, NUL) && Holds(buffer, s, strs)
    ensures StringTable(buffer, s) == strs <==> strs == [] || Last(strs) != []
  {
    if strs == [] {
      assert buffer[s.shOffset] == buffer[s.shOffset..s.shOffset + 1][0];
    } else {
      var joined := Join(strs, [NUL]);
      LayoutIsJoin(strs);
      SectionData(buffer, s.shOffset, joined);
      SplitInvertsJoinIff(strs, NUL);
      if joined == [] {
        assert Split(joined, NUL) == [];
      }
    }
  }

  lemma SplitEmptyExactly(s: seq<byte>)
    ensures Split(s, NUL) == [] <==> s == []
  {
  }

  /** Strings come out exactly of a section that begins with a NUL and has a third byte, both by its
      size and inside the buffer. */
  lemma StringTableNonEmptyExactly(buffer: seq<byte>, s: Shdr)
    requires s.shOffset <= |buffer|
    ensures StringTable(buffer, s) != []
       <==> s.shSize >= 3 && s.shOffset + 3 <= |buffer| && buffer[s.shOffset] == NUL
  {
    if s.shSize >= 3 && s.shOffset + 3 <= |buffer| {
      SplitEmptyExactly(buffer[s.shOffset + 1..][..Min(s.shSize - 2, |buffer| - s.shOffset - 2)]);
    }
  }

  /** A section that claims to go beyond the buffer reads as if it ended with the buffer. */
  lemma StringTableCutOff(buffer: seq<byte>, s: Shdr)
    requires s.shOffset <= |buffer| < s.shOffset + s.shSize
    ensures StringTable(buffer, s) == StringTable(buffer, s.(shSize := |buffer| - s.shOffset))
  {
  }
}
