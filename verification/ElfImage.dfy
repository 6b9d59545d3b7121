/** Writing ELF images field by field, after the System V ABI, chapter 4, sections "ELF Header" and
    "Sections"; and that the loader is the inverse. */
module ElfImages {
  import opened Bytes
  import opened ElfLoaders
  import opened ElfProperties
  import opened Options

  // ---------------------------------------------------------------- section headers

  /** The fields of a section header in their order. */
  datatype SectionFields = SectionFields(name: u32, kind: u32, flags: u64, addr: u64, offset: u64, size: u64,
                                         link: u32, info: u32, addralign: u64, entsize: u64)

  function HeaderBytes(f: SectionFields): (b: seq<byte>)
    ensures |b| == SHDR_SIZE
  {
    ToLE(4, f.name) + ToLE(4, f.kind) + ToLE(8, f.flags) + ToLE(8, f.addr) + ToLE(8, f.offset) + ToLE(8, f.size)
    + ToLE(4, f.link) + ToLE(4, f.info) + ToLE(8, f.addralign) + ToLE(8, f.entsize)
  }

  function HeaderOf(f: SectionFields): Shdr {
    Shdr(f.name, f.offset, f.size, HeaderBytes(f))
  }

  lemma FieldOf(b: seq<byte>, before: seq<byte>, n: nat, v: nat, after: seq<byte>)
    requires v < Radix(n) && b == before + ToLE(n, v) + after
    ensures Field(b, |before|, n) == v
  {
    FromToLE(n, v);
    assert b[|before|..|before| + n] == ToLE(n, v);
  }

  /** The loader reads name, offset and size of a section from where they were written. */
  lemma HeaderParsed(f: SectionFields)
    ensures ParseShdr(HeaderBytes(f)) == HeaderOf(f)
  {
    var b := HeaderBytes(f);
    RadixValues();
    var p24 := ToLE(4, f.name) + ToLE(4, f.kind) + ToLE(8, f.flags) + ToLE(8, f.addr);
    var p32 := p24 + ToLE(8, f.offset);
    assert b[32..] == ToLE(8, f.size) + b[40..] && b[..32] == p32 && b == b[..32] + b[32..];
    FieldOf(b, [], 4, f.name, b[4..]);
    FieldOf(b, p24, 8, f.offset, b[32..]);
    FieldOf(b, p32, 8, f.size, b[40..]);
  }

  // ---------------------------------------------------------------- images

  /** kind holds the fields between identification and section header offset; every section header is
      followed by pad, the first one preceded by gap. */
  datatype Layout = Layout(ident: seq<byte>, kind: seq<byte>, flags: seq<byte>, ehsize: u16, phentsize: u16,
                           phnum: u16, shstrndx: u16, gap: seq<byte>, sections: seq<SectionFields>,
                           pad: seq<byte>, contents: seq<byte>)

  predicate Writable(l: Layout) {
    && |l.ident| == 16 && |l.kind| == 24 && |l.flags| == 4
    && |l.sections| < TWO_16 && SHDR_SIZE + |l.pad| < TWO_16 && EHDR_SIZE + |l.gap| < TWO_64
  }

  function Stride(l: Layout): nat {
    SHDR_SIZE + |l.pad|
  }

  function FileHeader(l: Layout): (b: seq<byte>)
    requires Writable(l)
    ensures |b| == EHDR_SIZE
  {
    l.ident + l.kind + ToLE(8, EHDR_SIZE + |l.gap|) + l.flags + ToLE(2, l.ehsize) + ToLE(2, l.phentsize)
    + ToLE(2, l.phnum) + ToLE(2, Stride(l)) + ToLE(2, |l.sections|) + ToLE(2, l.shstrndx)
  }

  function SectionHeaders(sections: seq<SectionFields>, pad: seq<byte>): (b: seq<byte>)
    ensures |b| == (SHDR_SIZE + |pad|) * |sections|
  {
    if sections == [] then []
    else
      var n := |sections| - 1;
      SizeStep(SHDR_SIZE + |pad|, n);
      SectionHeaders(sections[..n], pad) + (HeaderBytes(sections[n]) + pad)
  }

  lemma SizeStep(stride: nat, n: nat)
    ensures stride * (n + 1) == stride * n + stride
  {
  }

  lemma SizeMonotone(stride: nat, m: nat, n: nat)
    requires m <= n
    ensures stride * m <= stride * n
  {
  }

  function Image(l: Layout): (b: seq<byte>)
    requires Writable(l)
    ensures |b| == EHDR_SIZE + |l.gap| + Stride(l) * |l.sections| + |l.contents|
  {
    FileHeader(l) + l.gap + SectionHeaders(l.sections, l.pad) + l.contents
  }

  function WrittenHeader(l: Layout): Ehdr
    requires Writable(l)
  {
    Ehdr(l.ident, EHDR_SIZE + |l.gap|, l.ehsize, l.phentsize, l.phnum, Stride(l), |l.sections|, l.shstrndx)
  }

  lemma FileHeaderFields(l: Layout)
    requires Writable(l)
    ensures ParseEhdr(FileHeader(l)) == WrittenHeader(l)
  {
    var b := FileHeader(l);
    RadixValues();
    var p40 := l.ident + l.kind;
    var p52 := p40 + ToLE(8, EHDR_SIZE + |l.gap|) + l.flags;
    var p54 := p52 + ToLE(2, l.ehsize);
    var p56 := p54 + ToLE(2, l.phentsize);
    var p58 := p56 + ToLE(2, l.phnum);
    var p60 := p58 + ToLE(2, Stride(l));
    var p62 := p60 + ToLE(2, |l.sections|);
    assert b == p62 + ToLE(2, l.shstrndx);
    FieldOf(b, p62, 2, l.shstrndx, []);
    FieldOf(b, p60, 2, |l.sections|, b[62..]);
    FieldOf(b, p58, 2, Stride(l), b[60..]);
    FieldOf(b, p56, 2, l.phnum, b[58..]);
    FieldOf(b, p54, 2, l.phentsize, b[56..]);
    FieldOf(b, p52, 2, l.ehsize, b[54..]);
    FieldOf(b, p40, 8, EHDR_SIZE + |l.gap|, b[48..]);
    assert b[..16] == l.ident;
  }

  /** The loader finds the header that was written. */
  lemma ImageHeader(l: Layout)
    requires Writable(l)
    ensures Header(Image(l)) == WrittenHeader(l)
  {
    assert Image(l)[..EHDR_SIZE] == FileHeader(l);
    FileHeaderFields(l);
  }

  lemma SliceInFront(a: seq<byte>, b: seq<byte>, lo: nat, hi: nat)
    requires lo <= hi <= |a|
    ensures (a + b)[lo..hi] == a[lo..hi]
  {
  }

  lemma SliceBehind(a: seq<byte>, b: seq<byte>, c: seq<byte>, lo: nat, hi: nat)
    requires lo <= hi <= |b|
    ensures (a + b + c)[|a| + lo..|a| + hi] == b[lo..hi]
  {
  }

  lemma {:induction false} HeaderBytesAt(sections: seq<SectionFields>, pad: seq<byte>, i: nat)
    requires i < |sections|
    ensures var at := (SHDR_SIZE + |pad|) * i;
      && at + SHDR_SIZE <= |SectionHeaders(sections, pad)|
      && SectionHeaders(sections, pad)[at..at + SHDR_SIZE] == HeaderBytes(sections[i])
  {
    var n, at := |sections| - 1, (SHDR_SIZE + |pad|) * i;
    SizeStep(SHDR_SIZE + |pad|, n);
    if i == n {
      SliceBehind(SectionHeaders(sections[..n], pad), HeaderBytes(sections[n]), pad, 0, SHDR_SIZE);
      assert SectionHeaders(sections, pad)
          == SectionHeaders(sections[..n], pad) + HeaderBytes(sections[n]) + pad;
    } else {
      HeaderBytesAt(sections[..n], pad, i);
      SliceInFront(SectionHeaders(sections[..n], pad), HeaderBytes(sections[n]) + pad, at, at + SHDR_SIZE);
    }
  }

  function HeaderOffset(l: Layout, i: nat): nat {
    EHDR_SIZE + |l.gap| + Stride(l) * i
  }

  lemma ImageBytesAt(l: Layout, i: nat)
    requires Writable(l) && i < |l.sections|
    ensures HeaderOffset(l, i) + SHDR_SIZE <= |Image(l)|
    ensures Image(l)[HeaderOffset(l, i)..HeaderOffset(l, i) + SHDR_SIZE] == HeaderBytes(l.sections[i])
  {
    HeaderBytesAt(l.sections, l.pad, i);
    var at := Stride(l) * i;
    BytesBehind(FileHeader(l) + l.gap, SectionHeaders(l.sections, l.pad), l.contents, at, HeaderBytes(l.sections[i]));
  }

  lemma BytesBehind(front: seq<byte>, middle: seq<byte>, rest: seq<byte>, at: nat, b: seq<byte>)
    requires at + |b| <= |middle| && middle[at..at + |b|] == b
    ensures var all := front + middle + rest;
      |front| + at + |b| <= |all| && all[|front| + at..|front| + at + |b|] == b
  {
    SliceBehind(front, middle, rest, at, at + |b|);
  }

  /** The loader finds every section header that was written. */
  lemma ImageSection(l: Layout, i: nat)
    requires Writable(l) && i < |l.sections|
    ensures SectionAt(Image(l), WrittenHeader(l), i) == Some(HeaderOf(l.sections[i]))
    ensures SectionOffset(WrittenHeader(l), i) + SHDR_SIZE <= |Image(l)|
  {
    ImageBytesAt(l, i);
    SectionFound(Image(l), WrittenHeader(l), i, HeaderOffset(l, i), l.sections[i]);
  }

  lemma SectionFound(image: seq<byte>, h: Ehdr, i: nat, at: nat, f: SectionFields)
    requires h.shoff + h.shentsize * i == at && at + SHDR_SIZE <= |image|
    requires image[at..at + SHDR_SIZE] == HeaderBytes(f)
    ensures SectionOffset(h, i) == at && SectionAt(image, h, i) == Some(HeaderOf(f))
  {
    Commuted(h.shentsize, i);
    HeaderParsed(f);
  }

  lemma Commuted(a: nat, b: nat)
    ensures a * b == b * a
  {
  }

  // ---------------------------------------------------------------- acceptance

  /** The section that holds the names exists and lies inside the image. */
  predicate NamesInside(l: Layout, size: nat) {
    l.shstrndx < |l.sections| && l.sections[l.shstrndx].offset + l.sections[l.shstrndx].size <= size
  }

  function NamesOf(l: Layout, image: seq<byte>): seq<byte>
    requires NamesInside(l, |image|)
  {
    var s := l.sections[l.shstrndx];
    image[s.offset..s.offset + s.size]
  }

  /** An ELF file of 64 bits, little-endian, as its first six bytes say. */
  predicate Identified(l: Layout) {
    |l.ident| == 16 && l.ident[..6] == [0x7f, 0x45, 0x4c, 0x46, 2, 1]
  }

  predicate FieldsWithin(l: Layout, size: nat) {
    l.ehsize <= size && l.phentsize <= size && l.phnum <= size
  }

  lemma IdentifiedExactly(ident: seq<byte>)
    requires |ident| == 16
    ensures ident[..6] == [0x7f, 0x45, 0x4c, 0x46, 2, 1]
       <==> ident[..4] == [0x7f, 0x45, 0x4c, 0x46] && ident[EI_CLASS] == ELFCLASS64 && ident[EI_DATA] == ELFDATA2LSB
  {
    assert ident[..6] == ident[..4] + [ident[4], ident[5]];
  }

  lemma ValidatedExactly(l: Layout)
    requires Writable(l)
    ensures ValidateElfHeader(WrittenHeader(l)) <==> Identified(l) && l.shstrndx < |l.sections|
  {
    IdentifiedExactly(l.ident);
  }

  lemma SafetyExactly(l: Layout, size: nat)
    requires Writable(l) && l.shstrndx < |l.sections|
    requires EHDR_SIZE + |l.gap| + Stride(l) * |l.sections| <= size
    ensures ValidateElfHeaderSafety(WrittenHeader(l), size) <==> FieldsWithin(l, size)
  {
    CountsWithin(Stride(l), |l.sections|, EHDR_SIZE + |l.gap|, size);
    SafetyOfHeader(WrittenHeader(l), size);
  }

  lemma SafetyOfHeader(h: Ehdr, size: nat)
    requires h.shstrndx < h.shnum <= size && h.shentsize <= size && h.shoff + (h.shnum - 1) * h.shentsize <= size
    ensures ValidateElfHeaderSafety(h, size) <==> h.ehsize <= size && h.phentsize <= size && h.phnum <= size
  {
    var last := LastSectionIndex(h);
    assert last == h.shnum - 1;
    WrapDown(h.shoff + last * h.shentsize);
  }

  lemma CountsWithin(stride: nat, n: nat, front: nat, size: nat)
    requires n > 0 && stride > 0 && front + stride * n <= size
    ensures stride <= size && n <= size && front + (n - 1) * stride <= size
  {
    SizeStep(stride, n - 1);
    SizeMonotone(n, 1, stride);
    Commuted(n, stride);
    Commuted(n - 1, stride);
  }

  lemma WrapDown(v: nat)
    ensures Wrap64(v) <= v
  {
  }

  lemma WrittenNameTable(image: seq<byte>, h: Ehdr, l: Layout)
    requires h.shstrndx == l.shstrndx < |l.sections|
    requires SectionAt(image, h, l.shstrndx) == Some(HeaderOf(l.sections[l.shstrndx]))
    ensures NameTable(image, h) == if NamesInside(l, |image|) then Some(NamesOf(l, image)) else None
  {
  }

  /** The loader accepts a written image if and only if it is identified as a little-endian ELF file of
      64 bits, no size in the file header exceeds the image, and the section of the names exists and
      lies inside it. */
  lemma ImageLoadsExactly(l: Layout)
    requires Writable(l)
    ensures var image := Image(l);
      && (Loadable(image) <==> Identified(l) && FieldsWithin(l, |image|) && NamesInside(l, |image|))
      && (NamesInside(l, |image|) ==> NameTable(image, Header(image)) == Some(NamesOf(l, image)))
  {
    var image, h := Image(l), WrittenHeader(l);
    ImageHeader(l);
    ValidatedExactly(l);
    if l.shstrndx < |l.sections| {
      SafetyExactly(l, |image|);
      assert HeaderAccepted(image) <==> Identified(l) && FieldsWithin(l, |image|);
      assert AllSectionsReadable(image, h) by {
        forall i | 0 <= i < h.shnum ensures SectionAt(image, h, i).Some? {
          ImageSection(l, i);
        }
      }
      ImageSection(l, l.shstrndx);
      WrittenNameTable(image, h, l);
    }
  }

  // ---------------------------------------------------------------- loading undoes writing

  /** The name lies at its place in the table, with a NUL behind it and none inside. */
  predicate NameAt(names: seq<byte>, at: nat, name: seq<byte>) {
    NUL !in name && at + |name| < |names| && names[at..at + |name|] == name && names[at + |name|] == NUL
  }

  lemma NameRead(names: seq<byte>, at: nat, name: seq<byte>)
    requires NameAt(names, at, name)
    ensures Terminated(names, at) && CString(names, at) == name
  {
    var rest := names[at..];
    assert rest[|name|] == NUL && rest[..|name|] == name;
    assert forall i :: 0 <= i < |name| ==> rest[i] == name[i];
  }

  predicate NamesWritten(l: Layout, image: seq<byte>, names: seq<seq<byte>>) {
    && NamesInside(l, |image|) && |names| == |l.sections|
    && forall k :: 0 <= k < |names| ==> NameAt(NamesOf(l, image), l.sections[k].name, names[k])
  }

  /** What the loader should enter. */
  function WrittenEntries(l: Layout, names: seq<seq<byte>>): (r: seq<Entry>)
    requires |names| == |l.sections|
    ensures |r| == |names| && forall k :: 0 <= k < |r| ==> r[k] == Entry(names[k], HeaderOf(l.sections[k]))
  {
    seq(|names|, k requires 0 <= k < |names| => Entry(names[k], HeaderOf(l.sections[k])))
  }

  /** The loader finds all headers and all names. */
  ghost predicate AllFound(image: seq<byte>, h: Ehdr, l: Layout, names: seq<seq<byte>>) {
    && h.shnum == |l.sections| == |names| && NameTable(image, h).Some?
    && forall k :: 0 <= k < |l.sections| ==> Found(image, h, NameTable(image, h).value, k, l.sections[k], names[k])
  }

  ghost predicate Found(image: seq<byte>, h: Ehdr, table: seq<byte>, k: nat, f: SectionFields, name: seq<byte>) {
    SectionAt(image, h, k) == Some(HeaderOf(f)) && Terminated(table, f.name) && CString(table, f.name) == name
  }

  lemma WrittenIsFound(l: Layout, names: seq<seq<byte>>)
    requires Writable(l) && NamesWritten(l, Image(l), names)
    ensures AllFound(Image(l), WrittenHeader(l), l, names)
  {
    var image, h := Image(l), WrittenHeader(l);
    ImageLoadsExactly(l);
    ImageHeader(l);
    forall k | 0 <= k < |l.sections| ensures Found(image, h, NamesOf(l, image), k, l.sections[k], names[k]) {
      ImageSection(l, k);
      NameRead(NamesOf(l, image), l.sections[k].name, names[k]);
    }
  }

  lemma FoundIsEntered(image: seq<byte>, h: Ehdr, l: Layout, names: seq<seq<byte>>)
    requires AllFound(image, h, l, names)
    ensures NamesTerminated(image, h) && forall k :: 0 <= k < |names| ==> Reached(image, h, k)
    ensures forall k :: 0 <= k < |names| ==> SectionAt(image, h, k).Some?
    ensures Entries(image, h, h.shnum) == WrittenEntries(l, names)
  {
    forall k | 0 <= k < |names| ensures SectionAt(image, h, k) == Some(HeaderOf(l.sections[k])) {
      assert Found(image, h, NameTable(image, h).value, k, l.sections[k], names[k]);
    }
    forall k | 0 <= k < |names|
      ensures Terminated(NameTable(image, h).value, l.sections[k].name)
      ensures CString(NameTable(image, h).value, l.sections[k].name) == names[k]
    {
      assert Found(image, h, NameTable(image, h).value, k, l.sections[k], names[k]);
    }
  }

  lemma OffsetsDoNotWrap(l: Layout)
    requires Writable(l) && NamesInside(l, |Image(l)|) && |Image(l)| < TWO_64
    ensures var h := WrittenHeader(l);
      && SectionOffset(h, h.shnum - 1) + SHDR_SIZE < TWO_64
      && SectionAt(Image(l), h, h.shstrndx).Some?
      && var s := SectionAt(Image(l), h, h.shstrndx).value; s.shOffset + s.shSize < TWO_64
  {
    ImageSection(l, |l.sections| - 1);
    ImageSection(l, l.shstrndx);
  }

  /** Loading undoes writing: from an image that it accepts, the loader enters exactly the section headers
      that were written, in order, each under its name. */
  lemma LoadInvertsWrite(l: Layout, names: seq<seq<byte>>)
    requires Writable(l) && Identified(l) && FieldsWithin(l, |Image(l)|) && |Image(l)| < TWO_64
    requires NamesWritten(l, Image(l), names)
    ensures var image := Image(l); var h := Header(image);
      && SafelyReadable(image) && Loadable(image) && h.shnum == |l.sections|
      && Entries(image, h, h.shnum) == WrittenEntries(l, names)
  {
    ImageLoadsExactly(l);
    ImageHeader(l);
    OffsetsDoNotWrap(l);
    WrittenIsFound(l, names);
    FoundIsEntered(Image(l), WrittenHeader(l), l, names);
  }

  /** A fresh loader, given a written image, knows exactly the written names, each with the header that
      was written last for it. */
  method LoadWritten(l: Layout, names: seq<seq<byte>>) returns (ok: bool, loader: ElfLoader)
    requires Writable(l) && Identified(l) && FieldsWithin(l, |Image(l)|) && |Image(l)| < TWO_64
    requires NamesWritten(l, Image(l), names)
    ensures ok && fresh(loader) && IsLastWins(WrittenEntries(l, names), loader.sections)
  {
    LoadInvertsWrite(l, names);
    ok, loader := LoadFresh(Image(l));
  }
}
