/** Reader for the section table and the string tables of a 64-bit little-endian ELF image, after
    the System V ABI, chapter 4, sections "ELF Header", "Sections" and "String Table". */
module ElfLoaders {
  import opened Bytes
  import opened Options
  import opened Ustring

  const EHDR_SIZE: nat := 64
  const SHDR_SIZE: nat := 64
  const EI_CLASS: nat := 4
  const EI_DATA: nat := 5
  const ELFCLASS64: byte := 2
  const ELFDATA2LSB: byte := 1
  const NUL: byte := 0

  /** The fields of the file header that the loader looks at. */
  datatype Ehdr = Ehdr(ident: seq<byte>, shoff: u64, ehsize: u16, phentsize: u16, phnum: u16,
                       shentsize: u16, shnum: u16, shstrndx: u16)

  /** A section header: the fields the loader uses, and all its bytes. */
  datatype Shdr = Shdr(shName: u32, shOffset: u64, shSize: u64, raw: seq<byte>)

  function Field(b: seq<byte>, at: nat, n: nat): nat
    requires at + n <= |b|
  {
    FromLE(b[at..at + n])
  }

  function ParseEhdr(b: seq<byte>): Ehdr
    requires |b| == EHDR_SIZE
  {
    Ehdr(b[..16], Wrap64(Field(b, 40, 8)), Wrap16(Field(b, 52, 2)), Wrap16(Field(b, 54, 2)),
         Wrap16(Field(b, 56, 2)), Wrap16(Field(b, 58, 2)), Wrap16(Field(b, 60, 2)), Wrap16(Field(b, 62, 2)))
  }

  function ParseShdr(b: seq<byte>): Shdr
    requires |b| == SHDR_SIZE
  {
    Shdr(Wrap32(Field(b, 0, 4)), Wrap64(Field(b, 24, 8)), Wrap64(Field(b, 32, 8)), b)
  }

  // ---------------------------------------------------------------- the validators

  predicate ValidateElfHeader(h: Ehdr)
    requires |h.ident| == 16
  {
    && h.ident[..4] == [0x7f, 0x45, 0x4c, 0x46]
    && h.ident[EI_CLASS] == ELFCLASS64 && h.ident[EI_DATA] == ELFDATA2LSB
    && h.shnum > h.shstrndx
  }

  /** The difference is taken in signed arithmetic and then converted to 64 bits unsigned. */
  function LastSectionIndex(h: Ehdr): u64 {
    if h.shnum >= 1 then h.shnum - 1 else 0xffff_ffff_ffff_ffff
  }

  predicate ValidateElfHeaderSafety(h: Ehdr, maxSafeSize: nat) {
    && h.ehsize <= maxSafeSize && h.phentsize <= maxSafeSize && h.phnum <= maxSafeSize
    && h.shentsize <= maxSafeSize && h.shnum <= maxSafeSize && h.shstrndx <= maxSafeSize
    && Wrap64(h.shoff + LastSectionIndex(h) * h.shentsize) <= maxSafeSize
  }

  // ---------------------------------------------------------------- bounded reads

  /** Reads n bytes at an offset; the caller keeps the sum below 2^64. */
  function ReadBytes(buffer: seq<byte>, offset: nat, n: nat): (r: Option<seq<byte>>)
    ensures r.Some? <==> offset + n <= |buffer|
    ensures r.Some? ==> r.value == buffer[offset..offset + n]
  {
    if |buffer| < offset + n then None else Some(buffer[offset..offset + n])
  }

  function Header(buffer: seq<byte>): Ehdr
    requires EHDR_SIZE <= |buffer|
  {
    ParseEhdr(buffer[..EHDR_SIZE])
  }

  function SectionOffset(h: Ehdr, idx: nat): nat {
    h.shoff + idx * h.shentsize
  }

  function SectionAt(buffer: seq<byte>, h: Ehdr, idx: nat): Option<Shdr> {
    match ReadBytes(buffer, SectionOffset(h, idx), SHDR_SIZE)
    case None => None
    case Some(b) => Some(ParseShdr(b))
  }

  /** The contents of the section that holds the section names. */
  function NameTable(buffer: seq<byte>, h: Ehdr): Option<seq<byte>> {
    match SectionAt(buffer, h, h.shstrndx)
    case None => None
    case Some(s) => ReadBytes(buffer, s.shOffset, s.shSize)
  }

  predicate Terminated(names: seq<byte>, at: nat) {
    at <= |names| && NUL in names[at..]
  }

  /** The NUL-terminated string at an offset. */
  function CString(names: seq<byte>, at: nat): seq<byte>
    requires Terminated(names, at)
  {
    names[at..][..IndexOf(names[at..], NUL)]
  }

  // ---------------------------------------------------------------- what loading means

  predicate HeaderAccepted(buffer: seq<byte>) {
    && EHDR_SIZE <= |buffer|
    && ValidateElfHeader(Header(buffer)) && ValidateElfHeaderSafety(Header(buffer), |buffer|)
  }

  predicate AllSectionsReadable(buffer: seq<byte>, h: Ehdr) {
    forall idx :: 0 <= idx < h.shnum ==> SectionAt(buffer, h, idx).Some?
  }

  predicate Loadable(buffer: seq<byte>) {
    && HeaderAccepted(buffer)
    && NameTable(buffer, Header(buffer)).Some?
    && AllSectionsReadable(buffer, Header(buffer))
  }

  /** No offset sum reaches 2^64, and every section name that is read ends inside the name table;
      otherwise the code reads outside its buffers. */
  predicate SafelyReadable(buffer: seq<byte>) {
    HeaderAccepted(buffer) ==>
      var h := Header(buffer);
      && SectionOffset(h, h.shnum - 1) + SHDR_SIZE < TWO_64
      && (SectionAt(buffer, h, h.shstrndx).Some? ==>
            var s := SectionAt(buffer, h, h.shstrndx).value; s.shOffset + s.shSize < TWO_64)
      && (NameTable(buffer, h).Some? ==> NamesTerminated(buffer, h))
  }

  /** The loop gets to this section and can read it. */
  predicate Reached(buffer: seq<byte>, h: Ehdr, idx: nat) {
    forall i :: 0 <= i <= idx ==> SectionAt(buffer, h, i).Some?
  }

  predicate NamesTerminated(buffer: seq<byte>, h: Ehdr)
    requires NameTable(buffer, h).Some?
  {
    forall idx :: 0 <= idx < h.shnum && Reached(buffer, h, idx) ==>
      Terminated(NameTable(buffer, h).value, SectionAt(buffer, h, idx).value.shName)
  }

  function SectionName(buffer: seq<byte>, h: Ehdr, idx: nat): seq<byte>
    requires NameTable(buffer, h).Some? && NamesTerminated(buffer, h)
    requires idx < h.shnum && Reached(buffer, h, idx)
  {
    CString(NameTable(buffer, h).value, SectionAt(buffer, h, idx).value.shName)
  }

  datatype Entry = Entry(name: seq<byte>, header: Shdr)

  /** The first n sections under their names. */
  function Entries(buffer: seq<byte>, h: Ehdr, n: nat): (r: seq<Entry>)
    requires NameTable(buffer, h).Some? && NamesTerminated(buffer, h) && n <= h.shnum
    requires forall idx :: 0 <= idx < n ==> SectionAt(buffer, h, idx).Some?
    ensures |r| == n
    ensures forall i :: 0 <= i < n ==> r[i] == Entry(SectionName(buffer, h, i), SectionAt(buffer, h, i).value)
  {
    seq(n, i requires 0 <= i < n => Entry(SectionName(buffer, h, i), SectionAt(buffer, h, i).value))
  }

  /** Entries entered into a map, one after the other. */
  function Entered(before: map<seq<byte>, Shdr>, entries: seq<Entry>): map<seq<byte>, Shdr> {
    if entries == [] then before
    else
      var last := entries[|entries| - 1];
      Entered(before, entries[..|entries| - 1])[last.name := last.header]
  }

  lemma EntriesSnoc(buffer: seq<byte>, h: Ehdr, n: nat, before: map<seq<byte>, Shdr>)
    requires NameTable(buffer, h).Some? && NamesTerminated(buffer, h) && n < h.shnum
    requires Reached(buffer, h, n)
    ensures Entered(before, Entries(buffer, h, n + 1))
         == Entered(before, Entries(buffer, h, n))[SectionName(buffer, h, n) := SectionAt(buffer, h, n).value]
  {
    assert Entries(buffer, h, n + 1)[..n] == Entries(buffer, h, n);
  }

  /** The first n sections have been read and entered. */
  ghost predicate EnteredUpTo(image: seq<byte>, h: Ehdr, before: map<seq<byte>, Shdr>, after: map<seq<byte>, Shdr>, n: nat)
    requires NameTable(image, h).Some? && NamesTerminated(image, h)
  {
    && n <= h.shnum && (forall i :: 0 <= i < n ==> SectionAt(image, h, i).Some?)
    && after == Entered(before, Entries(image, h, n))
  }

  lemma EnterNext(image: seq<byte>, h: Ehdr, before: map<seq<byte>, Shdr>, after: map<seq<byte>, Shdr>, n: nat)
    requires NameTable(image, h).Some? && NamesTerminated(image, h)
    requires EnteredUpTo(image, h, before, after, n) && n < h.shnum && SectionAt(image, h, n).Some?
    ensures Reached(image, h, n)
    ensures EnteredUpTo(image, h, before, after[SectionName(image, h, n) := SectionAt(image, h, n).value], n + 1)
  {
    EntriesSnoc(image, h, n, before);
  }

  /** What a load leaves behind that met an unreadable section: the ones in front of it. */
  ghost predicate StoppedAt(image: seq<byte>, h: Ehdr, before: map<seq<byte>, Shdr>, after: map<seq<byte>, Shdr>, n: nat)
    requires NameTable(image, h).Some? && NamesTerminated(image, h)
  {
    n < h.shnum && SectionAt(image, h, n).None? && EnteredUpTo(image, h, before, after, n)
  }

  ghost predicate Stopped(image: seq<byte>, h: Ehdr, before: map<seq<byte>, Shdr>, after: map<seq<byte>, Shdr>)
    requires NameTable(image, h).Some? && NamesTerminated(image, h)
  {
    exists n :: StoppedAt(image, h, before, after, n)
  }

  class ElfLoader {
    var header: Option<Ehdr>
    var buffer: seq<byte>
    var sections: map<seq<byte>, Shdr>

    constructor ()
      ensures header == None && buffer == [] && sections == map[]
    {
      header, buffer, sections := None, [], map[];
    }

    /** True exactly for a loadable image; then the sections have been entered in table order, over
        what an earlier call left behind. */
    method FromBuffer(image: seq<byte>) returns (ok: bool)
      requires SafelyReadable(image)
      modifies this
      ensures ok <==> Loadable(image)
      ensures buffer == if image == [] then old(buffer) else image
      ensures header == if |image| < EHDR_SIZE then old(header) else Some(Header(image))
      ensures ok ==>
        sections == Entered(old(sections), Entries(image, Header(image), Header(image).shnum))
      ensures !HeaderAccepted(image) || NameTable(image, Header(image)).None? ==> sections == old(sections)
      ensures !ok && HeaderAccepted(image) && NameTable(image, Header(image)).Some? ==>
        Stopped(image, Header(image), old(sections), sections)
    {
      if image == [] {
        return false;
      }
      buffer := image;
      var first := ReadBytes(image, 0, EHDR_SIZE);
      if first.None? {
        return false;
      }
      var h := ParseEhdr(first.value);
      header := Some(h);
      if !ValidateElfHeader(h) || !ValidateElfHeaderSafety(h, |image|) {
        return false;
      }
      var nameSection := SectionAt(image, h, h.shstrndx);
      if nameSection.None? {
        return false;
      }
      var nameBuffer := ReadBytes(image, nameSection.value.shOffset, nameSection.value.shSize);
      if nameBuffer.None? {
        return false;
      }
      ok := ReadSections(image, h, nameBuffer.value);
    }

    method ReadSections(image: seq<byte>, h: Ehdr, nameBuffer: seq<byte>) returns (ok: bool)
      requires NameTable(image, h) == Some(nameBuffer) && NamesTerminated(image, h)
      modifies this`sections
      ensures ok <==> AllSectionsReadable(image, h)
      ensures ok ==> sections == Entered(old(sections), Entries(image, h, h.shnum))
      ensures !ok ==> Stopped(image, h, old(sections), sections)
    {
      var idx := 0;
      while idx < h.shnum
        invariant 0 <= idx <= h.shnum && EnteredUpTo(image, h, old(sections), sections, idx)
      {
        var section := SectionAt(image, h, idx);
        if section.None? {
          assert StoppedAt(image, h, old(sections), sections, idx);
          return false;
        }
        EnterNext(image, h, old(sections), sections, idx);
        sections := sections[CString(nameBuffer, section.value.shName) := section.value];
        idx := idx + 1;
      }
      return true;
    }
  }

  // ---------------------------------------------------------------- string tables

  /** The strings of a section that starts inside the buffer. */
  function StringTable(buffer: seq<byte>, s: Shdr): seq<seq<byte>>
    requires s.shOffset <= |buffer|
  {
    var available := |buffer| - s.shOffset;
    if available > 0 && buffer[s.shOffset] != NUL then []
    else if !(s.shSize > 2 && available > 2) then []
    else Split(buffer[s.shOffset + 1..][..Min(s.shSize - 2, available - 2)], NUL)
  }

  class Elf {
    const buffer: seq<byte>
    const sections: map<seq<byte>, Shdr>

    constructor (sections: map<seq<byte>, Shdr>, buffer: seq<byte>)
      ensures this.sections == sections && this.buffer == buffer
    {
      this.sections, this.buffer := sections, buffer;
    }

    method ReadStringTable(name: seq<byte>) returns (result: seq<seq<byte>>)
      requires name in sections ==> sections[name].shOffset <= |buffer|
      ensures result == if name in sections then StringTable(buffer, sections[name]) else []
    {
      if name !in sections {
        return [];
      }
      var header := sections[name];
      if header.shOffset < |buffer| && buffer[header.shOffset] != NUL {
        return [];
      }
      if !(header.shSize > 2 && |buffer| - header.shOffset > 2) {
        return [];
      }
      var data := buffer[header.shOffset + 1..][..Min(header.shSize - 2, |buffer| - header.shOffset - 2)];
      result := SplitString(data, NUL);
    }
  }
}
