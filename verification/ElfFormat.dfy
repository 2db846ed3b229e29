/** The layout of an ELF64 file as its format defines it, and what the parser makes of each layout:
    every header there can be, field by field. */
module ElfFormat {
  import opened Basics
  import opened Elf64

  /** A program header: `other` is what `p_flags` holds above its three permission bits. */
  datatype ProgramHeader = ProgramHeader(kind: nat, read: bool, write: bool, exec: bool, other: nat, offset: nat,
                                         vaddr: nat, filesz: nat, memsz: nat)

  function Flags(h: ProgramHeader): nat {
    (if h.exec then 1 else 0) + (if h.write then 2 else 0) + (if h.read then 4 else 0) + 8 * h.other
  }

  /** The image holds this program header at byte `ph`. */
  predicate HoldsHeader(image: seq<byte>, ph: nat, h: ProgramHeader) {
    && ph + 56 <= |image|
    && h.kind < 0x1_0000_0000 && Flags(h) < 0x1_0000_0000 && h.offset <= U64_MAX && h.vaddr <= U64_MAX
    && h.filesz <= U64_MAX && h.memsz <= U64_MAX
    && image[ph..ph + 4] == Le(h.kind, 4) && image[ph + 4..ph + 8] == Le(Flags(h), 4)
    && image[ph + 8..ph + 16] == Le(h.offset, 8) && image[ph + 16..ph + 24] == Le(h.vaddr, 8)
    && image[ph + 32..ph + 40] == Le(h.filesz, 8) && image[ph + 40..ph + 48] == Le(h.memsz, 8)
  }

  /** What a program header means to the loader. */
  function Meaning(image: seq<byte>, h: ProgramHeader): Header {
    if h.kind != 1 then Skipped
    else if h.filesz > h.memsz then Bad(FileLargerThanMemory)
    else if h.vaddr % 4096 != 0 then Bad(UnalignedSegment)
    else if h.offset + h.filesz > |image| then Bad(SegmentOutOfImage)
    else
      Loadable(Segment(h.vaddr, image[h.offset..h.offset + h.filesz], h.memsz, SegRights(h.read, h.write, h.exec)))
  }

  /** The headers of an image stand one after the other, `phentsize` bytes apart. */
  lemma NthRoundTrip(elf: Elf, i: nat, h: ProgramHeader)
    requires HoldsHeader(elf.image, elf.phoff + i * elf.phentsize, h)
    ensures Nth(elf, i) == Meaning(elf.image, h)
  {
    hide HoldsHeader, Meaning, HeaderAt, ReadLe, Le;
    HeaderRoundTrip(elf.image, elf.phoff + i * elf.phentsize, h);
  }

  /** Reading a program header gives back what was written, or names what is wrong with it. */
  lemma HeaderRoundTrip(image: seq<byte>, ph: nat, h: ProgramHeader)
    requires HoldsHeader(image, ph, h)
    ensures HeaderAt(image, ph) == Meaning(image, h)
  {
    hide LeValue, Le;
    WordBounds();
    LeRoundTrip(h.kind, 4);
    LeRoundTrip(Flags(h), 4);
    LeRoundTrip(h.offset, 8);
    LeRoundTrip(h.vaddr, 8);
    LeRoundTrip(h.filesz, 8);
    LeRoundTrip(h.memsz, 8);
  }

  /** And every program header there is room for is one of these. */
  lemma EveryHeader(image: seq<byte>, ph: nat) returns (h: ProgramHeader)
    requires ph + 56 <= |image|
    ensures HoldsHeader(image, ph, h)
  {
    hide LeValue, Le;
    WordBounds();
    var flags := LeValue(image[ph + 4..ph + 8]);
    h := ProgramHeader(LeValue(image[ph..ph + 4]), flags / 4 % 2 == 1, flags / 2 % 2 == 1, flags % 2 == 1, flags / 8,
                       LeValue(image[ph + 8..ph + 16]), LeValue(image[ph + 16..ph + 24]),
                       LeValue(image[ph + 32..ph + 40]), LeValue(image[ph + 40..ph + 48]));
    LeOfValue(image[ph..ph + 4]);
    LeOfValue(image[ph + 4..ph + 8]);
    LeOfValue(image[ph + 8..ph + 16]);
    LeOfValue(image[ph + 16..ph + 24]);
    LeOfValue(image[ph + 32..ph + 40]);
    LeOfValue(image[ph + 40..ph + 48]);
  }

  /** The fields of a file header that matter: the rest of its 64 bytes is read by nobody. */
  datatype FileHeader = FileHeader(magic: seq<byte>, class_: byte, encoding: byte, kind: nat, machine: nat, entry: nat,
                                   phoff: nat, phentsize: nat, phnum: nat)

  predicate HoldsFile(image: seq<byte>, f: FileHeader) {
    && 64 <= |image|
    && f.kind < 0x1_0000 && f.machine < 0x1_0000 && f.entry <= U64_MAX && f.phoff <= U64_MAX
    && f.phentsize < 0x1_0000 && f.phnum < 0x1_0000
    && image[0..4] == f.magic && image[4] == f.class_ && image[5] == f.encoding
    && image[16..18] == Le(f.kind, 2) && image[18..20] == Le(f.machine, 2)
    && image[24..32] == Le(f.entry, 8) && image[32..40] == Le(f.phoff, 8)
    && image[54..56] == Le(f.phentsize, 2) && image[56..58] == Le(f.phnum, 2)
  }

  /** Parsing gives back the entry point and the place, size and number of the program headers of an
      x86-64 executable whose table lies in the file, and names the first thing wrong otherwise. */
  lemma ParseRoundTrip(image: seq<byte>, f: FileHeader)
    requires |image| <= U64_MAX && HoldsFile(image, f)
    ensures Parse(image) ==
            if f.magic != [0x7f, 0x45, 0x4c, 0x46] then Err(NotElf)
            else if f.class_ != 2 then Err(NotElf64)
            else if f.encoding != 1 then Err(NotLittleEndian)
            else if f.kind != 2 then Err(WrongType)
            else if f.machine != 62 then Err(WrongMachine)
            else if f.phentsize < 56 || f.phoff + f.phentsize * f.phnum > |image| then Err(TruncatedProgramHeaders)
            else Ok(Elf(image, f.entry, f.phoff, f.phentsize, f.phnum))
  {
    hide LeValue, Le;
    WordBounds();
    LeRoundTrip(f.kind, 2);
    LeRoundTrip(f.machine, 2);
    LeRoundTrip(f.entry, 8);
    LeRoundTrip(f.phoff, 8);
    LeRoundTrip(f.phentsize, 2);
    LeRoundTrip(f.phnum, 2);
    assert image[..4] == image[0..4];
  }

  /** Every image long enough has such a header, and one that is not is refused for that. */
  lemma EveryFile(image: seq<byte>) returns (f: FileHeader)
    requires |image| <= U64_MAX
    ensures |image| >= 64 ==> HoldsFile(image, f)
    ensures |image| < 64 ==> Parse(image) == Err(TruncatedHeader)
  {
    hide LeValue, Le;
    f := FileHeader([], 0, 0, 0, 0, 0, 0, 0, 0);
    if |image| >= 64 {
      WordBounds();
      f := FileHeader(image[0..4], image[4], image[5], LeValue(image[16..18]), LeValue(image[18..20]), LeValue(image[24..32]),
                      LeValue(image[32..40]), LeValue(image[54..56]), LeValue(image[56..58]));
      LeOfValue(image[16..18]);
      LeOfValue(image[18..20]);
      LeOfValue(image[24..32]);
      LeOfValue(image[32..40]);
      LeOfValue(image[54..56]);
      LeOfValue(image[56..58]);
    }
  }
}
