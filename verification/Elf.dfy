/** The ELF64 images the loader accepts: header validation, and the walk over the loadable
    segments that feeds the address-space loader. */
module Elf64 {
  import opened Basics

  const PAGE: nat := 0x1000
  const ET_EXEC: nat := 2
  const EM_X86_64: nat := 62
  const PT_LOAD: nat := 1

  datatype ElfError = NotElf | NotElf64 | NotLittleEndian | WrongMachine | WrongType | TruncatedHeader
                    | TruncatedProgramHeaders | SegmentOutOfImage | FileLargerThanMemory | UnalignedSegment

  datatype SegRights = SegRights(read: bool, write: bool, exec: bool)

  datatype Segment = Segment(vaddr: nat, file: seq<byte>, memsz: nat, rights: SegRights) {
    /** `memsz.div_ceil(PAGE_SIZE)`. */
    function Pages(): nat {
      (memsz + PAGE - 1) / PAGE
    }
  }

  datatype Elf = Elf(image: seq<byte>, entry: nat, phoff: nat, phentsize: nat, phnum: nat) {
    /** What a successful `Parse` promises about the program-header table. */
    predicate Valid() {
      phentsize >= 56 && phoff + phentsize * phnum <= |image| <= U64_MAX
    }
  }

  /** Header validation: the first check that fails names the error. */
  function Parse(image: seq<byte>): (r: Result<Elf, ElfError>)
    requires |image| <= U64_MAX
    ensures r.Ok? ==> r.value.Valid() && r.value.image == image && 64 <= |image|
  {
    if |image| < 64 then Err(TruncatedHeader)
    else if image[..4] != [0x7f, 0x45, 0x4c, 0x46] then Err(NotElf)
    else if image[4] != 2 then Err(NotElf64)
    else if image[5] != 1 then Err(NotLittleEndian)
    else if ReadLe(image, 16, 2) != Some(ET_EXEC) then Err(WrongType)
    else if ReadLe(image, 18, 2) != Some(EM_X86_64) then Err(WrongMachine)
    else
      var entry, phoff := ReadLe(image, 24, 8).value, ReadLe(image, 32, 8).value;
      var phentsize, phnum := ReadLe(image, 54, 2).value, ReadLe(image, 56, 2).value;
      if phentsize < 56 then Err(TruncatedProgramHeaders)
      else if phoff + phentsize * phnum > |image| then Err(TruncatedProgramHeaders)
      else Ok(Elf(image, entry, phoff, phentsize, phnum))
  }

  function FlagRights(flags: nat): SegRights {
    SegRights(flags / 4 % 2 == 1, flags / 2 % 2 == 1, flags % 2 == 1)
  }

  /** What one program header is to the loader. */
  datatype Header = Skipped | Bad(error: ElfError) | Loadable(segment: Segment)

  /** One iteration of `Segments::next` on the header at byte `ph`. */
  function HeaderAt(image: seq<byte>, ph: nat): (h: Header)
    ensures h.Loadable? ==> |h.segment.file| <= h.segment.memsz && h.segment.vaddr % PAGE == 0
  {
    var t, f := ReadLe(image, ph, 4), ReadLe(image, ph + 4, 4);
    if t.None? || f.None? then Bad(TruncatedProgramHeaders)
    else if t.value != PT_LOAD then Skipped
    else
      var offset, vaddr := ReadLe(image, ph + 8, 8), ReadLe(image, ph + 16, 8);
      var filesz, memsz := ReadLe(image, ph + 32, 8), ReadLe(image, ph + 40, 8);
      if offset.None? || vaddr.None? || filesz.None? || memsz.None? then Bad(TruncatedProgramHeaders)
      else if filesz.value > memsz.value then Bad(FileLargerThanMemory)
      else if vaddr.value % PAGE != 0 then Bad(UnalignedSegment)
      else if offset.value + filesz.value > |image| then Bad(SegmentOutOfImage)
      else
        Loadable(Segment(vaddr.value, image[offset.value..offset.value + filesz.value], memsz.value, FlagRights(f.value)))
  }

  function Nth(elf: Elf, i: nat): Header {
    HeaderAt(elf.image, elf.phoff + i * elf.phentsize)
  }

  /** A header inside a validated table is never too short to read. */
  lemma ValidatedHeadersAreReadable(elf: Elf, i: nat)
    requires elf.Valid() && i < elf.phnum
    ensures Nth(elf, i) != Bad(TruncatedProgramHeaders)
  {
    hide HeaderAt;
    RowInside(i, elf.phnum, elf.phentsize);
    FiftySixAreReadable(elf.image, elf.phoff + i * elf.phentsize);
  }

  lemma RowInside(i: nat, n: nat, size: nat)
    requires i < n
    ensures i * size + size <= n * size
  {
    assert (n - i - 1) * size + i * size + size == n * size;
  }

  lemma FiftySixAreReadable(image: seq<byte>, ph: nat)
    requires ph + 56 <= |image|
    ensures HeaderAt(image, ph) != Bad(TruncatedProgramHeaders)
  {
  }

  /** The iterator over an image's loadable segments. */
  class Segments {
    const elf: Elf
    var index: nat

    constructor (elf: Elf)
      ensures this.elf == elf && index == 0
    {
      this.elf := elf;
      this.index := 0;
    }

    /** The next header that is not skipped: its segment, or what is wrong with it. */
    method Next() returns (r: Option<Result<Segment, ElfError>>)
      requires elf.Valid() && index <= elf.phnum
      modifies this`index
      ensures old(index) <= index <= elf.phnum
      ensures r.None? ==> index == elf.phnum && forall i :: old(index) <= i < index ==> Nth(elf, i).Skipped?
      ensures r.Some? ==> index > old(index) && forall i :: old(index) <= i < index - 1 ==> Nth(elf, i).Skipped?
      ensures r.Some? ==> Nth(elf, index - 1) ==
                          match r.value { case Ok(s) => Loadable(s) case Err(e) => Bad(e) }
      ensures r.Some? ==> r.value != Err(TruncatedProgramHeaders)
    {
      while index < elf.phnum
        invariant old(index) <= index <= elf.phnum
        invariant forall i :: old(index) <= i < index ==> Nth(elf, i).Skipped?
        decreases elf.phnum - index
      {
        var h := HeaderAt(elf.image, elf.phoff + index * elf.phentsize);
        ValidatedHeadersAreReadable(elf, index);
        index := index + 1;
        match h {
          case Skipped =>
          case Bad(e) => return Some(Err(e));
          case Loadable(s) => return Some(Ok(s));
        }
      }
      return None;
    }
  }
}
