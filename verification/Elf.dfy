/** The ELF64 header and program-header reader; layouts are those of the ELF gABI, chapters 4 and 5. */
module Elf {
  import opened Words

  const EHDR_SIZE := 64
  const PHDR_SIZE := 56
  const MAGIC: bytes := [0x7F, 0x45, 0x4C, 0x46]
  const EI_CLASS := 4
  const EI_DATA := 5
  const ELFCLASS64 := 2
  const ELFDATA2LSB := 1
  const EM_X86_64 := 62
  const PT_LOAD := 1

  datatype LoadSegment = LoadSegment(vaddr: u64, memSize: u64, fileOffset: u64, fileSize: u64, flags: u32)
  datatype ElfImage = ElfImage(entry: u64, eType: u16, segments: seq<LoadSegment>)
  datatype ElfError = TooSmall | BadMagic | UnsupportedClass | UnsupportedEndian | UnsupportedMachine | BadHeader
  datatype Parsed = Ok(elf: ElfImage) | Err(e: ElfError)

  function Half(image: bytes, at: nat): u16
    requires at + 2 <= |image|
  {
    Powers();
    LeValue(image[at..at + 2])
  }

  function Word(image: bytes, at: nat): u32
    requires at + 4 <= |image|
  {
    Powers();
    LeValue(image[at..at + 4])
  }

  function Xword(image: bytes, at: nat): u64
    requires at + 8 <= |image|
  {
    Powers();
    LeValue(image[at..at + 8])
  }

  // ---------------------------------------------------------------- what a well-formed image is

  function PhOff(image: bytes): u64 requires |image| >= EHDR_SIZE { Xword(image, 32) }
  function PhNum(image: bytes): u16 requires |image| >= EHDR_SIZE { Half(image, 56) }

  predicate WellFormed(image: bytes) {
    && |image| >= EHDR_SIZE
    && image[..4] == MAGIC && image[EI_CLASS] == ELFCLASS64 && image[EI_DATA] == ELFDATA2LSB
    && Half(image, 18) == EM_X86_64 && Half(image, 54) == PHDR_SIZE
    && PhOff(image) + PhNum(image) * PHDR_SIZE <= |image|
  }

  /** The address of program header i. */
  function HeaderAt(image: bytes, i: nat): (off: nat)
    requires WellFormed(image) && i < PhNum(image)
    ensures off + PHDR_SIZE <= |image|
  {
    PhOff(image) + i * PHDR_SIZE
  }

  predicate IsLoad(image: bytes, off: nat)
    requires off + PHDR_SIZE <= |image|
  {
    Word(image, off) == PT_LOAD
  }

  function SegmentAt(image: bytes, off: nat): LoadSegment
    requires off + PHDR_SIZE <= |image|
  {
    LoadSegment(Xword(image, off + 16), Xword(image, off + 40), Xword(image, off + 8), Xword(image, off + 32),
                Word(image, off + 4))
  }

  /** The load segments among the first n program headers. */
  function Loads(image: bytes, n: nat): seq<LoadSegment>
    requires WellFormed(image) && n <= PhNum(image)
  {
    if n == 0 then []
    else
      var off := HeaderAt(image, n - 1);
      Loads(image, n - 1) + if IsLoad(image, off) then [SegmentAt(image, off)] else []
  }

  /** The first demand on the image that fails. */
  predicate Faulty(image: bytes, e: ElfError) {
    match e
    case TooSmall => |image| < EHDR_SIZE
    case BadMagic => |image| >= EHDR_SIZE && image[..4] != MAGIC
    case UnsupportedClass => |image| >= EHDR_SIZE && image[..4] == MAGIC && image[EI_CLASS] != ELFCLASS64
    case UnsupportedEndian =>
      |image| >= EHDR_SIZE && image[..4] == MAGIC && image[EI_CLASS] == ELFCLASS64 && image[EI_DATA] != ELFDATA2LSB
    case UnsupportedMachine =>
      && |image| >= EHDR_SIZE && image[..4] == MAGIC && image[EI_CLASS] == ELFCLASS64 && image[EI_DATA] == ELFDATA2LSB
      && Half(image, 18) != EM_X86_64
    case BadHeader =>
      && |image| >= EHDR_SIZE && image[..4] == MAGIC && image[EI_CLASS] == ELFCLASS64 && image[EI_DATA] == ELFDATA2LSB
      && Half(image, 18) == EM_X86_64
      && (Half(image, 54) == PHDR_SIZE ==> PhOff(image) + PhNum(image) * PHDR_SIZE > |image|)
  }

  /** Each image is well-formed or has exactly one first fault. */
  lemma {:induction false} OneVerdict(image: bytes, e: ElfError, e': ElfError)
    requires Faulty(image, e)
    ensures !WellFormed(image)
    ensures Faulty(image, e') ==> e == e'
  {
  }

  // ---------------------------------------------------------------- the reader

  method ParseElf64(image: bytes) returns (r: Parsed)
    requires |image| < TWO63
    ensures r.Ok? <==> WellFormed(image)
    ensures r.Ok? ==> r.elf == ElfImage(Xword(image, 24), Half(image, 16), Loads(image, PhNum(image)))
    ensures r.Err? ==> Faulty(image, r.e)
  {
    if |image| < EHDR_SIZE {
      return Err(TooSmall);
    }
    if image[0..4] != MAGIC {
      return Err(BadMagic);
    }
    if image[EI_CLASS] != ELFCLASS64 {
      return Err(UnsupportedClass);
    }
    if image[EI_DATA] != ELFDATA2LSB {
      return Err(UnsupportedEndian);
    }
    if Half(image, 18) != EM_X86_64 {
      return Err(UnsupportedMachine);
    }
    if Half(image, 54) != PHDR_SIZE {
      return Err(BadHeader);
    }
    var phoff: nat, phnum: nat, phentsize: nat := Xword(image, 32), Half(image, 56), Half(image, 54);
    var end := phoff + phnum * phentsize;
    if end >= TWO64 || end > |image| {
      return Err(BadHeader);
    }
    var segments := [];
    for i := 0 to phnum
      invariant segments == Loads(image, i)
    {
      var off := phoff + i * phentsize;
      if Word(image, off) == PT_LOAD {
        segments := segments + [SegmentAt(image, off)];
      }
    }
    return Ok(ElfImage(Xword(image, 24), Half(image, 16), segments));
  }

  // ---------------------------------------------------------------- what it returns

  /** The indices below n whose program headers are of type PT_LOAD. */
  function LoadIndices(image: bytes, n: nat): (ix: seq<nat>)
    requires WellFormed(image) && n <= PhNum(image)
    ensures forall k :: 0 <= k < |ix| ==> ix[k] < n
  {
    if n == 0 then []
    else LoadIndices(image, n - 1) + if IsLoad(image, HeaderAt(image, n - 1)) then [n - 1] else []
  }

  /** Exactly the PT_LOAD headers, each once and in table order. */
  lemma {:induction false} ExactlyTheLoads(image: bytes, n: nat)
    requires WellFormed(image) && n <= PhNum(image)
    ensures var ix, segs := LoadIndices(image, n), Loads(image, n);
            && |segs| == |ix|
            && (forall k :: 0 <= k < |ix| ==> segs[k] == SegmentAt(image, HeaderAt(image, ix[k])))
            && (forall j, k :: 0 <= j < k < |ix| ==> ix[j] < ix[k])
            && (forall i :: 0 <= i < n ==> (i in ix <==> IsLoad(image, HeaderAt(image, i))))
  {
    hide WellFormed, IsLoad, SegmentAt, HeaderAt;
    if n > 0 {
      ExactlyTheLoads(image, n - 1);
    }
  }

  /** A program header as the gABI lays it out (figure 5-1, 64-bit form). */
  datatype ProgramHeader =
    ProgramHeader(pType: u32, flags: u32, offset: u64, vaddr: u64, paddr: u64, filesz: u64, memsz: u64, align: u64)

  function Encode(p: ProgramHeader): (b: bytes)
    ensures |b| == PHDR_SIZE
  {
    LeBytes(4, p.pType) + LeBytes(4, p.flags) + LeBytes(8, p.offset) + LeBytes(8, p.vaddr) +
    LeBytes(8, p.paddr) + LeBytes(8, p.filesz) + LeBytes(8, p.memsz) + LeBytes(8, p.align)
  }

  lemma {:induction false} EncodedFields(p: ProgramHeader)
    ensures var b := Encode(p);
            && b[0..4] == LeBytes(4, p.pType) && b[4..8] == LeBytes(4, p.flags) && b[8..16] == LeBytes(8, p.offset)
            && b[16..24] == LeBytes(8, p.vaddr) && b[32..40] == LeBytes(8, p.filesz) && b[40..48] == LeBytes(8, p.memsz)
  {
    hide LeBytes;
  }

  /** Reading an encoded program header anywhere in an image yields its own fields. */
  lemma {:induction false} HeaderRoundTrip(image: bytes, off: nat, p: ProgramHeader)
    requires off + PHDR_SIZE <= |image| && image[off..off + PHDR_SIZE] == Encode(p)
    ensures IsLoad(image, off) <==> p.pType == PT_LOAD
    ensures SegmentAt(image, off) == LoadSegment(p.vaddr, p.memsz, p.offset, p.filesz, p.flags)
  {
    hide LeBytes, Encode, Word, Xword;
    var b := Encode(p);
    EncodedFields(p);
    WordField(image, off, b, 0, p.pType);
    WordField(image, off, b, 4, p.flags);
    XwordField(image, off, b, 8, p.offset);
    XwordField(image, off, b, 16, p.vaddr);
    XwordField(image, off, b, 32, p.filesz);
    XwordField(image, off, b, 40, p.memsz);
  }

  lemma {:induction false} WordField(image: bytes, off: nat, b: bytes, at: nat, v: u32)
    requires off + |b| <= |image| && image[off..off + |b|] == b
    requires at + 4 <= |b| && b[at..at + 4] == LeBytes(4, v)
    ensures Word(image, off + at) == v
  {
    FieldOf(image, off, b, at, 4, v);
    Powers();
  }

  lemma {:induction false} XwordField(image: bytes, off: nat, b: bytes, at: nat, v: u64)
    requires off + |b| <= |image| && image[off..off + |b|] == b
    requires at + 8 <= |b| && b[at..at + 8] == LeBytes(8, v)
    ensures Xword(image, off + at) == v
  {
    FieldOf(image, off, b, at, 8, v);
    Powers();
  }

  lemma {:induction false} FieldOf(image: bytes, off: nat, b: bytes, at: nat, n: nat, v: nat)
    requires off + |b| <= |image| && image[off..off + |b|] == b
    requires at + n <= |b| && b[at..at + n] == LeBytes(n, v)
    ensures LeValue(image[off + at..off + at + n]) == v % Power256(n)
  {
    Subslice(image, off, off + |b|, at, at + n);
    LeRoundTrip(n, v);
  }

  /** The load segments a table of program headers describes. */
  function Described(hs: seq<ProgramHeader>): seq<LoadSegment> {
    if hs == [] then []
    else
      var p := hs[|hs| - 1];
      Described(hs[..|hs| - 1]) +
      if p.pType == PT_LOAD then [LoadSegment(p.vaddr, p.memsz, p.offset, p.filesz, p.flags)] else []
  }

  /** An image whose table holds the encoded headers hs is read as the load segments among them. */
  lemma {:induction false} TableRoundTrip(image: bytes, hs: seq<ProgramHeader>)
    requires WellFormed(image) && |hs| <= PhNum(image)
    requires forall i :: 0 <= i < |hs| ==> image[HeaderAt(image, i)..HeaderAt(image, i) + PHDR_SIZE] == Encode(hs[i])
    ensures Loads(image, |hs|) == Described(hs)
  {
    hide WellFormed, HeaderAt, IsLoad, SegmentAt, Encode;
    if hs != [] {
      var n := |hs| - 1;
      TableRoundTrip(image, hs[..n]);
      HeaderRoundTrip(image, HeaderAt(image, n), hs[n]);
    }
  }

  // ---------------------------------------------------------------- whole files

  /** A file header as the gABI lays it out (figure 4-3, 64-bit form), its class and encoding first. */
  datatype FileHeader = FileHeader(
    class_: byte, data: byte, eType: u16, machine: u16, version: u32, entry: u64, phOff: u64, shOff: u64, flags: u32,
    ehSize: u16, phEntSize: u16, phNum: u16, shEntSize: u16, shNum: u16, shStrNdx: u16)

  function Identification(h: FileHeader): (b: bytes)
    ensures |b| == 16
  {
    MAGIC + [h.class_, h.data, 1, 0, 0, 0, 0, 0, 0, 0, 0, 0]
  }

  function EncodeFile(h: FileHeader): (b: bytes)
    ensures |b| == EHDR_SIZE
  {
    Identification(h) + LeBytes(2, h.eType) + LeBytes(2, h.machine) + LeBytes(4, h.version) + LeBytes(8, h.entry) +
    LeBytes(8, h.phOff) + LeBytes(8, h.shOff) + LeBytes(4, h.flags) + LeBytes(2, h.ehSize) + LeBytes(2, h.phEntSize) +
    LeBytes(2, h.phNum) + LeBytes(2, h.shEntSize) + LeBytes(2, h.shNum) + LeBytes(2, h.shStrNdx)
  }

  lemma {:induction false} EncodedFileFields(h: FileHeader)
    ensures var b := EncodeFile(h);
            && b[0..16] == Identification(h) && b[16..18] == LeBytes(2, h.eType) && b[18..20] == LeBytes(2, h.machine)
            && b[24..32] == LeBytes(8, h.entry) && b[32..40] == LeBytes(8, h.phOff)
            && b[54..56] == LeBytes(2, h.phEntSize) && b[56..58] == LeBytes(2, h.phNum)
  {
    hide LeBytes, Identification;
  }

  lemma {:induction false} HalfField(image: bytes, off: nat, b: bytes, at: nat, v: u16)
    requires off + |b| <= |image| && image[off..off + |b|] == b
    requires at + 2 <= |b| && b[at..at + 2] == LeBytes(2, v)
    ensures Half(image, off + at) == v
  {
    FieldOf(image, off, b, at, 2, v);
    Powers();
  }

  /** Reading an encoded file header yields its fields, and says exactly when the image is accepted. */
  lemma {:induction false} FileHeaderRoundTrip(image: bytes, h: FileHeader)
    requires |image| >= EHDR_SIZE && image[..EHDR_SIZE] == EncodeFile(h)
    ensures Half(image, 16) == h.eType && Xword(image, 24) == h.entry && PhOff(image) == h.phOff
            && PhNum(image) == h.phNum
    ensures WellFormed(image) <==>
            && h.class_ == ELFCLASS64 && h.data == ELFDATA2LSB && h.machine == EM_X86_64 && h.phEntSize == PHDR_SIZE
            && h.phOff + h.phNum * PHDR_SIZE <= |image|
  {
    FileHeaderFields(image, h);
    hide EncodeFile, Half, Xword;
  }

  lemma {:induction false} FileHeaderFields(image: bytes, h: FileHeader)
    requires |image| >= EHDR_SIZE && image[..EHDR_SIZE] == EncodeFile(h)
    ensures Half(image, 16) == h.eType && Xword(image, 24) == h.entry && PhOff(image) == h.phOff
    ensures PhNum(image) == h.phNum && Half(image, 18) == h.machine && Half(image, 54) == h.phEntSize
    ensures image[..4] == MAGIC && image[EI_CLASS] == h.class_ && image[EI_DATA] == h.data
  {
    hide LeBytes, EncodeFile, Half, Xword;
    var b := EncodeFile(h);
    EncodedFileFields(h);
    assert image[0..0 + |b|] == b;
    HalfField(image, 0, b, 16, h.eType);
    HalfField(image, 0, b, 18, h.machine);
    XwordField(image, 0, b, 24, h.entry);
    XwordField(image, 0, b, 32, h.phOff);
    HalfField(image, 0, b, 54, h.phEntSize);
    HalfField(image, 0, b, 56, h.phNum);
    Subslice(image, 0, |b|, 0, 16);
    assert image[..16] == Identification(h);
    assert image[..4] == image[..16][..4] == MAGIC;
    assert image[EI_CLASS] == image[..16][EI_CLASS] && image[EI_DATA] == image[..16][EI_DATA];
  }

  /** The error of an image in terms of its file header: the first field that is wrong decides. */
  lemma {:induction false} FaultMeaning(image: bytes, h: FileHeader)
    ensures |image| < 64 ==> Faulty(image, TooSmall)
    ensures |image| >= 64 && image[..4] != [0x7F, 0x45, 0x4C, 0x46] ==> Faulty(image, BadMagic)
    ensures |image| >= 64 && image[..64] == EncodeFile(h) ==>
              && (h.class_ != 2 ==> Faulty(image, UnsupportedClass))
              && (h.class_ == 2 && h.data != 1 ==> Faulty(image, UnsupportedEndian))
              && (h.class_ == 2 && h.data == 1 && h.machine != 62 ==> Faulty(image, UnsupportedMachine))
              && ((h.class_ == 2 && h.data == 1 && h.machine == 62
                   && (h.phEntSize != 56 || h.phOff + h.phNum * 56 > |image|)) ==> Faulty(image, BadHeader))
  {
    if |image| >= 64 && image[..64] == EncodeFile(h) {
      FileHeaderFields(image, h);
    }
    hide EncodeFile, Half, Xword;
  }

  function EncodeAll(hs: seq<ProgramHeader>): (b: bytes)
    ensures |b| == PHDR_SIZE * |hs|
  {
    if hs == [] then [] else EncodeAll(hs[..|hs| - 1]) + Encode(hs[|hs| - 1])
  }

  lemma {:induction false} EncodedAt(hs: seq<ProgramHeader>, i: nat)
    requires i < |hs|
    ensures EncodeAll(hs)[PHDR_SIZE * i..PHDR_SIZE * i + PHDR_SIZE] == Encode(hs[i])
  {
    hide Encode;
    var n := |hs| - 1;
    if i < n {
      EncodedAt(hs[..n], i);
      var k := PHDR_SIZE * i;
      assert EncodeAll(hs)[k..k + PHDR_SIZE] == EncodeAll(hs[..n])[k..k + PHDR_SIZE];
    }
  }

  /** A file made of a file header, with the encoded table of hs where the header says it is, is read as
      the load segments that hs describes. */
  lemma {:induction false} FileRoundTrip(image: bytes, h: FileHeader, hs: seq<ProgramHeader>)
    requires |image| >= EHDR_SIZE && image[..EHDR_SIZE] == EncodeFile(h)
    requires h.class_ == ELFCLASS64 && h.data == ELFDATA2LSB && h.machine == EM_X86_64 && h.phEntSize == PHDR_SIZE
    requires h.phNum == |hs| && h.phOff + PHDR_SIZE * |hs| <= |image|
    requires image[h.phOff..h.phOff + PHDR_SIZE * |hs|] == EncodeAll(hs)
    ensures WellFormed(image) && PhNum(image) == |hs| && Loads(image, |hs|) == Described(hs)
    ensures Half(image, 16) == h.eType && Xword(image, 24) == h.entry
  {
    hide EncodeFile, Encode, EncodeAll, Half, Xword, Loads, Described;
    FileHeaderRoundTrip(image, h);
    forall i | 0 <= i < |hs|
      ensures image[HeaderAt(image, i)..HeaderAt(image, i) + PHDR_SIZE] == Encode(hs[i])
    {
      EncodedAt(hs, i);
      Subslice(image, h.phOff, h.phOff + PHDR_SIZE * |hs|, PHDR_SIZE * i, PHDR_SIZE * i + PHDR_SIZE);
    }
    TableRoundTrip(image, hs);
  }
}
