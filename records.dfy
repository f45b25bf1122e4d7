/** The three fixed-layout records of an ELF file (the file header, a
    section header, a program header), each in its four struct layouts. A
    record is its field list in wire order packed with the layout's format. */
module Records {
  import opened Bytes
  import opened Results
  import opened Layout
  import opened Variants

  /** The file header after e_ident (Elf32_Ehdr / Elf64_Ehdr less e_ident). */
  datatype FileHeader = FileHeader(
    objectType: nat, machine: nat, version: nat, entry: nat, phoff: nat, shoff: nat,
    flags: nat, ehsize: nat, phentsize: nat, phnum: nat, shentsize: nat, shnum: nat,
    shstrndx: nat)

  /** One entry of the section header table (Elf32_Shdr / Elf64_Shdr). */
  datatype SectionHeader = SectionHeader(
    name: nat, sectionType: nat, flags: nat, addr: nat, offset: nat, size: nat,
    link: nat, info: nat, addralign: nat, entsize: nat)

  /** One entry of the program header table (Elf32_Phdr / Elf64_Phdr). */
  datatype ProgramHeader = ProgramHeader(
    segmentType: nat, offset: nat, vaddr: nat, paddr: nat, filesz: nat, memsz: nat,
    flags: nat, align: nat)

  /** Width of an address or offset field: "I" in 32-bit layouts, "Q" in 64-bit ones. */
  function AddrWidth(w: Width): nat
  {
    if w == W32 then 4 else 8
  }

  // ---------------------------------------------------------------- formats

  /** HHIIIIIHHHHHH (32-bit) and HHIQQQIHHHHHH (64-bit). */
  function HeaderFormat(w: Width): Format
  {
    if w == W32 then [2, 2, 4, 4, 4, 4, 4, 2, 2, 2, 2, 2, 2]
    else [2, 2, 4, 8, 8, 8, 4, 2, 2, 2, 2, 2, 2]
  }

  /** IIIIIIIIII (32-bit) and IIQQQQIIQQ (64-bit). */
  function SectionFormat(w: Width): Format
  {
    if w == W32 then [4, 4, 4, 4, 4, 4, 4, 4, 4, 4]
    else [4, 4, 8, 8, 8, 8, 4, 4, 8, 8]
  }

  /** IIIIIIII (32-bit) and IIQQQQQQ (64-bit). */
  function ProgramFormat(w: Width): Format
  {
    if w == W32 then [4, 4, 4, 4, 4, 4, 4, 4] else [4, 4, 8, 8, 8, 8, 8, 8]
  }

  /** 36 bytes in 32-bit layouts, 48 in 64-bit ones. */
  function HeaderSize(w: Width): nat
  {
    24 + 3 * AddrWidth(w)
  }

  /** 40 bytes in 32-bit layouts, 64 in 64-bit ones. */
  function SectionSize(w: Width): nat
  {
    16 + 6 * AddrWidth(w)
  }

  /** 32 bytes in 32-bit layouts, 56 in 64-bit ones. */
  function ProgramSize(w: Width): nat
  {
    8 + 6 * AddrWidth(w)
  }

  /** struct.calcsize of the header format is HeaderSize: 13 fields, 36 or 48 bytes. */
  lemma HeaderFormatSize(w: Width)
    ensures |HeaderFormat(w)| == 13 && Size(HeaderFormat(w)) == HeaderSize(w)
  {
    if w == W32 {
      HeaderSize32();
    } else {
      HeaderSize64();
    }
  }

  lemma HeaderSize32()
    ensures Size(HeaderFormat(W32)) == 36
  {
  }

  lemma HeaderSize64()
    ensures Size(HeaderFormat(W64)) == 48
  {
  }

  /** struct.calcsize of the section format is SectionSize: 10 fields, 40 or 64 bytes. */
  lemma SectionFormatSize(w: Width)
    ensures |SectionFormat(w)| == 10 && Size(SectionFormat(w)) == SectionSize(w)
  {
    if w == W32 {
      SectionSize32();
    } else {
      SectionSize64();
    }
  }

  lemma SectionSize32()
    ensures Size(SectionFormat(W32)) == 40
  {
  }

  lemma SectionSize64()
    ensures Size(SectionFormat(W64)) == 64
  {
  }

  /** struct.calcsize of the program format is ProgramSize: 8 fields, 32 or 56 bytes. */
  lemma ProgramFormatSize(w: Width)
    ensures |ProgramFormat(w)| == 8 && Size(ProgramFormat(w)) == ProgramSize(w)
  {
    if w == W32 {
      ProgramSize32();
    } else {
      ProgramSize64();
    }
  }

  lemma ProgramSize32()
    ensures Size(ProgramFormat(W32)) == 32
  {
  }

  lemma ProgramSize64()
    ensures Size(ProgramFormat(W64)) == 56
  {
  }

  // ---------------------------------------------------------------- field lists in wire order

  function HeaderFields(h: FileHeader): seq<nat>
  {
    [h.objectType, h.machine, h.version, h.entry, h.phoff, h.shoff, h.flags,
     h.ehsize, h.phentsize, h.phnum, h.shentsize, h.shnum, h.shstrndx]
  }

  function HeaderOfFields(f: seq<nat>): FileHeader
    requires |f| == 13
  {
    FileHeader(f[0], f[1], f[2], f[3], f[4], f[5], f[6], f[7], f[8], f[9], f[10], f[11], f[12])
  }

  function SectionFields(s: SectionHeader): seq<nat>
  {
    [s.name, s.sectionType, s.flags, s.addr, s.offset, s.size, s.link, s.info,
     s.addralign, s.entsize]
  }

  function SectionOfFields(f: seq<nat>): SectionHeader
    requires |f| == 10
  {
    SectionHeader(f[0], f[1], f[2], f[3], f[4], f[5], f[6], f[7], f[8], f[9])
  }

  /** The 64-bit layout moves flags up to second place. */
  function ProgramFields(p: ProgramHeader, w: Width): seq<nat>
  {
    if w == W32 then [p.segmentType, p.offset, p.vaddr, p.paddr, p.filesz, p.memsz, p.flags, p.align]
    else [p.segmentType, p.flags, p.offset, p.vaddr, p.paddr, p.filesz, p.memsz, p.align]
  }

  function ProgramOfFields(f: seq<nat>, w: Width): ProgramHeader
    requires |f| == 8
  {
    if w == W32 then ProgramHeader(f[0], f[1], f[2], f[3], f[4], f[5], f[6], f[7])
    else ProgramHeader(f[0], f[2], f[3], f[4], f[5], f[6], f[1], f[7])
  }

  lemma HeaderOfHeaderFields(h: FileHeader)
    ensures HeaderOfFields(HeaderFields(h)) == h
  {
  }

  lemma HeaderFieldsOf(f: seq<nat>)
    requires |f| == 13
    ensures HeaderFields(HeaderOfFields(f)) == f
  {
  }

  lemma SectionOfSectionFields(s: SectionHeader)
    ensures SectionOfFields(SectionFields(s)) == s
  {
  }

  lemma SectionFieldsOf(f: seq<nat>)
    requires |f| == 10
    ensures SectionFields(SectionOfFields(f)) == f
  {
  }

  lemma ProgramOfProgramFields(p: ProgramHeader, w: Width)
    ensures ProgramOfFields(ProgramFields(p, w), w) == p
  {
  }

  lemma ProgramFieldsOf(f: seq<nat>, w: Width)
    requires |f| == 8
    ensures ProgramFields(ProgramOfFields(f, w), w) == f
  {
  }

  // ---------------------------------------------------------------- codecs

  /** The field values fit the variant's widths: packing raises struct.error otherwise. */
  predicate HeaderFits(h: FileHeader, v: Variant) { Fits(HeaderFields(h), HeaderFormat(v.width)) }
  predicate SectionFits(s: SectionHeader, v: Variant) { Fits(SectionFields(s), SectionFormat(v.width)) }
  predicate ProgramFits(p: ProgramHeader, v: Variant) { Fits(ProgramFields(p, v.width), ProgramFormat(v.width)) }

  function EncodeHeader(h: FileHeader, v: Variant): (r: seq<byte>)
    ensures |r| == HeaderSize(v.width)
  {
    HeaderFormatSize(v.width);
    PackFields(HeaderFields(h), HeaderFormat(v.width), v.order)
  }

  function EncodeSection(s: SectionHeader, v: Variant): (r: seq<byte>)
    ensures |r| == SectionSize(v.width)
  {
    SectionFormatSize(v.width);
    PackFields(SectionFields(s), SectionFormat(v.width), v.order)
  }

  function EncodeProgram(p: ProgramHeader, v: Variant): (r: seq<byte>)
    ensures |r| == ProgramSize(v.width)
  {
    ProgramFormatSize(v.width);
    PackFields(ProgramFields(p, v.width), ProgramFormat(v.width), v.order)
  }

  /** unpack_from: Truncated when fewer than the layout's size remain at off. */
  function DecodeHeader(b: seq<byte>, off: nat, v: Variant): Result<FileHeader>
  {
    var r := UnpackFrom(b, off, HeaderFormat(v.width), v.order);
    if r.Err? then Err(r.error) else Ok(HeaderOfFields(r.value))
  }

  function DecodeSection(b: seq<byte>, off: nat, v: Variant): Result<SectionHeader>
  {
    var r := UnpackFrom(b, off, SectionFormat(v.width), v.order);
    if r.Err? then Err(r.error) else Ok(SectionOfFields(r.value))
  }

  function DecodeProgram(b: seq<byte>, off: nat, v: Variant): Result<ProgramHeader>
  {
    var r := UnpackFrom(b, off, ProgramFormat(v.width), v.order);
    if r.Err? then Err(r.error) else Ok(ProgramOfFields(r.value, v.width))
  }

  // ---------------------------------------------------------------- round trips

  /** A header is read back from wherever its encoding lies in a buffer. */
  lemma DecodeHeaderAt(b: seq<byte>, off: nat, h: FileHeader, v: Variant)
    requires HeaderFits(h, v)
    requires off + HeaderSize(v.width) <= |b| && b[off..off + HeaderSize(v.width)] == EncodeHeader(h, v)
    ensures DecodeHeader(b, off, v) == Ok(h)
  {
    HeaderFormatSize(v.width);
    UnpackFromPacked(b, off, HeaderFields(h), HeaderFormat(v.width), v.order);
    HeaderOfHeaderFields(h);
  }

  lemma DecodeSectionAt(b: seq<byte>, off: nat, s: SectionHeader, v: Variant)
    requires SectionFits(s, v)
    requires off + SectionSize(v.width) <= |b| && b[off..off + SectionSize(v.width)] == EncodeSection(s, v)
    ensures DecodeSection(b, off, v) == Ok(s)
  {
    SectionFormatSize(v.width);
    UnpackFromPacked(b, off, SectionFields(s), SectionFormat(v.width), v.order);
    SectionOfSectionFields(s);
  }

  lemma DecodeProgramAt(b: seq<byte>, off: nat, p: ProgramHeader, v: Variant)
    requires ProgramFits(p, v)
    requires off + ProgramSize(v.width) <= |b| && b[off..off + ProgramSize(v.width)] == EncodeProgram(p, v)
    ensures DecodeProgram(b, off, v) == Ok(p)
  {
    ProgramFormatSize(v.width);
    UnpackFromPacked(b, off, ProgramFields(p, v.width), ProgramFormat(v.width), v.order);
    ProgramOfProgramFields(p, v.width);
  }

  lemma HeaderRoundTrip(h: FileHeader, v: Variant)
    requires HeaderFits(h, v)
    ensures DecodeHeader(EncodeHeader(h, v), 0, v) == Ok(h)
  {
    var b := EncodeHeader(h, v);
    assert b[0..|b|] == b;
    DecodeHeaderAt(b, 0, h, v);
  }

  lemma SectionRoundTrip(s: SectionHeader, v: Variant)
    requires SectionFits(s, v)
    ensures DecodeSection(EncodeSection(s, v), 0, v) == Ok(s)
  {
    var b := EncodeSection(s, v);
    assert b[0..|b|] == b;
    DecodeSectionAt(b, 0, s, v);
  }

  lemma ProgramRoundTrip(p: ProgramHeader, v: Variant)
    requires ProgramFits(p, v)
    ensures DecodeProgram(EncodeProgram(p, v), 0, v) == Ok(p)
  {
    var b := EncodeProgram(p, v);
    assert b[0..|b|] == b;
    DecodeProgramAt(b, 0, p, v);
  }

  /** A decoded header fits its layout and re-encodes to the very bytes it
      was read from: the layout has no padding. */
  lemma HeaderBytesRoundTrip(b: seq<byte>, off: nat, v: Variant)
    requires DecodeHeader(b, off, v).Ok?
    ensures off + HeaderSize(v.width) <= |b|
    ensures HeaderFits(DecodeHeader(b, off, v).value, v)
    ensures EncodeHeader(DecodeHeader(b, off, v).value, v) == b[off..off + HeaderSize(v.width)]
  {
    var fmt := HeaderFormat(v.width);
    var f := UnpackFrom(b, off, fmt, v.order).value;
    HeaderFormatSize(v.width);
    UnpackFromRepacks(b, off, fmt, v.order);
    HeaderFieldsOf(f);
    var h := HeaderOfFields(f);
    assert DecodeHeader(b, off, v).value == h;
    assert HeaderFields(h) == f;
    assert EncodeHeader(h, v) == PackFields(f, fmt, v.order);
  }

  lemma SectionBytesRoundTrip(b: seq<byte>, off: nat, v: Variant)
    requires DecodeSection(b, off, v).Ok?
    ensures off + SectionSize(v.width) <= |b|
    ensures SectionFits(DecodeSection(b, off, v).value, v)
    ensures EncodeSection(DecodeSection(b, off, v).value, v) == b[off..off + SectionSize(v.width)]
  {
    var f := UnpackFrom(b, off, SectionFormat(v.width), v.order).value;
    SectionFormatSize(v.width);
    UnpackFromRepacks(b, off, SectionFormat(v.width), v.order);
    SectionFieldsOf(f);
  }

  lemma ProgramBytesRoundTrip(b: seq<byte>, off: nat, v: Variant)
    requires DecodeProgram(b, off, v).Ok?
    ensures off + ProgramSize(v.width) <= |b|
    ensures ProgramFits(DecodeProgram(b, off, v).value, v)
    ensures EncodeProgram(DecodeProgram(b, off, v).value, v) == b[off..off + ProgramSize(v.width)]
  {
    var f := UnpackFrom(b, off, ProgramFormat(v.width), v.order).value;
    ProgramFormatSize(v.width);
    UnpackFromRepacks(b, off, ProgramFormat(v.width), v.order);
    ProgramFieldsOf(f, v.width);
  }

  // ---------------------------------------------------------------- field positions

  lemma HeaderOffsets(w: Width)
    ensures var fmt, a := HeaderFormat(w), AddrWidth(w);
      && FieldOffset(fmt, 5) == 8 + 2 * a && fmt[5] == a
      && FieldOffset(fmt, 10) == 18 + 3 * a && fmt[10] == 2
      && FieldOffset(fmt, 11) == 20 + 3 * a && fmt[11] == 2
  {
    if w == W32 {
      assert FieldOffset(HeaderFormat(W32), 5) == 16;
      assert FieldOffset(HeaderFormat(W32), 10) == 30;
      assert FieldOffset(HeaderFormat(W32), 11) == 32;
    } else {
      assert FieldOffset(HeaderFormat(W64), 5) == 24;
      assert FieldOffset(HeaderFormat(W64), 10) == 42;
      assert FieldOffset(HeaderFormat(W64), 11) == 44;
    }
  }

  /** Offset, entry size and count of the section table: e_shoff is read at
      header offset 16 (32-bit) or 24 (64-bit), e_shentsize at 30 or 42 and
      e_shnum at 32 or 44. */
  lemma HeaderSectionFieldsAt(b: seq<byte>, off: nat, v: Variant)
    requires DecodeHeader(b, off, v).Ok?
    ensures off + HeaderSize(v.width) <= |b|
    ensures var h, a := DecodeHeader(b, off, v).value, AddrWidth(v.width);
      && h.shoff == DecodeUint(b[off + 8 + 2 * a..off + 8 + 3 * a], v.order)
      && h.shentsize == DecodeUint(b[off + 18 + 3 * a..off + 20 + 3 * a], v.order)
      && h.shnum == DecodeUint(b[off + 20 + 3 * a..off + 22 + 3 * a], v.order)
  {
    var fmt, a := HeaderFormat(v.width), AddrWidth(v.width);
    var f := UnpackFrom(b, off, fmt, v.order).value;
    var h := DecodeHeader(b, off, v).value;
    assert h == HeaderOfFields(f);
    HeaderFormatSize(v.width);
    HeaderOffsets(v.width);
    UnpackFromField(b, off, fmt, v.order, 5);
    UnpackFromField(b, off, fmt, v.order, 10);
    UnpackFromField(b, off, fmt, v.order, 11);
    assert h.shoff == f[5] && h.shentsize == f[10] && h.shnum == f[11];
  }

  lemma SectionOffsets(w: Width)
    ensures var fmt, a := SectionFormat(w), AddrWidth(w);
      FieldOffset(fmt, 5) == 8 + 3 * a && fmt[5] == a
  {
    if w == W32 {
      assert FieldOffset(SectionFormat(W32), 5) == 20;
    } else {
      assert FieldOffset(SectionFormat(W64), 5) == 32;
    }
  }

  lemma ProgramOffsets()
    ensures FieldOffset(ProgramFormat(W32), 6) == 24 && ProgramFormat(W32)[6] == 4
    ensures FieldOffset(ProgramFormat(W64), 1) == 4 && ProgramFormat(W64)[1] == 4
  {
    assert FieldOffset(ProgramFormat(W32), 6) == 24;
    assert FieldOffset(ProgramFormat(W64), 1) == 4;
  }

  /** The size of a section is its sixth field: 4 bytes at 20 (32-bit), 8 bytes at 32 (64-bit). */
  lemma SectionSizeAt(b: seq<byte>, off: nat, v: Variant)
    requires DecodeSection(b, off, v).Ok?
    ensures off + SectionSize(v.width) <= |b|
    ensures var a := AddrWidth(v.width);
      DecodeSection(b, off, v).value.size == DecodeUint(b[off + 8 + 3 * a..off + 8 + 4 * a], v.order)
  {
    var fmt := SectionFormat(v.width);
    var f := UnpackFrom(b, off, fmt, v.order).value;
    assert DecodeSection(b, off, v).value.size == f[5];
    SectionFormatSize(v.width);
    SectionOffsets(v.width);
    UnpackFromField(b, off, fmt, v.order, 5);
  }

  /** Program header flags are the seventh field (bytes 24-27) in 32-bit
      layouts and the second (bytes 4-7) in 64-bit ones. */
  lemma ProgramFlagsAt(b: seq<byte>, off: nat, v: Variant)
    requires DecodeProgram(b, off, v).Ok?
    ensures off + ProgramSize(v.width) <= |b|
    ensures var at := if v.width == W32 then 24 else 4;
      DecodeProgram(b, off, v).value.flags == DecodeUint(b[off + at..off + at + 4], v.order)
  {
    ProgramFormatSize(v.width);
    var f := UnpackFrom(b, off, ProgramFormat(v.width), v.order).value;
    if v.width == W32 {
      assert DecodeProgram(b, off, v).value.flags == f[6];
      ProgramFlagsAt32(b, off, v.order);
    } else {
      assert DecodeProgram(b, off, v).value.flags == f[1];
      ProgramFlagsAt64(b, off, v.order);
    }
  }

  lemma ProgramFlagsAt32(b: seq<byte>, off: nat, order: ByteOrder)
    requires UnpackFrom(b, off, ProgramFormat(W32), order).Ok?
    ensures off + 28 <= |b|
    ensures UnpackFrom(b, off, ProgramFormat(W32), order).value[6] == DecodeUint(b[off + 24..off + 28], order)
  {
    ProgramOffsets();
    UnpackFromField(b, off, ProgramFormat(W32), order, 6);
  }

  lemma ProgramFlagsAt64(b: seq<byte>, off: nat, order: ByteOrder)
    requires UnpackFrom(b, off, ProgramFormat(W64), order).Ok?
    ensures off + 8 <= |b|
    ensures UnpackFrom(b, off, ProgramFormat(W64), order).value[1] == DecodeUint(b[off + 4..off + 8], order)
  {
    ProgramOffsets();
    UnpackFromField(b, off, ProgramFormat(W64), order, 1);
  }

  // ---------------------------------------------------------------- pack_into

  /** ElfFileHeader.pack: in place at off; Truncated or FieldRange leave the buffer as it was. */
  method PackHeader(buf: array<byte>, off: nat, h: FileHeader, v: Variant) returns (r: Outcome)
    modifies buf
    ensures r == (if off + HeaderSize(v.width) > buf.Length then Fail(Truncated)
                  else if !HeaderFits(h, v) then Fail(FieldRange) else Pass)
    ensures r.Fail? ==> buf[..] == old(buf[..])
    ensures r.Pass? ==> buf[..] == Place(old(buf[..]), off, EncodeHeader(h, v))
  {
    HeaderFormatSize(v.width);
    r := PackInto(buf, off, HeaderFields(h), HeaderFormat(v.width), v.order);
  }

  /** ElfSectionHeader.pack. */
  method PackSection(buf: array<byte>, off: nat, s: SectionHeader, v: Variant) returns (r: Outcome)
    modifies buf
    ensures r == (if off + SectionSize(v.width) > buf.Length then Fail(Truncated)
                  else if !SectionFits(s, v) then Fail(FieldRange) else Pass)
    ensures r.Fail? ==> buf[..] == old(buf[..])
    ensures r.Pass? ==> buf[..] == Place(old(buf[..]), off, EncodeSection(s, v))
  {
    SectionFormatSize(v.width);
    r := PackInto(buf, off, SectionFields(s), SectionFormat(v.width), v.order);
  }

  /** ElfProgramHeader32.pack and ElfProgramHeader64.pack. */
  method PackProgram(buf: array<byte>, off: nat, p: ProgramHeader, v: Variant) returns (r: Outcome)
    modifies buf
    ensures r == (if off + ProgramSize(v.width) > buf.Length then Fail(Truncated)
                  else if !ProgramFits(p, v) then Fail(FieldRange) else Pass)
    ensures r.Fail? ==> buf[..] == old(buf[..])
    ensures r.Pass? ==> buf[..] == Place(old(buf[..]), off, EncodeProgram(p, v))
  {
    ProgramFormatSize(v.width);
    r := PackInto(buf, off, ProgramFields(p, v.width), ProgramFormat(v.width), v.order);
  }

  // ---------------------------------------------------------------- the source's program entry class

  /** How the source reads a program table entry: every ElfFile subclass
      names a section header class as its programHeaderClass. */
  function ProgramEntryAsWritten(b: seq<byte>, off: nat, v: Variant): Result<SectionHeader>
  {
    DecodeSection(b, off, v)
  }

  /** A program header that ends the buffer is read by the intended decoder
      but is Truncated for the source's, which needs the 40 or 64 bytes of a
      section header instead of the 32 or 56 bytes of a program header. */
  lemma ProgramEntryAsWrittenTruncates(b: seq<byte>, off: nat, v: Variant)
    requires |b| == off + ProgramSize(v.width)
    ensures DecodeProgram(b, off, v).Ok?
    ensures ProgramEntryAsWritten(b, off, v) == Err(Truncated)
  {
    SectionFormatSize(v.width);
    ProgramFormatSize(v.width);
  }
}
