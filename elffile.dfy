/** A whole ELF file as the codec sees it: the identification, the file
    header at byte 16, and the section and program tables the header
    locates; and the ElfFile object, which holds a block of bytes and fills
    in its header and tables when unpacked. */
module ElfFiles {
  import opened Bytes
  import opened Results
  import opened Variants
  import opened Ident
  import opened Records
  import opened Tables

  /** The decoded structure of a file. */
  datatype Elf = Elf(ident: FileIdent, header: FileHeader, sections: seq<SectionHeader>, programs: seq<ProgramHeader>)

  /** ElfFile.unpack: the file header right after the identification, then
      the section table, then the program table; the first failure wins. */
  function DecodeBody(b: seq<byte>, id: FileIdent, v: Variant): Result<Elf>
  {
    var h :- DecodeHeader(b, EI_NIDENT, v);
    var sections :- SectionTable(b, h, v);
    var programs :- ProgramTable(b, h, v);
    Ok(Elf(id, h, sections, programs))
  }

  /** Opening and unpacking a block: the identification at byte 0 picks the
      layout, which then reads the rest. */
  function DecodeFile(b: seq<byte>): Result<Elf>
  {
    var id :- DecodeIdent(b, 0);
    var v :- Resolve(id.elfClass, id.elfData);
    DecodeBody(b, id, v)
  }

  /** The body is read exactly when the header and both tables are, and then
      its parts are those. */
  lemma DecodeBodySpec(b: seq<byte>, id: FileIdent, v: Variant, e: Elf)
    ensures DecodeBody(b, id, v) == Ok(e) <==>
      && e.ident == id
      && DecodeHeader(b, EI_NIDENT, v) == Ok(e.header)
      && SectionTable(b, e.header, v) == Ok(e.sections)
      && ProgramTable(b, e.header, v) == Ok(e.programs)
  {
  }

  /** A body that fails reports the failure of the first part that does. */
  lemma DecodeBodyError(b: seq<byte>, id: FileIdent, v: Variant)
    ensures DecodeHeader(b, EI_NIDENT, v).Err? ==>
      DecodeBody(b, id, v) == Err(DecodeHeader(b, EI_NIDENT, v).error)
    ensures DecodeHeader(b, EI_NIDENT, v).Ok? && SectionTable(b, DecodeHeader(b, EI_NIDENT, v).value, v).Err? ==>
      DecodeBody(b, id, v) == Err(SectionTable(b, DecodeHeader(b, EI_NIDENT, v).value, v).error)
    ensures (DecodeHeader(b, EI_NIDENT, v).Ok? && SectionTable(b, DecodeHeader(b, EI_NIDENT, v).value, v).Ok? &&
             ProgramTable(b, DecodeHeader(b, EI_NIDENT, v).value, v).Err?) ==>
      DecodeBody(b, id, v) == Err(ProgramTable(b, DecodeHeader(b, EI_NIDENT, v).value, v).error)
  {
  }

  /** A file is read exactly when its identification is, names a layout, and
      the body is read with that layout. Without the signature nothing else
      is looked at. */
  lemma DecodeFileSpec(b: seq<byte>, e: Elf)
    ensures DecodeFile(b) == Ok(e) <==>
      && DecodeIdent(b, 0) == Ok(e.ident)
      && Resolve(e.ident.elfClass, e.ident.elfData).Ok?
      && DecodeBody(b, e.ident, Resolve(e.ident.elfClass, e.ident.elfData).value) == Ok(e)
    ensures DecodeIdent(b, 0).Err? ==> DecodeFile(b) == Err(DecodeIdent(b, 0).error)
    ensures DecodeIdent(b, 0).Ok? ==>
      var id := DecodeIdent(b, 0).value;
      Resolve(id.elfClass, id.elfData).Err? ==> DecodeFile(b) == Err(Resolve(id.elfClass, id.elfData).error)
  {
    if DecodeFile(b) == Ok(e) {
      var id := DecodeIdent(b, 0).value;
      DecodeBodySpec(b, id, Resolve(id.elfClass, id.elfData).value, e);
    }
  }

  /** A block whose identification names layout v and whose header and
      tables read as those of e decodes to e. */
  lemma DecodeFileOf(b: seq<byte>, e: Elf, v: Variant)
    requires DecodeIdent(b, 0) == Ok(e.ident) && Resolve(e.ident.elfClass, e.ident.elfData) == Ok(v)
    requires DecodeHeader(b, EI_NIDENT, v) == Ok(e.header)
    requires SectionTable(b, e.header, v) == Ok(e.sections) && ProgramTable(b, e.header, v) == Ok(e.programs)
    ensures DecodeFile(b) == Ok(e)
  {
    DecodeBodySpec(b, e.ident, v, e);
  }

  /** An open ELF file: the block it reads, its identification and the layout
      that identification selected (the ElfFile32l, ElfFile32b, ElfFile64l or
      ElfFile64b subclass), and the header and tables once unpacked. */
  class ElfFile {
    const block: seq<byte>
    const fileIdent: FileIdent
    const variant: Variant
    var fileHeader: Option<FileHeader>
    var sectionHeaders: seq<SectionHeader>
    var programHeaders: seq<ProgramHeader>

    /** Everything read so far agrees with the block. */
    predicate Valid()
      reads this
    {
      && Resolve(fileIdent.elfClass, fileIdent.elfData) == Ok(variant)
      && (fileHeader.None? ==> sectionHeaders == [] && programHeaders == [])
      && (fileHeader.Some? ==> DecodeBody(block, fileIdent, variant) == Ok(Elf(fileIdent, fileHeader.value, sectionHeaders, programHeaders)))
    }

    /** A file object for a block whose identification selects variant;
        nothing is read yet and both tables are empty. */
    constructor(block: seq<byte>, fileIdent: FileIdent, variant: Variant)
      requires Resolve(fileIdent.elfClass, fileIdent.elfData) == Ok(variant)
      ensures Valid()
      ensures this.block == block && this.fileIdent == fileIdent && this.variant == variant
      ensures fileHeader == None && sectionHeaders == [] && programHeaders == []
    {
      this.block := block;
      this.fileIdent := fileIdent;
      this.variant := variant;
      fileHeader := None;
      sectionHeaders := [];
      programHeaders := [];
    }

    /** ElfFile.unpack: reads the file header at byte 16, then walks the
        section table and the program table. On failure the object is left
        as it was and the error is reported. */
    method Unpack() returns (r: Outcome)
      requires Valid()
      modifies this
      ensures Valid()
      ensures DecodeBody(block, fileIdent, variant).Err? ==>
        r == Fail(DecodeBody(block, fileIdent, variant).error) &&
        unchanged(this)
      ensures DecodeBody(block, fileIdent, variant).Ok? ==>
        var e := DecodeBody(block, fileIdent, variant).value;
        r == Pass && fileHeader == Some(e.header) && sectionHeaders == e.sections && programHeaders == e.programs
    {
      var h := DecodeHeader(block, EI_NIDENT, variant);
      if h.Err? {
        return Fail(h.error);
      }
      var sections := WalkSections(block, h.value, variant);
      if sections.Err? {
        return Fail(sections.error);
      }
      var programs := WalkPrograms(block, h.value, variant);
      if programs.Err? {
        return Fail(programs.error);
      }
      fileHeader := Some(h.value);
      sectionHeaders := sections.value;
      programHeaders := programs.value;
      r := Pass;
    }
  }

  /** The decoding half of open(): reads the identification at byte 0 and
      resolves its layout; BadMagic, Truncated, NoClass or NoEncoding
      otherwise. */
  method Open(block: seq<byte>) returns (r: Result<ElfFile>)
    ensures r.Ok? ==>
      && fresh(r.value) && r.value.Valid()
      && r.value.block == block && DecodeIdent(block, 0) == Ok(r.value.fileIdent)
      && r.value.fileHeader == None
    ensures r.Err? <==>
      DecodeIdent(block, 0).Err? ||
      Resolve(DecodeIdent(block, 0).value.elfClass, DecodeIdent(block, 0).value.elfData).Err?
    ensures DecodeIdent(block, 0).Err? ==> r == Err(DecodeIdent(block, 0).error)
    ensures DecodeIdent(block, 0).Ok? ==>
      var id := DecodeIdent(block, 0).value;
      Resolve(id.elfClass, id.elfData).Err? ==> r == Err(Resolve(id.elfClass, id.elfData).error)
  {
    var id := DecodeIdent(block, 0);
    if id.Err? {
      return Err(id.error);
    }
    var v := Resolve(id.value.elfClass, id.value.elfData);
    if v.Err? {
      return Err(v.error);
    }
    var f := new ElfFile(block, id.value, v.value);
    r := Ok(f);
  }

  /** Opening a block and unpacking it gives what DecodeFile reads from it. */
  method OpenAndUnpack(block: seq<byte>) returns (r: Result<Elf>)
    ensures r == DecodeFile(block)
  {
    var f :- Open(block);
    var o := f.Unpack();
    if o.Fail? {
      return Err(o.error);
    }
    r := Ok(Elf(f.fileIdent, f.fileHeader.value, f.sectionHeaders, f.programHeaders));
  }
}
