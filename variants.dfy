/** The four concrete ELF layouts and the resolver that picks one from the
    class and data bytes of the identification (ElfFile.encodedClass with
    its two-level encodingDict). */
module Variants {
  import opened Bytes
  import opened Results

  datatype Width = W32 | W64

  /** One of the four layouts: word size times byte order. */
  datatype Variant = Variant(width: Width, order: ByteOrder)

  const ELFCLASS32: byte := 1
  const ELFCLASS64: byte := 2
  const ELFDATA2LSB: byte := 1
  const ELFDATA2MSB: byte := 2

  /** encodingDict as intended: class code, then data code, to a layout. */
  const ENCODING: map<byte, map<byte, Variant>> :=
    map[ELFCLASS32 := map[ELFDATA2LSB := Variant(W32, Little), ELFDATA2MSB := Variant(W32, Big)],
        ELFCLASS64 := map[ELFDATA2LSB := Variant(W64, Little), ELFDATA2MSB := Variant(W64, Big)]]

  /** encodingDict as the source writes it: 64-bit big-endian is sent to the
      32-bit big-endian layout. */
  const ENCODING_AS_WRITTEN: map<byte, map<byte, Variant>> :=
    map[ELFCLASS32 := map[ELFDATA2LSB := Variant(W32, Little), ELFDATA2MSB := Variant(W32, Big)],
        ELFCLASS64 := map[ELFDATA2LSB := Variant(W64, Little), ELFDATA2MSB := Variant(W32, Big)]]

  /** The two-level lookup of encodedClass: NO_CLASS when the class code is
      not a key, NO_ENCODING when the data code is not a key under it. */
  function Lookup(dict: map<byte, map<byte, Variant>>, elfClass: byte, elfData: byte): Result<Variant>
  {
    if elfClass !in dict then Err(NoClass)
    else if elfData !in dict[elfClass] then Err(NoEncoding)
    else Ok(dict[elfClass][elfData])
  }

  function Resolve(elfClass: byte, elfData: byte): Result<Variant>
  {
    Lookup(ENCODING, elfClass, elfData)
  }

  function ResolveAsWritten(elfClass: byte, elfData: byte): Result<Variant>
  {
    Lookup(ENCODING_AS_WRITTEN, elfClass, elfData)
  }

  /** The class byte that names a word size. */
  function ClassCode(w: Width): byte
  {
    if w == W32 then ELFCLASS32 else ELFCLASS64
  }

  /** The data byte that names a byte order. */
  function DataCode(o: ByteOrder): byte
  {
    if o == Little then ELFDATA2LSB else ELFDATA2MSB
  }

  /** Resolution succeeds exactly on class {1, 2} times data {1, 2}; a bad
      class is reported before a bad data byte; class 1 is 32-bit, 2 is
      64-bit, data 1 is little-endian, 2 is big-endian. */
  lemma ResolveSpec(elfClass: byte, elfData: byte)
    ensures elfClass != 1 && elfClass != 2 ==> Resolve(elfClass, elfData) == Err(NoClass)
    ensures (elfClass == 1 || elfClass == 2) && elfData != 1 && elfData != 2 ==>
      Resolve(elfClass, elfData) == Err(NoEncoding)
    ensures (elfClass == 1 || elfClass == 2) && (elfData == 1 || elfData == 2) ==>
      Resolve(elfClass, elfData) ==
        Ok(Variant(if elfClass == 1 then W32 else W64, if elfData == 1 then Little else Big))
  {
  }

  /** Every layout is reached from exactly one pair of codes: the codes
      ClassCode and DataCode give for it. */
  lemma ResolveCodes(elfClass: byte, elfData: byte, v: Variant)
    ensures Resolve(elfClass, elfData) == Ok(v) <==>
      elfClass == ClassCode(v.width) && elfData == DataCode(v.order)
  {
    ResolveSpec(elfClass, elfData);
  }

  /** The source's dictionary reads a 64-bit big-endian file with the 32-bit
      big-endian layout, so two different code pairs share one layout. */
  lemma ResolveAsWrittenMisreads64Big()
    ensures ResolveAsWritten(ELFCLASS64, ELFDATA2MSB) == Ok(Variant(W32, Big))
    ensures ResolveAsWritten(ELFCLASS32, ELFDATA2MSB) == ResolveAsWritten(ELFCLASS64, ELFDATA2MSB)
    ensures Resolve(ELFCLASS64, ELFDATA2MSB) == Ok(Variant(W64, Big))
  {
  }

  /** Apart from that one entry the source's dictionary agrees with the intended one. */
  lemma ResolveAsWrittenElsewhere(elfClass: byte, elfData: byte)
    requires !(elfClass == ELFCLASS64 && elfData == ELFDATA2MSB)
    ensures ResolveAsWritten(elfClass, elfData) == Resolve(elfClass, elfData)
  {
  }
}
