/** The identification record (e_ident): the first 16 bytes of an ELF file,
    read the same way whatever the file's byte order. */
module Ident {
  import opened Bytes
  import opened Results

  const EI_NIDENT: nat := 16

  /** The ELF signature: 0x7F 'E' 'L' 'F'. */
  const MAGIC: seq<byte> := [0x7F, 0x45, 0x4C, 0x46]

  /** The five coded bytes after the signature; the signature itself is
      checked on decode and written on encode. */
  datatype FileIdent = FileIdent(elfClass: byte, elfData: byte, fileVersion: byte, osabi: byte, abiVersion: byte)

  /** The 16 bytes of the identification, padding written as zero. */
  function EncodeIdent(id: FileIdent): (r: seq<byte>)
    ensures |r| == EI_NIDENT
  {
    MAGIC + [id.elfClass, id.elfData, id.fileVersion, id.osabi, id.abiVersion] + [0, 0, 0, 0, 0, 0, 0]
  }

  /** Reads the identification at off: Truncated when fewer than 16 bytes
      remain, BadMagic when the first four are not the signature. Bytes 9-15
      are not read. */
  function DecodeIdent(b: seq<byte>, off: nat): Result<FileIdent>
  {
    if off + EI_NIDENT > |b| then Err(Truncated)
    else if b[off..off + 4] != MAGIC then Err(BadMagic)
    else Ok(FileIdent(b[off + 4], b[off + 5], b[off + 6], b[off + 7], b[off + 8]))
  }

  /** Byte positions of the encoding: signature at 0-3, then class, data,
      version, OS/ABI and ABI version at 4-8, zero padding at 9-15. */
  lemma IdentLayout(id: FileIdent)
    ensures EncodeIdent(id)[..4] == MAGIC
    ensures EncodeIdent(id)[4] == id.elfClass && EncodeIdent(id)[5] == id.elfData
    ensures EncodeIdent(id)[6] == id.fileVersion && EncodeIdent(id)[7] == id.osabi
    ensures EncodeIdent(id)[8] == id.abiVersion
    ensures forall i :: 9 <= i < EI_NIDENT ==> EncodeIdent(id)[i] == 0
  {
  }

  /** Decoding succeeds exactly when 16 bytes remain and they start with the
      signature; otherwise the error says which of the two failed. */
  lemma DecodeIdentOutcome(b: seq<byte>, off: nat)
    ensures DecodeIdent(b, off).Ok? <==> off + EI_NIDENT <= |b| && b[off..off + 4] == MAGIC
    ensures off + EI_NIDENT > |b| ==> DecodeIdent(b, off) == Err(Truncated)
    ensures off + EI_NIDENT <= |b| && b[off..off + 4] != MAGIC ==> DecodeIdent(b, off) == Err(BadMagic)
  {
  }

  /** An identification is read back from wherever its encoding lies in a buffer. */
  lemma DecodeIdentAt(b: seq<byte>, off: nat, id: FileIdent)
    requires off + EI_NIDENT <= |b| && b[off..off + EI_NIDENT] == EncodeIdent(id)
    ensures DecodeIdent(b, off) == Ok(id)
  {
    var e := EncodeIdent(id);
    assert b[off..off + 4] == e[..4];
    forall i | 4 <= i < 9 ensures b[off + i] == e[i] {
      assert b[off..off + EI_NIDENT][i] == b[off + i];
    }
  }

  lemma IdentRoundTrip(id: FileIdent)
    ensures DecodeIdent(EncodeIdent(id), 0) == Ok(id)
  {
    DecodeIdentAt(EncodeIdent(id), 0, id);
  }

  /** Re-encoding a decoded identification reproduces the first nine bytes
      of the original, and all sixteen when its padding was zero. */
  lemma IdentIsPrefix(b: seq<byte>, off: nat, id: FileIdent)
    requires DecodeIdent(b, off) == Ok(id)
    ensures EncodeIdent(id)[..9] == b[off..off + 9]
    ensures (forall i :: off + 9 <= i < off + EI_NIDENT ==> b[i] == 0) ==>
      EncodeIdent(id) == b[off..off + EI_NIDENT]
  {
    var e := EncodeIdent(id);
    assert b[off..off + 4] == MAGIC;
    forall i | 0 <= i < 9 ensures e[i] == b[off + i] {
      if i < 4 {
        assert b[off..off + 4][i] == b[off + i];
      }
    }
  }

  /** The padding bytes play no part in decoding. */
  lemma PaddingIgnored(b: seq<byte>, c: seq<byte>, off: nat)
    requires off + EI_NIDENT <= |b| && off + EI_NIDENT <= |c|
    requires b[off..off + 9] == c[off..off + 9]
    ensures DecodeIdent(b, off) == DecodeIdent(c, off)
  {
    assert b[off..off + 4] == b[off..off + 9][..4];
    assert c[off..off + 4] == c[off..off + 9][..4];
    forall i | off + 4 <= i < off + 9 ensures b[i] == c[i] {
      assert b[off..off + 9][i - off] == b[i] && c[off..off + 9][i - off] == c[i];
    }
  }

  /** The 64-bit little-endian identification of a current-version System V file. */
  lemma Ident64LittleExample()
    ensures DecodeIdent([0x7F, 0x45, 0x4C, 0x46, 2, 1, 1, 0, 0, 0, 0, 0, 0, 0, 0, 0], 0) == Ok(FileIdent(2, 1, 1, 0, 0))
    ensures EncodeIdent(FileIdent(2, 1, 1, 0, 0)) == [0x7F, 0x45, 0x4C, 0x46, 2, 1, 1, 0, 0, 0, 0, 0, 0, 0, 0, 0]
  {
    var b: seq<byte> := [0x7F, 0x45, 0x4C, 0x46, 2, 1, 1, 0, 0, 0, 0, 0, 0, 0, 0, 0];
    assert b[0..4] == MAGIC;
  }

  /** pack_into for the identification: Truncated when the buffer is too
      short (and nothing written), otherwise the 16 bytes replace
      [off, off + 16) and nothing else changes. */
  method PackIdent(buf: array<byte>, off: nat, id: FileIdent) returns (r: Outcome)
    modifies buf
    ensures r == (if off + EI_NIDENT > buf.Length then Fail(Truncated) else Pass)
    ensures r.Fail? ==> buf[..] == old(buf[..])
    ensures r.Pass? ==> buf[..] == Place(old(buf[..]), off, EncodeIdent(id))
  {
    if off + EI_NIDENT > buf.Length {
      return Fail(Truncated);
    }
    PackBytes(buf, off, EncodeIdent(id));
    r := Pass;
  }
}
