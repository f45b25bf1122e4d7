/** Laying a decoded file back out as bytes: every record is written at the
    place the identification and the file header assign it (identification
    at 0, file header at 16, section entry i at e_shoff + i * e_shentsize,
    program entry i at e_phoff + i * e_phentsize), in a zero-filled buffer of
    the file's length. */
module Image {
  import opened Bytes
  import opened Results
  import opened Variants
  import opened Ident
  import opened Records
  import opened Tables
  import opened ElfFiles

  /** A record's bytes and where they go. */
  datatype Write = Write(at: nat, bytes: seq<byte>)

  function End(w: Write): nat
  {
    w.at + |w.bytes|
  }

  predicate Disjoint(a: Write, b: Write)
  {
    End(a) <= b.at || End(b) <= a.at
  }

  predicate InBounds(ws: seq<Write>, n: nat)
  {
    forall k :: 0 <= k < |ws| ==> End(ws[k]) <= n
  }

  predicate PairwiseDisjoint(ws: seq<Write>)
  {
    forall j, k :: 0 <= j < k < |ws| ==> Disjoint(ws[j], ws[k])
  }

  /** buf with every write applied in turn. */
  function PlaceAll(buf: seq<byte>, ws: seq<Write>): (r: seq<byte>)
    requires InBounds(ws, |buf|)
    ensures |r| == |buf|
  {
    if ws == [] then buf
    else
      var last := ws[|ws| - 1];
      Place(PlaceAll(buf, ws[..|ws| - 1]), last.at, last.bytes)
  }

  /** Bytes no write covers keep their value. */
  lemma {:induction false} PlaceAllOutside(buf: seq<byte>, ws: seq<Write>, i: nat)
    requires InBounds(ws, |buf|) && i < |buf|
    requires forall k :: 0 <= k < |ws| ==> !(ws[k].at <= i < End(ws[k]))
    ensures PlaceAll(buf, ws)[i] == buf[i]
  {
    if ws != [] {
      var init := ws[..|ws| - 1];
      assert forall k :: 0 <= k < |init| ==> init[k] == ws[k];
      PlaceAllOutside(buf, init, i);
    }
  }

  /** With pairwise disjoint writes each one's bytes survive all the others:
      the order of the writes does not matter. */
  lemma {:induction false} PlaceAllAt(buf: seq<byte>, ws: seq<Write>, k: nat)
    requires InBounds(ws, |buf|) && PairwiseDisjoint(ws) && k < |ws|
    ensures PlaceAll(buf, ws)[ws[k].at..End(ws[k])] == ws[k].bytes
  {
    var last := ws[|ws| - 1];
    var init := ws[..|ws| - 1];
    InitLaid(ws, |buf|);
    var before := PlaceAll(buf, init);
    assert PlaceAll(buf, ws) == Place(before, last.at, last.bytes);
    if k < |ws| - 1 {
      assert init[k] == ws[k];
      PlaceAllAt(buf, init, k);
      assert Disjoint(ws[k], last);
      PlaceElsewhere(before, last.at, last.bytes, ws[k].at, End(ws[k]));
    }
  }

  /** The bytes of the write at position k, as Write(off, bytes), are found at off. */
  lemma PlacedAt(buf: seq<byte>, ws: seq<Write>, k: nat, off: nat, bytes: seq<byte>)
    requires InBounds(ws, |buf|) && PairwiseDisjoint(ws) && k < |ws| && ws[k] == Write(off, bytes)
    ensures off + |bytes| <= |buf| && PlaceAll(buf, ws)[off..off + |bytes|] == bytes
  {
    PlaceAllAt(buf, ws, k);
  }

  /** Dropping the last write keeps the writes in bounds and pairwise disjoint. */
  lemma InitLaid(ws: seq<Write>, n: nat)
    requires InBounds(ws, n) && PairwiseDisjoint(ws) && ws != []
    ensures InBounds(ws[..|ws| - 1], n) && PairwiseDisjoint(ws[..|ws| - 1])
  {
    var init := ws[..|ws| - 1];
    assert forall k :: 0 <= k < |init| ==> init[k] == ws[k];
  }

  /** Placing bytes leaves a range it does not touch as it was. */
  lemma PlaceElsewhere(buf: seq<byte>, off: nat, bytes: seq<byte>, lo: nat, hi: nat)
    requires off + |bytes| <= |buf| && lo <= hi <= |buf|
    requires hi <= off || off + |bytes| <= lo
    ensures Place(buf, off, bytes)[lo..hi] == buf[lo..hi]
  {
    var r := Place(buf, off, bytes);
    assert forall i :: lo <= i < hi ==> r[i] == buf[i];
  }

  /** The section entries of a table at h's e_shoff, entry i at its offset. */
  function SectionWrites(h: FileHeader, ss: seq<SectionHeader>, v: Variant): (ws: seq<Write>)
    ensures |ws| == |ss|
  {
    if ss == [] then []
    else SectionWrites(h, ss[..|ss| - 1], v) + [Write(SectionOffset(h, |ss| - 1), EncodeSection(ss[|ss| - 1], v))]
  }

  /** The program entries of a table at h's e_phoff, entry i at its offset. */
  function ProgramWrites(h: FileHeader, ps: seq<ProgramHeader>, v: Variant): (ws: seq<Write>)
    ensures |ws| == |ps|
  {
    if ps == [] then []
    else ProgramWrites(h, ps[..|ps| - 1], v) + [Write(ProgramOffset(h, |ps| - 1), EncodeProgram(ps[|ps| - 1], v))]
  }

  lemma {:induction false} SectionWriteAt(h: FileHeader, ss: seq<SectionHeader>, v: Variant, i: nat)
    requires i < |ss|
    ensures SectionWrites(h, ss, v)[i] == Write(SectionOffset(h, i), EncodeSection(ss[i], v))
  {
    if i < |ss| - 1 {
      var init := ss[..|ss| - 1];
      assert init[i] == ss[i];
      SectionWriteAt(h, init, v, i);
    }
  }

  lemma {:induction false} ProgramWriteAt(h: FileHeader, ps: seq<ProgramHeader>, v: Variant, i: nat)
    requires i < |ps|
    ensures ProgramWrites(h, ps, v)[i] == Write(ProgramOffset(h, i), EncodeProgram(ps[i], v))
  {
    if i < |ps| - 1 {
      var init := ps[..|ps| - 1];
      assert init[i] == ps[i];
      ProgramWriteAt(h, init, v, i);
    }
  }

  /** The identification at byte 0 and the file header right after it. */
  function HeadWrites(e: Elf, v: Variant): (ws: seq<Write>)
    ensures |ws| == 2
  {
    [Write(0, EncodeIdent(e.ident)), Write(EI_NIDENT, EncodeHeader(e.header, v))]
  }

  /** All records of a file with their places: the identification and file
      header, then the section and program entries. */
  function Writes(e: Elf, v: Variant): seq<Write>
  {
    HeadWrites(e, v) + SectionWrites(e.header, e.sections, v) + ProgramWrites(e.header, e.programs, v)
  }

  lemma WriteOfIdent(e: Elf, v: Variant)
    ensures Writes(e, v)[0] == Write(0, EncodeIdent(e.ident))
  {
    Middle([], HeadWrites(e, v), SectionWrites(e.header, e.sections, v) + ProgramWrites(e.header, e.programs, v), 0);
  }

  lemma WriteOfHeader(e: Elf, v: Variant)
    ensures Writes(e, v)[1] == Write(EI_NIDENT, EncodeHeader(e.header, v))
  {
    Middle([], HeadWrites(e, v), SectionWrites(e.header, e.sections, v) + ProgramWrites(e.header, e.programs, v), 1);
  }

  lemma WriteOfSection(e: Elf, v: Variant, i: nat)
    requires i < |e.sections|
    ensures 2 + i < |Writes(e, v)|
    ensures Writes(e, v)[2 + i] == Write(SectionOffset(e.header, i), EncodeSection(e.sections[i], v))
  {
    SectionWriteAt(e.header, e.sections, v, i);
    Middle(HeadWrites(e, v), SectionWrites(e.header, e.sections, v), ProgramWrites(e.header, e.programs, v), i);
  }

  lemma WriteOfProgram(e: Elf, v: Variant, i: nat)
    requires i < |e.programs|
    ensures 2 + |e.sections| + i < |Writes(e, v)|
    ensures Writes(e, v)[2 + |e.sections| + i] == Write(ProgramOffset(e.header, i), EncodeProgram(e.programs[i], v))
  {
    ProgramWriteAt(e.header, e.programs, v, i);
    Last(HeadWrites(e, v), SectionWrites(e.header, e.sections, v), ProgramWrites(e.header, e.programs, v), i);
  }

  lemma Middle(a: seq<Write>, b: seq<Write>, c: seq<Write>, i: nat)
    requires i < |b|
    ensures (a + b + c)[|a| + i] == b[i]
  {
  }

  lemma Last(a: seq<Write>, b: seq<Write>, c: seq<Write>, i: nat)
    requires i < |c|
    ensures (a + b + c)[|a| + |b| + i] == c[i]
  {
  }

  /** Every record's fields fit the widths of layout v. */
  predicate AllFit(e: Elf, v: Variant)
  {
    && HeaderFits(e.header, v)
    && (forall i :: 0 <= i < |e.sections| ==> SectionFits(e.sections[i], v))
    && (forall i :: 0 <= i < |e.programs| ==> ProgramFits(e.programs[i], v))
  }

  /** The header's offsets and counts describe the tables: a table is empty
      exactly when its offset is zero, and otherwise has the number of
      entries the walk reads. */
  predicate Counted(e: Elf)
  {
    && (if e.sections == [] then e.header.shoff == 0
        else e.header.shoff != 0 && SectionCount(e.header, e.sections[0]) == |e.sections|)
    && (if e.header.phoff == 0 then e.programs == [] else |e.programs| == e.header.phnum)
  }

  /** Every record lies inside the n bytes of the file without overlapping another. */
  predicate Laid(e: Elf, v: Variant, n: nat)
  {
    InBounds(Writes(e, v), n) && PairwiseDisjoint(Writes(e, v))
  }

  /** The conditions under which a decoded file can be laid out and read
      back: the identification names v, and the three above. */
  predicate WellFormed(e: Elf, v: Variant, n: nat)
  {
    Resolve(e.ident.elfClass, e.ident.elfData) == Ok(v) && AllFit(e, v) && Counted(e) && Laid(e, v, n)
  }

  /** n zero bytes. */
  function Zeros(n: nat): (z: seq<byte>)
    ensures |z| == n
  {
    if n == 0 then [] else Zeros(n - 1) + [0]
  }

  /** The n-byte image of a file: every record written into zeros. */
  function EncodeFile(e: Elf, v: Variant, n: nat): (r: seq<byte>)
    requires InBounds(Writes(e, v), n)
    ensures |r| == n
  {
    PlaceAll(Zeros(n), Writes(e, v))
  }

  /** A write of a laid-out file, found at position k of Writes, lies in its image. */
  lemma ImageAt(e: Elf, v: Variant, n: nat, k: nat, off: nat, bytes: seq<byte>)
    requires Laid(e, v, n) && k < |Writes(e, v)| && Writes(e, v)[k] == Write(off, bytes)
    ensures off + |bytes| <= n && EncodeFile(e, v, n)[off..off + |bytes|] == bytes
  {
    PlacedAt(Zeros(n), Writes(e, v), k, off, bytes);
  }

  /** The bytes of section entry i lie at its offset in the image. */
  lemma ImageSectionBytes(e: Elf, v: Variant, n: nat, i: nat)
    requires Laid(e, v, n) && i < |e.sections|
    ensures var off := SectionOffset(e.header, i);
      off + SectionSize(v.width) <= n &&
      EncodeFile(e, v, n)[off..off + SectionSize(v.width)] == EncodeSection(e.sections[i], v)
  {
    WriteOfSection(e, v, i);
    ImageAt(e, v, n, 2 + i, SectionOffset(e.header, i), EncodeSection(e.sections[i], v));
  }

  lemma ImageSectionAt(e: Elf, v: Variant, n: nat, i: nat)
    requires Laid(e, v, n) && i < |e.sections| && SectionFits(e.sections[i], v)
    ensures DecodeSection(EncodeFile(e, v, n), SectionOffset(e.header, i), v) == Ok(e.sections[i])
  {
    ImageSectionBytes(e, v, n, i);
    DecodeSectionAt(EncodeFile(e, v, n), SectionOffset(e.header, i), e.sections[i], v);
  }

  lemma ImageSections(e: Elf, v: Variant, n: nat)
    requires WellFormed(e, v, n)
    ensures SectionTable(EncodeFile(e, v, n), e.header, v) == Ok(e.sections)
  {
    var b := EncodeFile(e, v, n);
    forall i | 0 <= i < |e.sections|
      ensures DecodeSection(b, SectionOffset(e.header, i), v) == Ok(e.sections[i])
    {
      ImageSectionAt(e, v, n, i);
    }
    if e.sections != [] {
      SectionTableOf(b, e.header, v, e.sections);
    }
  }

  /** The bytes of program entry i lie at its offset in the image. */
  lemma ImageProgramBytes(e: Elf, v: Variant, n: nat, i: nat)
    requires Laid(e, v, n) && i < |e.programs|
    ensures var off := ProgramOffset(e.header, i);
      off + ProgramSize(v.width) <= n &&
      EncodeFile(e, v, n)[off..off + ProgramSize(v.width)] == EncodeProgram(e.programs[i], v)
  {
    WriteOfProgram(e, v, i);
    ImageAt(e, v, n, 2 + |e.sections| + i, ProgramOffset(e.header, i), EncodeProgram(e.programs[i], v));
  }

  lemma ImageProgramAt(e: Elf, v: Variant, n: nat, i: nat)
    requires Laid(e, v, n) && i < |e.programs| && ProgramFits(e.programs[i], v)
    ensures DecodeProgram(EncodeFile(e, v, n), ProgramOffset(e.header, i), v) == Ok(e.programs[i])
  {
    ImageProgramBytes(e, v, n, i);
    DecodeProgramAt(EncodeFile(e, v, n), ProgramOffset(e.header, i), e.programs[i], v);
  }

  lemma ImagePrograms(e: Elf, v: Variant, n: nat)
    requires WellFormed(e, v, n)
    ensures ProgramTable(EncodeFile(e, v, n), e.header, v) == Ok(e.programs)
  {
    var b := EncodeFile(e, v, n);
    forall i | 0 <= i < |e.programs|
      ensures DecodeProgram(b, ProgramOffset(e.header, i), v) == Ok(e.programs[i])
    {
      ImageProgramAt(e, v, n, i);
    }
    if e.header.phoff != 0 {
      ProgramTableOf(b, e.header, v, e.programs);
    }
  }

  lemma ImageHeader(e: Elf, v: Variant, n: nat)
    requires Laid(e, v, n) && HeaderFits(e.header, v)
    ensures DecodeHeader(EncodeFile(e, v, n), EI_NIDENT, v) == Ok(e.header)
  {
    WriteOfHeader(e, v);
    ImageAt(e, v, n, 1, EI_NIDENT, EncodeHeader(e.header, v));
    DecodeHeaderAt(EncodeFile(e, v, n), EI_NIDENT, e.header, v);
  }

  /** The image of a well-formed file holds each part where decoding looks for it. */
  lemma ImageParts(e: Elf, v: Variant, n: nat)
    requires WellFormed(e, v, n)
    ensures DecodeIdent(EncodeFile(e, v, n), 0) == Ok(e.ident)
    ensures DecodeHeader(EncodeFile(e, v, n), EI_NIDENT, v) == Ok(e.header)
    ensures SectionTable(EncodeFile(e, v, n), e.header, v) == Ok(e.sections)
    ensures ProgramTable(EncodeFile(e, v, n), e.header, v) == Ok(e.programs)
  {
    ImageIdent(e, v, n);
    DecodeIdentAt(EncodeFile(e, v, n), 0, e.ident);
    ImageHeader(e, v, n);
    ImageSections(e, v, n);
    ImagePrograms(e, v, n);
  }

  /** Decoding the image of a well-formed file gives the file back. */
  lemma FileRoundTrip(e: Elf, v: Variant, n: nat)
    requires WellFormed(e, v, n)
    ensures DecodeFile(EncodeFile(e, v, n)) == Ok(e)
  {
    ImageParts(e, v, n);
    DecodeFileOf(EncodeFile(e, v, n), e, v);
  }

  /** The image starts with the encoded identification. */
  lemma ImageIdent(e: Elf, v: Variant, n: nat)
    requires Laid(e, v, n)
    ensures n >= EI_NIDENT && EncodeFile(e, v, n)[..EI_NIDENT] == EncodeIdent(e.ident)
  {
    WriteOfIdent(e, v);
    ImageAt(e, v, n, 0, 0, EncodeIdent(e.ident));
  }

  /** The image of a file whose header was read from b at byte 16 holds b's
      header bytes unchanged. */
  lemma ImageKeepsHeader(b: seq<byte>, e: Elf, v: Variant, n: nat)
    requires DecodeHeader(b, EI_NIDENT, v) == Ok(e.header)
    requires Laid(e, v, n)
    ensures EI_NIDENT + HeaderSize(v.width) <= n && EI_NIDENT + HeaderSize(v.width) <= |b|
    ensures EncodeFile(e, v, n)[EI_NIDENT..EI_NIDENT + HeaderSize(v.width)] == b[EI_NIDENT..EI_NIDENT + HeaderSize(v.width)]
  {
    HeaderBytesRoundTrip(b, EI_NIDENT, v);
    WriteOfHeader(e, v);
    ImageAt(e, v, n, 1, EI_NIDENT, EncodeHeader(e.header, v));
  }

  /** Section entry i, when it was read from b at its offset, keeps b's bytes
      there in the image. */
  lemma ImageKeepsSection(b: seq<byte>, e: Elf, v: Variant, n: nat, i: nat)
    requires i < |e.sections| && DecodeSection(b, SectionOffset(e.header, i), v) == Ok(e.sections[i])
    requires Laid(e, v, n)
    ensures var off := SectionOffset(e.header, i);
      off + SectionSize(v.width) <= n && off + SectionSize(v.width) <= |b| &&
      EncodeFile(e, v, n)[off..off + SectionSize(v.width)] == b[off..off + SectionSize(v.width)]
  {
    SectionBytesRoundTrip(b, SectionOffset(e.header, i), v);
    ImageSectionBytes(e, v, n, i);
  }

  /** Program entry i, when it was read from b at its offset, keeps b's bytes
      there in the image. */
  lemma ImageKeepsProgram(b: seq<byte>, e: Elf, v: Variant, n: nat, i: nat)
    requires i < |e.programs| && DecodeProgram(b, ProgramOffset(e.header, i), v) == Ok(e.programs[i])
    requires Laid(e, v, n)
    ensures var off := ProgramOffset(e.header, i);
      off + ProgramSize(v.width) <= n && off + ProgramSize(v.width) <= |b| &&
      EncodeFile(e, v, n)[off..off + ProgramSize(v.width)] == b[off..off + ProgramSize(v.width)]
  {
    ProgramBytesRoundTrip(b, ProgramOffset(e.header, i), v);
    ImageProgramBytes(e, v, n, i);
  }

  /** Of the identification, the image reproduces b's first nine bytes, and
      all sixteen when b's padding is zero: the pad bytes are not read, so a
      nonzero padding is not kept. */
  lemma IdentPrefixOfImage(b: seq<byte>, e: Elf, v: Variant, n: nat)
    requires DecodeIdent(b, 0) == Ok(e.ident)
    requires Laid(e, v, n)
    ensures n >= EI_NIDENT && |b| >= EI_NIDENT
    ensures EncodeFile(e, v, n)[..9] == b[..9]
    ensures (forall i :: 9 <= i < EI_NIDENT ==> b[i] == 0) ==> EncodeFile(e, v, n)[..EI_NIDENT] == b[..EI_NIDENT]
  {
    ImageIdent(e, v, n);
    IdentIsPrefix(b, 0, e.ident);
    PrefixThrough(EncodeFile(e, v, n), EncodeIdent(e.ident), b);
  }

  lemma PrefixThrough(img: seq<byte>, id: seq<byte>, b: seq<byte>)
    requires |img| >= EI_NIDENT && |b| >= EI_NIDENT && img[..EI_NIDENT] == id
    requires id[..9] == b[0..9]
    ensures img[..9] == b[..9]
    ensures id == b[0..EI_NIDENT] ==> img[..EI_NIDENT] == b[..EI_NIDENT]
  {
    assert img[..9] == img[..EI_NIDENT][..9];
  }
}
