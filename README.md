# ELF structural codec, modelled in Dafny

This project models the structural core of `elffile.py`, a Python reader for
ELF object files. That core covers:

- the 16-byte identification prefix (`e_ident`);
- resolving the identification's class and data bytes to one of the four
  concrete layouts (32-bit or 64-bit, little- or big-endian);
- the file header, section header and program header records in each
  layout, read with `struct.unpack_from` and written in place with
  `struct.pack_into`;
- the walks of `ElfFile.unpack` over the section header table and the
  program header table. The section walk includes the extended-numbering
  escape of the System V gABI (chapter 4): when `e_shnum` is zero, entry 0's
  `sh_size` gives the count.

The modules follow the program's layers:

| module | file | what it holds |
|---|---|---|
| `Results` | results.dfy | error kinds (`BadMagic`, `NoClass`, `NoEncoding`, `Truncated`, `FieldRange`), `Result`, `Option`, `Outcome` |
| `Bytes` | bytes.dfy | unsigned k-byte integers in both byte orders; `Place`, the pure form of writing bytes into a buffer, and `PackBytes`, its in-place form over an `array` |
| `Layout` | layout.dfy | a model of Python's `struct` for unsigned fields: a format is its list of field widths; `PackFields`/`UnpackFields`, `UnpackFrom` (`unpack_from`, with `Truncated`) and `PackInto` (`pack_into`, in place) |
| `Variants` | variants.dfy | the four layouts as a closed datatype and the two-level `encodingDict` lookup of `ElfFile.encodedClass` |
| `Ident` | ident.dfy | the identification record |
| `Records` | records.dfy | the file, section and program header records in their four formats |
| `Tables` | tables.dfy | the section and program table walks: recursive specification functions, and loop methods proved equal to them |
| `ElfFiles` | elffile.dfy | the decoded file (`Elf`), `DecodeFile`, the `ElfFile` class with `Unpack`, and `Open` (the part of `open()` that works on a block of memory) |
| `Image` | image.dfy | laying a decoded file back out as bytes, and the whole-file round trip |

Bytes are a subset type of `int` (`0 <= x < 256`). Record fields are `nat`.
A `Fits` predicate stands for the range check after which `struct.pack`
raises `struct.error` (`FieldRange` here). Python integers are unbounded,
so offsets such as `e_shoff + i * e_shentsize` are unbounded here as well.

The model follows the code, except where the code and its evident intent
differ:

- Slips that make the code unusable (names that are never defined, calls
  that raise) are replaced by the evident intent. Each one is listed under
  "## Left out".
- The two slips that change results without crashing are logged under
  "## Findings". Each one is modelled both as written and as corrected.
- The decoder checks the ELF signature and fails with BadMagic. The code
  stores the four bytes and does not check them (see "## Left out").
- `ElfFile.unpack` is atomic. When it fails, none of the object's fields
  change; the code would already have stored part of its result (see
  "## Left out").

One more note: the identification's docstring (elffile.py:375) gives the
signature as `\x1fELF`. The model uses `7F 45 4C 46`, which is the ELF
signature and the value the tests compare against (tests.py:63).

## Model

| member | source | states |
|---|---|---|
| Bytes.UintRoundTrip | elffile.py:434-444 | decoding the k-byte encoding of any x < 256^k gives x back, in both byte orders |
| Bytes.UintBytesRoundTrip | elffile.py:434-444 | every k-byte string decodes to a value below 256^k, and re-encoding that value gives back the same bytes, in both byte orders |
| Bytes.BigIsReversedLittle | elffile.py:434-435 | reading bytes big-endian, most significant first, gives the same value as reading the reversed bytes little-endian |
| Bytes.LittleValueBound | elffile.py:437-438 | a k-byte little-endian reading is below 256^k |
| Bytes.Place | elffile.py:399-400 | writing bytes at off keeps the buffer's length, puts exactly those bytes in [off, off+len) and leaves every other byte as it was |
| Bytes.PackBytes | elffile.py:399-400 | the in-place copy into an array leaves the array equal to `Place` of its old contents |
| Layout.PackFields | elffile.py:426-431 | a packed record is exactly calcsize bytes long |
| Layout.UnpackFits | elffile.py:420-424 | every unpacked field lies within its width |
| Layout.UnpackPack | elffile.py:426-431 | unpacking packed fields that fit their widths gives the fields back |
| Layout.PackUnpack | elffile.py:420-424 | repacking unpacked fields gives the original bytes back, because every byte of a record belongs to a field |
| Layout.FieldAt | elffile.py:420-424 | field i is decoded from the fmt[i] bytes at its struct offset, which lie inside the record |
| Layout.UnpackFrom | elffile.py:420-424 | a successful unpack_from yields one value per field |
| Layout.UnpackFromPacked | elffile.py:420-431 | a record is read back from wherever its packed bytes lie in a buffer |
| Layout.UnpackFromRepacks | elffile.py:420-431 | what unpack_from returns fits the format and packs back to the bytes it was read from |
| Layout.UnpackFromField | elffile.py:420-424 | field i of the record at off is decoded from the bytes at off plus its struct offset |
| Layout.PackInto | elffile.py:426-431 | pack_into fails with Truncated when the window does not fit the buffer, otherwise with FieldRange when a value does not fit its width, otherwise it replaces exactly the record's window; the buffer is unchanged on failure |
| Variants.ResolveSpec | elffile.py:618-629 | Resolve (ElfFile.encodedClass): class outside {1,2} gives NoClass; valid class with data outside {1,2} gives NoEncoding; class 1/2 gives 32/64-bit and data 1/2 gives little/big-endian |
| Variants.ResolveCodes | elffile.py:691-700 | resolution gives a layout exactly for that layout's own class and data codes, so each of the four layouts has exactly one code pair |
| Variants.ResolveAsWrittenMisreads64Big | elffile.py:698 | the source's dictionary sends class 2 with data 2 to the 32-bit big-endian layout, the same layout class 1 with data 2 gets; the corrected one gives 64-bit big-endian |
| Variants.ResolveAsWrittenElsewhere | elffile.py:691-700 | for every other code pair the source's dictionary and the corrected one agree |
| Ident.EncodeIdent | elffile.py:372-385 | the identification is exactly 16 bytes |
| Ident.IdentLayout | elffile.py:372-381 | signature at bytes 0-3, then class, data, version, OS/ABI and ABI version at 4-8, and zero padding at 9-15 |
| Ident.DecodeIdentOutcome | elffile.py:395-397 | DecodeIdent (ElfFileIdent.unpack): decoding succeeds exactly when 16 bytes remain and the first four are the signature; otherwise Truncated (checked first) or BadMagic |
| Ident.DecodeIdentAt | elffile.py:395-400 | an identification is decoded back from wherever its encoding lies in a buffer |
| Ident.IdentRoundTrip | tests.py:79-81 | decoding an encoded identification gives it back |
| Ident.IdentIsPrefix | tests.py:67-77 | re-encoding a decoded identification reproduces the source's first 9 bytes, and all 16 when its padding is zero |
| Ident.PaddingIgnored | elffile.py:372 | two buffers that agree on bytes 0-8 decode to the same result: the padding is not read |
| Ident.Ident64LittleExample | tests.py:60-64 | the 64-bit little-endian identification decodes to class 2, data 1, version 1 and encodes back to the same 16 bytes |
| Ident.PackIdent | elffile.py:399-400 | writes the 16 bytes in place at off, or fails with Truncated and leaves the buffer unchanged |
| Records.HeaderFormatSize | elffile.py:434-444 | the file header format has 13 fields and calcsize 24 + 3 * address width: 36 in 32-bit layouts, 48 in 64-bit ones |
| Records.SectionFormatSize | elffile.py:474-484 | the section entry format has 10 fields and calcsize 16 + 6 * address width: 40 and 64 |
| Records.ProgramFormatSize | elffile.py:528-538 | the program entry format has 8 fields and calcsize 8 + 6 * address width: 32 and 56 |
| Records.EncodeHeader | elffile.py:426-431 | an encoded file header has the layout's size |
| Records.EncodeSection | elffile.py:467-471 | an encoded section entry has the layout's size |
| Records.EncodeProgram | elffile.py:512-525 | an encoded program entry has the layout's size |
| Records.DecodeHeaderAt | elffile.py:420-424 | DecodeHeader (ElfFileHeader.unpack): a file header is decoded back from wherever its encoding lies |
| Records.DecodeSectionAt | elffile.py:462-465 | DecodeSection (ElfSectionHeader.unpack): a section entry is decoded back from wherever its encoding lies |
| Records.DecodeProgramAt | elffile.py:508-520 | DecodeProgram (ElfProgramHeader32/64.unpack): a program entry is decoded back from wherever its encoding lies, in either field order |
| Records.HeaderRoundTrip | elffile.py:420-431 | unpack(pack(h)) == h for every header whose fields fit the layout |
| Records.SectionRoundTrip | elffile.py:462-471 | unpack(pack(s)) == s for every section entry whose fields fit |
| Records.ProgramRoundTrip | elffile.py:507-525 | unpack(pack(p)) == p for every program entry whose fields fit, in both field orders |
| Records.HeaderBytesRoundTrip | elffile.py:420-431 | a decoded header fits its layout and re-encodes to exactly the bytes it was read from |
| Records.SectionBytesRoundTrip | elffile.py:462-471 | a decoded section entry fits and re-encodes to exactly its bytes |
| Records.ProgramBytesRoundTrip | elffile.py:507-525 | a decoded program entry fits and re-encodes to exactly its bytes |
| Records.HeaderSectionFieldsAt | elffile.py:420-424 | e_shoff, e_shentsize and e_shnum are read from header bytes 16/24, 30/42 and 32/44 (32-bit/64-bit) |
| Records.SectionSizeAt | elffile.py:462-465 | sh_size is read from the 4 bytes at 20 (32-bit) or the 8 bytes at 32 (64-bit) |
| Records.ProgramFlagsAt | elffile.py:506-520 | p_flags is the 7th field (bytes 24-27) in 32-bit layouts and the 2nd (bytes 4-7) in 64-bit ones |
| Records.PackHeader | elffile.py:426-431 | writes the encoded header in place, or fails with Truncated or FieldRange and leaves the buffer unchanged |
| Records.PackSection | elffile.py:467-471 | the same for a section entry |
| Records.PackProgram | elffile.py:512-525 | the same for a program entry, in its layout's field order |
| Records.ProgramEntryAsWrittenTruncates | elffile.py:671-689 | a program entry that ends the buffer decodes as a program header, but the source's section-header class reports Truncated for it |
| Tables.SectionCount | elffile.py:652-658 | the count is e_shnum when nonzero, otherwise entry 0's sh_size, and never below 1 because entry 0 is always kept |
| Tables.EntriesErrorPersists | elffile.py:659-669 | once an entry fails, reading more entries of the table reports the same error |
| Tables.EntriesOk | elffile.py:659-669 | reading n entries succeeds exactly when each entry at base + i * stride can be read; the result then has n entries, entry i being the one at that offset |
| Tables.EntriesFirstError | elffile.py:659-669 | a failed read reports the error of the first entry that cannot be read, all earlier ones being readable |
| Tables.EntriesOf | elffile.py:659-669 | entries lying at their offsets are read back as exactly those entries, in order |
| Tables.ReadEntries | elffile.py:659-669 | the append loop, started with the first entries already read, returns exactly the specification's reading of n entries, stopping at the first error |
| Tables.SectionTableShape | elffile.py:649-661 | SectionTable (the section half of ElfFile.unpack): e_shoff zero gives an empty table; an unreadable entry 0 gives its error; a table that is read has SectionCount entries, entry 0 the one at e_shoff and entry i the one at e_shoff + i * e_shentsize |
| Tables.ExtendedNumbering | elffile.py:656-658 | with e_shnum zero and entry 0's size N >= 1, a table whose N entries are readable has exactly N entries |
| Tables.SectionTableOf | elffile.py:649-661 | a nonempty table whose entries lie at their offsets and whose entry 0 gives its count is read back as exactly that table |
| Tables.WalkSections | elffile.py:649-661 | the loop (entry 0, then the count, then entries 1 to count-1) returns exactly SectionTable |
| Tables.ProgramTableShape | elffile.py:663-669 | ProgramTable (the program half of ElfFile.unpack): e_phoff zero gives an empty table; otherwise the table is read exactly when its e_phnum entries are, and then entry i is the one at e_phoff + i * e_phentsize |
| Tables.ProgramTableOf | elffile.py:663-669 | a table of e_phnum entries lying at their offsets is read back as exactly that table |
| Tables.WalkPrograms | elffile.py:663-669 | the loop over e_phnum entries returns exactly ProgramTable |
| ElfFiles.DecodeBodySpec | elffile.py:645-669 | DecodeBody (ElfFile.unpack): unpacking succeeds exactly when the header at byte 16 and both tables are read, and the result is made of them |
| ElfFiles.DecodeBodyError | elffile.py:645-669 | a failed unpack reports the header's error, else the section table's, else the program table's |
| ElfFiles.DecodeFileSpec | elffile.py:592-594 | DecodeFile (open() on a block, then unpack): a file is read exactly when its identification is, resolves, and the body is read with that layout; a bad identification or resolution is reported before anything else is read |
| ElfFiles.DecodeFileOf | elffile.py:645-669 | a block whose identification selects layout v and whose header and tables read as those of e decodes to e |
| ElfFiles.ElfFile.constructor | elffile.py:633-643 | a new file object holds its block, identification and layout, with no header and empty tables |
| ElfFiles.ElfFile.Unpack | elffile.py:645-669 | on success the header and both tables are those DecodeBody reads from the block; on failure the error is reported and the object is unchanged |
| ElfFiles.Open | elffile.py:592-594 | reads the identification at byte 0 and resolves it, giving a fresh unread file object, or the identification's or the resolver's error |
| ElfFiles.OpenAndUnpack | tests.py:83-84 | opening and unpacking a block gives exactly DecodeFile of the block |
| Image.PlaceAllOutside | tests.py:86-87 | bytes that no write covers keep their value in the image |
| Image.PlaceAllAt | tests.py:86-87 | with pairwise disjoint writes, each write's bytes are found at its place whatever the order of the writes |
| Image.ImageParts | tests.py:86-90 | in the image of a well-formed file the identification decodes at 0, the header at 16, and both tables at the header's offsets to the file's own tables |
| Image.FileRoundTrip | tests.py:83-94 | EncodeFile (the whole-file image tests.py:86-87 asks for): decoding the image of a well-formed file gives back the same identification, header and both tables in order |
| Image.IdentPrefixOfImage | tests.py:86-90 | the image reproduces the original identification's first 9 bytes, and all 16 when its padding was zero |
| Image.ImageKeepsHeader | tests.py:86-90 | when the header was read from the original at byte 16, the image holds the original's bytes over the whole header window |
| Image.ImageKeepsSection | tests.py:86-90 | when section entry i was read from the original at its offset, the image holds the original's bytes over that entry's window |
| Image.ImageKeepsProgram | tests.py:86-90 | when program entry i was read from the original at its offset, the image holds the original's bytes over that entry's window |

## Left out

- The `coding.Coding` registry and the symbolic name catalogs (elffile.py:35-360). Enumerated fields are raw integers.
- `open()` (elffile.py:540-612), except its block-of-memory path. File names, file objects, `mmap` and copying are I/O. The `assert mode == 'r'` check is not modelled either.
- ElfFiles.Open: `open()` begins with `assert use_mmap` (elffile.py:589), but no variable of that name exists; the parameter is `use_map`. So every call raises NameError before it reaches the block path (elffile.py:591-594). The model starts at the block path.
- The command-line scripts objdump.py, objcmp.py and tst.py, setup.py, and the file-handling code of tests.py. The model cites tests.py's assertions.
- Resolving section names through the string table, and interpreting section contents. The code does neither.
- The resource fields `name`, `fileobj`, `map` and `mode` of `ElfFile` (elffile.py:633-643).
- The optional check that the header's entry sizes equal the layout's sizes. The code has no such check.
- Ident.DecodeIdent: `ElfFileIdent` stores the four signature bytes as a `magic` field and does not check them; tests.py:63 checks them. The model has no magic field: the decoder fails with BadMagic and the encoder writes the signature.
- Variants.Resolve: `ElfFile.encodedClass` reads `ident.elfClass.code` and `ident.elfData.code` (elffile.py:619, 625), but the identification holds plain integers, which have no `.code`, so it raises AttributeError before any lookup. The model looks up the raw class and data bytes.
- Variants.Resolve: the error paths `raise NO_CLASS` and `raise NO_ENCODING` (elffile.py:623, 629) name nothing that is defined (the module only does `import coding`), so both raise NameError and cannot be told apart; the tests' `elffile.ElfFile.NO_CLASS` and `NO_ENCODING` (tests.py:105, 111) do not exist either. The model returns the distinct errors NoClass and NoEncoding.
- Tables.SectionTable: Python 2's `xrange` (elffile.py:659, 667) raises OverflowError for a count above `sys.maxint`, such as a 64-bit `sh_size` of 2^63 or more. The model has unbounded counts and goes on reading entries: it reports Truncated at the first entry past the end of the block, or, when `e_shentsize` is zero, reads the same entry that many times.
- Ident.DecodeIdent: `ElfFileIdent.unpack` calls `identCoder.unpack_from` (elffile.py:397), a name defined nowhere, so it raises NameError. The model reads the 16-byte layout of the class's own `coder` (elffile.py:372-381).
- Ident.PackIdent: `ElfFileIdent.pack` calls `identCoder.pack_into` (elffile.py:400) and raises NameError in the same way. The model writes the same 16-byte layout.
- Ident.DecodeIdent: `ElfFileIdent.unpack` returns nothing, so `open()` passes `None` on as the identification (elffile.py:592-594). The model returns the decoded identification.
- Records.DecodeHeader: `ElfFileHeader.unpack` passes `buffer` to `unpack_from` instead of its `block` parameter (elffile.py:424). In Python 2 `buffer` is the built-in type, so the call raises TypeError, and its target list has the typos `self,shentsize` and `self.shnm` (elffile.py:420-431). The model reads the block it is given into `shentsize` and `shnum`.
- ElfFiles.ElfFile.Unpack: the code names `fileHeaderClass`, `sectionHeaderClass` and `programHeaderClass` without `self.`, and it stores the `None` that each record's `unpack` returns (elffile.py:646, 654, 660, 668). The model uses the records that the selected layout decodes.
- ElfFiles.ElfFile.Unpack: `sectionHeaders` and `programHeaders` start as `None` and are appended to. The absent table is set with `==` where `=` was meant (elffile.py:642-643, 654, 665). Both tables start empty in the model, and an absent table is empty.
- ElfFiles.ElfFile.Unpack: the model is atomic. On any error none of the object's fields change. The Python code would already have stored the file header and part of a table.
- Layout.PackInto: when a value is out of range (FieldRange), the model leaves the buffer unchanged. CPython's `pack_into` first zero-fills the record's window, then packs field by field, so when it raises `struct.error` the window is zeroed and partly written.
- Records.PackHeader: wraps Layout.PackInto and leaves the buffer unchanged on FieldRange, where CPython leaves the header window zeroed and partly written.
- Records.PackSection: the same for a section entry's window.
- Records.PackProgram: the same for a program entry's window.
- `ElfProgramHeader.unpack`/`pack` (elffile.py:500-504) only raise, as abstract placeholders. The model has just the two concrete field orders.
- Image.EncodeFile: a whole-file pack is not defined in the code (tests.py:86-87 calls an undefined `ef.pack_into`). The model describes the file's image as its records written into a zero-filled buffer, and there is no in-place whole-file pack method. Re-encoding reproduces the original bytes over every record's window that was read: the header window and each section and program entry window (Image.ImageKeepsHeader, ImageKeepsSection, ImageKeepsProgram), and bytes 0-8 of the identification. It does not keep bytes that no record covers (gaps, section contents), a nonzero padding in bytes 9-15, or records that overlap.

## Findings

| source | as written | input that shows it | evidently intended | confidence | as-written member | corrected member |
|---|---|---|---|---|---|---|
| elffile.py:698 | `encodingDict[2][2]` is `ElfFile32b` | identification with class 2 (64-bit) and data 2 (big-endian) | `ElfFile64b`: a 64-bit big-endian file read with the 64-bit big-endian layout | high; not executed | Variants.ResolveAsWrittenMisreads64Big | Variants.ResolveCodes |
| elffile.py:674-689 | every `ElfFile*` subclass sets `programHeaderClass` to a section header class | a 64-bit file whose last program entry ends the block: 56 bytes remain where the section layout needs 64 | the `ElfProgramHeader*` class of the same layout | high; not executed | Records.ProgramEntryAsWrittenTruncates | Records.ProgramFlagsAt |
