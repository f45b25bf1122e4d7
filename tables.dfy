/** The section header table and the program header table: arrays of
    fixed-size entries located by offsets in the file header (the two walks
    of ElfFile.unpack). Entry i of a table lies at the table's offset plus i
    times the entry size the header records. */
module Tables {
  import opened Bytes
  import opened Results
  import opened Variants
  import opened Records

  // ---------------------------------------------------------------- a table of fixed-stride entries

  /** Where entry i of a table at base with entries stride bytes apart starts. */
  function Offset(base: nat, stride: nat, i: nat): nat
  {
    base + i * stride
  }

  /** The first n entries of a table, in positional order, each read by
      decode at its offset; the first entry that cannot be read decides the
      error. */
  function Entries<T>(decode: nat -> Result<T>, base: nat, stride: nat, n: nat): Result<seq<T>>
  {
    if n == 0 then Ok([])
    else
      var prev := Entries(decode, base, stride, n - 1);
      if prev.Err? then prev
      else
        var e := decode(Offset(base, stride, n - 1));
        if e.Err? then Err(e.error) else Ok(prev.value + [e.value])
  }

  /** Once an entry has failed, reading further entries reports the same error. */
  lemma {:induction false} EntriesErrorPersists<T>(decode: nat -> Result<T>, base: nat, stride: nat, i: nat, n: nat)
    requires i <= n && Entries(decode, base, stride, i).Err?
    ensures Entries(decode, base, stride, n) == Entries(decode, base, stride, i)
  {
    if i < n {
      EntriesErrorPersists(decode, base, stride, i, n - 1);
    }
  }

  /** Reading n entries succeeds exactly when each of the n entries can be
      read, and then the result has n entries, entry i the one read at its offset. */
  lemma {:induction false} EntriesOk<T>(decode: nat -> Result<T>, base: nat, stride: nat, n: nat)
    ensures Entries(decode, base, stride, n).Ok? <==>
      forall i :: 0 <= i < n ==> decode(Offset(base, stride, i)).Ok?
    ensures Entries(decode, base, stride, n).Ok? ==>
      |Entries(decode, base, stride, n).value| == n &&
      forall i :: 0 <= i < n ==> Entries(decode, base, stride, n).value[i] == decode(Offset(base, stride, i)).value
  {
    if n > 0 {
      EntriesOk(decode, base, stride, n - 1);
      if Entries(decode, base, stride, n - 1).Err? {
        var i :| 0 <= i < n - 1 && decode(Offset(base, stride, i)).Err?;
      }
    }
  }

  /** When reading fails, the error is that of the first entry that cannot
      be read, all earlier entries being readable. */
  lemma {:induction false} EntriesFirstError<T>(decode: nat -> Result<T>, base: nat, stride: nat, n: nat)
    requires Entries(decode, base, stride, n).Err?
    ensures exists i :: (0 <= i < n && decode(Offset(base, stride, i)).Err? &&
      Entries(decode, base, stride, n) == Err(decode(Offset(base, stride, i)).error) &&
      forall j :: 0 <= j < i ==> decode(Offset(base, stride, j)).Ok?)
  {
    var prev := Entries(decode, base, stride, n - 1);
    if prev.Err? {
      EntriesFirstError(decode, base, stride, n - 1);
    } else {
      EntriesOk(decode, base, stride, n - 1);
      var i := n - 1;
      assert decode(Offset(base, stride, i)).Err?;
      assert forall j :: 0 <= j < i ==> decode(Offset(base, stride, j)).Ok?;
    }
  }

  /** Entries that can be read at their offsets are read back as exactly those entries. */
  lemma {:induction false} EntriesOf<T>(decode: nat -> Result<T>, base: nat, stride: nat, t: seq<T>)
    requires forall i :: 0 <= i < |t| ==> decode(Offset(base, stride, i)) == Ok(t[i])
    ensures Entries(decode, base, stride, |t|) == Ok(t)
  {
    if t != [] {
      var init := t[..|t| - 1];
      assert forall i :: 0 <= i < |init| ==> init[i] == t[i];
      EntriesOf(decode, base, stride, init);
      assert t == init + [t[|t| - 1]];
    }
  }

  /** The loop both walks share: with the entries before index `from`
      already read into `sofar`, read entries from .. n-1 one at a time,
      appending each, and stop at the first that cannot be read. */
  method ReadEntries<T>(decode: nat -> Result<T>, base: nat, stride: nat, from: nat, n: nat, sofar: seq<T>)
    returns (r: Result<seq<T>>)
    requires from <= n && Entries(decode, base, stride, from) == Ok(sofar)
    ensures r == Entries(decode, base, stride, n)
  {
    var entries := sofar;
    var i := from;
    while i < n
      invariant from <= i <= n
      invariant Entries(decode, base, stride, i) == Ok(entries)
    {
      var e := decode(Offset(base, stride, i));
      if e.Err? {
        EntriesErrorPersists(decode, base, stride, i + 1, n);
        return Err(e.error);
      }
      entries := entries + [e.value];
      i := i + 1;
    }
    r := Ok(entries);
  }

  // ---------------------------------------------------------------- section table

  /** The section entry decoder of a block and layout. */
  function SectionAt(b: seq<byte>, v: Variant): nat -> Result<SectionHeader>
  {
    (off: nat) => DecodeSection(b, off, v)
  }

  /** Where section entry i starts: e_shoff + i * e_shentsize. */
  function SectionOffset(h: FileHeader, i: nat): nat
  {
    Offset(h.shoff, h.shentsize, i)
  }

  lemma SectionAtIs(b: seq<byte>, h: FileHeader, v: Variant)
    ensures forall i: nat :: SectionAt(b, v)(Offset(h.shoff, h.shentsize, i)) == DecodeSection(b, SectionOffset(h, i), v)
  {
  }

  /** The number of section entries: e_shnum, or, when e_shnum is zero (the
      extended-numbering escape of the gABI), the size field of entry 0.
      Entry 0 is always kept, so the count is at least one. */
  function SectionCount(h: FileHeader, first: SectionHeader): (n: nat)
    ensures n >= 1
    ensures h.shnum != 0 ==> n == h.shnum
    ensures h.shnum == 0 && first.size != 0 ==> n == first.size
  {
    if h.shnum != 0 then h.shnum
    else if first.size == 0 then 1
    else first.size
  }

  /** The section table: empty when e_shoff is zero; otherwise entry 0 is
      read first, the count taken from the header or from entry 0, and the
      entries read in order. */
  function SectionTable(b: seq<byte>, h: FileHeader, v: Variant): Result<seq<SectionHeader>>
  {
    if h.shoff == 0 then Ok([])
    else
      var first := DecodeSection(b, h.shoff, v);
      if first.Err? then Err(first.error)
      else Entries(SectionAt(b, v), h.shoff, h.shentsize, SectionCount(h, first.value))
  }

  /** The shape of the section table: e_shoff zero gives an empty table; an
      unreadable entry 0 gives its error; otherwise the table is read exactly
      when its SectionCount entries are, and then entry 0 is the record at
      e_shoff and entry i the record at e_shoff + i * e_shentsize. */
  lemma SectionTableShape(b: seq<byte>, h: FileHeader, v: Variant)
    ensures h.shoff == 0 ==> SectionTable(b, h, v) == Ok([])
    ensures h.shoff != 0 && DecodeSection(b, h.shoff, v).Err? ==>
      SectionTable(b, h, v) == Err(DecodeSection(b, h.shoff, v).error)
    ensures h.shoff != 0 && DecodeSection(b, h.shoff, v).Ok? ==>
      var n := SectionCount(h, DecodeSection(b, h.shoff, v).value);
      SectionTable(b, h, v).Ok? <==> forall i :: 0 <= i < n ==> DecodeSection(b, SectionOffset(h, i), v).Ok?
    ensures h.shoff != 0 && SectionTable(b, h, v).Ok? ==>
      var t, first := SectionTable(b, h, v).value, DecodeSection(b, h.shoff, v);
      && first.Ok? && |t| == SectionCount(h, first.value) && t[0] == first.value
      && forall i :: 0 <= i < |t| ==> DecodeSection(b, SectionOffset(h, i), v) == Ok(t[i])
  {
    if h.shoff != 0 && DecodeSection(b, h.shoff, v).Ok? {
      EntriesOk(SectionAt(b, v), h.shoff, h.shentsize, SectionCount(h, DecodeSection(b, h.shoff, v).value));
      SectionAtIs(b, h, v);
      assert SectionOffset(h, 0) == h.shoff;
    }
  }

  /** Extended numbering: with e_shnum zero and entry 0 giving a size of
      N >= 1, a table whose N entries can be read has exactly N entries. */
  lemma ExtendedNumbering(b: seq<byte>, h: FileHeader, v: Variant, n: nat)
    requires h.shoff != 0 && h.shnum == 0 && n >= 1
    requires DecodeSection(b, h.shoff, v).Ok? && DecodeSection(b, h.shoff, v).value.size == n
    requires forall i :: 0 <= i < n ==> DecodeSection(b, SectionOffset(h, i), v).Ok?
    ensures SectionTable(b, h, v).Ok? && |SectionTable(b, h, v).value| == n
  {
    SectionAtIs(b, h, v);
    EntriesOk(SectionAt(b, v), h.shoff, h.shentsize, n);
  }

  /** A nonempty table whose entries lie at their offsets and whose entry 0
      gives the right count is read back as exactly those entries. */
  lemma SectionTableOf(b: seq<byte>, h: FileHeader, v: Variant, t: seq<SectionHeader>)
    requires h.shoff != 0 && t != [] && SectionCount(h, t[0]) == |t|
    requires forall i :: 0 <= i < |t| ==> DecodeSection(b, SectionOffset(h, i), v) == Ok(t[i])
    ensures SectionTable(b, h, v) == Ok(t)
  {
    assert SectionOffset(h, 0) == h.shoff;
    SectionAtIs(b, h, v);
    EntriesOf(SectionAt(b, v), h.shoff, h.shentsize, t);
  }

  /** The section walk of ElfFile.unpack: entry 0 first, then the count, then
      entries 1 .. count-1, each appended to the list in turn. */
  method WalkSections(b: seq<byte>, h: FileHeader, v: Variant) returns (r: Result<seq<SectionHeader>>)
    ensures r == SectionTable(b, h, v)
  {
    if h.shoff == 0 {
      return Ok([]);
    }
    var first := DecodeSection(b, h.shoff, v);
    if first.Err? {
      return Err(first.error);
    }
    var count := h.shnum;
    if count == 0 {
      count := first.value.size;
      if count == 0 {
        count := 1;
      }
    }
    var decode := SectionAt(b, v);
    assert decode(Offset(h.shoff, h.shentsize, 0)) == first;
    assert Entries(decode, h.shoff, h.shentsize, 1) == Ok([] + [first.value]);
    assert [] + [first.value] == [first.value];
    assert count == SectionCount(h, first.value);
    r := ReadEntries(decode, h.shoff, h.shentsize, 1, count, [first.value]);
  }

  // ---------------------------------------------------------------- program table

  /** The program entry decoder of a block and layout. */
  function ProgramAt(b: seq<byte>, v: Variant): nat -> Result<ProgramHeader>
  {
    (off: nat) => DecodeProgram(b, off, v)
  }

  /** Where program entry i starts: e_phoff + i * e_phentsize. */
  function ProgramOffset(h: FileHeader, i: nat): nat
  {
    Offset(h.phoff, h.phentsize, i)
  }

  lemma ProgramAtIs(b: seq<byte>, h: FileHeader, v: Variant)
    ensures forall i: nat :: ProgramAt(b, v)(Offset(h.phoff, h.phentsize, i)) == DecodeProgram(b, ProgramOffset(h, i), v)
  {
  }

  /** The program table: empty when e_phoff is zero, otherwise e_phnum entries. */
  function ProgramTable(b: seq<byte>, h: FileHeader, v: Variant): Result<seq<ProgramHeader>>
  {
    if h.phoff == 0 then Ok([]) else Entries(ProgramAt(b, v), h.phoff, h.phentsize, h.phnum)
  }

  /** The shape of the program table: e_phoff zero gives an empty table;
      otherwise the table is read exactly when its e_phnum entries are, and
      then entry i is the record at e_phoff + i * e_phentsize. */
  lemma ProgramTableShape(b: seq<byte>, h: FileHeader, v: Variant)
    ensures h.phoff == 0 ==> ProgramTable(b, h, v) == Ok([])
    ensures h.phoff != 0 ==>
      (ProgramTable(b, h, v).Ok? <==> forall i :: 0 <= i < h.phnum ==> DecodeProgram(b, ProgramOffset(h, i), v).Ok?)
    ensures h.phoff != 0 && ProgramTable(b, h, v).Ok? ==>
      var t := ProgramTable(b, h, v).value;
      |t| == h.phnum && forall i :: 0 <= i < |t| ==> DecodeProgram(b, ProgramOffset(h, i), v) == Ok(t[i])
  {
    ProgramAtIs(b, h, v);
    EntriesOk(ProgramAt(b, v), h.phoff, h.phentsize, h.phnum);
  }

  /** A table whose e_phnum entries lie at their offsets is read back as exactly those entries. */
  lemma ProgramTableOf(b: seq<byte>, h: FileHeader, v: Variant, t: seq<ProgramHeader>)
    requires h.phoff != 0 && |t| == h.phnum
    requires forall i :: 0 <= i < |t| ==> DecodeProgram(b, ProgramOffset(h, i), v) == Ok(t[i])
    ensures ProgramTable(b, h, v) == Ok(t)
  {
    ProgramAtIs(b, h, v);
    EntriesOf(ProgramAt(b, v), h.phoff, h.phentsize, t);
  }

  /** The program walk of ElfFile.unpack: e_phnum entries appended in turn. */
  method WalkPrograms(b: seq<byte>, h: FileHeader, v: Variant) returns (r: Result<seq<ProgramHeader>>)
    ensures r == ProgramTable(b, h, v)
  {
    if h.phoff == 0 {
      return Ok([]);
    }
    r := ReadEntries(ProgramAt(b, v), h.phoff, h.phentsize, 0, h.phnum, []);
  }
}
