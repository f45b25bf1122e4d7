/** Fixed-layout records in the manner of Python's struct module: a format
    lists the byte width of each field in wire order, and one byte order
    applies to the whole record (the `<` or `>` prefix of a format string). */
module Layout {
  import opened Bytes
  import opened Results

  /** Field widths in bytes, in wire order: "H" is 2, "I" is 4, "Q" is 8. */
  type Format = seq<nat>

  /** struct.calcsize: the total width of a format. */
  function Size(fmt: Format): nat
  {
    if fmt == [] then 0 else fmt[0] + Size(fmt[1..])
  }

  /** Every field value fits its width: struct.pack raises struct.error otherwise. */
  predicate Fits(fields: seq<nat>, fmt: Format)
  {
    |fields| == |fmt| && forall i :: 0 <= i < |fmt| ==> fields[i] < Pow256(fmt[i])
  }

  /** struct.pack: the fields, each encoded at its width, one after the other. */
  function PackFields(fields: seq<nat>, fmt: Format, order: ByteOrder): (r: seq<byte>)
    requires |fields| == |fmt|
    ensures |r| == Size(fmt)
  {
    if fmt == [] then []
    else EncodeUint(fields[0], fmt[0], order) + PackFields(fields[1..], fmt[1..], order)
  }

  /** struct.unpack: the fields read from a string of exactly the format's size. */
  function UnpackFields(s: seq<byte>, fmt: Format, order: ByteOrder): (r: seq<nat>)
    requires |s| == Size(fmt)
    ensures |r| == |fmt|
  {
    if fmt == [] then []
    else [DecodeUint(s[..fmt[0]], order)] + UnpackFields(s[fmt[0]..], fmt[1..], order)
  }

  /** Every unpacked field is within its width, so it can be packed again. */
  lemma {:induction false} UnpackFits(s: seq<byte>, fmt: Format, order: ByteOrder)
    requires |s| == Size(fmt)
    ensures Fits(UnpackFields(s, fmt, order), fmt)
  {
    if fmt != [] {
      var fields := UnpackFields(s, fmt, order);
      UintBytesRoundTrip(s[..fmt[0]], order);
      UnpackFits(s[fmt[0]..], fmt[1..], order);
      forall i | 0 <= i < |fmt| ensures fields[i] < Pow256(fmt[i]) {
        if i > 0 {
          assert fields[i] == UnpackFields(s[fmt[0]..], fmt[1..], order)[i - 1];
          assert fmt[i] == fmt[1..][i - 1];
        }
      }
    }
  }

  lemma {:induction false} SizeAppend(a: Format, b: Format)
    ensures Size(a + b) == Size(a) + Size(b)
  {
    if a == [] {
      assert a + b == b;
    } else {
      assert (a + b)[1..] == a[1..] + b;
      SizeAppend(a[1..], b);
    }
  }

  lemma FitsTail(fields: seq<nat>, fmt: Format)
    requires Fits(fields, fmt) && fmt != []
    ensures Fits(fields[1..], fmt[1..])
  {
    forall i | 0 <= i < |fmt| - 1 ensures fields[1..][i] < Pow256(fmt[1..][i]) {
      assert fields[1..][i] == fields[i + 1] && fmt[1..][i] == fmt[i + 1];
    }
  }

  /** Unpacking packed fields gives the fields back. */
  lemma {:induction false} UnpackPack(fields: seq<nat>, fmt: Format, order: ByteOrder)
    requires Fits(fields, fmt)
    ensures UnpackFields(PackFields(fields, fmt, order), fmt, order) == fields
  {
    if fmt != [] {
      var head := EncodeUint(fields[0], fmt[0], order);
      var tail := PackFields(fields[1..], fmt[1..], order);
      var s := PackFields(fields, fmt, order);
      assert s == head + tail;
      assert s[..fmt[0]] == head;
      assert s[fmt[0]..] == tail;
      assert fields[0] < Pow256(fmt[0]);
      UintRoundTrip(fields[0], fmt[0], order);
      FitsTail(fields, fmt);
      UnpackPack(fields[1..], fmt[1..], order);
      assert fields == [fields[0]] + fields[1..];
    }
  }

  /** Packing unpacked fields gives the same bytes back: every byte of a
      record belongs to some field. */
  lemma {:induction false} PackUnpack(s: seq<byte>, fmt: Format, order: ByteOrder)
    requires |s| == Size(fmt)
    ensures PackFields(UnpackFields(s, fmt, order), fmt, order) == s
  {
    if fmt != [] {
      var head := s[..fmt[0]];
      var tail := s[fmt[0]..];
      var fields := UnpackFields(s, fmt, order);
      assert fields == [DecodeUint(head, order)] + UnpackFields(tail, fmt[1..], order);
      assert fields[0] == DecodeUint(head, order);
      assert fields[1..] == UnpackFields(tail, fmt[1..], order);
      UintBytesRoundTrip(head, order);
      PackUnpack(tail, fmt[1..], order);
      assert PackFields(fields, fmt, order) == head + tail;
      assert s == head + tail;
    }
  }

  /** struct offset of field i: the widths of the fields before it. */
  function FieldOffset(fmt: Format, i: nat): nat
    requires i <= |fmt|
  {
    if i == 0 then 0 else FieldOffset(fmt, i - 1) + fmt[i - 1]
  }

  lemma {:induction false} FieldOffsetTail(fmt: Format, i: nat)
    requires 0 < i <= |fmt|
    ensures FieldOffset(fmt, i) == fmt[0] + FieldOffset(fmt[1..], i - 1)
  {
    if i > 1 {
      FieldOffsetTail(fmt, i - 1);
    }
  }

  /** The bytes field i is read from, found by skipping the fields before it. */
  function FieldBytes(s: seq<byte>, fmt: Format, i: nat): seq<byte>
    requires |s| == Size(fmt) && i < |fmt|
  {
    if i == 0 then s[..fmt[0]] else FieldBytes(s[fmt[0]..], fmt[1..], i - 1)
  }

  lemma {:induction false} UnpackFieldBytes(s: seq<byte>, fmt: Format, order: ByteOrder, i: nat)
    requires |s| == Size(fmt) && i < |fmt|
    ensures UnpackFields(s, fmt, order)[i] == DecodeUint(FieldBytes(s, fmt, i), order)
  {
    if i > 0 {
      UnpackFieldBytes(s[fmt[0]..], fmt[1..], order, i - 1);
    }
  }

  lemma {:induction false} FieldBytesAt(s: seq<byte>, fmt: Format, i: nat)
    requires |s| == Size(fmt) && i < |fmt|
    ensures FieldOffset(fmt, i) + fmt[i] <= |s|
    ensures FieldBytes(s, fmt, i) == s[FieldOffset(fmt, i)..FieldOffset(fmt, i) + fmt[i]]
  {
    if i > 0 {
      var t := s[fmt[0]..];
      var lo := FieldOffset(fmt[1..], i - 1);
      var w := fmt[i];
      assert |t| == Size(fmt[1..]);
      assert lo + w <= |t| && FieldBytes(t, fmt[1..], i - 1) == t[lo..lo + w] by {
        FieldBytesAt(t, fmt[1..], i - 1);
        assert fmt[1..][i - 1] == w;
      }
      assert FieldOffset(fmt, i) == fmt[0] + lo by {
        FieldOffsetTail(fmt, i);
      }
      DropSlice(s, fmt[0], lo, lo + w);
    }
  }

  /** Field i is read from the fmt[i] bytes at its field offset, which lie
      inside the record. */
  lemma FieldAt(s: seq<byte>, fmt: Format, order: ByteOrder, i: nat)
    requires |s| == Size(fmt) && i < |fmt|
    ensures FieldOffset(fmt, i) + fmt[i] <= |s|
    ensures UnpackFields(s, fmt, order)[i] == DecodeUint(s[FieldOffset(fmt, i)..FieldOffset(fmt, i) + fmt[i]], order)
  {
    UnpackFieldBytes(s, fmt, order, i);
    FieldBytesAt(s, fmt, i);
  }

  lemma DropSlice(s: seq<byte>, k: nat, lo: nat, hi: nat)
    requires k <= |s| && lo <= hi <= |s| - k
    ensures s[k..][lo..hi] == s[k + lo..k + hi]
  {
  }

  lemma SliceSlice(s: seq<byte>, a: nat, b: nat, lo: nat, hi: nat)
    requires a <= b <= |s| && lo <= hi <= b - a
    ensures s[a..b][lo..hi] == s[a + lo..a + hi]
  {
    assert forall i :: 0 <= i < hi - lo ==> s[a..b][lo..hi][i] == s[a + lo + i];
  }

  /** struct.unpack_from: the fields of the record at off, or Truncated when
      fewer than Size(fmt) bytes remain there. */
  function UnpackFrom(b: seq<byte>, off: nat, fmt: Format, order: ByteOrder): (r: Result<seq<nat>>)
    ensures r.Ok? ==> |r.value| == |fmt|
  {
    if off + Size(fmt) > |b| then Err(Truncated)
    else Ok(UnpackFields(b[off..off + Size(fmt)], fmt, order))
  }

  /** A record is read back from wherever its packed bytes lie in a buffer. */
  lemma UnpackFromPacked(b: seq<byte>, off: nat, fields: seq<nat>, fmt: Format, order: ByteOrder)
    requires Fits(fields, fmt)
    requires off + Size(fmt) <= |b| && b[off..off + Size(fmt)] == PackFields(fields, fmt, order)
    ensures UnpackFrom(b, off, fmt, order) == Ok(fields)
  {
    UnpackPack(fields, fmt, order);
  }

  /** What unpack_from reads fits the format and packs back to the bytes it was read from. */
  lemma UnpackFromRepacks(b: seq<byte>, off: nat, fmt: Format, order: ByteOrder)
    requires UnpackFrom(b, off, fmt, order).Ok?
    ensures off + Size(fmt) <= |b|
    ensures Fits(UnpackFrom(b, off, fmt, order).value, fmt)
    ensures PackFields(UnpackFrom(b, off, fmt, order).value, fmt, order) == b[off..off + Size(fmt)]
  {
    var s := b[off..off + Size(fmt)];
    assert UnpackFrom(b, off, fmt, order).value == UnpackFields(s, fmt, order);
    assert Fits(UnpackFields(s, fmt, order), fmt) by {
      UnpackFits(s, fmt, order);
    }
    assert PackFields(UnpackFields(s, fmt, order), fmt, order) == s by {
      PackUnpack(s, fmt, order);
    }
  }

  /** Field i of the record at off is read from the bytes at off plus its field offset. */
  lemma UnpackFromField(b: seq<byte>, off: nat, fmt: Format, order: ByteOrder, i: nat)
    requires UnpackFrom(b, off, fmt, order).Ok? && i < |fmt|
    ensures off + FieldOffset(fmt, i) + fmt[i] <= |b|
    ensures UnpackFrom(b, off, fmt, order).value[i] ==
      DecodeUint(b[off + FieldOffset(fmt, i)..off + FieldOffset(fmt, i) + fmt[i]], order)
  {
    assert off + Size(fmt) <= |b|;
    var s := b[off..off + Size(fmt)];
    assert UnpackFrom(b, off, fmt, order).value == UnpackFields(s, fmt, order);
    FieldAt(s, fmt, order, i);
    SliceSlice(b, off, off + Size(fmt), FieldOffset(fmt, i), FieldOffset(fmt, i) + fmt[i]);
  }

  /** struct.pack_into with the error paths of CPython: the buffer is checked
      first (Truncated), then the field values (FieldRange). On success the
      record's bytes replace [off, off + Size(fmt)) and nothing else changes;
      on failure the buffer is left as it was. */
  method PackInto(buf: array<byte>, off: nat, fields: seq<nat>, fmt: Format, order: ByteOrder)
    returns (r: Outcome)
    requires |fields| == |fmt|
    modifies buf
    ensures r == (if off + Size(fmt) > buf.Length then Fail(Truncated)
                  else if !Fits(fields, fmt) then Fail(FieldRange)
                  else Pass)
    ensures r.Fail? ==> buf[..] == old(buf[..])
    ensures r.Pass? ==> buf[..] == Place(old(buf[..]), off, PackFields(fields, fmt, order))
  {
    if off + Size(fmt) > buf.Length {
      return Fail(Truncated);
    }
    if !(forall i :: 0 <= i < |fmt| ==> fields[i] < Pow256(fmt[i])) {
      return Fail(FieldRange);
    }
    PackBytes(buf, off, PackFields(fields, fmt, order));
    r := Pass;
  }
}
