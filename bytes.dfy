/** Unsigned k-byte integers in little- and big-endian byte order, and the
    placement of a byte string into a larger buffer. */
module Bytes {

  type byte = x: int | 0 <= x < 256

  datatype ByteOrder = Little | Big

  /** 256^k: one more than the largest value k bytes can hold. */
  function Pow256(k: nat): (r: nat)
    ensures r >= 1
  {
    if k == 0 then 1 else 256 * Pow256(k - 1)
  }

  function Reverse<T>(s: seq<T>): (r: seq<T>)
    ensures |r| == |s|
  {
    if s == [] then [] else Reverse(s[1..]) + [s[0]]
  }

  lemma {:induction false} ReverseAt<T>(s: seq<T>)
    ensures forall i :: 0 <= i < |s| ==> Reverse(s)[i] == s[|s| - 1 - i]
  {
    if s != [] {
      ReverseAt(s[1..]);
    }
  }

  lemma ReverseReverse<T>(s: seq<T>)
    ensures Reverse(Reverse(s)) == s
  {
    ReverseAt(s);
    ReverseAt(Reverse(s));
    assert forall i :: 0 <= i < |s| ==> Reverse(Reverse(s))[i] == s[i];
  }

  /** The value of s read least significant byte first. */
  function LittleValue(s: seq<byte>): nat
  {
    if s == [] then 0 else s[0] + 256 * LittleValue(s[1..])
  }

  /** k bytes hold values below 256^k. */
  lemma {:induction false} LittleValueBound(s: seq<byte>)
    ensures LittleValue(s) < Pow256(|s|)
  {
    if s != [] {
      LittleValueBound(s[1..]);
    }
  }

  /** The k low-order bytes of x, least significant first (x is taken modulo 256^k). */
  function LittleBytes(x: nat, k: nat): (r: seq<byte>)
    ensures |r| == k
  {
    if k == 0 then [] else [x % 256] + LittleBytes(x / 256, k - 1)
  }

  /** The value of s read most significant byte first: the big-endian reading. */
  function BigValue(s: seq<byte>): nat
  {
    if s == [] then 0 else 256 * BigValue(s[..|s| - 1]) + s[|s| - 1]
  }

  /** Decodes an unsigned integer stored in s with the given byte order. */
  function DecodeUint(s: seq<byte>, order: ByteOrder): nat
  {
    if order == Little then LittleValue(s) else BigValue(s)
  }

  /** Encodes x as an unsigned k-byte integer with the given byte order. */
  function EncodeUint(x: nat, k: nat, order: ByteOrder): (r: seq<byte>)
    ensures |r| == k
  {
    if order == Little then LittleBytes(x, k) else Reverse(LittleBytes(x, k))
  }

  lemma DivBound(x: nat, k: nat)
    requires x < 256 * Pow256(k)
    ensures x / 256 < Pow256(k)
  {
  }

  lemma {:induction false} LittleRoundTrip(x: nat, k: nat)
    requires x < Pow256(k)
    ensures LittleValue(LittleBytes(x, k)) == x
  {
    if k > 0 {
      DivBound(x, k - 1);
      LittleRoundTrip(x / 256, k - 1);
      var s := LittleBytes(x, k);
      assert s[1..] == LittleBytes(x / 256, k - 1);
    }
  }

  lemma {:induction false} LittleBytesOfValue(s: seq<byte>)
    ensures LittleBytes(LittleValue(s), |s|) == s
  {
    if s != [] {
      var x := LittleValue(s);
      assert x % 256 == s[0] && x / 256 == LittleValue(s[1..]);
      LittleBytesOfValue(s[1..]);
    }
  }

  /** Reading most significant byte first is reading the reversed bytes
      least significant byte first: the big-endian codec is the
      little-endian one on reversed bytes. */
  lemma {:induction false} BigIsReversedLittle(s: seq<byte>)
    ensures BigValue(s) == LittleValue(Reverse(s))
  {
    if s != [] {
      var init := s[..|s| - 1];
      ReverseAt(s);
      ReverseAt(init);
      assert Reverse(s) == [s[|s| - 1]] + Reverse(init);
      assert Reverse(s)[1..] == Reverse(init);
      BigIsReversedLittle(init);
    }
  }

  /** The decoded value of an encoded integer is the integer, in both byte orders. */
  lemma UintRoundTrip(x: nat, k: nat, order: ByteOrder)
    requires x < Pow256(k)
    ensures DecodeUint(EncodeUint(x, k, order), order) == x
  {
    LittleRoundTrip(x, k);
    if order == Big {
      BigIsReversedLittle(Reverse(LittleBytes(x, k)));
      ReverseReverse(LittleBytes(x, k));
    }
  }

  /** Re-encoding a decoded integer gives back the same bytes, in both byte orders. */
  lemma UintBytesRoundTrip(s: seq<byte>, order: ByteOrder)
    ensures DecodeUint(s, order) < Pow256(|s|)
    ensures EncodeUint(DecodeUint(s, order), |s|, order) == s
  {
    if order == Little {
      LittleValueBound(s);
      LittleBytesOfValue(s);
    } else {
      BigIsReversedLittle(s);
      LittleValueBound(Reverse(s));
      LittleBytesOfValue(Reverse(s));
      ReverseReverse(s);
    }
  }

  /** buf with its bytes [off, off + |bytes|) replaced by bytes: what
      struct.pack_into leaves behind in the caller's buffer. */
  function Place(buf: seq<byte>, off: nat, bytes: seq<byte>): (r: seq<byte>)
    requires off + |bytes| <= |buf|
    ensures |r| == |buf|
    ensures r[off..off + |bytes|] == bytes
    ensures forall i :: 0 <= i < |buf| && !(off <= i < off + |bytes|) ==> r[i] == buf[i]
  {
    buf[..off] + bytes + buf[off + |bytes|..]
  }

  /** The in-place counterpart of Place: copies bytes into buf at off and
      leaves every byte outside [off, off + |bytes|) as it was. */
  method PackBytes(buf: array<byte>, off: nat, bytes: seq<byte>)
    requires off + |bytes| <= buf.Length
    modifies buf
    ensures buf[..] == Place(old(buf[..]), off, bytes)
  {
    var j := 0;
    while j < |bytes|
      invariant 0 <= j <= |bytes|
      invariant forall i :: 0 <= i < buf.Length ==>
        buf[i] == if off <= i < off + j then bytes[i - off] else old(buf[i])
    {
      buf[off + j] := bytes[j];
      j := j + 1;
    }
    assert forall i :: 0 <= i < buf.Length ==> buf[..][i] == Place(old(buf[..]), off, bytes)[i];
  }
}
