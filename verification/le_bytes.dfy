/** Little-endian integer fields of a POT record: the `<H` (unsigned 16-bit)
    and `<h` (two's-complement signed 16-bit) layouts that `struct.unpack`
    reads, together with the encoders that invert them. */
module LittleEndian {

  /** One octet of the input stream. */
  type byte = x: int | 0 <= x < 0x100

  /** Range of `struct.unpack('<H', ...)`. */
  type u16 = x: int | 0 <= x < 0x1_0000

  /** Range of one component of `struct.unpack('<hh', ...)`. */
  type i16 = x: int | -0x8000 <= x < 0x8000

  /** True when `bs` occurs in `data` starting at offset `pos`, stated byte
      by byte so that it is unfolded only as far as a proof needs. */
  ghost predicate At(data: seq<byte>, pos: nat, bs: seq<byte>)
    decreases |bs|
  {
    pos + |bs| <= |data| && (|bs| == 0 || (data[pos] == bs[0] && At(data, pos + 1, bs[1..])))
  }

  /** `At` is the slice equality `data[pos..pos + |bs|] == bs`. */
  lemma {:induction false} AtSlice(data: seq<byte>, pos: nat, bs: seq<byte>)
    ensures At(data, pos, bs) <==> pos + |bs| <= |data| && data[pos..pos + |bs|] == bs
    decreases |bs|
  {
    if |bs| != 0 && pos + |bs| <= |data| {
      AtSlice(data, pos + 1, bs[1..]);
      assert data[pos..pos + |bs|] == [data[pos]] + data[pos + 1..pos + 1 + |bs[1..]|];
      assert bs == [bs[0]] + bs[1..];
    }
  }

  /** The unsigned 16-bit value whose low byte is at `pos`. */
  function U16At(data: seq<byte>, pos: nat): u16
    requires pos + 2 <= |data|
  {
    data[pos] as int + 0x100 * data[pos + 1] as int
  }

  /** Reinterprets an unsigned 16-bit pattern as two's complement. */
  function ToSigned(v: u16): i16
  {
    if v < 0x8000 then v else v - 0x1_0000
  }

  /** The signed 16-bit value whose low byte is at `pos`. */
  function I16At(data: seq<byte>, pos: nat): i16
    requires pos + 2 <= |data|
  {
    ToSigned(U16At(data, pos))
  }

  function EncodeU16(v: u16): (bs: seq<byte>)
    ensures |bs| == 2
  {
    [v % 0x100, v / 0x100]
  }

  function EncodeI16(v: i16): (bs: seq<byte>)
    ensures |bs| == 2
  {
    EncodeU16(if v < 0 then v + 0x1_0000 else v)
  }

  /** Reading back an encoded unsigned value yields it. */
  lemma U16RoundTrip(data: seq<byte>, pos: nat, v: u16)
    requires At(data, pos, EncodeU16(v))
    ensures U16At(data, pos) == v
  {
    assert EncodeU16(v)[1..] == [v / 0x100];
  }

  /** Every pair of bytes is the encoding of the value read from it. */
  lemma U16Complete(data: seq<byte>, pos: nat)
    requires pos + 2 <= |data|
    ensures At(data, pos, EncodeU16(U16At(data, pos)))
  {
    var v := U16At(data, pos);
    assert v % 0x100 == data[pos];
    assert v / 0x100 == data[pos + 1];
    assert At(data, pos + 1, [v / 0x100]);
    assert EncodeU16(v)[1..] == [v / 0x100];
  }

  /** Reading back an encoded signed value yields it. */
  lemma I16RoundTrip(data: seq<byte>, pos: nat, v: i16)
    requires At(data, pos, EncodeI16(v))
    ensures I16At(data, pos) == v
  {
    U16RoundTrip(data, pos, if v < 0 then v + 0x1_0000 else v);
  }

  /** Every pair of bytes is the encoding of the signed value read from it. */
  lemma I16Complete(data: seq<byte>, pos: nat)
    requires pos + 2 <= |data|
    ensures At(data, pos, EncodeI16(I16At(data, pos)))
  {
    U16Complete(data, pos);
  }

  /** `At` on a concatenation splits into `At` on both halves. */
  lemma {:induction false} AtConcat(data: seq<byte>, pos: nat, a: seq<byte>, b: seq<byte>)
    ensures At(data, pos, a + b) <==> At(data, pos, a) && At(data, pos + |a|, b)
    decreases |a|
  {
    if |a| != 0 {
      AtConcat(data, pos + 1, a[1..], b);
      assert (a + b)[1..] == a[1..] + b;
    } else {
      assert a + b == b;
    }
  }

  /** The two halves of a concatenation occurring at `pos`, the second
      one at `mid`. */
  lemma AtSplit(data: seq<byte>, pos: nat, a: seq<byte>, b: seq<byte>, mid: nat)
    requires At(data, pos, a + b) && mid == pos + |a|
    ensures At(data, pos, a) && At(data, mid, b)
  {
    AtConcat(data, pos, a, b);
  }

  /** Two adjacent occurrences, the second one at `mid`, form one
      occurrence of the concatenation. */
  lemma AtJoin(data: seq<byte>, pos: nat, a: seq<byte>, b: seq<byte>, mid: nat)
    requires At(data, pos, a) && At(data, mid, b) && mid == pos + |a|
    ensures At(data, pos, a + b)
  {
    AtConcat(data, pos, a, b);
  }
}
