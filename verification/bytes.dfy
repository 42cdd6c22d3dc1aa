/** The byte layout of the fixed-width integers the library writes to its
    files: little-endian, two's complement for the signed types, the layout of
    the x86-64 hosts the library is built for. */
module Bytes {
  import opened ModArith

  type Byte = x: int | 0 <= x < 256

  /** 256 to the power n: the number of values a field of n bytes holds. */
  function Pow256(n: nat): (r: nat)
    ensures r >= 1
    ensures n >= 1 ==> r % 2 == 0
  {
    if n == 0 then 1 else 256 * Pow256(n - 1)
  }

  /** The unsigned value of a little-endian byte string. */
  function DecodeUnsigned(bs: seq<Byte>): (r: nat)
    ensures r < Pow256(|bs|)
    decreases |bs|
  {
    if |bs| == 0 then 0 else bs[0] + 256 * DecodeUnsigned(bs[1..])
  }

  /** The low `width` bytes of x, least significant first. */
  function EncodeUnsigned(x: nat, width: nat): (r: seq<Byte>)
    ensures |r| == width
    decreases width
  {
    if width == 0 then [] else [x % 256] + EncodeUnsigned(x / 256, width - 1)
  }

  /** Encoding a value that fits and decoding it gives the value back. */
  lemma {:induction false} UnsignedRoundTrip(x: nat, width: nat)
    requires x < Pow256(width)
    ensures DecodeUnsigned(EncodeUnsigned(x, width)) == x
    decreases width
  {
    if width > 0 {
      var bs := EncodeUnsigned(x, width);
      assert bs[1..] == EncodeUnsigned(x / 256, width - 1);
      UnsignedRoundTrip(x / 256, width - 1);
    } else {
      assert x == 0;
    }
  }

  /** A byte string is the encoding of its own value: no two byte strings of
      the same length share a value. */
  lemma {:induction false} EncodeDecoded(bs: seq<Byte>)
    ensures EncodeUnsigned(DecodeUnsigned(bs), |bs|) == bs
    decreases |bs|
  {
    if |bs| > 0 {
      var v := DecodeUnsigned(bs);
      DivModUnique(v, 256, DecodeUnsigned(bs[1..]), bs[0]);
      EncodeDecoded(bs[1..]);
      assert bs == [bs[0]] + bs[1..];
    }
  }

  /** `width` zero bytes. */
  function Zeros(width: nat): (r: seq<Byte>)
    ensures |r| == width && forall i :: 0 <= i < width ==> r[i] == 0
  {
    seq(width, _ => 0)
  }

  /** High zero bytes do not change a little-endian value: a short read into
      a zeroed variable gives the value of the bytes that were read. */
  lemma {:induction false} ZeroPadding(bs: seq<Byte>, k: nat)
    ensures DecodeUnsigned(bs + Zeros(k)) == DecodeUnsigned(bs)
    decreases |bs|, k
  {
    if |bs| > 0 {
      assert (bs + Zeros(k))[1..] == bs[1..] + Zeros(k);
      ZeroPadding(bs[1..], k);
    } else if k > 0 {
      assert bs + Zeros(k) == Zeros(k);
      assert Zeros(k)[1..] == Zeros(k - 1);
      ZeroPadding([], k - 1);
      assert bs + Zeros(k - 1) == Zeros(k - 1);
      assert DecodeUnsigned(Zeros(k)) == 0 + 256 * DecodeUnsigned(Zeros(k - 1));
    } else {
      assert bs + Zeros(k) == [];
    }
  }

  /** x lies in the range of a signed type of `width` bytes. */
  predicate FitsSigned(x: int, width: nat) {
    var half: int := Pow256(width) / 2;
    -half <= x < half
  }

  /** The C++ conversion of an integer to a signed type of `width` bytes
      (static_cast<intN_t>): the value congruent to x modulo 256^width in
      the type's range. */
  function Wrap(x: int, width: nat): (r: int)
    requires width >= 1
    ensures FitsSigned(r, width)
  {
    var m := Pow256(width);
    var u := x % m;
    if u >= m / 2 then u - m else u
  }

  /** The conversion keeps the value modulo 256^width. */
  lemma WrapCongruent(x: int, width: nat)
    requires width >= 1
    ensures (x - Wrap(x, width)) % Pow256(width) == 0
  {
    var m := Pow256(width);
    var u := x % m;
    DivModUnique(u, m, 0, u);
    CongruentIffDiff(x, u, m);
    if u >= m / 2 {
      assert Wrap(x, width) == u - m;
      AddMultipleMod(x - u, 1, m);
      assert x - (u - m) == (x - u) + 1 * m;
    } else {
      assert Wrap(x, width) == u;
    }
  }

  /** A signed value in two's complement. */
  function EncodeSigned(x: int, width: nat): (r: seq<Byte>)
    ensures |r| == width
  {
    EncodeUnsigned(x % Pow256(width), width)
  }

  /** The signed value of a little-endian two's complement byte string. */
  function DecodeSigned(bs: seq<Byte>): (r: int)
  {
    var u := DecodeUnsigned(bs);
    if |bs| == 0 then 0
    else if u >= Pow256(|bs|) / 2 then u - Pow256(|bs|)
    else u
  }

  /** Writing a value into a signed field and reading it back is the C++
      conversion to that signed type. */
  lemma SignedRoundTrip(x: int, width: nat)
    requires width >= 1
    ensures DecodeSigned(EncodeSigned(x, width)) == Wrap(x, width)
  {
    UnsignedRoundTrip(x % Pow256(width), width);
  }

  /** A value in the range of the signed type survives the conversion. */
  lemma WrapInRange(x: int, width: nat)
    requires width >= 1 && FitsSigned(x, width)
    ensures Wrap(x, width) == x
  {
    var m := Pow256(width);
    if x >= 0 {
      DivModUnique(x, m, 0, x);
    } else {
      DivModUnique(x, m, -1, x + m);
    }
  }

  /** An int64_t written as 8 bytes and read back holds its value. */
  lemma Int64RoundTrip(y: int)
    requires -0x8000_0000_0000_0000 <= y < 0x8000_0000_0000_0000
    ensures DecodeSigned(EncodeSigned(y, 8)) == y
  {
    SignedRoundTrip(y, 8);
    WrapInRange(y, 8);
  }

  /** The value of the `width` bytes of `data` from `start` on, as read into a
      zeroed variable: bytes past the end of the data read as zero. */
  function FieldAt(data: seq<Byte>, start: nat, width: nat): (r: seq<Byte>)
    ensures |r| == width
  {
    var lo := if start <= |data| then start else |data|;
    var hi := if start + width <= |data| then start + width else |data|;
    data[lo..hi] + Zeros(width - (hi - lo))
  }

  /** A field lying wholly inside the data is the slice of the data. */
  lemma FieldInside(data: seq<Byte>, start: nat, width: nat)
    requires start + width <= |data|
    ensures FieldAt(data, start, width) == data[start..start + width]
  {
    assert Zeros(0) == [];
  }
}
