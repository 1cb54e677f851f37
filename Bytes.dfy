/** The value codec of the scanner: how an integer typed by the user becomes the
    fixed-width byte pattern that is searched for in, and written to, the target's
    memory (`split` in src/cheat.cpp), and how such a pattern reads back as a number. */
module Bytes {

  /** One `char` of the scanner's buffers, as the bit pattern it holds. */
  newtype byte = x: int | 0 <= x < 256

  /** 2^64: the modulus of C's `unsigned long long`. */
  const ULL_MOD: nat := 0x1_0000_0000_0000_0000

  /** The range of C's 32-bit `int`. */
  const INT_MIN: int := -0x8000_0000
  const INT_MAX: int := 0x7fff_ffff

  /** A value of C's `unsigned long long`. */
  type u64 = x: int | 0 <= x < ULL_MOD

  /** 256^n, the weight of the n-th byte of a little-endian number. */
  function Pow256(n: nat): (r: nat)
    ensures r > 0
  {
    if n == 0 then 1 else 256 * Pow256(n - 1)
  }

  /** The implicit conversion of a C `int` to `unsigned long long` (two's complement):
      what happens to the user's `input` when it is passed to `split`. */
  function ToULL(x: int): (r: u64)
    requires INT_MIN <= x <= INT_MAX
    ensures x >= 0 ==> r == x
    ensures x < 0 ==> r == ULL_MOD + x
  {
    x % ULL_MOD
  }

  /** The `width` bytes of `num`, least significant first: byte 0 is the low byte
      and each following byte is what is left in the low byte after one more
      shift right by eight bits. */
  function Encode(num: nat, width: nat): (r: seq<byte>)
    ensures |r| == width
  {
    if width == 0 then [] else [(num % 256) as byte] + Encode(num / 256, width - 1)
  }

  /** The number whose little-endian bytes are `bs`. */
  function Decode(bs: seq<byte>): (r: nat)
    ensures r < Pow256(|bs|)
  {
    if bs == [] then 0 else bs[0] as nat + 256 * Decode(bs[1..])
  }

  // ----- arithmetic helpers -----

  lemma DivModUnique(a: nat, b: nat, q: nat, r: nat)
    requires b > 0 && a == q * b + r && r < b
    ensures a / b == q && a % b == r
  {
    var q', r' := a / b, a % b;
    assert a == q' * b + r';
    if q' < q {
      MulMono(q, q' + 1, b);
    } else if q' > q {
      MulMono(q', q + 1, b);
    }
  }

  lemma MulMono(x: nat, y: nat, b: nat)
    requires x >= y
    ensures x * b >= y * b
  {
    assert x * b == y * b + (x - y) * b;
  }

  lemma Regroup(q: nat, s: nat, b: nat, c: nat)
    ensures q * (b * c) + s * b == (q * c + s) * b
  {
    calc {
      (q * c + s) * b;
      (q * c) * b + s * b;
      q * (c * b) + s * b;
    }
  }

  lemma DivDiv(a: nat, b: nat, c: nat)
    requires b > 0 && c > 0
    ensures a / b / c == a / (b * c)
  {
    var bc := b * c;
    var q, r := a / bc, a % bc;
    var s, t := r / b, r % b;
    assert s < c by {
      if s >= c {
        MulMono(s, c, b);
      }
    }
    Regroup(q, s, b, c);
    DivModUnique(a, b, q * c + s, t);
    DivModUnique(a / b, c, q, s);
  }

  lemma ModSplit(a: nat, b: nat, c: nat)
    requires b > 0 && c > 0
    ensures a % (b * c) == a % b + b * ((a / b) % c)
  {
    var q := a / b;
    MixedRadix(a, b, c, q, a % b, q / c, q % c);
    DivModUnique(a, b * c, q / c, a % b + b * (q % c));
  }

  /** a = (q2*c + r1)*b + r0 with digits r0 < b, r1 < c is a = q2*(b*c) + low
      with low < b*c. */
  lemma MixedRadix(a: nat, b: nat, c: nat, q: nat, r0: nat, q2: nat, r1: nat)
    requires a == q * b + r0 && r0 < b
    requires q == q2 * c + r1 && r1 < c
    ensures a == q2 * (b * c) + (r0 + b * r1) && r0 + b * r1 < b * c
  {
    Regroup(q2, r1, b, c);
    MulMono(c - 1, r1, b);
    assert (c - 1) * b == b * c - b;
  }

  // ----- properties of the codec -----

  /** Byte i of the pattern is `(num >> 8*i) & 0xFF`: little-endian, whatever the
      comment above `split` says about the order. */
  lemma {:induction false} EncodeByteAt(num: nat, width: nat, i: nat)
    requires i < width
    ensures Encode(num, width)[i] as int == num / Pow256(i) % 256
  {
    if i > 0 {
      EncodeByteAt(num / 256, width - 1, i - 1);
      DivDiv(num, 256, Pow256(i - 1));
    }
  }

  /** Decoding what `split` produced gives the number back, reduced modulo
      2^(8*width): bits above the width are silently dropped. */
  lemma {:induction false} DecodeEncode(num: nat, width: nat)
    ensures Decode(Encode(num, width)) == num % Pow256(width)
  {
    if width > 0 {
      DecodeEncode(num / 256, width - 1);
      ModSplit(num, 256, Pow256(width - 1));
    }
  }

  /** Encoding is the exact inverse of decoding on patterns of the same width. */
  lemma {:induction false} EncodeDecode(bs: seq<byte>)
    ensures Encode(Decode(bs), |bs|) == bs
  {
    if bs != [] {
      var d := Decode(bs[1..]);
      DivModUnique(Decode(bs), 256, d, bs[0] as nat);
      EncodeDecode(bs[1..]);
      assert bs == [bs[0]] + bs[1..];
    }
  }

  /** The user's `int`, encoded in four bytes as the scanner does, reads back as
      its 32-bit two's-complement pattern. */
  lemma InputRoundTrip(x: int)
    requires INT_MIN <= x <= INT_MAX
    ensures Decode(Encode(ToULL(x), 4)) == if x >= 0 then x else x + 0x1_0000_0000
  {
    DecodeEncode(ToULL(x), 4);
    assert Pow256(4) == 0x1_0000_0000;
    if x < 0 {
      DivModUnique(ULL_MOD + x, 0x1_0000_0000, 0xffff_ffff, x + 0x1_0000_0000);
    }
  }

  /** `split(num, size, buf)`: pushes `size` bytes of `num` onto `buf`, low byte
      first, shifting `num` right by eight bits after each byte. */
  method Split(num: u64, size: int, buf: seq<byte>) returns (out: seq<byte>)
    ensures out == buf + Encode(num, if size < 0 then 0 else size)
    ensures forall i :: 0 <= i < size ==> out[|buf| + i] as int == num / Pow256(i) % 256
  {
    ghost var width: nat := if size < 0 then 0 else size;
    out := buf;
    var n: nat := num;
    var i: nat := 0;
    while i < size
      invariant i <= width
      invariant out + Encode(n, width - i) == buf + Encode(num, width)
    {
      assert Encode(n, width - i) == [(n % 256) as byte] + Encode(n / 256, width - i - 1);
      out := out + [(n % 256) as byte];
      n := n / 256;
      i := i + 1;
    }
    assert out == buf + Encode(num, width);
    forall i | 0 <= i < size
      ensures out[|buf| + i] as int == num / Pow256(i) % 256
    {
      EncodeByteAt(num, width, i);
      assert out[|buf| + i] == Encode(num, width)[i];
    }
  }
}
