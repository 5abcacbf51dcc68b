/** Bits and bytes as the source handles them (Python ints 0/1 and 0..255),
    the MSB-first conversions between them, and the four-byte big-endian
    integer of the compressed header. */
module Bits {

  /** A bit as the source passes it around: the int 0 or 1. */
  type Bit = b: int | 0 <= b < 2

  /** A byte value, as the elements of Python `bytes` and `read(1)[0]`. */
  type Byte = b: int | 0 <= b < 256

  const TWO_POW_32: nat := 0x1_0000_0000

  function Pow2(n: nat): (r: nat)
    ensures r >= 1
  {
    if n == 0 then 1 else 2 * Pow2(n - 1)
  }

  /** Python's `v >> k`: k halvings, each rounding toward minus infinity. */
  function Shr(v: int, k: nat): int
    decreases k
  {
    if k == 0 then v else Shr(v / 2, k - 1)
  }

  function Zeros(n: nat): (z: seq<Bit>)
    ensures |z| == n
  {
    seq(n, i => 0)
  }

  /** The value of a bit string read MSB-first: bit i weighs 2^(|s|-1-i). */
  function BitsValue(s: seq<Bit>): (v: nat)
    ensures v < Pow2(|s|)
  {
    if s == [] then 0 else (s[0] as int) * Pow2(|s| - 1) + BitsValue(s[1..])
  }

  /** The low n bits of v, most significant first (`format(v, "0nb")` when 0 <= v < 2^n). */
  function NatBits(v: int, n: nat): (s: seq<Bit>)
    ensures |s| == n
    decreases n
  {
    if n == 0 then [] else NatBits(v / 2, n - 1) + [v % 2]
  }

  /** The eight bits of a byte, MSB first. */
  function ByteBits(b: Byte): (s: seq<Bit>)
    ensures |s| == 8
  {
    NatBits(b, 8)
  }

  /** The bits of a byte stream: each byte's eight bits, MSB first, in stream order. */
  function StreamBits(bytes: seq<Byte>): (s: seq<Bit>)
    ensures |s| == 8 * |bytes|
  {
    if bytes == [] then [] else ByteBits(bytes[0]) + StreamBits(bytes[1..])
  }

  /** A bit list written as a Python "0"/"1" string. */
  function BitString(bits: seq<Bit>): (s: string)
    ensures |s| == |bits|
    ensures forall i :: 0 <= i < |bits| ==> (s[i] == '0' <==> bits[i] == 0)
    ensures forall i :: 0 <= i < |bits| ==> s[i] in {'0', '1'}
  {
    if bits == [] then "" else [if bits[0] == 0 then '0' else '1'] + BitString(bits[1..])
  }

  /** `n.to_bytes(4, byteorder="big")`. */
  function ToBytes4(n: nat): (r: seq<Byte>)
    requires n < TWO_POW_32
    ensures |r| == 4
  {
    [n / 0x100_0000, (n / 0x1_0000) % 0x100, (n / 0x100) % 0x100, n % 0x100]
  }

  /** `struct.unpack(">I", b)[0]` for four bytes. */
  function FromBytes4(b: seq<Byte>): (n: nat)
    requires |b| == 4
    ensures n < TWO_POW_32
  {
    (b[0] as int) * 0x100_0000 + (b[1] as int) * 0x1_0000 + (b[2] as int) * 0x100 + (b[3] as int)
  }

  lemma BigEndianRoundTrip(n: nat)
    requires n < TWO_POW_32
    ensures FromBytes4(ToBytes4(n)) == n
  {
    var q1, q2, q3 := n / 0x100, n / 0x1_0000, n / 0x100_0000;
    assert q2 == q1 / 0x100;
    assert q3 == q2 / 0x100;
    assert n == q1 * 0x100 + n % 0x100;
    assert q1 == q2 * 0x100 + q1 % 0x100;
    assert q2 == q3 * 0x100 + q2 % 0x100;
  }

  lemma BigEndianInverse(b: seq<Byte>)
    requires |b| == 4
    ensures ToBytes4(FromBytes4(b)) == b
  {
    var n := FromBytes4(b);
    var q1 := (b[0] as int) * 0x1_0000 + (b[1] as int) * 0x100 + (b[2] as int);
    var q2 := (b[0] as int) * 0x100 + (b[1] as int);
    assert n == q1 * 0x100 + b[3];
    assert n / 0x100 == q1 && n % 0x100 == b[3];
    assert q1 == q2 * 0x100 + b[2];
    assert n / 0x1_0000 == q2;
    assert q2 / 0x100 == b[0] && q2 % 0x100 == b[1];
    assert n / 0x100_0000 == b[0];
  }

  lemma {:induction false} BitsValueAppend(s: seq<Bit>, b: Bit)
    ensures BitsValue(s + [b]) == 2 * BitsValue(s) + b
    decreases |s|
  {
    if s == [] {
      assert [] + [b] == [b];
    } else {
      assert (s + [b])[1..] == s[1..] + [b];
      BitsValueAppend(s[1..], b);
      assert Pow2(|s + [b]| - 1) == 2 * Pow2(|s| - 1);
      if s[0] == 0 {
      } else {
        assert s[0] == 1;
      }
    }
  }

  /** Zero bits are worth nothing. */
  lemma {:induction false} ZerosValue(n: nat)
    ensures BitsValue(Zeros(n)) == 0
    decreases n
  {
    if n > 0 {
      assert Zeros(n)[1..] == Zeros(n - 1);
      ZerosValue(n - 1);
    }
  }

  /** NatBits inverts BitsValue on n-bit values. */
  lemma {:induction false} NatBitsValue(v: int, n: nat)
    requires 0 <= v < Pow2(n)
    ensures BitsValue(NatBits(v, n)) == v
    decreases n
  {
    if n > 0 {
      NatBitsValue(v / 2, n - 1);
      BitsValueAppend(NatBits(v / 2, n - 1), v % 2);
    }
  }

  /** BitsValue inverts NatBits on bit strings. */
  lemma {:induction false} ValueNatBits(s: seq<Bit>)
    ensures NatBits(BitsValue(s), |s|) == s
    decreases |s|
  {
    if s != [] {
      var init, last := s[..|s| - 1], s[|s| - 1];
      assert s == init + [last];
      BitsValueAppend(init, last);
      HalveDoubled(BitsValue(init), last);
      ValueNatBits(init);
      assert NatBits(BitsValue(s), |s|) == NatBits(BitsValue(init), |init|) + [last];
    }
  }

  /** Halving 2v + b gives v back, with b as the remainder. */
  lemma HalveDoubled(v: nat, b: Bit)
    ensures (2 * v + b) / 2 == v && (2 * v + b) % 2 == b
  {
  }

  /** Bit i of NatBits(v, n) is `(v >> (n - 1 - i)) & 1`. */
  lemma {:induction false} NatBitsShr(v: int, n: nat, i: nat)
    requires i < n
    ensures NatBits(v, n)[i] == Shr(v, n - 1 - i) % 2
    decreases n
  {
    if i < n - 1 {
      NatBitsShr(v / 2, n - 1, i);
    }
  }

  lemma ByteBitsValue(b: Byte)
    ensures BitsValue(ByteBits(b)) == b
  {
    NatBitsValue(b, 8);
  }

  lemma ValueByteBits(s: seq<Bit>)
    requires |s| == 8
    ensures BitsValue(s) < 256 && ByteBits(BitsValue(s)) == s
  {
    ValueNatBits(s);
  }

  /** The eight bits of 'a'. */
  lemma ByteBitsOfA()
    ensures ByteBits(97) == [0, 1, 1, 0, 0, 0, 0, 1]
  {
  }

  /** Taking the MSB of an 8-bit buffer and shifting it left within 8 bits
      drops the first of its bits and brings in a 0. */
  lemma ByteBitsShift(b: Byte)
    ensures ByteBits(b)[0] == (b / 128) % 2
    ensures ByteBits((b * 2) % 256) == ByteBits(b)[1..] + [0]
  {
    var s := ByteBits(b);
    ByteBitsValue(b);
    assert Pow2(7) == 128;
    var low := BitsValue(s[1..]);
    assert b == (s[0] as int) * 128 + low;
    TopBitArithmetic(b, s[0], low);
    var t := s[1..] + [0];
    BitsValueAppend(s[1..], 0);
    assert BitsValue(t) == (b * 2) % 256;
    ValueByteBits(t);
  }

  /** The arithmetic of `ByteBitsShift`: a byte whose top bit is `top` and whose other
      seven bits are worth `low`. */
  lemma TopBitArithmetic(b: Byte, top: Bit, low: nat)
    requires low < 128 && b == top * 128 + low
    ensures b / 128 == top && (b / 128) % 2 == top
    ensures (b * 2) % 256 == 2 * low
  {
    if top == 0 {
      assert b * 2 == 2 * low;
    } else {
      assert b * 2 == 256 + 2 * low;
    }
  }

  /** Shifting an n-bit value left by k appends k zero bits. */
  lemma {:induction false} NatBitsShiftLeft(v: int, n: nat, k: nat)
    requires 0 <= v < Pow2(n)
    ensures NatBits(v * Pow2(k), n + k) == NatBits(v, n) + Zeros(k)
    decreases k
  {
    if k > 0 {
      var w := v * Pow2(k - 1);
      assert v * Pow2(k) == 2 * w;
      NatBitsShiftLeft(v, n, k - 1);
      assert NatBits(v * Pow2(k), n + k) == NatBits(w, n + k - 1) + [0];
      assert Zeros(k) == Zeros(k - 1) + [0];
    }
  }

  lemma {:induction false} StreamBitsAppend(a: seq<Byte>, b: seq<Byte>)
    ensures StreamBits(a + b) == StreamBits(a) + StreamBits(b)
    decreases |a|
  {
    if a == [] {
      assert a + b == b;
    } else {
      assert (a + b)[1..] == a[1..] + b;
      StreamBitsAppend(a[1..], b);
    }
  }

  lemma {:induction false} BitStringAppend(a: seq<Bit>, b: seq<Bit>)
    ensures BitString(a + b) == BitString(a) + BitString(b)
    decreases |a|
  {
    if a == [] {
      assert a + b == b;
    } else {
      assert (a + b)[1..] == a[1..] + b;
      BitStringAppend(a[1..], b);
    }
  }
}
