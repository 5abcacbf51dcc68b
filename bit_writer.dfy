/** `bit_writer.py`: a writer that shifts each bit into an integer buffer and
    returns that buffer as one left-aligned byte on `flush`. */
module BitWriter {
  import opened Bits
  import opened Prelude
  import opened ResultTypes

  class BitWriter {
    var buffer: int
    var bitCount: int
    /** The bits written since the last flush, in order. */
    ghost var Pending: seq<Bit>

    /** The buffer holds the pending bits MSB first, so it stays below 2^bitCount. */
    ghost predicate Valid()
      reads this
    {
      bitCount == |Pending| && buffer == BitsValue(Pending) && 0 <= buffer < Pow2(bitCount)
    }

    constructor()
      ensures Valid() && buffer == 0 && bitCount == 0 && Pending == []
    {
      buffer := 0;
      bitCount := 0;
      Pending := [];
    }

    /** `write_bit`: `buffer := (buffer << 1) | (bit & 1)` and one more bit counted. */
    method WriteBit(bit: int)
      requires Valid()
      modifies this
      ensures Valid()
      ensures buffer == 2 * old(buffer) + bit % 2 && bitCount == old(bitCount) + 1
      ensures Pending == old(Pending) + [bit % 2]
    {
      BitsValueAppend(Pending, bit % 2);
      buffer := buffer * 2 + bit % 2;
      bitCount := bitCount + 1;
      Pending := Pending + [bit % 2];
    }

    /** `flush`: nothing pending gives no bytes and changes nothing; otherwise the pending
        bits, shifted left by `8 - bitCount` and so padded with zeros, make one byte and the
        writer starts afresh. More than eight pending bits make the shift count negative,
        a ValueError raised before anything is reset. */
    method Flush() returns (r: Result<seq<Byte>, Exception>)
      requires Valid()
      modifies this
      ensures Valid()
      ensures old(bitCount) > 8 <==> r == Err(ValueError("negative shift count"))
      ensures old(bitCount) > 8 ==> buffer == old(buffer) && bitCount == old(bitCount) && Pending == old(Pending)
      ensures old(bitCount) == 0 ==> r == Ok([]) && buffer == 0 && bitCount == 0 && Pending == []
      ensures 0 < old(bitCount) <= 8 ==>
        r.Ok? && |r.value| == 1 && ByteBits(r.value[0]) == old(Pending) + Zeros(8 - old(bitCount))
      ensures old(bitCount) <= 8 ==> buffer == 0 && bitCount == 0 && Pending == []
    {
      if bitCount == 0 {
        return Ok([]);
      }
      if bitCount > 8 {
        return Err(ValueError("negative shift count"));
      }
      var k := 8 - bitCount;
      PaddedBuffer(Pending, k);
      var padded := buffer * Pow2(k);
      buffer := 0;
      bitCount := 0;
      Pending := [];
      return Ok([padded]);
    }
  }

  lemma {:induction false} Pow2Add(a: nat, b: nat)
    ensures Pow2(a + b) == Pow2(a) * Pow2(b)
    decreases a
  {
    if a > 0 {
      Pow2Add(a - 1, b);
    }
  }

  /** Shifting up to eight pending bits left by the k places that fill a byte gives a
      byte whose bits are the pending bits followed by k zeros. */
  lemma PaddedBuffer(pending: seq<Bit>, k: nat)
    requires |pending| + k == 8
    ensures 0 <= BitsValue(pending) * Pow2(k) < 256
    ensures ByteBits(BitsValue(pending) * Pow2(k)) == pending + Zeros(k)
  {
    ShiftedBelow(BitsValue(pending), |pending|, k);
    ShiftedBits(pending, k);
  }

  lemma ShiftedBits(pending: seq<Bit>, k: nat)
    requires |pending| + k == 8
    ensures NatBits(BitsValue(pending) * Pow2(k), 8) == pending + Zeros(k)
  {
    NatBitsShiftLeft(BitsValue(pending), |pending|, k);
    ValueNatBits(pending);
  }

  /** A value below 2^n shifted left by k stays below 2^(n + k). */
  lemma ShiftedBelow(v: nat, n: nat, k: nat)
    requires v < Pow2(n) && n + k == 8
    ensures 0 <= v * Pow2(k) < 256
  {
    MulMonotone(0, v, Pow2(k));
    Pow2Add(n, k);
    assert Pow2(8) == 256;
    MulMonotone(v + 1, Pow2(n), Pow2(k));
  }

  lemma MulMonotone(a: nat, b: nat, c: nat)
    requires a <= b
    ensures a * c <= b * c
  {
  }

  /** Writing a single 1 and flushing gives the byte 0x80. */
  method WriteOneAndFlush() returns (r: seq<Byte>)
    ensures r == [0x80]
  {
    var writer := new BitWriter();
    writer.WriteBit(1);
    assert writer.Pending == [1];
    var flushed := writer.Flush();
    r := flushed.value;
    ghost var padded := [1] + Zeros(7);
    assert ByteBits(r[0]) == padded;
    ByteBitsValue(r[0]);
    assert padded[1..] == Zeros(7);
    ZerosValue(7);
    assert Pow2(7) == 128;
  }
}
