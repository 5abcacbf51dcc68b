/** `immutable_data.py`: the frozen records of the functional pipeline. */
module ImmutableData {
  import opened Bits
  import opened Prelude
  import opened ResultTypes
  import Counting

  /** `FrequencyMap`: byte counts. */
  datatype FrequencyMap = FrequencyMap(frequencies: map<Byte, int>)
  {
    /** `total_count`: the sum of all the counts. */
    method TotalCount() returns (n: int)
      ensures n == Counting.Total(frequencies)
    {
      n := Counting.SumValues(frequencies);
    }

    /** `unique_bytes`: exactly the bytes that have a count. */
    function UniqueBytes(): (s: set<Byte>)
      ensures forall b :: b in s <==> b in frequencies
    {
      frequencies.Keys
    }

    /** `get_frequency`: the stored count, or 0 for a byte without one. */
    function GetFrequency(byteValue: Byte): (n: int)
      ensures byteValue in frequencies ==> n == frequencies[byteValue]
      ensures byteValue !in frequencies ==> n == 0
    {
      if byteValue in frequencies then frequencies[byteValue] else 0
    }
  }

  /** For the counts of a stream, every byte's frequency is its number of occurrences
      (0 when absent), the unique bytes are the stream's bytes, and the total is the
      stream's length. */
  lemma FrequencyMapOfStream(s: seq<Byte>)
    ensures forall b :: FrequencyMap(Counting.Tally(s)).GetFrequency(b) == multiset(s)[b]
    ensures FrequencyMap(Counting.Tally(s)).UniqueBytes() == set b | b in s
    ensures Counting.Total(Counting.Tally(s)) == |s|
  {
    Counting.TallyCounts(s);
    Counting.TallyTotal(s);
  }

  /** `HuffmanCodes`: the code of each byte. */
  datatype HuffmanCodes = HuffmanCodes(codes: map<Byte, seq<Bit>>)
  {
    /** `get_code`: the stored code; a byte without one is a KeyError. */
    function GetCode(byteValue: Byte): (r: Result<seq<Bit>, Exception>)
      ensures r.Ok? <==> byteValue in codes
      ensures r.Ok? ==> r.value == codes[byteValue]
      ensures r.Err? ==> r.error == KeyError
    {
      if byteValue in codes then Ok(codes[byteValue]) else Err(KeyError)
    }

    /** `byte_values`: exactly the bytes that have a code. */
    function ByteValues(): (s: set<Byte>)
      ensures forall b :: b in s <==> GetCode(b).Ok?
    {
      codes.Keys
    }
  }

  /** `CompressionHeader`: the original length. */
  datatype CompressionHeader = CompressionHeader(length: int)
  {
    /** `to_bytes`: `length.to_bytes(4, "big")`, which is an OverflowError for a length
        below 0 or at least 2^32. The four bytes read back big-endian give the length. */
    function ToBytes(): (r: Result<seq<Byte>, Exception>)
      ensures r.Ok? <==> 0 <= length < TWO_POW_32
      ensures r.Ok? ==> |r.value| == 4 && FromBytes4(r.value) == length
      ensures r.Err? ==> r.error == OverflowError
    {
      if 0 <= length < TWO_POW_32 then
        BigEndianRoundTrip(length);
        Ok(ToBytes4(length))
      else
        Err(OverflowError)
    }
  }

  /** `CompressionContext`: what the functional compressor carries between stages. */
  datatype CompressionContext = CompressionContext(frequencyMap: FrequencyMap, header: CompressionHeader, codes: HuffmanCodes)
  {
    /** `create`: the header length is the total count and there are no codes yet. */
    static method Create(frequencies: map<Byte, int>) returns (c: CompressionContext)
      ensures c.frequencyMap == FrequencyMap(frequencies)
      ensures c.header.length == Counting.Total(frequencies)
      ensures c.codes.ByteValues() == {}
    {
      var freqMap := FrequencyMap(frequencies);
      var total := freqMap.TotalCount();
      c := CompressionContext(freqMap, CompressionHeader(total), HuffmanCodes(map[]));
    }

    /** `with_codes`: a new context with the given codes; the frequencies and the header
        are those of this context. */
    function WithCodes(codes: map<Byte, seq<Bit>>): (c: CompressionContext)
      ensures c.frequencyMap == frequencyMap && c.header == header
      ensures forall b :: c.codes.GetCode(b) == (if b in codes then Ok(codes[b]) else Err(KeyError))
    {
      CompressionContext(frequencyMap, header, HuffmanCodes(codes))
    }
  }

  /** A context created from the counts of a stream has that stream's length in its header,
      and adding codes keeps it. */
  method CreateForStream(s: seq<Byte>, codes: map<Byte, seq<Bit>>) returns (c: CompressionContext)
    ensures c.header.length == |s| && c.codes.codes == codes
    ensures forall b :: c.frequencyMap.GetFrequency(b) == multiset(s)[b]
  {
    FrequencyMapOfStream(s);
    var created := CompressionContext.Create(Counting.Tally(s));
    c := created.WithCodes(codes);
  }
}
