/** `frequency_counter.py`: the top-level copy of the byte histogram. */
module FrequencyCounter {
  import opened Bits
  import opened Counting

  /** `create_frequency_map`: the counter of the stream's bytes as a plain map, empty
      exactly for an empty stream. */
  function CreateFrequencyMap(stream: seq<Byte>): (r: map<Byte, int>)
    ensures r == map[] <==> stream == []
  {
    Tally(stream)
  }

  /** The keys are exactly the distinct bytes of the stream and each counts its occurrences;
      the counts add up to the number of bytes read. */
  lemma FrequencyMapCounts(stream: seq<Byte>)
    ensures forall b :: b in CreateFrequencyMap(stream) <==> b in stream
    ensures forall b | b in CreateFrequencyMap(stream) ::
      CreateFrequencyMap(stream)[b] == multiset(stream)[b] && CreateFrequencyMap(stream)[b] >= 1
    ensures Total(CreateFrequencyMap(stream)) == |stream|
    ensures stream == [] <==> CreateFrequencyMap(stream) == map[]
  {
    TallyCounts(stream);
    TallyTotal(stream);
    if stream != [] {
      assert stream[0] in CreateFrequencyMap(stream);
    }
  }
}
