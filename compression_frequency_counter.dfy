/** `compression/frequency_counter.py`: the byte histogram of the input stream. */
module CompressionFrequencyCounter {
  import opened Bits
  import opened Counting

  /** `create_frequency_map`: the counter of the stream's bytes as a plain map, empty
      exactly for an empty stream. */
  function CreateFrequencyMap(stream: seq<Byte>): (r: map<Byte, int>)
    ensures r == map[] <==> stream == []
  {
    Tally(stream)
  }

  /** The keys are exactly the distinct bytes of the stream and each counts its occurrences. */
  lemma FrequencyMapCounts(stream: seq<Byte>)
    ensures forall b :: b in CreateFrequencyMap(stream) <==> b in stream
    ensures forall b | b in CreateFrequencyMap(stream) ::
      CreateFrequencyMap(stream)[b] == multiset(stream)[b] && CreateFrequencyMap(stream)[b] >= 1
  {
    TallyCounts(stream);
  }

  /** The counts add up to the number of bytes read, which the compressor writes as its header. */
  lemma FrequenciesSumToLength(stream: seq<Byte>)
    ensures Total(CreateFrequencyMap(stream)) == |stream|
  {
    TallyTotal(stream);
  }

  /** An empty stream gives an empty map. */
  lemma EmptyStream()
    ensures CreateFrequencyMap([]) == map[]
  {
  }

  /** The first half of b"abracadabra": b"abraca". */
  lemma AbracaPrefix()
    ensures CreateFrequencyMap([97, 98, 114, 97, 99, 97]) == map[97 := 3, 98 := 1, 114 := 1, 99 := 1]
  {
    var s0: seq<Byte> := [];
    var s1 := s0 + [97];
    assert Tally(s1) == map[97 := 1] by { TallySnoc(s0, 97); }
    var s2 := s1 + [98];
    assert Tally(s2) == map[97 := 1, 98 := 1] by { TallySnoc(s1, 98); }
    var s3 := s2 + [114];
    assert Tally(s3) == map[97 := 1, 98 := 1, 114 := 1] by { TallySnoc(s2, 114); }
    var s4 := s3 + [97];
    assert Tally(s4) == map[97 := 2, 98 := 1, 114 := 1] by { TallySnoc(s3, 97); }
    var s5 := s4 + [99];
    assert Tally(s5) == map[97 := 2, 98 := 1, 114 := 1, 99 := 1] by { TallySnoc(s4, 99); }
    var s6 := s5 + [97]; TallySnoc(s5, 97);
    assert s6 == [97, 98, 114, 97, 99, 97];
  }

  /** b"abracada", the prefix before the second b"bra". */
  lemma AbracadaPrefix(s: seq<Byte>)
    requires s == [97, 98, 114, 97, 99, 97, 100, 97]
    ensures Tally(s) == map[97 := 4, 98 := 1, 114 := 1, 99 := 1, 100 := 1]
  {
    var s6: seq<Byte> := [97, 98, 114, 97, 99, 97];
    AbracaPrefix();
    var s7 := s6 + [100];
    assert Tally(s7) == map[97 := 3, 98 := 1, 114 := 1, 99 := 1, 100 := 1] by { TallySnoc(s6, 100); }
    TallySnoc(s7, 97);
    assert s == s7 + [97];
  }

  /** b"abracadabra" gives {a: 5, b: 2, r: 2, c: 1, d: 1}. */
  lemma Abracadabra(s: seq<Byte>)
    requires s == [97, 98, 114, 97, 99, 97, 100, 97, 98, 114, 97]
    ensures CreateFrequencyMap(s) == map[97 := 5, 98 := 2, 114 := 2, 99 := 1, 100 := 1]
  {
    var s8 := s[..8];
    AbracadaPrefix(s8);
    var s9 := s8 + [98];
    assert Tally(s9) == map[97 := 4, 98 := 2, 114 := 1, 99 := 1, 100 := 1] by { TallySnoc(s8, 98); }
    var s10 := s9 + [114];
    assert Tally(s10) == map[97 := 4, 98 := 2, 114 := 2, 99 := 1, 100 := 1] by { TallySnoc(s9, 114); }
    TallySnoc(s10, 97);
    assert s == s10 + [97];
  }

  /** b"hello" gives {h: 1, e: 1, l: 2, o: 1}. */
  lemma Hello()
    ensures CreateFrequencyMap([104, 101, 108, 108, 111]) == map[104 := 1, 101 := 1, 108 := 2, 111 := 1]
  {
    var s0: seq<Byte> := [];
    var s1 := s0 + [104];
    assert Tally(s1) == map[104 := 1] by { TallySnoc(s0, 104); }
    var s2 := s1 + [101];
    assert Tally(s2) == map[104 := 1, 101 := 1] by { TallySnoc(s1, 101); }
    var s3 := s2 + [108];
    assert Tally(s3) == map[104 := 1, 101 := 1, 108 := 1] by { TallySnoc(s2, 108); }
    var s4 := s3 + [108];
    assert Tally(s4) == map[104 := 1, 101 := 1, 108 := 2] by { TallySnoc(s3, 108); }
    var s5 := s4 + [111]; TallySnoc(s4, 111);
    assert s5 == [104, 101, 108, 108, 111];
  }
}
