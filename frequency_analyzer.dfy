/** `frequency_analyzer.py`: the character histogram of a text. */
module FrequencyAnalyzer {
  import opened Counting

  /** `create_frequency_map`: the counter of the text's characters as a plain map, empty
      exactly for an empty text. */
  function CreateFrequencyMap(text: string): (r: map<char, int>)
    ensures r == map[] <==> text == []
  {
    Tally(text)
  }

  /** Each character of the text maps to its number of occurrences, and nothing else is a key;
      the counts add up to the length of the text. */
  lemma FrequencyMapCounts(text: string)
    ensures forall c :: c in CreateFrequencyMap(text) <==> c in text
    ensures forall c | c in CreateFrequencyMap(text) ::
      CreateFrequencyMap(text)[c] == multiset(text)[c] && CreateFrequencyMap(text)[c] >= 1
    ensures Total(CreateFrequencyMap(text)) == |text|
  {
    TallyCounts(text);
    TallyTotal(text);
  }

  /** "" gives {} and "a" gives {a: 1}. */
  lemma ShortTexts()
    ensures CreateFrequencyMap("") == map[]
    ensures CreateFrequencyMap("a") == map['a' := 1]
  {
    TallySnoc("", 'a');
    assert "" + ['a'] == "a";
  }

  /** The first half of "abracadabra": "abraca". */
  lemma AbracaPrefix()
    ensures CreateFrequencyMap("abraca") == map['a' := 3, 'b' := 1, 'r' := 1, 'c' := 1]
  {
    var s0: string := "";
    var s1 := s0 + ['a'];
    assert Tally(s1) == map['a' := 1] by { TallySnoc(s0, 'a'); }
    var s2 := s1 + ['b'];
    assert Tally(s2) == map['a' := 1, 'b' := 1] by { TallySnoc(s1, 'b'); }
    var s3 := s2 + ['r'];
    assert Tally(s3) == map['a' := 1, 'b' := 1, 'r' := 1] by { TallySnoc(s2, 'r'); }
    var s4 := s3 + ['a'];
    assert Tally(s4) == map['a' := 2, 'b' := 1, 'r' := 1] by { TallySnoc(s3, 'a'); }
    var s5 := s4 + ['c'];
    assert Tally(s5) == map['a' := 2, 'b' := 1, 'r' := 1, 'c' := 1] by { TallySnoc(s4, 'c'); }
    var s6 := s5 + ['a']; TallySnoc(s5, 'a');
    assert s6 == "abraca";
  }

  /** "abracada", the prefix before the second "bra". */
  lemma AbracadaPrefix(s: string)
    requires s == "abracada"
    ensures Tally(s) == map['a' := 4, 'b' := 1, 'r' := 1, 'c' := 1, 'd' := 1]
  {
    var s6: string := "abraca";
    AbracaPrefix();
    var s7 := s6 + ['d'];
    assert Tally(s7) == map['a' := 3, 'b' := 1, 'r' := 1, 'c' := 1, 'd' := 1] by { TallySnoc(s6, 'd'); }
    TallySnoc(s7, 'a');
    assert s == s7 + ['a'];
  }

  /** "abracadabra" gives {a: 5, b: 2, r: 2, c: 1, d: 1}. */
  lemma Abracadabra(s: string)
    requires s == "abracadabra"
    ensures CreateFrequencyMap(s) == map['a' := 5, 'b' := 2, 'r' := 2, 'c' := 1, 'd' := 1]
  {
    var s8 := s[..8];
    AbracadaPrefix(s8);
    var s9 := s8 + ['b'];
    assert Tally(s9) == map['a' := 4, 'b' := 2, 'r' := 1, 'c' := 1, 'd' := 1] by { TallySnoc(s8, 'b'); }
    var s10 := s9 + ['r'];
    assert Tally(s10) == map['a' := 4, 'b' := 2, 'r' := 2, 'c' := 1, 'd' := 1] by { TallySnoc(s9, 'r'); }
    TallySnoc(s10, 'a');
    assert s == s10 + ['a'];
  }

  /** "hello" gives {h: 1, e: 1, l: 2, o: 1}. */
  lemma Hello()
    ensures CreateFrequencyMap("hello") == map['h' := 1, 'e' := 1, 'l' := 2, 'o' := 1]
  {
    var s0: string := "";
    var s1 := s0 + ['h'];
    assert Tally(s1) == map['h' := 1] by { TallySnoc(s0, 'h'); }
    var s2 := s1 + ['e'];
    assert Tally(s2) == map['h' := 1, 'e' := 1] by { TallySnoc(s1, 'e'); }
    var s3 := s2 + ['l'];
    assert Tally(s3) == map['h' := 1, 'e' := 1, 'l' := 1] by { TallySnoc(s2, 'l'); }
    var s4 := s3 + ['l'];
    assert Tally(s4) == map['h' := 1, 'e' := 1, 'l' := 2] by { TallySnoc(s3, 'l'); }
    var s5 := s4 + ['o']; TallySnoc(s4, 'o');
    assert s5 == "hello";
  }
}
