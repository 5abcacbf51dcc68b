/** `higher_order_functions.py`: reduce, map and filter, and the frequency and
    encoding folds built from them. Every accumulator is a fresh value. */
module HigherOrderFunctions {
  import opened Bits
  import opened Counting
  import opened Prelude
  import opened ResultTypes
  import CompressionFrequencyCounter
  import CompressionHuffmanEncoder

  /** `fold_left`: `functools.reduce(func, iterable, initial)`. */
  function FoldLeft<A, B>(f: (A, B) -> A, initial: A, xs: seq<B>): (r: A)
    ensures xs == [] ==> r == initial
    ensures |xs| == 1 ==> r == f(initial, xs[0])
    decreases |xs|
  {
    if xs == [] then initial else FoldLeft(f, f(initial, xs[0]), xs[1..])
  }

  /** Folding over a longer sequence folds the extra element in last. */
  lemma {:induction false} FoldLeftSnoc<A, B>(f: (A, B) -> A, initial: A, xs: seq<B>, x: B)
    ensures FoldLeft(f, initial, xs + [x]) == f(FoldLeft(f, initial, xs), x)
    decreases |xs|
  {
    if xs == [] {
      assert xs + [x] == [x];
    } else {
      assert (xs + [x])[1..] == xs[1..] + [x];
      FoldLeftSnoc(f, f(initial, xs[0]), xs[1..], x);
    }
  }

  /** Folding over a concatenation folds the second part into the result of the first. */
  lemma {:induction false} FoldLeftAppend<A, B>(f: (A, B) -> A, initial: A, xs: seq<B>, ys: seq<B>)
    ensures FoldLeft(f, initial, xs + ys) == FoldLeft(f, FoldLeft(f, initial, xs), ys)
    decreases |xs|
  {
    if xs == [] {
      assert xs + ys == ys;
    } else {
      assert (xs + ys)[1..] == xs[1..] + ys;
      FoldLeftAppend(f, f(initial, xs[0]), xs[1..], ys);
    }
  }

  /** `map_transform`: `list(map(func, iterable))`. */
  function MapTransform<A, B>(f: A -> B, xs: seq<A>): (r: seq<B>)
    ensures |r| == |xs|
    ensures forall i :: 0 <= i < |xs| ==> r[i] == f(xs[i])
    decreases |xs|
  {
    if xs == [] then [] else [f(xs[0])] + MapTransform(f, xs[1..])
  }

  /** `filter_transform`: `list(filter(predicate, iterable))`. */
  function FilterTransform<A>(p: A -> bool, xs: seq<A>): (r: seq<A>)
    ensures |r| <= |xs|
    ensures forall i :: 0 <= i < |r| ==> p(r[i])
    decreases |xs|
  {
    if xs == [] then []
    else if p(xs[0]) then [xs[0]] + FilterTransform(p, xs[1..]) else FilterTransform(p, xs[1..])
  }

  /** Filtering keeps every element that satisfies the predicate, as often as it occurs,
      and drops every other. */
  lemma {:induction false} FilterKeepsExactly<A(!new)>(p: A -> bool, xs: seq<A>)
    ensures forall y :: y in FilterTransform(p, xs) <==> y in xs && p(y)
    ensures forall y :: multiset(FilterTransform(p, xs))[y] == if p(y) then multiset(xs)[y] else 0
    decreases |xs|
  {
    if xs != [] {
      assert xs == [xs[0]] + xs[1..];
      FilterKeepsExactly(p, xs[1..]);
    }
  }

  /** Filtering keeps the original order: it distributes over concatenation. */
  lemma {:induction false} FilterAppend<A>(p: A -> bool, xs: seq<A>, ys: seq<A>)
    ensures FilterTransform(p, xs + ys) == FilterTransform(p, xs) + FilterTransform(p, ys)
    decreases |xs|
  {
    if xs == [] {
      assert xs + ys == ys;
    } else {
      assert (xs + ys)[0] == xs[0] && (xs + ys)[1..] == xs[1..] + ys;
      FilterAppend(p, xs[1..], ys);
    }
  }

  /** `apply_to_stream`: `map_transform` over the elements of a stream. */
  function ApplyToStream<A, B>(f: A -> B, stream: seq<A>): (r: seq<B>)
    ensures |r| == |stream|
    ensures forall i :: 0 <= i < |stream| ==> r[i] == f(stream[i])
  {
    MapTransform(f, stream)
  }

  /** The step of both frequency folds (`accumulate_frequency`, `add_frequency`):
      a new map with one more occurrence of b, the accumulator itself untouched. */
  function AccumulateFrequency(acc: map<Byte, int>, b: Byte): (r: map<Byte, int>)
    ensures r.Keys == acc.Keys + {b}
    ensures r[b] == (if b in acc then acc[b] else 0) + 1
    ensures forall k | k in acc && k != b :: r[k] == acc[k]
  {
    acc[b := (if b in acc then acc[b] else 0) + 1]
  }

  /** `create_frequency_map_functional`: a fold of `accumulate_frequency` over the stream's
      bytes; the result is the counter of the stream, the map of
      `compression/frequency_counter.py`. */
  function CreateFrequencyMapFunctional(stream: seq<Byte>): (r: map<Byte, int>)
    ensures r == CompressionFrequencyCounter.CreateFrequencyMap(stream)
  {
    FrequencyFoldCounts([], stream);
    assert [] + stream == stream;
    FoldLeft(AccumulateFrequency, map[], stream)
  }

  /** `count_frequencies_functional`: the same fold, over any iterable of byte values; it
      maps exactly the bytes of its input, each to its number of occurrences. */
  function CountFrequenciesFunctional(bytes: seq<Byte>): (r: map<Byte, int>)
    ensures forall b :: b in r <==> b in bytes
    ensures forall b | b in r :: r[b] == multiset(bytes)[b]
  {
    FrequencyFoldCounts([], bytes);
    assert [] + bytes == bytes;
    TallyCounts(bytes);
    FoldLeft(AccumulateFrequency, map[], bytes)
  }

  /** Folding the frequency step over xs, from the counts of ys, counts ys + xs. */
  lemma {:induction false} FrequencyFoldCounts(ys: seq<Byte>, xs: seq<Byte>)
    ensures FoldLeft(AccumulateFrequency, Tally(ys), xs) == Tally(ys + xs)
    decreases |xs|
  {
    if xs == [] {
      assert ys + xs == ys;
    } else {
      TallySnoc(ys, xs[0]);
      assert AccumulateFrequency(Tally(ys), xs[0]) == Tally(ys + [xs[0]]);
      FrequencyFoldCounts(ys + [xs[0]], xs[1..]);
      assert ys + [xs[0]] + xs[1..] == ys + xs;
    }
  }

  /** The step of `encode_bytes_functional` (`flatten_code`): a new list with b's code
      appended; `codes[b]` of a byte without a code raises KeyError, which ends the fold.
      An error is kept; an Ok list only grows, by the byte's code. */
  function FlattenCode(codes: map<Byte, seq<Bit>>): (step: (Result<seq<Bit>, Exception>, Byte) -> Result<seq<Bit>, Exception>)
    ensures forall acc: Result<seq<Bit>, Exception>, b | acc.Err? :: step(acc, b) == acc
    ensures forall acc: Result<seq<Bit>, Exception>, b | acc.Ok? :: step(acc, b).Ok? <==> b in codes
    ensures forall acc: Result<seq<Bit>, Exception>, b | acc.Ok? && b in codes ::
      |step(acc, b).value| == |acc.value| + |codes[b]| && step(acc, b).value[..|acc.value|] == acc.value
  {
    (acc: Result<seq<Bit>, Exception>, b: Byte) =>
      if acc.Err? then acc
      else if b in codes then Ok(acc.value + codes[b])
      else Err(KeyError)
  }

  /** `encode_bytes_functional`: a fold of `flatten_code` from the empty list. It succeeds
      exactly when every byte has a code, and then spells the payload of
      `compression/huffman_encoder.py`. */
  function EncodeBytesFunctional(byteValues: seq<Byte>, codes: map<Byte, seq<Bit>>): (r: Result<seq<Bit>, Exception>)
    ensures r.Ok? <==> forall b | b in byteValues :: b in codes
    ensures r.Ok? ==> r.value == CompressionHuffmanEncoder.Encode(byteValues, codes)
  {
    FlattenFold(Ok([]), byteValues, codes);
    assert forall e: seq<Bit> :: [] + e == e;
    FoldLeft(FlattenCode(codes), Ok([]), byteValues)
  }

  /** The sum of the lengths of the codes of xs. */
  function CodeLengths(xs: seq<Byte>, codes: map<Byte, seq<Bit>>): nat
    requires forall b | b in xs :: b in codes
  {
    if xs == [] then 0 else |codes[xs[0]]| + CodeLengths(xs[1..], codes)
  }

  /** Folding the step over xs appends the codes of xs to an Ok accumulator when every
      byte of xs has a code, gives KeyError when one does not, and keeps an error. */
  lemma {:induction false} FlattenFold(acc: Result<seq<Bit>, Exception>, xs: seq<Byte>, codes: map<Byte, seq<Bit>>)
    ensures acc.Err? ==> FoldLeft(FlattenCode(codes), acc, xs) == acc
    ensures acc.Ok? && (forall b | b in xs :: b in codes) ==>
      FoldLeft(FlattenCode(codes), acc, xs) == Ok(acc.value + CompressionHuffmanEncoder.Encode(xs, codes))
    ensures acc.Ok? && (exists b | b in xs :: b !in codes) ==> FoldLeft(FlattenCode(codes), acc, xs) == Err(KeyError)
    decreases |xs|
  {
    if xs != [] {
      var next := FlattenCode(codes)(acc, xs[0]);
      FlattenFold(next, xs[1..], codes);
      if acc.Ok? && xs[0] in codes {
        assert next == Ok(acc.value + codes[xs[0]]);
        if forall b | b in xs :: b in codes {
          var code, more := codes[xs[0]], CompressionHuffmanEncoder.Encode(xs[1..], codes);
          assert CompressionHuffmanEncoder.Encode(xs, codes) == code + more;
          AppendAssoc(acc.value, code, more);
        } else {
          var b :| b in xs && b !in codes;
          assert b in xs[1..];
        }
      }
    } else if acc.Ok? {
      assert acc.value + [] == acc.value;
    }
  }

  /** Encoding lengths add up code by code. */
  lemma {:induction false} EncodeLength(xs: seq<Byte>, codes: map<Byte, seq<Bit>>)
    requires forall b | b in xs :: b in codes
    ensures |CompressionHuffmanEncoder.Encode(xs, codes)| == CodeLengths(xs, codes)
    decreases |xs|
  {
    if xs != [] {
      EncodeLength(xs[1..], codes);
    }
  }

  /** The functional encoding is the concatenation of the codes of the input in order,
      as long as the code lengths together, when every byte has a code; otherwise it is
      the KeyError of the first byte without one. */
  lemma EncodeBytesFunctionalConcatenates(byteValues: seq<Byte>, codes: map<Byte, seq<Bit>>)
    ensures (forall b | b in byteValues :: b in codes) ==>
      EncodeBytesFunctional(byteValues, codes) == Ok(CompressionHuffmanEncoder.Encode(byteValues, codes))
      && |EncodeBytesFunctional(byteValues, codes).value| == CodeLengths(byteValues, codes)
    ensures (exists b | b in byteValues :: b !in codes) ==> EncodeBytesFunctional(byteValues, codes) == Err(KeyError)
  {
    FlattenFold(Ok([]), byteValues, codes);
    if forall b | b in byteValues :: b in codes {
      var encoded := CompressionHuffmanEncoder.Encode(byteValues, codes);
      assert [] + encoded == encoded;
      EncodeLength(byteValues, codes);
    }
  }
}
