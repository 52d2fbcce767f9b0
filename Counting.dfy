/** The first pass of compression: the frequency table. */
module Counting {
  import opened Bits
  import opened Huff

  /** Model of `readForCounts`: reads 8-bit values until the stream reports
      the end, counting each value; the pseudo-EOF entry is set to 1. Returns
      the table and what is left of the stream, which is nothing. */
  method ReadForCounts(input: seq<bool>) returns (freq: array<int>, rest: seq<bool>)
    ensures fresh(freq) && freq.Length == ALPH_SIZE + 1
    ensures forall v :: 0 <= v < ALPH_SIZE ==> freq[v] == multiset(Bytes(input))[v]
    ensures freq[PSEUDO_EOF] == 1
    ensures rest == []
  {
    freq := new int[ALPH_SIZE + 1](_ => 0);
    freq[PSEUDO_EOF] := 1;
    rest := input;
    ghost var seen: seq<int> := [];
    while true
      invariant freq[PSEUDO_EOF] == 1
      invariant Bytes(input) == seen + Bytes(rest)
      invariant forall v :: 0 <= v < ALPH_SIZE ==> freq[v] == multiset(seen)[v]
      decreases |rest|
    {
      var read := ReadBits(rest, BITS_PER_WORD);
      if read.0 == -1 {
        rest := read.1;
        break;
      }
      var value := read.0;
      FirstByte(rest);
      freq[value] := freq[value] + 1;
      SeeByte(seen, value, Bytes(read.1));
      seen := seen + [value];
      rest := read.1;
    }
    assert seen + [] == seen;
  }

  /** The first value `readBits(8)` delivers is the first byte, and the
      rest of the stream holds the other bytes. */
  lemma FirstByte(input: seq<bool>)
    requires |input| >= BITS_PER_WORD
    ensures 0 <= ReadBits(input, BITS_PER_WORD).0 < ALPH_SIZE
    ensures Bytes(input) == [ReadBits(input, BITS_PER_WORD).0] + Bytes(ReadBits(input, BITS_PER_WORD).1)
  {
    Pow2Byte();
  }

  /** Moving the next byte to the bytes seen adds one occurrence of it. */
  lemma SeeByte(seen: seq<int>, value: int, after: seq<int>)
    ensures seen + ([value] + after) == (seen + [value]) + after
    ensures multiset(seen + [value]) == multiset(seen) + multiset{value}
  {
  }

  /** The table is zero except at the bytes the input holds and at the
      pseudo-EOF: an entry is positive exactly when its value occurs. */
  lemma PositiveCounts(freq: seq<int>, input: seq<bool>, v: int)
    requires |freq| == ALPH_SIZE + 1 && freq[PSEUDO_EOF] == 1
    requires forall v :: 0 <= v < ALPH_SIZE ==> freq[v] == multiset(Bytes(input))[v]
    requires 0 <= v < |freq|
    ensures freq[v] > 0 <==> v == PSEUDO_EOF || v in Bytes(input)
  {
    if v < ALPH_SIZE {
      assert v in Bytes(input) <==> v in multiset(Bytes(input));
    }
  }
}
