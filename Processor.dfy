/** `compress` and `decompress` as written. */
module Processor {
  import opened Bits
  import opened Huff
  import opened Counting
  import opened TreeBuilder
  import opened Codes
  import opened Header
  import opened Payload

  /** The first 32 bits read as `HUFF_TREE`. */
  predicate HasMagic(input: seq<bool>)
  {
    ReadBits(input, BITS_PER_INT).0 == HUFF_TREE as int
  }

  /** The magic check accepts exactly the streams that begin with the 32 bits
      `compress` writes first. */
  lemma MagicCheck(input: seq<bool>)
    ensures HasMagic(input) <==> |input| >= BITS_PER_INT && input[..BITS_PER_INT] == MagicBits()
    ensures HasMagic(input) ==> ReadBits(input, BITS_PER_INT).1 == input[BITS_PER_INT..]
  {
    if |input| >= BITS_PER_INT {
      var head := input[..BITS_PER_INT];
      BitsRoundTrip(head);
      BitsRoundTrip(MagicBits());
    }
  }

  /** Model of `decompress`, without `out.close()`: checks the magic number,
      reads the tree header that follows it, and decodes the rest of the
      stream with that tree. Returns the bits written. */
  method Decompress(input: seq<bool>) returns (r: Result<seq<bool>>)
    ensures r == Err(BadMagic) <==> !(|input| >= BITS_PER_INT && input[..BITS_PER_INT] == MagicBits())
    ensures |input| >= BITS_PER_INT && input[..BITS_PER_INT] == MagicBits() ==>
              r == match ReadTreeHeader(input[BITS_PER_INT..])
                   case Err(e) => Err(e)
                   case Ok((root, rest)) =>
                     match Emitted(Decode(root, rest))
                     case Err(e) => Err(e)
                     case Ok((written, _)) => Ok(written)
  {
    MagicCheck(input);
    var (bits, afterMagic) := ReadBits(input, BITS_PER_INT);
    if bits != HUFF_TREE as int {
      return Err(BadMagic);
    }
    var header := ReadTreeHeader(afterMagic);
    if header.Err? {
      return Err(header.error);
    }
    var (root, rest) := header.value;
    var decoded := ReadCompressedBits(root, rest);
    if decoded.Err? {
      return Err(decoded.error);
    }
    r := Ok(decoded.value.0);
  }

  /** Model of `compress`, without `out.close()`: counts the bytes, builds the
      trie and its code table, writes the magic number and `writeHead`'s
      header, and then `writeCompressedBits`' output. The ghost `tree` is the
      trie built. */
  method Compress(input: seq<bool>) returns (r: Result<seq<bool>>, ghost tree: Tree)
    ensures Distinct(Leaves(tree))
    ensures forall v :: v in Leaves(tree) <==> v == PSEUDO_EOF || (0 <= v < ALPH_SIZE && v in Bytes(input))
    ensures r == match TableBits(CodeTable(tree))
                 case Err(e) => Err(e)
                 case Ok(payload) => Ok(MagicBits() + WriteHead(tree) + payload)
    ensures r.Ok? ==> forall v :: 0 <= v < ALPH_SIZE ==> v in Bytes(input)
  {
    var counts, rest := ReadForCounts(input);
    var built, merges := MakeTreeFromCounts(counts);
    CountsGiveLeaves(counts[..], input);
    if built.Err? {
      assert false;
    }
    var root := built.value.tree;
    tree := root;
    BuiltTreeLeaves(root, counts[..]);
    var codings := MakeCodingsFromTree(root);
    var written := MagicBits() + WriteHead(root);
    var payload := WriteCompressedBits(codings, input);
    if payload.Err? {
      return Err(payload.error), tree;
    }
    r := Ok(written + payload.value);
    CodeTableNeedsFullAlphabet(tree);
  }

  /** The positive entries of `readForCounts`' table are the pseudo-EOF and
      the input's bytes. */
  lemma CountsGiveLeaves(counts: seq<int>, input: seq<bool>)
    requires |counts| == ALPH_SIZE + 1 && counts[PSEUDO_EOF] == 1
    requires forall v :: 0 <= v < ALPH_SIZE ==> counts[v] == multiset(Bytes(input))[v]
    ensures PositiveSymbols(counts) != []
    ensures forall v :: (0 <= v < |counts| && counts[v] > 0) <==> v == PSEUDO_EOF || (0 <= v < ALPH_SIZE && v in Bytes(input))
  {
    PositiveSymbolsExact(counts);
    assert PSEUDO_EOF in PositiveSymbols(counts);
    forall v | 0 <= v < ALPH_SIZE
      ensures counts[v] > 0 <==> v in Bytes(input)
    {
      PositiveCounts(counts, input, v);
    }
  }
}
