/** The codec as the source's comments describe it: compression that is
    "reversible and loss-less" (`compress`) and a header written and read by
    a "pre-order traversal" (`writeHead`, `readTreeHeader`). That is: the
    preorder header, a payload that encodes the input's bytes followed by the
    pseudo-EOF, a header reader that rejects a leaf cut short, and a decoder
    that accepts a trie that is a single leaf. For this codec, decompressing
    what is compressed gives back every whole byte of the input. */
module Corrected {
  import opened Bits
  import opened Huff
  import opened Counting
  import opened TreeBuilder
  import opened Codes
  import opened Header
  import opened Payload
  import opened Processor

  /** `readTreeHeader` with the 9-bit read checked as the 1-bit read is: if
      either finds the end of the stream, it throws `HeaderEnd`. */
  function ReadTreeHeaderChecked(input: seq<bool>): (r: Result<(Tree, seq<bool>)>)
    ensures r.Ok? ==> |r.value.1| < |input|
    ensures r.Err? ==> r.error == HeaderEnd
    decreases |input|
  {
    var (bit, rest) := ReadBit(input);
    if bit == -1 then Err(HeaderEnd)
    else if bit == 0 then
      match ReadTreeHeaderChecked(rest)
      case Err(e) => Err(e)
      case Ok((left, rest')) =>
        match ReadTreeHeaderChecked(rest')
        case Err(e) => Err(e)
        case Ok((right, rest'')) => Ok((Node(left, right), rest''))
    else
      var (value, rest') := ReadBits(rest, BITS_PER_WORD + 1);
      if value == -1 then Err(HeaderEnd) else Ok((Leaf(value), rest'))
  }

  /** The checked reader accepts only preorder headers: what it returns is
      the tree whose header the input starts with, followed by the rest it
      returns, and every leaf value fits in BITS_PER_WORD + 1 bits. */
  lemma {:induction false} CheckedReadIsPreorder(input: seq<bool>)
    ensures ReadTreeHeaderChecked(input).Ok? ==>
              var (t, rest) := ReadTreeHeaderChecked(input).value;
              input == PreorderHeader(t) + rest && LeavesWithin(t, 0, Pow2(BITS_PER_WORD + 1))
    decreases |input|
  {
    var r := ReadTreeHeaderChecked(input);
    if r.Ok? {
      var (bit, rest) := ReadBit(input);
      if bit == 0 {
        CheckedReadIsPreorder(rest);
        var (left, rest') := ReadTreeHeaderChecked(rest).value;
        CheckedReadIsPreorder(rest');
        var (right, rest'') := ReadTreeHeaderChecked(rest').value;
        NodeShape(input, left, rest', right, rest'');
      } else {
        LeafShape(input, rest);
      }
    }
  }

  /** A 0 bit, a header of `left` and a header of `right` form the header of
      their parent. */
  lemma NodeShape(input: seq<bool>, left: Tree, rest': seq<bool>, right: Tree, rest'': seq<bool>)
    requires input != [] && !input[0]
    requires input[1..] == PreorderHeader(left) + rest' && rest' == PreorderHeader(right) + rest''
    requires LeavesWithin(left, 0, Pow2(BITS_PER_WORD + 1)) && LeavesWithin(right, 0, Pow2(BITS_PER_WORD + 1))
    ensures input == PreorderHeader(Node(left, right)) + rest''
    ensures LeavesWithin(Node(left, right), 0, Pow2(BITS_PER_WORD + 1))
  {
    assert input == [false] + input[1..];
    Regroup([false], PreorderHeader(left), PreorderHeader(right), rest'');
  }

  /** A 1 bit and 9 more bits form the record of the leaf whose value those
      bits hold. */
  lemma LeafShape(input: seq<bool>, rest: seq<bool>)
    requires input != [] && input[0] && rest == input[1..] && |rest| >= BITS_PER_WORD + 1
    ensures input == LeafRecord(BitsToNat(rest[..BITS_PER_WORD + 1])) + rest[BITS_PER_WORD + 1..]
    ensures BitsToNat(rest[..BITS_PER_WORD + 1]) < Pow2(BITS_PER_WORD + 1)
  {
    var field := rest[..BITS_PER_WORD + 1];
    WriteBitsOfValue(field);
    assert rest == field + rest[BITS_PER_WORD + 1..];
    assert input == [true] + rest;
  }

  lemma Regroup(a: seq<bool>, b: seq<bool>, c: seq<bool>, d: seq<bool>)
    ensures a + (b + (c + d)) == a + b + c + d
  {
  }

  /** Where `readTreeHeader` builds a tree with no -1 leaf, the checked
      reader reads the same tree and leaves the same rest: the check only
      rejects a leaf cut short. */
  lemma {:induction false} CheckedReadAgrees(input: seq<bool>)
    requires ReadTreeHeader(input).Ok? && LeavesWithin(ReadTreeHeader(input).value.0, 0, Pow2(BITS_PER_WORD + 1))
    ensures ReadTreeHeaderChecked(input) == ReadTreeHeader(input)
    decreases |input|
  {
    var (bit, rest) := ReadBit(input);
    if bit == 0 {
      var (left, rest') := ReadTreeHeader(rest).value;
      var (right, rest'') := ReadTreeHeader(rest').value;
      LeavesWithinChildren(left, right, 0, Pow2(BITS_PER_WORD + 1));
      CheckedReadAgrees(rest);
      CheckedReadAgrees(rest');
    } else {
      var t := ReadTreeHeader(input).value.0;
      assert t.value in Leaves(t);
    }
  }

  /** The checked reader inverts the preorder header. */
  lemma CheckedReadInvertsPreorder(t: Tree, rest: seq<bool>)
    requires LeavesWithin(t, 0, Pow2(BITS_PER_WORD + 1))
    ensures ReadTreeHeaderChecked(PreorderHeader(t) + rest) == Ok((t, rest))
  {
    ReadInvertsPreorder(t, rest);
    CheckedReadAgrees(PreorderHeader(t) + rest);
  }

  /** A stream holding a 1 bit and nothing more: `readTreeHeader` returns
      a leaf with the sentinel -1 as its value, the checked reader throws. */
  lemma TruncatedLeafRecord()
    ensures ReadTreeHeader([true]) == Ok((Leaf(-1), []))
    ensures ReadTreeHeaderChecked([true]) == Err(HeaderEnd)
  {
    assert [true][1..] == [];
  }

  /** `r` prefixed with `written`. */
  function AppendTo(written: seq<bool>, r: Result<seq<bool>>): Result<seq<bool>>
  {
    match r
    case Err(e) => Err(e)
    case Ok(bits) => Ok(written + bits)
  }

  /** The payload for the stream `input`: reading 8 bits at a time until
      `readBits` returns -1, the code of each value read, then the code of
      the pseudo-EOF, each written as its own bits. A null entry throws
      `NullPointerException`. */
  function EncodePayload(table: seq<Option<string>>, input: seq<bool>): (r: Result<seq<bool>>)
    requires |table| == ALPH_SIZE + 1
    ensures r.Err? ==> r.error == NullDereference
    decreases |input|
  {
    var (value, rest) := ReadBits(input, BITS_PER_WORD);
    if value == -1 then
      match table[PSEUDO_EOF]
      case None => Err(NullDereference)
      case Some(c) => Ok(CodeBits(c))
    else
      Pow2Byte();
      match table[value]
      case None => Err(NullDereference)
      case Some(c) => AppendTo(CodeBits(c), EncodePayload(table, rest))
  }

  /** Writing the payload fails exactly when the pseudo-EOF or a value of
      the input has no code. */
  lemma {:induction false} EncodePayloadFails(table: seq<Option<string>>, input: seq<bool>)
    requires |table| == ALPH_SIZE + 1
    ensures EncodePayload(table, input).Err? <==>
              table[PSEUDO_EOF].None? || exists v :: v in Bytes(input) && 0 <= v < |table| && table[v].None?
    decreases |input|
  {
    if |input| >= BITS_PER_WORD {
      var (value, rest) := ReadBits(input, BITS_PER_WORD);
      Pow2Byte();
      assert Bytes(input) == [value] + Bytes(rest);
      EncodePayloadFails(table, rest);
    }
  }

  /** `writeCompressedBits` as intended: reads the input a byte at a time
      until `readBits` returns -1, writes each byte's code, and then the
      pseudo-EOF's code. */
  method WriteCodes(codings: array<Option<string>>, input: seq<bool>) returns (r: Result<seq<bool>>)
    requires codings.Length == ALPH_SIZE + 1
    ensures r == EncodePayload(codings[..], input)
  {
    var rest := input;
    var written: seq<bool> := [];
    assert AppendTo([], EncodePayload(codings[..], input)) == EncodePayload(codings[..], input) by {
      if EncodePayload(codings[..], input).Ok? {
        assert [] + EncodePayload(codings[..], input).value == EncodePayload(codings[..], input).value;
      }
    }
    while true
      invariant EncodePayload(codings[..], input) == AppendTo(written, EncodePayload(codings[..], rest))
      decreases |rest|
    {
      var read := ReadBits(rest, BITS_PER_WORD);
      if read.0 == -1 {
        break;
      }
      var value := read.0;
      Pow2Byte();
      var code := codings[value];
      if code.None? {
        return Err(NullDereference);
      }
      AppendTwice(written, CodeBits(code.value), EncodePayload(codings[..], read.1));
      written := written + CodeBits(code.value);
      rest := read.1;
    }
    var eof := codings[PSEUDO_EOF];
    if eof.None? {
      return Err(NullDereference);
    }
    r := Ok(written + CodeBits(eof.value));
  }

  lemma AppendTwice(a: seq<bool>, b: seq<bool>, r: Result<seq<bool>>)
    ensures AppendTo(a, AppendTo(b, r)) == AppendTo(a + b, r)
  {
    if r.Ok? {
      assert a + (b + r.value) == a + b + r.value;
    }
  }

  /** With the table of a trie that holds the pseudo-EOF and every byte of
      `input`, the payload is the bytes' codes followed by the pseudo-EOF's. */
  lemma {:induction false} EncodeWithCodeTable(t: Tree, input: seq<bool>)
    requires PSEUDO_EOF in Leaves(t)
    requires forall i :: 0 <= i < |Bytes(input)| ==> Bytes(input)[i] in Leaves(t)
    ensures EncodePayload(CodeTable(t), input) == Ok(SymbolsBits(t, Bytes(input)) + CodeBits(CodeOf(t, PSEUDO_EOF)))
    decreases |input|
  {
    var eof := CodeBits(CodeOf(t, PSEUDO_EOF));
    if |input| < BITS_PER_WORD {
      EncodeLast(t, input);
    } else {
      var value, rest := EncodeFirst(t, input);
      EncodeWithCodeTable(t, rest);
      SymbolsCons(t, Bytes(input), Bytes(rest), eof);
    }
  }

  /** A stream with no byte left is written as the pseudo-EOF's code. */
  lemma EncodeLast(t: Tree, input: seq<bool>)
    requires PSEUDO_EOF in Leaves(t) && |input| < BITS_PER_WORD
    ensures EncodePayload(CodeTable(t), input) == Ok(SymbolsBits(t, Bytes(input)) + CodeBits(CodeOf(t, PSEUDO_EOF)))
  {
    assert CodeTable(t)[PSEUDO_EOF] == Some(CodeOf(t, PSEUDO_EOF));
    assert SymbolsBits(t, Bytes(input)) + CodeBits(CodeOf(t, PSEUDO_EOF)) == CodeBits(CodeOf(t, PSEUDO_EOF));
  }

  /** The first byte of the stream is written as its code, and the rest of
      the stream follows. */
  lemma EncodeFirst(t: Tree, input: seq<bool>) returns (value: int, rest: seq<bool>)
    requires |input| >= BITS_PER_WORD
    requires forall i :: 0 <= i < |Bytes(input)| ==> Bytes(input)[i] in Leaves(t)
    ensures (value, rest) == ReadBits(input, BITS_PER_WORD) && value in Leaves(t)
    ensures Bytes(input) == [value] + Bytes(rest)
    ensures forall i :: 0 <= i < |Bytes(rest)| ==> Bytes(rest)[i] in Leaves(t)
    ensures EncodePayload(CodeTable(t), input) == AppendTo(CodeBits(CodeOf(t, value)), EncodePayload(CodeTable(t), rest))
  {
    value, rest := ReadBits(input, BITS_PER_WORD).0, ReadBits(input, BITS_PER_WORD).1;
    Pow2Byte();
    var s := Bytes(input);
    assert s == [value] + Bytes(rest);
    assert s[0] == value;
    assert forall i :: 0 <= i < |Bytes(rest)| ==> Bytes(rest)[i] == s[i + 1];
    assert CodeTable(t)[value] == Some(CodeOf(t, value));
  }

  /** Decoding as intended: a trie that is a single pseudo-EOF leaf stands for
      an empty payload and reads no bits; a single leaf of any other value
      never reaches the pseudo-EOF. Any other trie is decoded as written.
      It never dereferences null: the only failure is a stream that ends
      before the pseudo-EOF. */
  function DecodeCorrected(root: Tree, input: seq<bool>): (d: Decoded)
    ensures d.Err? ==> d.error == NoPseudoEof
    ensures d.Ok? ==> |d.value.1| <= |input|
  {
    if root.Leaf? then
      if root.value == PSEUDO_EOF then Ok(([], input)) else Err(NoPseudoEof)
    else Decode(root, input)
  }

  /** `decompress` with the checked header reader and the corrected decoder:
      the bits written, without `out.close()`'s padding. It rejects exactly
      the streams without the magic number, and never dereferences null. */
  function DecompressCorrected(input: seq<bool>): (r: Result<seq<bool>>)
    ensures r == Err(BadMagic) <==> !(|input| >= BITS_PER_INT && input[..BITS_PER_INT] == MagicBits())
    ensures r.Err? ==> r.error == BadMagic || r.error == HeaderEnd || r.error == NoPseudoEof
  {
    MagicCheck(input);
    if !HasMagic(input) then Err(BadMagic)
    else
      match ReadTreeHeaderChecked(ReadBits(input, BITS_PER_INT).1)
      case Err(e) => Err(e)
      case Ok((root, rest)) =>
        match Emitted(DecodeCorrected(root, rest))
        case Err(e) => Err(e)
        case Ok((written, _)) => Ok(written)
  }

  /** The stream the corrected compressor writes for `input` with the trie
      `t`: the magic number, the preorder header and the payload. */
  function CompressedStream(t: Tree, input: seq<bool>): (s: seq<bool>)
    requires forall v :: v in Leaves(t) <==> v == PSEUDO_EOF || (0 <= v < ALPH_SIZE && v in Bytes(input))
    ensures |s| >= BITS_PER_INT && s[..BITS_PER_INT] == MagicBits()
  {
    BytesInRange(input);
    assert PSEUDO_EOF in Leaves(t);
    MagicBits() + PreorderHeader(t) + (SymbolsBits(t, Bytes(input)) + CodeBits(CodeOf(t, PSEUDO_EOF)))
  }

  /** Past the magic number, the checked reader takes the preorder header
      of `t` and leaves `body` to the decoder, whose values are written as
      bytes. */
  lemma DecompressAfterHeader(t: Tree, body: seq<bool>, vals: seq<int>, rest: seq<bool>)
    requires LeavesWithin(t, 0, Pow2(BITS_PER_WORD + 1))
    requires DecodeCorrected(t, body) == Ok((vals, rest))
    ensures DecompressCorrected(MagicBits() + (PreorderHeader(t) + body)) == Ok(BytesToBits(vals))
  {
    var stream := MagicBits() + (PreorderHeader(t) + body);
    MagicCheck(stream);
    assert stream[..BITS_PER_INT] == MagicBits();
    assert stream[BITS_PER_INT..] == PreorderHeader(t) + body;
    CheckedReadInvertsPreorder(t, body);
  }

  /** The payload of a trie holding the pseudo-EOF and the bytes `s`,
      followed by anything, decodes to `s` and stops after the pseudo-EOF's
      code, also when the trie is a single leaf. */
  lemma PayloadDecodes(t: Tree, s: seq<int>, padding: seq<bool>)
    requires forall i :: 0 <= i < |s| ==> 0 <= s[i] < ALPH_SIZE
    requires forall v :: v in Leaves(t) <==> v == PSEUDO_EOF || (0 <= v < ALPH_SIZE && v in s)
    ensures PSEUDO_EOF in Leaves(t) && forall i :: 0 <= i < |s| ==> s[i] in Leaves(t)
    ensures DecodeCorrected(t, SymbolsBits(t, s) + (CodeBits(CodeOf(t, PSEUDO_EOF)) + padding)) == Ok((s, padding))
  {
    assert PSEUDO_EOF in Leaves(t);
    assert forall i :: 0 <= i < |s| ==> s[i] in s;
    if s == [] {
      if t.Node? {
        DecodeOfEncoded(t, s, padding);
      } else {
        assert Leaves(t) == [t.value];
        assert SymbolsBits(t, s) + (CodeBits(CodeOf(t, PSEUDO_EOF)) + padding) == padding;
      }
    } else {
      assert s[0] in Leaves(t) && s[0] != PSEUDO_EOF;
      assert t.Node?;
      DecodeOfEncoded(t, s, padding);
    }
  }

  /** The leaves of a trie for the pseudo-EOF and bytes fit the header's
      BITS_PER_WORD + 1 bits. */
  lemma LeavesFitHeader(t: Tree, input: seq<bool>)
    requires forall v :: v in Leaves(t) <==> v == PSEUDO_EOF || (0 <= v < ALPH_SIZE && v in Bytes(input))
    ensures LeavesWithin(t, 0, Pow2(BITS_PER_WORD + 1))
  {
    Pow2Byte();
  }

  lemma Reassociate(a: seq<bool>, b: seq<bool>, c: seq<bool>, d: seq<bool>, e: seq<bool>)
    ensures a + b + (c + d) + e == a + (b + (c + (d + e)))
  {
  }

  /** The round trip: whatever follows the compressed stream (such as the
      padding of the last byte), decompressing it gives back every whole
      byte of the input. */
  lemma RoundTrip(t: Tree, input: seq<bool>, padding: seq<bool>)
    requires forall v :: v in Leaves(t) <==> v == PSEUDO_EOF || (0 <= v < ALPH_SIZE && v in Bytes(input))
    ensures DecompressCorrected(CompressedStream(t, input) + padding) == Ok(input[..8 * (|input| / 8)])
  {
    var s := Bytes(input);
    BytesInRange(input);
    PayloadDecodes(t, s, padding);
    LeavesFitHeader(t, input);
    var header := PreorderHeader(t);
    var payload := SymbolsBits(t, s) + CodeBits(CodeOf(t, PSEUDO_EOF));
    var body := SymbolsBits(t, s) + (CodeBits(CodeOf(t, PSEUDO_EOF)) + padding);
    assert CompressedStream(t, input) == MagicBits() + header + payload;
    Reassociate(MagicBits(), header, SymbolsBits(t, s), CodeBits(CodeOf(t, PSEUDO_EOF)), padding);
    DecompressAfterHeader(t, body, s, padding);
    BytesToBitsOfBytes(input);
  }

  /** The corrected compressor's stream is the magic number, the preorder
      header and the payload written with the trie's code table. */
  lemma CompressedStreamOfTable(t: Tree, input: seq<bool>)
    requires forall v :: v in Leaves(t) <==> v == PSEUDO_EOF || (0 <= v < ALPH_SIZE && v in Bytes(input))
    ensures EncodePayload(CodeTable(t), input).Ok?
    ensures CompressedStream(t, input) == MagicBits() + PreorderHeader(t) + EncodePayload(CodeTable(t), input).value
  {
    BytesInRange(input);
    assert forall i :: 0 <= i < |Bytes(input)| ==> Bytes(input)[i] in Bytes(input);
    EncodeWithCodeTable(t, input);
  }

  lemma RoundTripAnyPadding(t: Tree, input: seq<bool>)
    requires forall v :: v in Leaves(t) <==> v == PSEUDO_EOF || (0 <= v < ALPH_SIZE && v in Bytes(input))
    ensures forall padding :: DecompressCorrected(CompressedStream(t, input) + padding) == Ok(input[..8 * (|input| / 8)])
  {
    forall padding ensures DecompressCorrected(CompressedStream(t, input) + padding) == Ok(input[..8 * (|input| / 8)]) {
      RoundTrip(t, input, padding);
    }
  }

  /** `compress` as intended: the preorder header and the input-driven
      payload. Decompressing its output, followed by any padding, gives back
      every whole byte of the input. */
  method CompressCorrected(input: seq<bool>) returns (r: seq<bool>, ghost tree: Tree)
    ensures forall v :: v in Leaves(tree) <==> v == PSEUDO_EOF || (0 <= v < ALPH_SIZE && v in Bytes(input))
    ensures r == CompressedStream(tree, input)
    ensures forall padding :: DecompressCorrected(r + padding) == Ok(input[..8 * (|input| / 8)])
  {
    var counts, rest := ReadForCounts(input);
    var built, merges := MakeTreeFromCounts(counts);
    CountsGiveLeaves(counts[..], input);
    if built.Err? {
      assert false;
    }
    var root := built.value.tree;
    tree := root;
    BuiltTreeLeaves(root, counts[..]);
    var codings := MakeCodingsFromTree(root);
    var payload := WriteCodes(codings, input);
    CompressedStreamOfTable(root, input);
    r := MagicBits() + PreorderHeader(root) + payload.value;
    RoundTripAnyPadding(root, input);
  }
}
