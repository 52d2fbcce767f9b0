/** The payload: how `writeCompressedBits` writes codes and how
    `readCompressedBits` decodes them. */
module Payload {
  import opened Bits
  import opened Huff
  import opened Codes

  /** The bits a code stands for: '1' is a 1 bit, anything else a 0 bit. */
  function CodeBits(c: string): (b: seq<bool>)
    ensures |b| == |c|
  {
    if c == [] then [] else [c[0] == '1'] + CodeBits(c[1..])
  }

  lemma {:induction false} CodeBitsAppend(a: string, b: string)
    ensures CodeBits(a + b) == CodeBits(a) + CodeBits(b)
  {
    if a == [] {
      assert a + b == b;
    } else {
      assert (a + b)[0] == a[0];
      assert (a + b)[1..] == a[1..] + b;
      CodeBitsAppend(a[1..], b);
    }
  }

  /** Model of `Integer.parseInt(s, 2)`: an optional sign and at least one
      binary digit, whose value must fit a 32-bit `int`; anything else throws
      `NumberFormatException`. */
  function ParseBinary(s: string): (r: Result<int>)
    ensures r.Ok? ==> -0x8000_0000 <= r.value < 0x8000_0000
    ensures r.Err? ==> r.error == NumberFormat
  {
    if s == [] then Err(NumberFormat)
    else
      var digits := if s[0] == '-' || s[0] == '+' then s[1..] else s;
      if digits == [] || !IsCode(digits) then Err(NumberFormat)
      else
        var magnitude: int := BitsToNat(CodeBits(digits));
        var value := if s[0] == '-' then -magnitude else magnitude;
        if -0x8000_0000 <= value < 0x8000_0000 then Ok(value) else Err(NumberFormat)
  }

  /** The bits one iteration of `writeCompressedBits` writes for an entry of
      the table: `writeBits(chunk.length(), Integer.parseInt(chunk, 2))`. The
      length is taken first, so a null entry throws `NullPointerException`. */
  function WriteChunk(chunk: Option<string>): (r: Result<seq<bool>>)
    ensures r.Err? ==> r.error == if chunk.None? then NullDereference else NumberFormat
    ensures r.Ok? ==> chunk.Some? && |r.value| == |chunk.value|
  {
    match chunk
    case None => Err(NullDereference)
    case Some(c) =>
      match ParseBinary(c)
      case Err(e) => Err(e)
      case Ok(value) => Ok(WriteBits(|c|, value))
  }

  /** A code of 1 to 31 characters is written as its own bits; the empty code
      throws `NumberFormatException`. */
  lemma ChunkOfCode(c: string)
    requires IsCode(c)
    ensures c == "" ==> WriteChunk(Some(c)) == Err(NumberFormat)
    ensures 1 <= |c| <= 31 ==> WriteChunk(Some(c)) == Ok(CodeBits(c))
  {
    if 1 <= |c| <= 31 {
      assert c[0] != '-' && c[0] != '+';
      var b := CodeBits(c);
      Pow2Int();
      Pow2Monotone(|c|, 31);
      WriteBitsOfValue(b);
    }
  }

  lemma {:induction false} Pow2Monotone(a: nat, b: nat)
    requires a <= b
    ensures Pow2(a) <= Pow2(b)
  {
    if a < b {
      Pow2Monotone(a, b - 1);
    }
  }

  /** The outcomes of successive writes joined: all the bits, or the first
      exception, which ends the loop. */
  function JoinChunks(chunks: seq<Result<seq<bool>>>): Result<seq<bool>>
  {
    if chunks == [] then Ok([])
    else
      match JoinChunks(chunks[..|chunks| - 1])
      case Err(e) => Err(e)
      case Ok(written) =>
        match chunks[|chunks| - 1]
        case Err(e) => Err(e)
        case Ok(bits) => Ok(written + bits)
  }

  /** The bits `writeCompressedBits` writes for a whole table, entry by entry
      in index order. */
  function TableBits(table: seq<Option<string>>): Result<seq<bool>>
  {
    JoinChunks(Chunks(table))
  }

  /** The outcome of each entry's write. */
  function Chunks(table: seq<Option<string>>): (chunks: seq<Result<seq<bool>>>)
    ensures |chunks| == |table|
    ensures forall i :: 0 <= i < |table| ==> chunks[i] == WriteChunk(table[i])
  {
    if table == [] then [] else [WriteChunk(table[0])] + Chunks(table[1..])
  }

  /** The joined writes succeed exactly when every write does. */
  lemma {:induction false} JoinChunksSucceeds(chunks: seq<Result<seq<bool>>>)
    ensures JoinChunks(chunks).Ok? <==> forall i :: 0 <= i < |chunks| ==> chunks[i].Ok?
  {
    if chunks != [] {
      var init := chunks[..|chunks| - 1];
      JoinChunksSucceeds(init);
      assert forall i :: 0 <= i < |init| ==> init[i] == chunks[i];
    }
  }

  /** The table is written without error exactly when every entry is. */
  lemma TableBitsSucceeds(table: seq<Option<string>>)
    ensures TableBits(table).Ok? <==> forall i :: 0 <= i < |table| ==> WriteChunk(table[i]).Ok?
  {
    JoinChunksSucceeds(Chunks(table));
  }

  /** Once a prefix of the writes throws, the whole loop throws the same. */
  lemma {:induction false} JoinErrorSticks(chunks: seq<Result<seq<bool>>>, n: nat)
    requires n <= |chunks| && JoinChunks(chunks[..n]).Err?
    ensures JoinChunks(chunks) == JoinChunks(chunks[..n])
    decreases |chunks| - n
  {
    if n < |chunks| {
      assert chunks[..n + 1][..n] == chunks[..n];
      JoinErrorSticks(chunks, n + 1);
    } else {
      assert chunks[..n] == chunks;
    }
  }

  /** One more write joined to the writes before it. */
  lemma JoinStep(chunks: seq<Result<seq<bool>>>, i: nat, written: seq<bool>)
    requires i < |chunks| && JoinChunks(chunks[..i]) == Ok(written)
    ensures JoinChunks(chunks[..i + 1]) == match chunks[i] case Err(e) => Err(e) case Ok(bits) => Ok(written + bits)
  {
    assert chunks[..i + 1][..i] == chunks[..i];
  }

  /** Model of `writeCompressedBits(codings, in, out)`. It never reads `in`:
      it writes the codes of the table itself, in index order. Returns the
      bits written, or the exception the first bad entry throws. */
  method WriteCompressedBits(codings: array<Option<string>>, input: seq<bool>) returns (r: Result<seq<bool>>)
    ensures r == TableBits(codings[..])
  {
    ghost var chunks := Chunks(codings[..]);
    var written: seq<bool> := [];
    for i := 0 to codings.Length
      invariant JoinChunks(chunks[..i]) == Ok(written)
    {
      var chunk := WriteChunk(codings[i]);
      JoinStep(chunks, i, written);
      if chunk.Err? {
        JoinErrorSticks(chunks, i + 1);
        return Err(chunk.error);
      }
      written := written + chunk.value;
    }
    assert chunks[..codings.Length] == chunks;
    r := Ok(written);
  }

  /** The table `makeCodingsFromTree` builds is written without error only
      when every value 0..256 is a leaf, so a compressed stream is produced
      only for inputs that hold all 256 byte values. */
  lemma CodeTableNeedsFullAlphabet(t: Tree)
    requires TableBits(CodeTable(t)).Ok?
    ensures forall v :: 0 <= v <= ALPH_SIZE ==> v in Leaves(t)
  {
    TableBitsSucceeds(CodeTable(t));
    forall v | 0 <= v <= ALPH_SIZE ensures v in Leaves(t) {
      assert WriteChunk(CodeTable(t)[v]).Ok?;
    }
  }

  /** The child a bit selects (0 left, otherwise right), or `None` where the
      node is a leaf and its children are null. */
  function Step(current: Tree, bit: int): Option<Tree>
  {
    match current
    case Leaf(_) => None
    case Node(l, r) => Some(if bit == 0 then l else r)
  }

  /** The outcome of decoding: the values written and the unread rest. */
  type Decoded = Result<(seq<int>, seq<bool>)>

  /** `vals` followed by what `d` writes. */
  function Prepend(vals: seq<int>, d: Decoded): Decoded
  {
    match d
    case Err(e) => Err(e)
    case Ok((more, rest)) => Ok((vals + more, rest))
  }

  /** The loop of `readCompressedBits` from node `current`: the values it
      writes and what is left of the stream after the pseudo-EOF leaf. The
      end of the stream throws `NoPseudoEof`; a step from a leaf dereferences
      null, which can happen only when the root is a leaf, since the walk
      restarts at the root after every leaf. */
  function DecodeFrom(root: Tree, current: Tree, input: seq<bool>): (d: Decoded)
    ensures d.Ok? ==> |d.value.1| < |input|
    ensures d.Err? ==> d.error == NoPseudoEof || d.error == NullDereference
    ensures root.Node? && current.Node? && d.Err? ==> d.error == NoPseudoEof
    decreases |input|
  {
    var (bit, rest) := ReadBit(input);
    if bit == -1 then Err(NoPseudoEof)
    else
      match Step(current, bit)
      case None => Err(NullDereference)
      case Some(next) =>
        if next.Node? then DecodeFrom(root, next, rest)
        else if next.value == PSEUDO_EOF then Ok(([], rest))
        else Prepend([next.value], DecodeFrom(root, root, rest))
  }

  /** Decoding from the root: it consumes at least one bit when it succeeds;
      it fails only at the end of the stream or on a null child, and only at
      the end of the stream when the root is internal. */
  function Decode(root: Tree, input: seq<bool>): (d: Decoded)
    ensures d.Ok? ==> |d.value.1| < |input|
    ensures d.Err? ==> d.error == NoPseudoEof || d.error == NullDereference
    ensures root.Node? && d.Err? ==> d.error == NoPseudoEof
  {
    DecodeFrom(root, root, input)
  }

  /** What `readCompressedBits` writes to the output stream: each value as
      8 bits, and the rest of the input. */
  function Emitted(d: Decoded): Result<(seq<bool>, seq<bool>)>
  {
    match d
    case Err(e) => Err(e)
    case Ok((vals, rest)) => Ok((BytesToBits(vals), rest))
  }

  lemma {:induction false} BytesToBitsAppend(a: seq<int>, b: seq<int>)
    ensures BytesToBits(a + b) == BytesToBits(a) + BytesToBits(b)
  {
    if a == [] {
      assert a + b == b;
    } else {
      assert (a + b)[0] == a[0];
      assert (a + b)[1..] == a[1..] + b;
      BytesToBitsAppend(a[1..], b);
    }
  }

  lemma PrependTwice(a: seq<int>, b: seq<int>, d: Decoded)
    ensures Prepend(a, Prepend(b, d)) == Prepend(a + b, d)
  {
    if d.Ok? {
      assert a + (b + d.value.0) == a + b + d.value.0;
    }
  }

  /** Model of `readCompressedBits(root, in, out)`: walks the trie one bit
      at a time, writes a leaf's value in 8 bits and restarts at the root,
      and stops after the pseudo-EOF leaf. Returns the bits written and the
      rest of the input. */
  method ReadCompressedBits(root: Tree, input: seq<bool>) returns (r: Result<(seq<bool>, seq<bool>)>)
    ensures r == Emitted(Decode(root, input))
  {
    var current := root;
    var rest := input;
    var written: seq<bool> := [];
    ghost var values: seq<int> := [];
    assert Prepend(values, Decode(root, input)) == Decode(root, input) by {
      if Decode(root, input).Ok? {
        assert [] + Decode(root, input).value.0 == Decode(root, input).value.0;
      }
    }
    while true
      invariant Decode(root, input) == Prepend(values, DecodeFrom(root, current, rest))
      invariant written == BytesToBits(values)
      decreases |rest|
    {
      var (bit, next) := ReadBit(rest);
      if bit == -1 {
        return Err(NoPseudoEof);
      }
      rest := next;
      if current.Leaf? {
        return Err(NullDereference);
      }
      current := if bit == 0 then current.left else current.right;
      if current.Leaf? {
        if current.value == PSEUDO_EOF {
          assert values + [] == values;
          return Ok((written, rest));
        }
        PrependTwice(values, [current.value], DecodeFrom(root, root, rest));
        BytesToBitsAppend(values, [current.value]);
        assert BytesToBits([current.value]) == WriteBits(BITS_PER_WORD, current.value) + BytesToBits([]);
        written := written + WriteBits(BITS_PER_WORD, current.value);
        values := values + [current.value];
        current := root;
      }
    }
  }

  /** The codes of the symbols of `s`, one after another. */
  function SymbolsBits(t: Tree, s: seq<int>): seq<bool>
    requires forall i :: 0 <= i < |s| ==> s[i] in Leaves(t)
  {
    if s == [] then [] else CodeBits(CodeOf(t, s[0])) + SymbolsBits(t, s[1..])
  }

  /** From an internal node, the bits of the path to `v` lead to the leaf `v`:
      decoding stops there if `v` is the pseudo-EOF, and otherwise writes `v`
      and goes on from the root. */
  lemma {:induction false} DecodeCode(root: Tree, current: Tree, v: int, rest: seq<bool>)
    requires current.Node? && v in Leaves(current)
    ensures DecodeFrom(root, current, CodeBits(CodeOf(current, v)) + rest)
         == if v == PSEUDO_EOF then Ok(([], rest)) else Prepend([v], Decode(root, rest))
  {
    var child := CodeFirstStep(current, v, rest);
    if child.Node? {
      DecodeCode(root, child, v, rest);
    } else {
      assert child == Leaf(v);
    }
  }

  /** The first bit of `v`'s code steps from `current` to the child that
      holds `v`, and the rest of the code is the path from there. */
  lemma CodeFirstStep(current: Tree, v: int, rest: seq<bool>) returns (child: Tree)
    requires current.Node? && v in Leaves(current)
    ensures child == current.left || child == current.right
    ensures v in Leaves(child)
    ensures var (bit, after) := ReadBit(CodeBits(CodeOf(current, v)) + rest);
            bit != -1 && Step(current, bit) == Some(child) && after == CodeBits(CodeOf(child, v)) + rest
  {
    child := if v in Leaves(current.right) then current.right else current.left;
    var code := CodeOf(current, v);
    var input := CodeBits(code) + rest;
    assert code[1..] == CodeOf(child, v);
    assert input[0] == (code[0] == '1');
    assert input[1..] == CodeBits(CodeOf(child, v)) + rest;
  }

  /** Decoding the codes of `s` and then the pseudo-EOF's code writes `s`
      and stops right after that last code, leaving `rest` unread. */
  lemma {:induction false} DecodeOfEncoded(t: Tree, s: seq<int>, rest: seq<bool>)
    requires t.Node? && PSEUDO_EOF in Leaves(t)
    requires forall i :: 0 <= i < |s| ==> s[i] in Leaves(t) && s[i] != PSEUDO_EOF
    ensures Decode(t, SymbolsBits(t, s) + (CodeBits(CodeOf(t, PSEUDO_EOF)) + rest)) == Ok((s, rest))
  {
    var after := CodeBits(CodeOf(t, PSEUDO_EOF)) + rest;
    if s == [] {
      assert SymbolsBits(t, s) + after == after;
      DecodeCode(t, t, PSEUDO_EOF, rest);
    } else {
      DecodeOfEncoded(t, s[1..], rest);
      DecodeNext(t, s, after);
      assert [s[0]] + s[1..] == s;
    }
  }

  /** Decoding the codes of a non-empty `s` writes its first symbol and goes
      on with the codes of the others. */
  lemma DecodeNext(t: Tree, s: seq<int>, after: seq<bool>)
    requires t.Node? && s != [] && s[0] != PSEUDO_EOF
    requires forall i :: 0 <= i < |s| ==> s[i] in Leaves(t)
    ensures Decode(t, SymbolsBits(t, s) + after) == Prepend([s[0]], Decode(t, SymbolsBits(t, s[1..]) + after))
  {
    SymbolsCons(t, s, s[1..], after);
    DecodeCode(t, t, s[0], SymbolsBits(t, s[1..]) + after);
  }

  /** The codes of a non-empty sequence, followed by `last`, are the first
      code followed by the codes of the rest and `last`. */
  lemma SymbolsCons(t: Tree, s: seq<int>, tail: seq<int>, last: seq<bool>)
    requires s != [] && tail == s[1..] && forall i :: 0 <= i < |s| ==> s[i] in Leaves(t)
    ensures SymbolsBits(t, s) + last == CodeBits(CodeOf(t, s[0])) + (SymbolsBits(t, tail) + last)
  {
  }


  /** A stream that stops inside a code, before its leaf is reached, throws
      `NoPseudoEof`. */
  lemma {:induction false} DecodeCodePrefix(root: Tree, current: Tree, v: int, partial: seq<bool>)
    requires current.Node? && v in Leaves(current)
    requires partial < CodeBits(CodeOf(current, v))
    ensures DecodeFrom(root, current, partial) == Err(NoPseudoEof)
  {
    if partial != [] {
      var child := if v in Leaves(current.right) then current.right else current.left;
      var code := CodeOf(current, v);
      assert code[1..] == CodeOf(child, v);
      assert CodeBits(code) == [code[0] == '1'] + CodeBits(CodeOf(child, v));
      assert partial[0] == (code[0] == '1');
      assert Step(current, ReadBit(partial).0) == Some(child);
      assert partial[1..] < CodeBits(CodeOf(child, v));
      DecodeCodePrefix(root, child, v, partial[1..]);
    }
  }

  /** Truncation is detected: if the stream ends inside the code of any leaf
      after whole codes of symbols, decoding throws `NoPseudoEof`. */
  lemma {:induction false} DecodeDetectsTruncation(t: Tree, s: seq<int>, v: int, partial: seq<bool>)
    requires t.Node? && v in Leaves(t)
    requires forall i :: 0 <= i < |s| ==> s[i] in Leaves(t) && s[i] != PSEUDO_EOF
    requires partial < CodeBits(CodeOf(t, v))
    ensures Decode(t, SymbolsBits(t, s) + partial) == Err(NoPseudoEof)
  {
    if s == [] {
      assert SymbolsBits(t, s) + partial == partial;
      DecodeCodePrefix(t, t, v, partial);
    } else {
      var tail := SymbolsBits(t, s[1..]) + partial;
      assert SymbolsBits(t, s) + partial == CodeBits(CodeOf(t, s[0])) + tail;
      DecodeCode(t, t, s[0], tail);
      DecodeDetectsTruncation(t, s[1..], v, partial);
    }
  }

  /** As written, a trie that is a single leaf cannot be decoded: the first
      bit steps to a null child, and the empty stream has no pseudo-EOF. */
  lemma LeafRootFails(v: int, input: seq<bool>)
    ensures input != [] ==> Decode(Leaf(v), input) == Err(NullDereference)
    ensures input == [] ==> Decode(Leaf(v), input) == Err(NoPseudoEof)
  {
  }
}
