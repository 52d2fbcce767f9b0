/** The tree header: how the trie is written after the magic number and how
    it is read back. */
module Header {
  import opened Bits
  import opened Huff

  /** The bits `writeHead` emits for one leaf: a 1 bit and the value in
      BITS_PER_WORD + 1 bits. */
  function LeafRecord(v: int): (b: seq<bool>)
    ensures |b| == BITS_PER_WORD + 2 && b[0]
  {
    [true] + WriteBits(BITS_PER_WORD + 1, v)
  }

  /** Model of `writeHead`, as written: a leaf emits its record, an internal
      node emits nothing of its own before its children. */
  function WriteHead(t: Tree): (b: seq<bool>)
    ensures |b| == (BITS_PER_WORD + 2) * |Leaves(t)|
  {
    match t
    case Leaf(v) => LeafRecord(v)
    case Node(l, r) => WriteHead(l) + WriteHead(r)
  }

  /** The records of the values in `s`, in order. */
  function LeafRecords(s: seq<int>): (b: seq<bool>)
    ensures |b| == (BITS_PER_WORD + 2) * |s|
  {
    if s == [] then [] else LeafRecord(s[0]) + LeafRecords(s[1..])
  }

  lemma {:induction false} LeafRecordsAppend(a: seq<int>, b: seq<int>)
    ensures LeafRecords(a + b) == LeafRecords(a) + LeafRecords(b)
  {
    if a == [] {
      assert a + b == b;
    } else {
      assert (a + b)[0] == a[0];
      assert (a + b)[1..] == a[1..] + b;
      LeafRecordsAppend(a[1..], b);
    }
  }

  /** `writeHead` emits exactly one record per leaf, in left-to-right order,
      and nothing for the internal nodes. */
  lemma {:induction false} WriteHeadIsLeafRecords(t: Tree)
    ensures WriteHead(t) == LeafRecords(Leaves(t))
  {
    match t
    case Leaf(v) =>
      assert LeafRecords([v]) == LeafRecord(v) + LeafRecords([]);
    case Node(l, r) =>
      WriteHeadIsLeafRecords(l);
      WriteHeadIsLeafRecords(r);
      LeafRecordsAppend(Leaves(l), Leaves(r));
  }

  /** The preorder header `readTreeHeader` parses: a 0 bit and both subtrees
      for an internal node, a leaf record for a leaf. This is the format the
      commented-out body of `writeHead` and the reader agree on. */
  function PreorderHeader(t: Tree): (b: seq<bool>)
    ensures |b| == (BITS_PER_WORD + 2) * |Leaves(t)| + InternalCount(t)
  {
    match t
    case Leaf(v) => LeafRecord(v)
    case Node(l, r) => [false] + PreorderHeader(l) + PreorderHeader(r)
  }

  /** `writeHead` agrees with the preorder format exactly for a single-leaf
      tree. */
  lemma WriteHeadMatchesPreorderOnlyForLeaf(t: Tree)
    ensures WriteHead(t) == PreorderHeader(t) <==> t.Leaf?
  {
    if t.Node? {
      WriteHeadStartsWithOne(t);
      assert PreorderHeader(t)[0] == false;
    }
  }

  /** Every header `writeHead` emits begins with a 1 bit. */
  lemma {:induction false} WriteHeadStartsWithOne(t: Tree)
    ensures |WriteHead(t)| >= 1 && WriteHead(t)[0]
  {
    match t
    case Leaf(_) =>
    case Node(l, r) =>
      WriteHeadStartsWithOne(l);
  }

  /** Model of `readTreeHeader`: the tree read from the front of the stream
      and the rest of the stream. A 1-bit read that finds the end throws
      `HeaderEnd`; the 9-bit value read is not checked, so a leaf cut short
      gets the sentinel -1 as its value. */
  function ReadTreeHeader(input: seq<bool>): (r: Result<(Tree, seq<bool>)>)
    ensures r.Ok? ==> |r.value.1| < |input|
    ensures r.Err? ==> r.error == HeaderEnd
    decreases |input|
  {
    var (bit, rest) := ReadBit(input);
    if bit == -1 then Err(HeaderEnd)
    else if bit == 0 then
      match ReadTreeHeader(rest)
      case Err(e) => Err(e)
      case Ok((left, rest')) =>
        match ReadTreeHeader(rest')
        case Err(e) => Err(e)
        case Ok((right, rest'')) => Ok((Node(left, right), rest''))
    else
      var (value, rest') := ReadBits(rest, BITS_PER_WORD + 1);
      Ok((Leaf(value), rest'))
  }

  /** `suffix` is what is left of `input` after some bits were read. */
  predicate IsSuffix(suffix: seq<bool>, input: seq<bool>)
  {
    |suffix| <= |input| && suffix == input[|input| - |suffix|..]
  }

  /** What `readTreeHeader` leaves unread is a proper suffix of its input;
      the empty stream throws, and a 1 bit not followed by nine more gives
      the leaf -1 and an exhausted stream. */
  lemma {:induction false} ReadTreeHeaderEdges(input: seq<bool>)
    ensures ReadTreeHeader(input).Ok? ==> IsSuffix(ReadTreeHeader(input).value.1, input)
    ensures input == [] ==> ReadTreeHeader(input) == Err(HeaderEnd)
    ensures input != [] && input[0] && |input| < 1 + (BITS_PER_WORD + 1) ==> ReadTreeHeader(input) == Ok((Leaf(-1), []))
    decreases |input|
  {
    var r := ReadTreeHeader(input);
    if r.Ok? {
      var (bit, rest) := ReadBit(input);
      assert rest == input[1..];
      if bit == 0 {
        ReadTreeHeaderEdges(rest);
        var rest' := ReadTreeHeader(rest).value.1;
        ReadTreeHeaderEdges(rest');
        SuffixOfSuffix(r.value.1, rest', rest);
        SuffixOfSuffix(r.value.1, rest, input);
      } else {
        if |rest| >= BITS_PER_WORD + 1 {
          assert r.value.1 == rest[BITS_PER_WORD + 1..];
        }
      }
    }
  }

  lemma SuffixOfSuffix(a: seq<bool>, b: seq<bool>, c: seq<bool>)
    requires IsSuffix(a, b) && IsSuffix(b, c)
    ensures IsSuffix(a, c)
  {
  }

  /** `readTreeHeader` inverts the preorder header: reading the header of `t`
      gives `t` back and leaves exactly what followed the header. */
  lemma {:induction false} ReadInvertsPreorder(t: Tree, rest: seq<bool>)
    requires LeavesWithin(t, 0, Pow2(BITS_PER_WORD + 1))
    ensures ReadTreeHeader(PreorderHeader(t) + rest) == Ok((t, rest))
  {
    match t
    case Leaf(v) =>
      assert v in Leaves(t);
      ReadLeafRecord(v, rest);
    case Node(l, r) =>
      LeavesWithinChildren(l, r, 0, Pow2(BITS_PER_WORD + 1));
      ReadInvertsPreorder(l, PreorderHeader(r) + rest);
      ReadInvertsPreorder(r, rest);
      NodeHeaderShape(l, r, rest);
      ReadNodeHeader(PreorderHeader(t) + rest, l, PreorderHeader(r) + rest, r, rest);
  }

  /** A leaf record reads as its leaf. */
  lemma ReadLeafRecord(v: int, rest: seq<bool>)
    requires 0 <= v < Pow2(BITS_PER_WORD + 1)
    ensures ReadTreeHeader(LeafRecord(v) + rest) == Ok((Leaf(v), rest))
  {
    var field := WriteBits(BITS_PER_WORD + 1, v);
    var input := LeafRecord(v) + rest;
    assert input == [true] + (field + rest);
    assert input[1..] == field + rest;
    assert (field + rest)[..BITS_PER_WORD + 1] == field;
    assert (field + rest)[BITS_PER_WORD + 1..] == rest;
  }

  /** A 0 bit followed by a header of `l`, read up to `mid`, and a header of
      `r` read from there, reads as their parent. */
  lemma ReadNodeHeader(input: seq<bool>, l: Tree, mid: seq<bool>, r: Tree, rest: seq<bool>)
    requires input != [] && !input[0]
    requires ReadTreeHeader(input[1..]) == Ok((l, mid))
    requires ReadTreeHeader(mid) == Ok((r, rest))
    ensures ReadTreeHeader(input) == Ok((Node(l, r), rest))
  {
  }

  /** The preorder header of a node: a 0 bit, then the children's headers. */
  lemma NodeHeaderShape(l: Tree, r: Tree, rest: seq<bool>)
    ensures PreorderHeader(Node(l, r)) + rest != [] && !(PreorderHeader(Node(l, r)) + rest)[0]
    ensures (PreorderHeader(Node(l, r)) + rest)[1..] == PreorderHeader(l) + (PreorderHeader(r) + rest)
  {
    ConsShape(PreorderHeader(l), PreorderHeader(r), rest);
  }

  lemma ConsShape(a: seq<bool>, b: seq<bool>, rest: seq<bool>)
    ensures ([false] + a + b) + rest != [] && !(([false] + a + b) + rest)[0]
    ensures (([false] + a + b) + rest)[1..] == a + (b + rest)
  {
    assert ([false] + a + b) + rest == [false] + (a + (b + rest));
  }

  lemma Assoc(a: seq<bool>, b: seq<bool>, c: seq<bool>)
    ensures a + b + c == a + (b + c)
  {
  }

  lemma LeavesWithinChildren(l: Tree, r: Tree, lo: int, hi: int)
    requires LeavesWithin(Node(l, r), lo, hi)
    ensures LeavesWithin(l, lo, hi) && LeavesWithin(r, lo, hi)
  {
    assert forall x :: x in Leaves(l) || x in Leaves(r) ==> x in Leaves(Node(l, r));
  }

  /** What `readTreeHeader` makes of `writeHead`'s output: the first leaf's
      record reads as a whole tree, so any tree with an internal node is lost. */
  lemma WriteHeadReadsAsFirstLeaf(t: Tree, rest: seq<bool>)
    requires LeavesWithin(t, 0, Pow2(BITS_PER_WORD + 1))
    ensures ReadTreeHeader(WriteHead(t) + rest) == Ok((Leaf(Leaves(t)[0]), LeafRecords(Leaves(t)[1..]) + rest))
    ensures t.Node? ==> ReadTreeHeader(WriteHead(t) + rest) != Ok((t, rest))
  {
    var leaves := Leaves(t);
    WriteHeadIsLeafRecords(t);
    assert leaves[0] in leaves;
    var first, others := LeafRecord(leaves[0]), LeafRecords(leaves[1..]);
    assert WriteHead(t) == first + others;
    Assoc(first, others, rest);
    ReadLeafRecord(leaves[0], others + rest);
  }
}
