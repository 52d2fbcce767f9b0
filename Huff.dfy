/** The vocabulary shared by every part of the codec: the constants of
    `HuffProcessor`, its error outcomes, and the trie. */
module Huff {
  import opened Bits

  const BITS_PER_WORD: nat := 8
  const BITS_PER_INT: nat := 32
  /** 1 << BITS_PER_WORD */
  const ALPH_SIZE: nat := 256
  const PSEUDO_EOF: nat := ALPH_SIZE
  const HUFF_NUMBER: bv32 := 0xface8200
  /** HUFF_NUMBER | 1, taken as the unsigned 32-bit pattern that
      `readBits(32)` and `writeBits(32, ...)` carry. */
  const HUFF_TREE: nat := (HUFF_NUMBER | 1) as nat

  /** The 32 bits that open every compressed stream. */
  function MagicBits(): (b: seq<bool>)
    ensures |b| == BITS_PER_INT
    ensures BitsToNat(b) == 0xface8201
  {
    assert HUFF_TREE == 0xface8201;
    Pow2Int();
    WriteBits(BITS_PER_INT, HUFF_TREE)
  }

  /** The ways an operation of the codec can fail: the three `HuffException`
      messages and the Java runtime exceptions the code can raise. */
  datatype Failure =
    | BadMagic          // "illegal header starts with ..."
    | HeaderEnd         // "readBits method returns -1."
    | NoPseudoEof       // "bad input, no PSEUDO_EOF"
    | NullDereference   // NullPointerException
    | EmptyQueue        // NoSuchElementException from PriorityQueue.remove
    | NumberFormat      // NumberFormatException from Integer.parseInt

  datatype Result<T> = Ok(value: T) | Err(error: Failure)

  /** A Java reference that may be null. */
  datatype Option<T> = None | Some(value: T)

  /** The trie. A leaf is a node whose two children are null; every other
      node has two children, so each tree is full by construction. */
  datatype Tree = Leaf(value: int) | Node(left: Tree, right: Tree)

  /** Leaf values, left to right. */
  function Leaves(t: Tree): (s: seq<int>)
    ensures |s| >= 1
  {
    match t
    case Leaf(v) => [v]
    case Node(l, r) => Leaves(l) + Leaves(r)
  }

  function InternalCount(t: Tree): nat
  {
    match t
    case Leaf(_) => 0
    case Node(l, r) => 1 + InternalCount(l) + InternalCount(r)
  }

  /** A full binary tree with L leaves has L - 1 internal nodes, and a tree
      with two or more leaves has an internal root. */
  lemma {:induction false} InternalCountLaw(t: Tree)
    ensures InternalCount(t) == |Leaves(t)| - 1
    ensures |Leaves(t)| >= 2 <==> t.Node?
  {
    match t
    case Leaf(_) =>
    case Node(l, r) =>
      InternalCountLaw(l);
      InternalCountLaw(r);
  }

  /** Every value occurs at most once. */
  ghost predicate Distinct(s: seq<int>)
  {
    forall x :: multiset(s)[x] <= 1
  }

  /** Every leaf value is in [lo, hi). */
  ghost predicate LeavesWithin(t: Tree, lo: int, hi: int)
  {
    forall v :: v in Leaves(t) ==> lo <= v < hi
  }
}
