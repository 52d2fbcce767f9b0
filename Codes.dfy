/** The code table: each symbol's root-to-leaf path in the trie. */
module Codes {
  import opened Huff

  /** A code is a Java string of '0' (left) and '1' (right) characters. */
  predicate IsCode(c: string)
  {
    forall i :: 0 <= i < |c| ==> c[i] == '0' || c[i] == '1'
  }

  /** The path `codingHelper` records for `v`: the path to the rightmost leaf
      with value `v`, since a later leaf overwrites an earlier entry. */
  function CodeOf(t: Tree, v: int): (c: string)
    requires v in Leaves(t)
    ensures IsCode(c)
  {
    match t
    case Leaf(_) => ""
    case Node(l, r) => if v in Leaves(r) then "1" + CodeOf(r, v) else "0" + CodeOf(l, v)
  }

  /** The node reached from `t` by following `path` ('0' left, any other
      character right), or `None` when the path steps below a leaf, where
      `myLeft` and `myRight` are null. */
  function Walk(t: Tree, path: string): Option<Tree>
  {
    if path == [] then Some(t)
    else match t
      case Leaf(_) => None
      case Node(l, r) => Walk(if path[0] == '0' then l else r, path[1..])
  }

  /** Following `v`'s code leads to the leaf `v`: the code is its
      root-to-leaf path, and its length is that leaf's depth. */
  lemma {:induction false} CodeOfLeadsToLeaf(t: Tree, v: int)
    requires v in Leaves(t)
    ensures Walk(t, CodeOf(t, v)) == Some(Leaf(v))
  {
    match t
    case Leaf(_) =>
    case Node(l, r) =>
      var c := CodeOf(t, v);
      if v in Leaves(r) {
        CodeOfLeadsToLeaf(r, v);
        assert c[1..] == CodeOf(r, v);
      } else {
        CodeOfLeadsToLeaf(l, v);
        assert c[1..] == CodeOf(l, v);
      }
  }

  /** Walking past a leaf fails. */
  lemma {:induction false} WalkBeyondLeaf(t: Tree, path: string, more: string, x: int)
    requires Walk(t, path) == Some(Leaf(x)) && more != []
    ensures Walk(t, path + more) == None
    decreases |path|
  {
    if path == [] {
      assert path + more == more;
    } else {
      var next := if path[0] == '0' then t.left else t.right;
      assert (path + more)[0] == path[0];
      assert (path + more)[1..] == path[1..] + more;
      WalkBeyondLeaf(next, path[1..], more, x);
    }
  }

  /** Walking an extension of a path that ends at a leaf leaves the trie,
      unless the extension is empty. */
  lemma WalkExtension(t: Tree, path: string, longer: string, x: int)
    requires Walk(t, path) == Some(Leaf(x)) && path <= longer
    ensures Walk(t, longer) == if |longer| == |path| then Some(Leaf(x)) else None
  {
    if |longer| == |path| {
      assert longer == path;
    } else {
      assert longer == path + longer[|path|..];
      WalkBeyondLeaf(t, path, longer[|path|..], x);
    }
  }

  /** No symbol's code is a prefix of another symbol's code. */
  lemma {:induction false} CodesPrefixFree(t: Tree, v: int, w: int)
    requires v in Leaves(t) && w in Leaves(t) && v != w
    ensures !(CodeOf(t, v) <= CodeOf(t, w))
  {
    var cv, cw := CodeOf(t, v), CodeOf(t, w);
    CodeOfLeadsToLeaf(t, v);
    CodeOfLeadsToLeaf(t, w);
    if cv <= cw {
      WalkExtension(t, cv, cw, v);
      assert false;
    }
  }

  /** The contents of the table `makeCodingsFromTree` returns: entry `i` holds
      `i`'s code when `i` is a leaf value, and null otherwise. */
  function CodeTable(t: Tree): (table: seq<Option<string>>)
    ensures |table| == ALPH_SIZE + 1
  {
    seq(ALPH_SIZE + 1, i requires 0 <= i <= ALPH_SIZE => if i in Leaves(t) then Some(CodeOf(t, i)) else None)
  }

  /** Entry `i` of the table is set exactly when `i` is a leaf, and then it is
      the path to that leaf. */
  lemma CodeTableEntries(t: Tree, i: int)
    requires 0 <= i <= ALPH_SIZE
    ensures CodeTable(t)[i].Some? <==> i in Leaves(t)
    ensures CodeTable(t)[i].Some? ==> IsCode(CodeTable(t)[i].value) && Walk(t, CodeTable(t)[i].value) == Some(Leaf(i))
  {
    if i in Leaves(t) {
      CodeOfLeadsToLeaf(t, i);
    }
  }

  /** The non-null entries are prefix-free. */
  lemma CodeTablePrefixFree(t: Tree, i: int, j: int)
    requires 0 <= i <= ALPH_SIZE && 0 <= j <= ALPH_SIZE && i != j
    requires CodeTable(t)[i].Some? && CodeTable(t)[j].Some?
    ensures !(CodeTable(t)[i].value <= CodeTable(t)[j].value)
  {
    CodesPrefixFree(t, i, j);
  }

  /** A tree that is a single leaf gives that leaf the empty code. */
  lemma LeafRootEmptyCode(v: int)
    requires 0 <= v <= ALPH_SIZE
    ensures CodeTable(Leaf(v))[v] == Some("")
    ensures forall i :: 0 <= i <= ALPH_SIZE && i != v ==> CodeTable(Leaf(v))[i] == None
  {
  }

  /** Model of `codingHelper(root, path, encodings)`: records `path` followed
      by the path within `root` for each leaf of `root`, and leaves every
      other entry as it was. The leaf values must index the array, or Java
      raises an out-of-bounds exception. */
  method CodingHelper(root: Tree, path: string, encodings: array<Option<string>>)
    requires LeavesWithin(root, 0, encodings.Length)
    modifies encodings
    ensures forall i :: 0 <= i < encodings.Length ==>
              encodings[i] == if i in Leaves(root) then Some(path + CodeOf(root, i)) else old(encodings[i])
  {
    match root
    case Leaf(v) =>
      assert v in Leaves(root);
      encodings[v] := Some(path);
      assert path + CodeOf(root, v) == path;
    case Node(l, r) =>
      assert forall x :: x in Leaves(l) || x in Leaves(r) ==> x in Leaves(root);
      CodingHelper(l, path + "0", encodings);
      CodingHelper(r, path + "1", encodings);
      forall i | 0 <= i < encodings.Length && i in Leaves(root)
        ensures encodings[i] == Some(path + CodeOf(root, i))
      {
        if i in Leaves(r) {
          assert path + "1" + CodeOf(r, i) == path + ("1" + CodeOf(r, i));
        } else {
          assert path + "0" + CodeOf(l, i) == path + ("0" + CodeOf(l, i));
        }
      }
  }

  /** Model of `makeCodingsFromTree`: a fresh table of `ALPH_SIZE + 1` null
      entries, filled by `codingHelper` from the empty path. */
  method MakeCodingsFromTree(root: Tree) returns (encodings: array<Option<string>>)
    requires LeavesWithin(root, 0, ALPH_SIZE + 1)
    ensures fresh(encodings)
    ensures encodings[..] == CodeTable(root)
  {
    encodings := new Option<string>[ALPH_SIZE + 1](_ => None);
    CodingHelper(root, "", encodings);
    assert forall i :: 0 <= i <= ALPH_SIZE && i in Leaves(root) ==> "" + CodeOf(root, i) == CodeOf(root, i);
  }
}
