/** Greedy construction of the trie from the frequency table. */
module TreeBuilder {
  import opened Huff

  /** A priority-queue entry: a trie and the weight of its root (the
      `myWeight` of a `HuffNode`); weights exist only while building. */
  datatype WeightedTree = WeightedTree(weight: int, tree: Tree)

  /** The indices whose count is positive, in increasing order: the symbols
      that get a leaf. */
  function PositiveSymbols(counts: seq<int>): (s: seq<int>)
    ensures |s| <= |counts|
  {
    if counts == [] then []
    else
      var i := |counts| - 1;
      PositiveSymbols(counts[..i]) + (if counts[i] > 0 then [i] else [])
  }

  /** The sum of the positive counts. */
  function SumPositive(counts: seq<int>): int
  {
    if counts == [] then 0
    else
      var i := |counts| - 1;
      SumPositive(counts[..i]) + (if counts[i] > 0 then counts[i] else 0)
  }

  /** The positive symbols are exactly the indices with a positive count. */
  lemma {:induction false} PositiveSymbolsExact(counts: seq<int>)
    ensures forall v :: v in PositiveSymbols(counts) <==> 0 <= v < |counts| && counts[v] > 0
  {
    if counts != [] {
      var i := |counts| - 1;
      PositiveSymbolsExact(counts[..i]);
      assert forall v :: 0 <= v < i ==> counts[..i][v] == counts[v];
    }
  }

  /** Each positive symbol is listed once. */
  lemma {:induction false} PositiveSymbolsDistinct(counts: seq<int>)
    ensures Distinct(PositiveSymbols(counts))
  {
    if counts != [] {
      var i := |counts| - 1;
      var prefix := counts[..i];
      PositiveSymbolsDistinct(prefix);
      PositiveSymbolsExact(prefix);
      assert i !in PositiveSymbols(prefix);
      assert multiset(PositiveSymbols(counts))
          == multiset(PositiveSymbols(prefix)) + multiset(if counts[i] > 0 then [i] else []);
    }
  }

  /** The queue's entries. Their order carries no meaning: `remove` may take
      an entry from any position and `add` appends. */
  type Queue = seq<WeightedTree>

  function TotalWeight(q: Queue): int
  {
    if q == [] then 0 else q[0].weight + TotalWeight(q[1..])
  }

  /** The leaf values of all the entries' tries. */
  function AllLeaves(q: Queue): seq<int>
  {
    if q == [] then [] else Leaves(q[0].tree) + AllLeaves(q[1..])
  }

  lemma {:induction false} Concatenation(a: Queue, b: Queue)
    ensures TotalWeight(a + b) == TotalWeight(a) + TotalWeight(b)
    ensures AllLeaves(a + b) == AllLeaves(a) + AllLeaves(b)
  {
    if a != [] {
      assert (a + b)[0] == a[0];
      assert (a + b)[1..] == a[1..] + b;
      Concatenation(a[1..], b);
    } else {
      assert a + b == b;
    }
  }

  /** The entry at `k` has least weight: one that `PriorityQueue.remove`
      may return. */
  predicate IsMinAt(q: Queue, k: int)
  {
    0 <= k < |q| && forall j :: 0 <= j < |q| ==> q[k].weight <= q[j].weight
  }

  /** A non-empty queue has an entry of least weight. */
  lemma {:induction false} MinExists(q: Queue)
    requires q != []
    ensures exists k :: IsMinAt(q, k)
  {
    if |q| > 1 {
      MinExists(q[1..]);
      var k :| IsMinAt(q[1..], k);
      if q[0].weight <= q[k + 1].weight {
        assert IsMinAt(q, 0);
      } else {
        assert IsMinAt(q, k + 1);
      }
    } else {
      assert IsMinAt(q, 0);
    }
  }

  function RemoveAt(q: Queue, k: nat): (rest: Queue)
    requires k < |q|
    ensures |rest| == |q| - 1
  {
    q[..k] + q[k + 1..]
  }

  /** Taking an entry out removes its weight and its leaves. */
  lemma TakeEntry(q: Queue, k: nat)
    requires k < |q|
    ensures TotalWeight(q) == q[k].weight + TotalWeight(RemoveAt(q, k))
    ensures multiset(AllLeaves(q)) == multiset(Leaves(q[k].tree)) + multiset(AllLeaves(RemoveAt(q, k)))
  {
    var before, entry, after := q[..k], q[k], q[k + 1..];
    assert q[k..] == [entry] + after;
    assert q == before + ([entry] + after);
    TakeFrom(before, entry, after);
  }

  lemma TakeFrom(before: Queue, entry: WeightedTree, after: Queue)
    ensures TotalWeight(before + ([entry] + after)) == entry.weight + TotalWeight(before + after)
    ensures multiset(AllLeaves(before + ([entry] + after))) == multiset(Leaves(entry.tree)) + multiset(AllLeaves(before + after))
  {
    Concatenation(before, [entry] + after);
    Concatenation([entry], after);
    Concatenation(before, after);
    assert [entry][1..] == [];
    MiddleOut(AllLeaves(before), Leaves(entry.tree), AllLeaves(after));
  }

  lemma MiddleOut(a: seq<int>, m: seq<int>, b: seq<int>)
    ensures multiset(a + (m + b)) == multiset(m) + multiset(a + b)
  {
  }

  /** Adding an entry adds its weight and its leaves. */
  lemma AddEntry(q: Queue, y: WeightedTree)
    ensures TotalWeight(q + [y]) == TotalWeight(q) + y.weight
    ensures AllLeaves(q + [y]) == AllLeaves(q) + Leaves(y.tree)
  {
    Concatenation(q, [y]);
    assert [y][1..] == [];
  }

  /** One iteration of the merge loop: taking out the entry at `k1`, then
      the entry at `k2` of what is left, and adding their parent keeps the
      leaves and the total weight. */
  lemma MergeStep(q: Queue, k1: nat, q1: Queue, k2: nat, q2: Queue, parent: WeightedTree)
    requires k1 < |q| && q1 == RemoveAt(q, k1)
    requires k2 < |q1| && q2 == RemoveAt(q1, k2)
    requires parent == WeightedTree(q[k1].weight + q1[k2].weight, Node(q[k1].tree, q1[k2].tree))
    ensures multiset(AllLeaves(q2 + [parent])) == multiset(AllLeaves(q))
    ensures TotalWeight(q2 + [parent]) == TotalWeight(q)
  {
    TakeEntry(q, k1);
    TakeEntry(q1, k2);
    AddEntry(q2, parent);
    MergeBags(multiset(Leaves(q[k1].tree)), multiset(Leaves(q1[k2].tree)), multiset(AllLeaves(q2)),
              multiset(AllLeaves(q1)), multiset(AllLeaves(q)), multiset(AllLeaves(q2 + [parent])));
  }

  lemma MergeBags(l: multiset<int>, r: multiset<int>, b2: multiset<int>, b1: multiset<int>, b: multiset<int>, after: multiset<int>)
    requires b == l + b1 && b1 == r + b2 && after == b2 + (l + r)
    ensures after == b
  {
  }

  /** The first loop of `makeTreeFromCounts`: one leaf entry, weighted by its
      count, for each positive count, in index order. */
  method SeedQueue(counts: array<int>) returns (pq: Queue)
    ensures AllLeaves(pq) == PositiveSymbols(counts[..])
    ensures TotalWeight(pq) == SumPositive(counts[..])
    ensures |pq| == |PositiveSymbols(counts[..])|
    ensures SeededFrom(counts[..], pq)
  {
    pq := [];
    for i := 0 to counts.Length
      invariant AllLeaves(pq) == PositiveSymbols(counts[..i])
      invariant TotalWeight(pq) == SumPositive(counts[..i])
      invariant SeededFrom(counts[..i], pq)
    {
      ghost var upto := counts[..i + 1];
      assert upto[..i] == counts[..i];
      SeedStep(upto, pq);
      if counts[i] > 0 {
        pq := pq + [WeightedTree(counts[i], Leaf(i))];
      }
    }
    assert counts[..counts.Length] == counts[..];
  }

  /** Entry `j` of `pq` is the leaf of the `j`th positive symbol, weighted by
      that symbol's count. */
  ghost predicate SeededFrom(counts: seq<int>, pq: Queue)
  {
    |pq| == |PositiveSymbols(counts)| &&
    forall j :: 0 <= j < |pq| ==>
      0 <= PositiveSymbols(counts)[j] < |counts| &&
      pq[j] == WeightedTree(counts[PositiveSymbols(counts)[j]], Leaf(PositiveSymbols(counts)[j]))
  }

  /** Looking at one more count adds its leaf, weighted by the count, when the
      count is positive. */
  lemma SeedStep(counts: seq<int>, pq: Queue)
    requires counts != []
    requires var prefix := counts[..|counts| - 1];
             AllLeaves(pq) == PositiveSymbols(prefix) && TotalWeight(pq) == SumPositive(prefix) && SeededFrom(prefix, pq)
    ensures var i := |counts| - 1;
            var next := if counts[i] > 0 then pq + [WeightedTree(counts[i], Leaf(i))] else pq;
            AllLeaves(next) == PositiveSymbols(counts) && TotalWeight(next) == SumPositive(counts) && SeededFrom(counts, next)
  {
    var i := |counts| - 1;
    var prefix := counts[..i];
    AddEntry(pq, WeightedTree(counts[i], Leaf(i)));
    assert PositiveSymbols(counts) == PositiveSymbols(prefix) + (if counts[i] > 0 then [i] else []);
    assert forall v :: 0 <= v < i ==> prefix[v] == counts[v];
  }

  /** One iteration of the second loop of `makeTreeFromCounts`: removes an
      entry of least weight (`left`), then an entry of least weight of what is
      left (`right`), and adds their parent, whose weight is the sum of
      theirs. */
  method MergeLightest(pq: Queue) returns (next: Queue)
    requires |pq| > 1
    ensures multiset(AllLeaves(next)) == multiset(AllLeaves(pq))
    ensures TotalWeight(next) == TotalWeight(pq)
    ensures |next| == |pq| - 1
    ensures exists k1, k2 :: GreedyMerge(pq, k1, k2, next)
  {
    MinExists(pq);
    var k1 :| IsMinAt(pq, k1);
    var rest := RemoveAt(pq, k1);
    MinExists(rest);
    var k2 :| IsMinAt(rest, k2);
    var left, right := pq[k1], rest[k2];
    next := RemoveAt(rest, k2) + [WeightedTree(left.weight + right.weight, Node(left.tree, right.tree))];
    assert GreedyMerge(pq, k1, k2, next);
    GreedyMergeKeeps(pq, k1, k2, next);
  }

  /** A greedy merge keeps the leaves and the total weight, and shrinks the
      queue by one. */
  lemma GreedyMergeKeeps(pq: Queue, k1: int, k2: int, next: Queue)
    requires GreedyMerge(pq, k1, k2, next)
    ensures multiset(AllLeaves(next)) == multiset(AllLeaves(pq))
    ensures TotalWeight(next) == TotalWeight(pq)
    ensures |next| == |pq| - 1
  {
    var rest := RemoveAt(pq, k1);
    MergeStep(pq, k1, rest, k2, RemoveAt(rest, k2), next[|next| - 1]);
  }

  /** `next` is `pq` with an entry of least weight taken out (at `k1`), then
      an entry of least weight of what is left (at `k2`), and their parent
      added: its weight is the sum of theirs, its children the two tries. */
  ghost predicate GreedyMerge(pq: Queue, k1: int, k2: int, next: Queue)
  {
    IsMinAt(pq, k1) && IsMinAt(RemoveAt(pq, k1), k2) &&
    next == RemoveAt(RemoveAt(pq, k1), k2) +
            [WeightedTree(pq[k1].weight + RemoveAt(pq, k1)[k2].weight, Node(pq[k1].tree, RemoveAt(pq, k1)[k2].tree))]
  }

  /** Model of `makeTreeFromCounts`. `remove` takes some entry of least weight
      (the `HuffNode` comparator is not modelled: which of several
      equal-weight entries it takes is left open). Returns the root entry, or
      `EmptyQueue` when no count is positive (the final `remove` on an empty
      queue). The ghost `merges` counts the merge loop's iterations. */
  method MakeTreeFromCounts(counts: array<int>) returns (r: Result<WeightedTree>, ghost merges: nat)
    ensures r.Err? <==> PositiveSymbols(counts[..]) == []
    ensures r.Err? ==> r.error == EmptyQueue
    ensures r.Ok? ==> multiset(Leaves(r.value.tree)) == multiset(PositiveSymbols(counts[..]))
    ensures r.Ok? ==> r.value.weight == SumPositive(counts[..])
    ensures r.Ok? ==> merges == |PositiveSymbols(counts[..])| - 1
  {
    var pq := SeedQueue(counts);
    ghost var symbols := PositiveSymbols(counts[..]);
    ghost var total := SumPositive(counts[..]);
    ghost var n := |pq|;
    merges := 0;
    while |pq| > 1
      invariant multiset(AllLeaves(pq)) == multiset(symbols)
      invariant TotalWeight(pq) == total
      invariant merges + |pq| == n
      invariant n == 0 || |pq| >= 1
      decreases |pq|
    {
      pq := MergeLightest(pq);
      merges := merges + 1;
    }

    if pq == [] {
      return Err(EmptyQueue), merges;
    }
    MinExists(pq);
    var k :| IsMinAt(pq, k);
    TakeEntry(pq, k);
    r := Ok(pq[k]);
  }

  /** The leaves a tree built from `counts` holds: each index with a positive
      count exactly once, and nothing else. */
  lemma BuiltTreeLeaves(t: Tree, counts: seq<int>)
    requires multiset(Leaves(t)) == multiset(PositiveSymbols(counts))
    ensures Distinct(Leaves(t))
    ensures forall v :: v in Leaves(t) <==> 0 <= v < |counts| && counts[v] > 0
  {
    PositiveSymbolsExact(counts);
    PositiveSymbolsDistinct(counts);
    forall v ensures v in Leaves(t) <==> v in PositiveSymbols(counts) {
      assert v in Leaves(t) <==> v in multiset(Leaves(t));
      assert v in PositiveSymbols(counts) <==> v in multiset(PositiveSymbols(counts));
    }
  }
}
