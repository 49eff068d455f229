/** `buildHuffmanTree` (and `createAndBuildMinHeap`): seed a heap with one
    leaf per (byte, count) entry, heapify it, then repeatedly extract the two
    lightest nodes and insert their parent until one node remains. */
module HuffmanTree {
  import opened Types
  import opened HeapSpec
  import opened Heap

  // ----- What a list of nodes holds -----

  function LeavesOf(h: seq<Node>): multiset<Node>
  {
    if h == [] then multiset{} else Leaves(h[0]) + LeavesOf(h[1..])
  }

  function SymbolsOf(h: seq<Node>): multiset<byte>
  {
    if h == [] then multiset{} else Symbols(h[0]) + SymbolsOf(h[1..])
  }

  function FreqSum(h: seq<Node>): nat
  {
    if h == [] then 0 else h[0].freq + FreqSum(h[1..])
  }

  predicate AllWellFormed(h: seq<Node>)
  {
    h == [] || (WellFormed(h[0]) && AllWellFormed(h[1..]))
  }

  lemma {:induction false} FoldsAppend(a: seq<Node>, b: seq<Node>)
    ensures LeavesOf(a + b) == LeavesOf(a) + LeavesOf(b)
    ensures SymbolsOf(a + b) == SymbolsOf(a) + SymbolsOf(b)
    ensures FreqSum(a + b) == FreqSum(a) + FreqSum(b)
    ensures AllWellFormed(a + b) == (AllWellFormed(a) && AllWellFormed(b))
    decreases |a|
  {
    if a == [] {
      assert a + b == b;
    } else {
      assert (a + b)[1..] == a[1..] + b;
      FoldsAppend(a[1..], b);
    }
  }

  lemma FoldsSingle(x: Node)
    ensures LeavesOf([x]) == Leaves(x) && SymbolsOf([x]) == Symbols(x)
    ensures FreqSum([x]) == x.freq && AllWellFormed([x]) == WellFormed(x)
  {
    assert [x][1..] == [];
  }

  /** The folds of a list are those of its element `k` plus those of the
      list without it. */
  lemma FoldsRemove(b: seq<Node>, k: nat)
    requires k < |b|
    ensures LeavesOf(b) == Leaves(b[k]) + LeavesOf(b[..k] + b[k + 1..])
    ensures SymbolsOf(b) == Symbols(b[k]) + SymbolsOf(b[..k] + b[k + 1..])
    ensures FreqSum(b) == b[k].freq + FreqSum(b[..k] + b[k + 1..])
    ensures AllWellFormed(b) == (WellFormed(b[k]) && AllWellFormed(b[..k] + b[k + 1..]))
  {
    var pre, x, post := b[..k], b[k], b[k + 1..];
    assert b == pre + ([x] + post);
    FoldsAppend(pre, [x] + post);
    FoldsAppend([x], post);
    FoldsAppend(pre, post);
    FoldsSingle(x);
    MultisetShuffle(LeavesOf(pre), Leaves(x), LeavesOf(post));
    MultisetShuffle(SymbolsOf(pre), Symbols(x), SymbolsOf(post));
  }

  lemma MultisetShuffle<T>(p: multiset<T>, x: multiset<T>, q: multiset<T>)
    ensures p + (x + q) == x + (p + q)
  {
  }

  lemma MultisetRemove(b: seq<Node>, k: nat)
    requires k < |b|
    ensures multiset(b[..k] + b[k + 1..]) == multiset(b) - multiset{b[k]}
  {
    assert b == b[..k] + [b[k]] + b[k + 1..];
  }

  /** The folds depend only on the multiset of nodes, so every heap
      operation, which only permutes, removes or adds nodes, can be tracked by
      its effect on the multiset. */
  lemma FoldsArePermutationInvariant(a: seq<Node>, b: seq<Node>)
    requires multiset(a) == multiset(b)
    ensures LeavesOf(a) == LeavesOf(b) && SymbolsOf(a) == SymbolsOf(b) && FreqSum(a) == FreqSum(b)
    ensures AllWellFormed(a) == AllWellFormed(b)
  {
    LeafFoldsArePermutationInvariant(a, b);
    ValueFoldsArePermutationInvariant(a, b);
  }

  lemma {:induction false} LeafFoldsArePermutationInvariant(a: seq<Node>, b: seq<Node>)
    requires multiset(a) == multiset(b)
    ensures LeavesOf(a) == LeavesOf(b) && SymbolsOf(a) == SymbolsOf(b)
    decreases |a|
  {
    if a == [] {
      assert |b| == |multiset(b)| == 0;
    } else {
      var k := IndexOf(b, a[0]);
      RemoveBoth(a, b, k);
      LeafFoldsArePermutationInvariant(a[1..], b[..k] + b[k + 1..]);
      FoldsRemove(b, k);
    }
  }

  lemma {:induction false} ValueFoldsArePermutationInvariant(a: seq<Node>, b: seq<Node>)
    requires multiset(a) == multiset(b)
    ensures FreqSum(a) == FreqSum(b) && AllWellFormed(a) == AllWellFormed(b)
    decreases |a|
  {
    if a == [] {
      assert |b| == |multiset(b)| == 0;
    } else {
      var k := IndexOf(b, a[0]);
      RemoveBoth(a, b, k);
      ValueFoldsArePermutationInvariant(a[1..], b[..k] + b[k + 1..]);
      FoldsRemove(b, k);
    }
  }

  /** Removing the same node from two permutations of each other leaves
      permutations of each other. */
  lemma RemoveBoth(a: seq<Node>, b: seq<Node>, k: nat)
    requires multiset(a) == multiset(b) && a != [] && k < |b| && b[k] == a[0]
    ensures multiset(a[1..]) == multiset(b[..k] + b[k + 1..])
  {
    assert a == [a[0]] + a[1..];
    assert multiset(a[1..]) == multiset(a) - multiset{a[0]};
    MultisetRemove(b, k);
  }

  /** A position of a node known to be in a list. */
  function IndexOf(b: seq<Node>, x: Node): (k: nat)
    requires x in multiset(b)
    ensures k < |b| && b[k] == x
  {
    if b[0] == x then 0 else
      assert x in multiset(b[1..]) by {
        assert b == [b[0]] + b[1..];
      }
      1 + IndexOf(b[1..], x)
  }

  // ----- The merge loop -----

  /** The parent `buildHuffmanTree` makes of two extracted nodes. */
  function Merge(left: Node, right: Node): (parent: Node)
    ensures Leaves(parent) == Leaves(left) + Leaves(right)
    ensures Symbols(parent) == Symbols(left) + Symbols(right)
    ensures InternalCount(parent) == InternalCount(left) + InternalCount(right) + 1
    ensures WellFormed(parent) <==> WellFormed(left) && WellFormed(right)
  {
    Internal(left.freq + right.freq, left, right)
  }

  /** One turn of the loop: extract two minima, insert their parent. */
  function MergeStep(h: seq<Node>): (r: seq<Node>)
    requires |h| >= 2
    ensures |r| == |h| - 1
  {
    var rest := RemoveMin(h);
    Insert(RemoveMin(rest), Merge(h[0], rest[0]))
  }

  /** A turn replaces the two extracted nodes by their parent. */
  lemma MergeStepMultiset(h: seq<Node>)
    requires |h| >= 2
    ensures var rest := RemoveMin(h);
            && multiset(h) == multiset(RemoveMin(rest) + [h[0], rest[0]])
            && multiset(MergeStep(h)) == multiset(RemoveMin(rest) + [Merge(h[0], rest[0])])
  {
  }

  /** A turn keeps the leaves, their byte values, the total weight and the
      weight of every internal node. */
  lemma MergeStepKeeps(h: seq<Node>)
    requires |h| >= 2
    ensures LeavesOf(MergeStep(h)) == LeavesOf(h)
    ensures SymbolsOf(MergeStep(h)) == SymbolsOf(h)
    ensures FreqSum(MergeStep(h)) == FreqSum(h)
    ensures AllWellFormed(h) ==> AllWellFormed(MergeStep(h))
  {
    MergeStepMultiset(h);
    var rest := RemoveMin(h);
    ReplacePairKeeps(h, MergeStep(h), RemoveMin(rest), h[0], rest[0]);
  }

  /** Two nodes side by side hold what their parent holds. */
  lemma PairFolds(rest: seq<Node>, left: Node, right: Node)
    ensures LeavesOf(rest + [left, right]) == LeavesOf(rest + [Merge(left, right)])
    ensures SymbolsOf(rest + [left, right]) == SymbolsOf(rest + [Merge(left, right)])
    ensures FreqSum(rest + [left, right]) == FreqSum(rest + [Merge(left, right)])
    ensures AllWellFormed(rest + [left, right]) ==> AllWellFormed(rest + [Merge(left, right)])
  {
    FoldsAppend(rest, [left, right]);
    FoldsAppend(rest, [Merge(left, right)]);
    PairSingle(left, right);
  }

  lemma PairSingle(left: Node, right: Node)
    ensures LeavesOf([left, right]) == LeavesOf([Merge(left, right)])
    ensures SymbolsOf([left, right]) == SymbolsOf([Merge(left, right)])
    ensures FreqSum([left, right]) == FreqSum([Merge(left, right)])
    ensures AllWellFormed([left, right]) ==> AllWellFormed([Merge(left, right)])
  {
    assert [left, right] == [left] + [right];
    FoldsAppend([left], [right]);
    FoldsSingle(left);
    FoldsSingle(right);
    FoldsSingle(Merge(left, right));
  }

  /** Replacing two nodes of a list by their parent keeps the folds. */
  lemma ReplacePairKeeps(a: seq<Node>, b: seq<Node>, rest: seq<Node>, left: Node, right: Node)
    requires multiset(a) == multiset(rest + [left, right])
    requires multiset(b) == multiset(rest + [Merge(left, right)])
    ensures LeavesOf(b) == LeavesOf(a) && SymbolsOf(b) == SymbolsOf(a) && FreqSum(b) == FreqSum(a)
    ensures AllWellFormed(a) ==> AllWellFormed(b)
  {
    FoldsArePermutationInvariant(a, rest + [left, right]);
    FoldsArePermutationInvariant(b, rest + [Merge(left, right)]);
    PairFolds(rest, left, right);
  }

  /** On a heap, the first node a turn extracts is a lightest one and the
      second is a lightest of the others. */
  lemma MergeStepTakesMinima(h: seq<Node>)
    requires IsMinHeap(h) && |h| >= 2
    ensures forall j :: 0 <= j < |h| ==> h[0].freq <= h[j].freq
    ensures multiset(RemoveMin(h)) == multiset(h) - multiset{h[0]}
    ensures forall j :: 0 <= j < |RemoveMin(h)| ==> RemoveMin(h)[0].freq <= RemoveMin(h)[j].freq
  {
    ExtractMinCorrect(h);
    ExtractMinCorrect(RemoveMin(h));
  }

  /** A turn on a heap leaves a heap. */
  lemma MergeStepKeepsHeap(h: seq<Node>)
    requires IsMinHeap(h) && |h| >= 2
    ensures IsMinHeap(MergeStep(h))
  {
    var rest := RemoveMin(h);
    ExtractMinCorrect(h);
    ExtractMinCorrect(rest);
    InsertKeepsHeap(RemoveMin(rest), Merge(h[0], rest[0]));
  }

  /** The loop `while (size != 1)` followed by the final `extractMin`. */
  function MergeAll(h: seq<Node>): (root: Node)
    requires |h| >= 1
    ensures |h| >= 2 ==> root.Internal?
    decreases |h|
  {
    if |h| == 1 then h[0]
    else
      LastMergeIsInternal(h);
      MergeAll(MergeStep(h))
  }

  /** The turn that leaves a single node leaves their parent. */
  lemma LastMergeIsInternal(h: seq<Node>)
    requires |h| >= 2
    ensures |h| == 2 ==> MergeStep(h)[0].Internal?
  {
    if |h| == 2 {
      MergeStepMultiset(h);
      var rest := RemoveMin(h);
      var m := MergeStep(h);
      assert RemoveMin(rest) + [Merge(h[0], rest[0])] == [Merge(h[0], rest[0])];
      assert m[0] in multiset(m);
    }
  }

  /** The root the loop ends with holds every leaf of the list and weighs
      what the list weighs. */
  lemma {:induction false} MergeAllKeeps(h: seq<Node>)
    requires |h| >= 1
    ensures Leaves(MergeAll(h)) == LeavesOf(h) && Symbols(MergeAll(h)) == SymbolsOf(h)
    ensures AllWellFormed(h) ==> WellFormed(MergeAll(h)) && MergeAll(h).freq == FreqSum(h)
    decreases |h|
  {
    if |h| == 1 {
      FoldsSingle(h[0]);
      assert h == [h[0]];
    } else {
      MergeStepKeeps(h);
      MergeAllKeeps(MergeStep(h));
    }
  }

  // ----- From entries to a tree -----

  function LeafNodes(es: seq<Entry>): (h: seq<Node>)
    ensures |h| == |es| && forall i :: 0 <= i < |es| ==> h[i] == LeafOf(es[i])
  {
    seq(|es|, i requires 0 <= i < |es| => LeafOf(es[i]))
  }

  /** The byte values of a list of entries. */
  function CharSeq(es: seq<Entry>): (cs: seq<byte>)
    ensures |cs| == |es| && forall i :: 0 <= i < |es| ==> cs[i] == es[i].ch
  {
    seq(|es|, i requires 0 <= i < |es| => es[i].ch)
  }

  function Chars(es: seq<Entry>): multiset<byte>
  {
    multiset(CharSeq(es))
  }

  /** The tree `buildHuffmanTree` returns for a list of entries. */
  function Build(es: seq<Entry>): (root: Node)
    requires |es| >= 1
    ensures |es| == 1 ==> root == LeafOf(es[0])
    ensures |es| >= 2 ==> root.Internal?
  {
    var h := BuildHeap(LeafNodes(es));
    assert |es| == 1 ==> LeafNodes(es) == [LeafOf(es[0])] && h[0] in multiset(h);
    MergeAll(h)
  }

  lemma {:induction false} LeafNodesFolds(es: seq<Entry>)
    ensures LeavesOf(LeafNodes(es)) == LeafSet(es)
    ensures SymbolsOf(LeafNodes(es)) == Chars(es)
    ensures FreqSum(LeafNodes(es)) == TotalCount(es)
    ensures AllWellFormed(LeafNodes(es))
    decreases |es|
  {
    if es != [] {
      assert LeafNodes(es)[1..] == LeafNodes(es[1..]);
      assert CharSeq(es) == [es[0].ch] + CharSeq(es[1..]);
      LeafNodesFolds(es[1..]);
    }
  }

  /** A full binary tree with n leaves has n - 1 internal nodes. */
  lemma {:induction false} InternalCountIsLeavesMinusOne(t: Node)
    ensures InternalCount(t) + 1 == |Leaves(t)|
  {
    match t
    case Leaf(_, _) =>
    case Internal(_, l, r) =>
      InternalCountIsLeavesMinusOne(l);
      InternalCountIsLeavesMinusOne(r);
  }

  /** The tree's height is below its number of leaves. */
  lemma {:induction false} HeightBelowLeafCount(t: Node)
    ensures Height(t) < |Leaves(t)|
  {
    match t
    case Leaf(_, _) =>
    case Internal(_, l, r) =>
      HeightBelowLeafCount(l);
      HeightBelowLeafCount(r);
  }

  lemma {:induction false} AscendingCharsDistinct(es: seq<Entry>)
    requires StrictlyAscending(es)
    ensures forall b :: Chars(es)[b] <= 1
    decreases |es|
  {
    if es != [] {
      var tail := es[1..];
      AscendingCharsDistinct(tail);
      assert CharSeq(es) == [es[0].ch] + CharSeq(tail);
      assert Chars(es) == multiset{es[0].ch} + Chars(tail);
      forall i | 0 <= i < |tail| ensures CharSeq(tail)[i] != es[0].ch {
        assert tail[i] == es[i + 1];
      }
      assert es[0].ch !in CharSeq(tail);
    }
  }

  /** The Huffman tree of a non-empty list of entries: its leaves are
      exactly the entries' leaves, each internal node weighs the sum of its
      children, the root weighs the total count, and there are one fewer
      internal nodes (merges) than entries. With strictly ascending byte
      values every byte labels exactly one leaf. */
  lemma BuildCorrect(es: seq<Entry>)
    requires |es| >= 1
    ensures Leaves(Build(es)) == LeafSet(es)
    ensures Symbols(Build(es)) == Chars(es)
    ensures WellFormed(Build(es)) && Build(es).freq == TotalCount(es)
    ensures InternalCount(Build(es)) == |es| - 1
    ensures Height(Build(es)) < |es|
    ensures StrictlyAscending(es) ==> DistinctSymbols(Build(es))
  {
    var h := LeafNodes(es);
    var heap := BuildHeap(h);
    LeafNodesFolds(es);
    FoldsArePermutationInvariant(heap, h);
    var root := MergeAll(heap);
    MergeAllKeeps(heap);
    InternalCountIsLeavesMinusOne(root);
    HeightBelowLeafCount(root);
    LeafSetSize(es);
    if StrictlyAscending(es) {
      AscendingCharsDistinct(es);
    }
  }

  lemma {:induction false} LeafSetSize(es: seq<Entry>)
    ensures |LeafSet(es)| == |es|
    decreases |es|
  {
    if es != [] {
      LeafSetSize(es[1..]);
    }
  }

  // ----- The imperative builder -----

  /** `createAndBuildMinHeap`: a heap of capacity `size` holding one leaf per
      entry, then heapified. */
  method CreateAndBuildMinHeap(data: array<byte>, freq: array<nat>, size: nat) returns (heap: MinHeap)
    requires size <= data.Length && size <= freq.Length
    ensures fresh(heap) && fresh(heap.nodes) && heap.size <= heap.nodes.Length
    ensures heap.nodes.Length == size
    ensures heap.nodes[..heap.size] == BuildHeap(LeafNodes(Entries(data[..size], freq[..size])))
  {
    heap := new MinHeap(size);
    var i := 0;
    while i < size
      invariant 0 <= i <= size && heap.size == 0 && heap.nodes.Length == size
      invariant forall k :: 0 <= k < i ==> heap.nodes[k] == Leaf(data[k], freq[k])
      modifies heap.nodes
    {
      heap.nodes[i] := Leaf(data[i], freq[i]);
      i := i + 1;
    }
    heap.size := size;
    assert heap.nodes[..heap.size] == LeafNodes(Entries(data[..size], freq[..size]));
    heap.BuildMinHeap();
  }

  /** Pair up the two parallel arrays `data[]` and `freq[]`. */
  function Entries(data: seq<byte>, freq: seq<nat>): (es: seq<Entry>)
    requires |data| == |freq|
    ensures |es| == |data| && forall i :: 0 <= i < |es| ==> es[i] == Entry(data[i], freq[i])
  {
    seq(|data|, i requires 0 <= i < |data| => Entry(data[i], freq[i]))
  }

  /** One turn of the loop of `buildHuffmanTree`, on the heap object. */
  method MergeLightestTwo(heap: MinHeap)
    requires heap.size <= heap.nodes.Length && heap.size >= 2
    modifies heap, heap.nodes
    ensures heap.size <= heap.nodes.Length && heap.nodes == old(heap.nodes)
    ensures heap.nodes[..heap.size] == MergeStep(old(heap.nodes[..heap.size]))
  {
    var left := heap.ExtractMin();
    var right := heap.ExtractMin();
    heap.InsertMinHeap(Merge(left, right));
  }

  /** The loop of `buildHuffmanTree` and its final `extractMin`. */
  method MergeUntilOne(heap: MinHeap) returns (root: Node)
    requires heap.size <= heap.nodes.Length && 1 <= heap.size
    modifies heap, heap.nodes
    ensures root == MergeAll(old(heap.nodes[..heap.size]))
  {
    ghost var tree := MergeAll(heap.nodes[..heap.size]);
    while !heap.IsSizeOne()
      invariant heap.size <= heap.nodes.Length && heap.nodes == old(heap.nodes) && 1 <= heap.size
      invariant MergeAll(heap.nodes[..heap.size]) == tree
      decreases heap.size
    {
      MergeLightestTwo(heap);
    }
    root := heap.ExtractMin();
  }

  /** `buildHuffmanTree`. */
  method BuildHuffmanTree(data: array<byte>, freq: array<nat>, size: nat) returns (root: Node)
    requires 1 <= size <= data.Length && size <= freq.Length
    requires TotalCount(Entries(data[..size], freq[..size])) < UINT32
    ensures root == Build(Entries(data[..size], freq[..size]))
  {
    ghost var es := Entries(data[..size], freq[..size]);
    var heap := CreateAndBuildMinHeap(data, freq, size);
    root := MergeUntilOne(heap);
    assert root == MergeAll(BuildHeap(LeafNodes(es)));
  }
}
