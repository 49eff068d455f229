/** The array-backed min-heap of `struct MinHeap`, updated in place. Each
    method is proved to leave `nodes[0..size)` equal to the HeapSpec function
    that mirrors it, so the heap-order and multiset lemmas of HeapSpec carry
    over to the array. */
module Heap {
  import opened Types
  import opened HeapSpec

  class MinHeap {
    var size: nat
    var nodes: array<Node>

    /** `createMinHeap`: an empty heap with room for `capacity` nodes. */
    constructor (capacity: nat)
      ensures size <= nodes.Length && fresh(nodes)
      ensures nodes.Length == capacity && size == 0 && nodes[..size] == []
    {
      size := 0;
      nodes := new Node[capacity](_ => Leaf(0, 0));
    }

    /** `isSizeOne`. */
    predicate IsSizeOne()
      reads this
      ensures size >= 1 ==> (IsSizeOne() <==> size < 2)
    {
      size == 1
    }

    /** `minHeapify`: sift the node at `idx` down by swaps. */
    method MinHeapify(idx: nat)
      requires size <= nodes.Length
      modifies nodes
      ensures size <= nodes.Length
      ensures nodes[..size] == Heapify(old(nodes[..size]), idx)
    {
      SiftDownInPlace(nodes, size, idx);
    }

    /** `extractMin`: remove and return the root. */
    method ExtractMin() returns (min: Node)
      requires size <= nodes.Length && size >= 1
      modifies this, nodes
      ensures size <= nodes.Length && nodes == old(nodes)
      ensures min == old(nodes[..size])[0] && nodes[..size] == RemoveMin(old(nodes[..size]))
    {
      ghost var h := nodes[..size];
      min := nodes[0];
      nodes[0] := nodes[size - 1];
      size := size - 1;
      assert nodes[..size] == h[0 := h[size]][..size];
      MinHeapify(0);
      assert nodes[..size] == RemoveMin(h);
    }

    /** `insertMinHeap`: grow by one, move heavier parents down into the
        hole, and put the node where the hole stops. */
    method InsertMinHeap(node: Node)
      requires size <= nodes.Length && size < nodes.Length
      modifies this, nodes
      ensures size <= nodes.Length && nodes == old(nodes)
      ensures nodes[..size] == Insert(old(nodes[..size]), node)
    {
      ghost var h := nodes[..size];
      size := size + 1;
      SiftUpFromNewSlot(nodes[..size], h, node);
      SiftUpInPlace(nodes, size, size - 1, node);
    }

    /** `buildMinHeap`: sift down every parent, last first. */
    method BuildMinHeap()
      requires size <= nodes.Length
      modifies nodes
      ensures size <= nodes.Length
      ensures nodes[..size] == BuildHeap(old(nodes[..size]))
    {
      ghost var h := nodes[..size];
      var n := size - 1;
      var i := CDiv2(n - 1);
      while i >= 0
        invariant size <= nodes.Length && -1 <= i
        invariant BuildFrom(nodes[..size], i) == BuildHeap(h)
      {
        MinHeapify(i);
        i := i - 1;
      }
    }
  }

  /** The loop of `insertMinHeap` on the first `n` slots of the heap array,
      with the slot `i` a hole: heavier parents move down into the hole,
      then `x` is written where the hole stops. */
  method SiftUpInPlace(a: array<Node>, n: nat, i: nat, x: Node)
    requires i < n <= a.Length
    modifies a
    ensures a[..n] == SiftUp(old(a[..n]), i, x)
  {
    ghost var target := SiftUp(a[..n], i, x);
    var j := i;
    while j > 0 && x.freq < a[(j - 1) / 2].freq
      invariant 0 <= j < n
      invariant SiftUp(a[..n], j, x) == target
    {
      a[j] := a[(j - 1) / 2];
      j := (j - 1) / 2;
    }
    a[j] := x;
  }

  /** The recursion of `minHeapify` on the first `n` slots of the heap
      array: swap the node at `idx` with the lighter of its children while
      that child is strictly lighter. */
  method SiftDownInPlace(a: array<Node>, n: nat, idx: nat)
    requires n <= a.Length
    modifies a
    ensures a[..n] == Heapify(old(a[..n]), idx)
    decreases n - idx
  {
    var smallest := idx;
    var left := 2 * idx + 1;
    var right := 2 * idx + 2;
    if left < n && a[left].freq < a[smallest].freq {
      smallest := left;
    }
    if right < n && a[right].freq < a[smallest].freq {
      smallest := right;
    }
    assert smallest == Smallest(a[..n], idx);
    if smallest != idx {
      ghost var before := a[..n];
      a[smallest], a[idx] := a[idx], a[smallest];
      assert a[..n] == Swap(before, idx, smallest);
      SiftDownInPlace(a, n, smallest);
    }
  }
}
