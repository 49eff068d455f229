/** The binary min-heap of tree nodes, ordered by `freq`, as functions on the
    live part `array[0..size)` of the heap array. Every function makes the same
    comparisons, in the same order, as the C heap routines, so the tie-break
    (strict `<` both when sifting down and when sifting up) is the source's. */
module HeapSpec {
  import opened Types

  function Parent(c: nat): nat
    requires c > 0
  {
    (c - 1) / 2
  }

  /** C's `/` on `int`: truncation toward zero, here by 2. */
  function CDiv2(a: int): (q: int)
    ensures 0 <= a ==> 0 <= a - 2 * q <= 1
    ensures a < 0 ==> -1 <= a - 2 * q <= 0
  {
    if a >= 0 then a / 2 else -((-a) / 2)
  }

  /** Every parent at index `lo` or above weighs no more than its children. */
  ghost predicate HeapFrom(h: seq<Node>, lo: nat)
  {
    forall c :: 0 < c < |h| && lo <= Parent(c) ==> h[Parent(c)].freq <= h[c].freq
  }

  ghost predicate IsMinHeap(h: seq<Node>)
  {
    HeapFrom(h, 0)
  }

  /** The precondition of a sift-down at `i`: ordered from `lo` on except
      between `i` and its children, and `i`'s parent (when it is at `lo` or
      above) weighs no more than `i`'s children. */
  ghost predicate HeapBelow(h: seq<Node>, lo: nat, i: nat)
  {
    && (forall c :: 0 < c < |h| && lo <= Parent(c) && Parent(c) != i ==> h[Parent(c)].freq <= h[c].freq)
    && (0 < i && lo <= Parent(i) ==>
          forall c :: 0 < c < |h| && Parent(c) == i ==> h[Parent(i)].freq <= h[c].freq)
  }

  /** The invariant of a sift-up with the rising node at `i`: ordered except
      between `i` and its parent, and `i`'s parent weighs no more than `i`'s
      children. */
  ghost predicate HeapAbove(h: seq<Node>, i: nat)
  {
    && (forall c :: 0 < c < |h| && c != i ==> h[Parent(c)].freq <= h[c].freq)
    && (0 < i ==> forall c :: 0 < c < |h| && Parent(c) == i ==> h[Parent(i)].freq <= h[c].freq)
  }

  function Swap(h: seq<Node>, i: nat, j: nat): (r: seq<Node>)
    requires i < |h| && j < |h|
    ensures |r| == |h| && r[i] == h[j] && r[j] == h[i]
    ensures forall k :: 0 <= k < |h| && k != i && k != j ==> r[k] == h[k]
    ensures multiset(r) == multiset(h)
  {
    h[i := h[j]][j := h[i]]
  }

  /** The index `minHeapify` picks: the left child if strictly lighter than
      `idx`, then the right child if strictly lighter than that pick. */
  function Smallest(h: seq<Node>, idx: nat): (s: nat)
    ensures s == idx || (idx < s < |h| && Parent(s) == idx && h[s].freq < h[idx].freq)
    ensures s == idx ==> forall c :: 0 < c < |h| && Parent(c) == idx ==> h[idx].freq <= h[c].freq
    ensures s != idx ==> forall c :: 0 < c < |h| && Parent(c) == idx ==> h[s].freq <= h[c].freq
  {
    var left := 2 * idx + 1;
    var right := 2 * idx + 2;
    var s := if left < |h| && h[left].freq < h[idx].freq then left else idx;
    if right < |h| && h[right].freq < h[s].freq then right else s
  }

  /** `minHeapify`: sift the node at `idx` down. */
  function Heapify(h: seq<Node>, idx: nat): (r: seq<Node>)
    ensures |r| == |h| && multiset(r) == multiset(h)
    decreases |h| - idx
  {
    var s := Smallest(h, idx);
    if s != idx then Heapify(Swap(h, idx, s), s) else h
  }

  /** What `extractMin` leaves behind once it has taken the root `h[0]`:
      the last node moved to the root, the heap shrunk by one and the new
      root sifted down. */
  function RemoveMin(h: seq<Node>): (r: seq<Node>)
    requires |h| >= 1
    ensures |r| == |h| - 1
    ensures multiset(h) == multiset(r) + multiset{h[0]}
  {
    var last := |h| - 1;
    var moved := h[0 := h[last]][..last];
    assert multiset(h) == multiset(moved) + multiset{h[0]} by {
      if last > 0 {
        assert h == [h[0]] + h[1..last] + [h[last]];
        assert moved == [h[last]] + h[1..last];
      }
    }
    Heapify(moved, 0)
  }

  /** The loop of `insertMinHeap`, with the slot `i` a hole: while `x` is
      strictly lighter than the parent of the hole, the parent moves down into
      the hole; then `x` is written into the hole. */
  function SiftUp(h: seq<Node>, i: nat, x: Node): (r: seq<Node>)
    requires i < |h|
    ensures |r| == |h| && multiset(r) == multiset(h[i := x])
    decreases i
  {
    if 0 < i && x.freq < h[Parent(i)].freq then
      var p := Parent(i);
      assert h[i := h[p]][p := x] == Swap(h[i := x], i, p);
      SiftUp(h[i := h[p]], p, x)
    else
      h[i := x]
  }

  /** What the hole held before does not matter. */
  lemma HoleIgnored(h: seq<Node>, i: nat, x: Node, y: Node)
    requires i < |h|
    ensures SiftUp(h[i := y], i, x) == SiftUp(h, i, x)
  {
    if 0 < i && x.freq < h[Parent(i)].freq {
      assert h[i := y][i := h[Parent(i)]] == h[i := h[Parent(i)]];
    } else {
      assert h[i := y][i := x] == h[i := x];
    }
  }

  /** Sifting up from the new last slot, whatever it holds, is `Insert`. */
  lemma SiftUpFromNewSlot(s: seq<Node>, h: seq<Node>, x: Node)
    requires |s| == |h| + 1 && s[..|h|] == h
    ensures SiftUp(s, |h|, x) == Insert(h, x)
  {
    assert s == (h + [x])[|h| := s[|h|]];
    HoleIgnored(h + [x], |h|, x, s[|h|]);
  }

  /** `insertMinHeap`: grow by one and sift the new node up from the new
      last slot. */
  function Insert(h: seq<Node>, x: Node): (r: seq<Node>)
    ensures |r| == |h| + 1 && multiset(r) == multiset(h) + multiset{x}
  {
    assert (h + [x])[|h| := x] == h + [x];
    SiftUp(h + [x], |h|, x)
  }

  /** The loop of `buildMinHeap`: sift down at `i`, `i - 1`, ..., `0`. */
  function BuildFrom(h: seq<Node>, i: int): (r: seq<Node>)
    ensures |r| == |h| && multiset(r) == multiset(h)
    decreases i + 1
  {
    if i < 0 then h else BuildFrom(Heapify(h, i), i - 1)
  }

  /** `buildMinHeap`: with `n = size - 1`, the loop starts at `(n - 1) / 2`
      in C arithmetic (so at 0 when `size` is 1, and not at all when it is 0). */
  function BuildHeap(h: seq<Node>): (r: seq<Node>)
    ensures |r| == |h| && multiset(r) == multiset(h)
  {
    BuildFrom(h, CDiv2(|h| - 2))
  }

  // ----- Heap order -----

  /** Sift-down restores the order from `lo` on. */
  lemma {:induction false} HeapifyRestores(h: seq<Node>, lo: nat, idx: nat)
    requires lo <= idx && HeapBelow(h, lo, idx)
    ensures HeapFrom(Heapify(h, idx), lo)
    decreases |h| - idx
  {
    var s := Smallest(h, idx);
    if s != idx {
      var h' := Swap(h, idx, s);
      forall c | 0 < c < |h'| && lo <= Parent(c) && Parent(c) != s
        ensures h'[Parent(c)].freq <= h'[c].freq
      {
        var p := Parent(c);
        if p == idx {
        } else if c == idx {
          assert h[p].freq <= h[s].freq;
        } else {
          assert c != s;
        }
      }
      HeapifyRestores(h', lo, s);
    }
  }

  /** The root of a heap is a minimum. */
  lemma {:induction false} RootIsMinimum(h: seq<Node>, j: nat)
    requires IsMinHeap(h) && j < |h|
    ensures h[0].freq <= h[j].freq
    decreases j
  {
    if j > 0 {
      RootIsMinimum(h, Parent(j));
    }
  }

  /** Every node of a heap weighs at least its root. */
  lemma RootIsMinimumAll(h: seq<Node>)
    requires IsMinHeap(h) && |h| >= 1
    ensures forall j :: 0 <= j < |h| ==> h[0].freq <= h[j].freq
  {
    forall j | 0 <= j < |h| ensures h[0].freq <= h[j].freq {
      RootIsMinimum(h, j);
    }
  }

  /** Moving the last node of a heap to the root leaves it ordered except
      at the root. */
  lemma LastToRoot(h: seq<Node>)
    requires IsMinHeap(h) && |h| >= 1
    ensures HeapBelow(h[0 := h[|h| - 1]][..|h| - 1], 0, 0)
  {
  }

  /** `extractMin` on a heap returns a node of minimum `freq` and leaves a
      heap holding exactly the other nodes. */
  lemma ExtractMinCorrect(h: seq<Node>)
    requires IsMinHeap(h) && |h| >= 1
    ensures forall j :: 0 <= j < |h| ==> h[0].freq <= h[j].freq
    ensures IsMinHeap(RemoveMin(h))
    ensures multiset(RemoveMin(h)) == multiset(h) - multiset{h[0]}
  {
    RootIsMinimumAll(h);
    LastToRoot(h);
    HeapifyRestores(h[0 := h[|h| - 1]][..|h| - 1], 0, 0);
  }

  /** One step of the sift-up: swapping a node with a heavier parent moves
      the one disorder up to the parent. */
  lemma SiftUpStep(H: seq<Node>, i: nat)
    requires 0 < i < |H| && HeapAbove(H, i) && H[i].freq < H[Parent(i)].freq
    ensures HeapAbove(Swap(H, i, Parent(i)), Parent(i))
  {
    var p := Parent(i);
    var H' := Swap(H, i, p);
    forall c | 0 < c < |H'| && c != p
      ensures H'[Parent(c)].freq <= H'[c].freq
    {
      if Parent(c) == p {
        if c != i {
          assert H[p].freq <= H[c].freq;
        }
      } else if Parent(c) == i {
        assert H[p].freq <= H[c].freq;
      }
    }
    if 0 < p {
      forall c | 0 < c < |H'| && Parent(c) == p
        ensures H'[Parent(p)].freq <= H'[c].freq
      {
        assert H[Parent(p)].freq <= H[p].freq;
        if c != i {
          assert H[p].freq <= H[c].freq;
        }
      }
    }
  }

  /** The sift-up stops where the rising node is no lighter than its
      parent: the order is then complete. */
  lemma SiftUpStop(H: seq<Node>, i: nat)
    requires i < |H| && HeapAbove(H, i) && (i == 0 || H[Parent(i)].freq <= H[i].freq)
    ensures IsMinHeap(H)
  {
  }

  /** Sift-up restores the whole heap order. */
  lemma {:induction false} SiftUpRestores(h: seq<Node>, i: nat, x: Node)
    requires i < |h| && HeapAbove(h[i := x], i)
    ensures IsMinHeap(SiftUp(h, i, x))
    decreases i
  {
    if 0 < i && x.freq < h[Parent(i)].freq {
      var p := Parent(i);
      SiftUpStep(h[i := x], i);
      assert h[i := h[p]][p := x] == Swap(h[i := x], i, p);
      SiftUpRestores(h[i := h[p]], p, x);
    } else {
      SiftUpStop(h[i := x], i);
    }
  }

  /** `insertMinHeap` keeps a heap a heap. */
  lemma InsertKeepsHeap(h: seq<Node>, x: Node)
    requires IsMinHeap(h)
    ensures IsMinHeap(Insert(h, x))
  {
    var h' := h + [x];
    assert h'[|h| := x] == h';
    assert HeapAbove(h', |h|);
    SiftUpRestores(h', |h|, x);
  }

  /** The strict `<` of the sift-up: a node that is not strictly lighter
      than the parent of the new slot stays in the new slot, so a node never
      rises above a parent of equal `freq`. */
  lemma InsertTieStays(h: seq<Node>, x: Node)
    requires |h| > 0 && h[Parent(|h|)].freq <= x.freq
    ensures Insert(h, x) == h + [x]
  {
    assert (h + [x])[|h| := x] == h + [x];
  }

  /** `buildMinHeap` turns any array into a heap. */
  lemma BuildHeapIsHeap(h: seq<Node>)
    ensures IsMinHeap(BuildHeap(h))
  {
    var start := CDiv2(|h| - 2);
    assert HeapFrom(h, start + 1);
    BuildFromRestores(h, start);
  }

  lemma {:induction false} BuildFromRestores(h: seq<Node>, i: int)
    requires -1 <= i && HeapFrom(h, i + 1)
    ensures IsMinHeap(BuildFrom(h, i))
    decreases i + 1
  {
    if 0 <= i {
      assert HeapBelow(h, i, i);
      HeapifyRestores(h, i, i);
      BuildFromRestores(Heapify(h, i), i - 1);
    }
  }
}
