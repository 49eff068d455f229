/** Values shared by every part of the codec: bytes, bits, the Huffman tree
    and the (byte, count) entries of the frequency table. */
module Types {

  /** An unsigned 8-bit value, as `unsigned char` / `uint8_t`. */
  type byte = bv8

  /** `MAX_CHAR`: the number of byte values, so one counter or code-table
      entry per value. */
  const MAX_CHAR: nat := 256

  /** The range of `uint32_t`, the type of counts and node weights. */
  const UINT32: nat := 0x1_0000_0000

  /** The byte whose value is `i`, counted up from zero (this keeps the
      integer-to-bit-vector conversion out of the proofs that use it). */
  function ByteOf(i: int): (b: byte)
    requires 0 <= i < 256
    ensures b as int == i
    decreases i
  {
    if i == 0 then 0 else ByteOf(i - 1) + 1
  }

  lemma ByteOfValue(b: byte)
    ensures ByteOf(b as int) == b
  {
  }

  /** One bit of a code or of the payload. */
  type Bit = b: int | 0 <= b <= 1

  /** A tree node. Internal nodes are created with the placeholder data '$'
      in the source; nothing ever reads it, so it is not kept here. */
  datatype Node =
    | Leaf(data: byte, freq: nat)
    | Internal(freq: nat, left: Node, right: Node)

  /** One row of the frequency table: a byte value and its count. */
  datatype Entry = Entry(ch: byte, count: nat)

  datatype Option<T> = None | Some(value: T)

  /** The leaf nodes of a tree, with multiplicity. */
  function Leaves(t: Node): multiset<Node>
  {
    match t
    case Leaf(_, _) => multiset{t}
    case Internal(_, l, r) => Leaves(l) + Leaves(r)
  }

  /** The number of internal nodes (merges) of a tree. */
  function InternalCount(t: Node): nat
  {
    match t
    case Leaf(_, _) => 0
    case Internal(_, l, r) => 1 + InternalCount(l) + InternalCount(r)
  }

  /** The byte values held by the leaves of a tree, with multiplicity. */
  function Symbols(t: Node): multiset<byte>
  {
    match t
    case Leaf(b, _) => multiset{b}
    case Internal(_, l, r) => Symbols(l) + Symbols(r)
  }

  /** Height of a tree: the length of its longest root-to-leaf path. */
  function Height(t: Node): nat
  {
    match t
    case Leaf(_, _) => 0
    case Internal(_, l, r) => 1 + if Height(l) < Height(r) then Height(r) else Height(l)
  }

  /** Every internal node weighs the sum of its two children. */
  predicate WellFormed(t: Node)
  {
    match t
    case Leaf(_, _) => true
    case Internal(f, l, r) => f == l.freq + r.freq && WellFormed(l) && WellFormed(r)
  }

  /** No byte value labels two leaves. */
  ghost predicate DistinctSymbols(t: Node)
  {
    forall b :: Symbols(t)[b] <= 1
  }

  /** The leaf node that stands for an entry of the frequency table. */
  function LeafOf(e: Entry): Node
  {
    Leaf(e.ch, e.count)
  }

  /** Total count of a list of entries. */
  function TotalCount(es: seq<Entry>): nat
  {
    if es == [] then 0 else es[0].count + TotalCount(es[1..])
  }

  /** The multiset of leaves standing for a list of entries. */
  function LeafSet(es: seq<Entry>): multiset<Node>
  {
    if es == [] then multiset{} else multiset{LeafOf(es[0])} + LeafSet(es[1..])
  }

  /** The byte values of a list of entries, strictly ascending. */
  predicate StrictlyAscending(es: seq<Entry>)
  {
    forall i, j :: 0 <= i < j < |es| ==> es[i].ch < es[j].ch
  }
}
