/** `generateCodes`: a depth-first walk of the Huffman tree that records, for
    every leaf, the path from the root as a string of '0' (left) and '1'
    (right) characters in the 256-entry table `huffmanCodes` (`codes` in the
    in-memory codec). A table entry that no leaf writes stays NULL. */
module Codes {
  import opened Types

  /** `MAX_TREE_HT` of the file codecs: the length of their path buffer
      `arr`. */
  const MAX_TREE_HT: nat := 256

  /** The character `arr[i] + '0'` written for a path bit. */
  function Digit(b: Bit): char
  {
    if b == 0 then '0' else '1'
  }

  /** The code string of a path. */
  function Digits(bits: seq<Bit>): (s: string)
    ensures |s| == |bits| && forall i :: 0 <= i < |bits| ==> s[i] == Digit(bits[i])
  {
    seq(|bits|, i requires 0 <= i < |bits| => Digit(bits[i]))
  }

  /** The code of a path followed by another is the two codes joined. */
  lemma DigitsAppend(p: seq<Bit>, q: seq<Bit>)
    ensures Digits(p + q) == Digits(p) + Digits(q)
  {
  }

  /** The path (0 = left, 1 = right) from the root of `t` to a leaf holding
      `b`. When two leaves hold `b`, the one the walk visits last wins, as
      its code is the one left in the table. */
  function PathTo(t: Node, b: byte): (p: Option<seq<Bit>>)
    ensures p.Some? ==> |p.value| <= Height(t)
    ensures p.Some? && t.Internal? ==> |p.value| >= 1
  {
    match t
    case Leaf(d, _) => if d == b then Some([]) else None
    case Internal(_, l, r) =>
      match PathTo(r, b)
      case Some(p) => Some([1] + p)
      case None =>
        match PathTo(l, b)
        case Some(p) => Some([0] + p)
        case None => None
  }

  /** The table after the walk of `t` reached with the path `path` already in
      `arr[0..top)`: left subtree first, then right, then the leaf case. */
  function Fill(t: Node, path: seq<Bit>, table: seq<Option<string>>): (r: seq<Option<string>>)
    requires |table| == MAX_CHAR
    ensures |r| == MAX_CHAR
  {
    match t
    case Leaf(d, _) => table[d as int := Some(Digits(path))]
    case Internal(_, l, rt) => Fill(rt, path + [1], Fill(l, path + [0], table))
  }

  /** The table `generateCodes(root, arr, 0)` leaves after every entry was
      reset to NULL. */
  function CodeTable(t: Node): (r: seq<Option<string>>)
    ensures |r| == MAX_CHAR
  {
    Fill(t, [], seq(MAX_CHAR, _ => None))
  }

  // ----- The walk, on arrays -----

  /** `generateCodes(root, arr, top)`. The path buffer must have room for
      every path below `root`. */
  method GenerateCodes(root: Node, arr: array<Bit>, top: nat, codes: array<Option<string>>)
    requires codes.Length == MAX_CHAR && top + Height(root) <= arr.Length
    modifies arr, codes
    ensures arr[..top] == old(arr[..top])
    ensures codes[..] == Fill(root, old(arr[..top]), old(codes[..]))
    decreases root
  {
    match root
    case Internal(_, left, right) =>
      ghost var path := arr[..top];
      arr[top] := 0;
      assert arr[..top + 1] == path + [0];
      GenerateCodes(left, arr, top + 1, codes);
      arr[top] := 1;
      assert arr[..top + 1] == path + [1];
      GenerateCodes(right, arr, top + 1, codes);
      assert arr[..top] == arr[..top + 1][..top];
    case Leaf(data, _) =>
      var code := "";
      var i := 0;
      while i < top
        invariant 0 <= i <= top && code == Digits(arr[..i])
      {
        assert arr[..i + 1] == arr[..i] + [arr[i]];
        code := code + [Digit(arr[i])];
        i := i + 1;
      }
      assert arr[..top] == arr[..i];
      codes[data as int] := Some(code);
  }

  /** The code-table set-up before the walk: reset all 256 entries to NULL,
      then walk from the root with an empty path in a buffer `arr` of
      `bufferLength` ints, deep enough for the tree. */
  method AssignCodes(root: Node, bufferLength: nat) returns (codes: array<Option<string>>)
    requires Height(root) <= bufferLength
    ensures fresh(codes) && codes[..] == CodeTable(root)
  {
    codes := new Option<string>[MAX_CHAR](_ => None);
    var arr := new Bit[bufferLength](_ => 0);
    assert codes[..] == seq(MAX_CHAR, _ => None);
    assert arr[..0] == [];
    GenerateCodes(root, arr, 0, codes);
  }

  // ----- What the table holds -----

  /** A path exists exactly for the bytes the tree holds. */
  lemma {:induction false} PathExists(t: Node, b: byte)
    ensures PathTo(t, b).Some? <==> b in Symbols(t)
  {
    match t
    case Leaf(_, _) =>
    case Internal(_, l, r) =>
      PathExists(l, b);
      PathExists(r, b);
  }

  /** After the walk of `t`, the entry of a byte is the code of its path if
      `t` holds it, and is untouched otherwise. */
  lemma {:induction false} FillIsPath(t: Node, path: seq<Bit>, table: seq<Option<string>>, b: byte)
    requires |table| == MAX_CHAR
    ensures Fill(t, path, table)[b] ==
              match PathTo(t, b)
              case Some(p) => Some(Digits(path + p))
              case None => table[b]
  {
    match t
    case Leaf(d, _) =>
      assert path + [] == path;
    case Internal(_, l, r) =>
      var mid := Fill(l, path + [0], table);
      FillIsPath(l, path + [0], table, b);
      FillIsPath(r, path + [1], mid, b);
      match PathTo(r, b)
      case Some(p) =>
        assert path + [1] + p == path + ([1] + p);
      case None =>
        match PathTo(l, b)
        case Some(p) =>
          assert path + [0] + p == path + ([0] + p);
        case None =>
  }

  /** `generateCodes` gives every byte of the tree the string of its
      root-to-leaf path, and leaves every other entry NULL. */
  lemma CodeTableIsPaths(t: Node, b: byte)
    ensures CodeTable(t)[b] ==
              match PathTo(t, b)
              case Some(p) => Some(Digits(p))
              case None => None
    ensures CodeTable(t)[b].Some? <==> b in Symbols(t)
  {
    FillIsPath(t, [], seq(MAX_CHAR, _ => None), b);
    PathExists(t, b);
    if PathTo(t, b).Some? {
      assert [] + PathTo(t, b).value == PathTo(t, b).value;
    }
  }

  /** A single-leaf tree gets the empty code: `top` is still 0 at the leaf. */
  lemma SingleLeafEmptyCode(d: byte, f: nat)
    ensures CodeTable(Leaf(d, f))[d] == Some("")
    ensures forall b: byte :: b != d ==> CodeTable(Leaf(d, f))[b] == None
  {
  }

  /** A path to a leaf cannot be extended to the path of another leaf: the
      two leaves are the same. */
  lemma {:induction false} PathNotExtended(t: Node, a: byte, b: byte, p: seq<Bit>, s: seq<Bit>)
    requires PathTo(t, a) == Some(p) && PathTo(t, b) == Some(p + s)
    ensures s == [] && a == b
  {
    match t
    case Leaf(_, _) =>
    case Internal(_, l, r) =>
      assert p != [];
      if PathTo(r, a).Some? {
        assert p == [1] + PathTo(r, a).value;
        assert (p + s)[0] == 1;
        assert PathTo(r, b).Some?;
        assert p + s == [1] + (PathTo(r, a).value + s);
        assert PathTo(r, b).value == ([1] + PathTo(r, b).value)[1..];
        PathNotExtended(r, a, b, PathTo(r, a).value, s);
      } else {
        assert p == [0] + PathTo(l, a).value;
        assert (p + s)[0] == 0;
        assert PathTo(r, b).None? && PathTo(l, b).Some?;
        assert p + s == [0] + (PathTo(l, a).value + s);
        assert PathTo(l, b).value == ([0] + PathTo(l, b).value)[1..];
        PathNotExtended(l, a, b, PathTo(l, a).value, s);
      }
  }

  /** Code strings are as distinct as their paths. */
  lemma DigitsPrefix(p: seq<Bit>, q: seq<Bit>)
    requires Digits(p) <= Digits(q)
    ensures q == p + q[|p|..]
  {
    forall i | 0 <= i < |p| ensures q[i] == p[i] {
      assert Digit(q[i]) == Digit(p[i]);
    }
  }

  /** The table is prefix-free: no code of one byte is a prefix of (or equal
      to) the code of another. */
  lemma CodesPrefixFree(t: Node, a: byte, b: byte)
    requires a != b && CodeTable(t)[a].Some? && CodeTable(t)[b].Some?
    ensures !(CodeTable(t)[a].value <= CodeTable(t)[b].value)
  {
    CodeTableIsPaths(t, a);
    CodeTableIsPaths(t, b);
    var p := PathTo(t, a).value;
    var q := PathTo(t, b).value;
    if Digits(p) <= Digits(q) {
      DigitsPrefix(p, q);
      PathNotExtended(t, a, b, p, q[|p|..]);
    }
  }

  /** The depth of a leaf never exceeds the height of the tree, and below an
      internal root every code has at least one bit. */
  lemma {:induction false} PathLength(t: Node, b: byte)
    requires PathTo(t, b).Some?
    ensures |PathTo(t, b).value| <= Height(t)
    ensures t.Internal? ==> |PathTo(t, b).value| >= 1
  {
    match t
    case Leaf(_, _) =>
    case Internal(_, l, r) =>
      if PathTo(r, b).Some? {
        PathLength(r, b);
      } else {
        PathLength(l, b);
      }
  }

  // ----- Encoding with the table -----

  /** The code bits of every input byte, in order. */
  function EncodeBits(t: Node, input: seq<byte>): (bits: seq<Bit>)
    requires forall k :: 0 <= k < |input| ==> PathTo(t, input[k]).Some?
  {
    if input == [] then [] else PathTo(t, input[0]).value + EncodeBits(t, input[1..])
  }

  /** Encoding one more byte appends its code. */
  lemma {:induction false} EncodeSnoc(t: Node, input: seq<byte>, c: byte)
    requires forall k :: 0 <= k < |input| ==> PathTo(t, input[k]).Some?
    requires PathTo(t, c).Some?
    ensures EncodeBits(t, input + [c]) == EncodeBits(t, input) + PathTo(t, c).value
    decreases |input|
  {
    if input == [] {
      assert [] + [c] == [c];
      assert [c][1..] == [];
    } else {
      assert (input + [c])[1..] == input[1..] + [c];
      EncodeSnoc(t, input[1..], c);
    }
  }

  /** Under an internal root every byte costs at least one bit. */
  lemma {:induction false} EncodeAtLeastOneBit(t: Node, input: seq<byte>)
    requires t.Internal? && forall k :: 0 <= k < |input| ==> PathTo(t, input[k]).Some?
    ensures |EncodeBits(t, input)| >= |input|
  {
    if input != [] {
      EncodeAtLeastOneBit(t, input[1..]);
    }
  }

  /** Encoding one more byte of `input` appends its code. */
  lemma EncodePrefix(t: Node, input: seq<byte>, i: nat)
    requires i < |input| && forall k :: 0 <= k < |input| ==> PathTo(t, input[k]).Some?
    ensures EncodeBits(t, input[..i + 1]) == EncodeBits(t, input[..i]) + PathTo(t, input[i]).value
  {
    assert input[..i + 1] == input[..i] + [input[i]];
    EncodeSnoc(t, input[..i], input[i]);
  }

  /** With a single-leaf tree every code is empty, and so is the encoding. */
  lemma {:induction false} EncodeSingleLeaf(d: byte, f: nat, input: seq<byte>)
    requires forall k :: 0 <= k < |input| ==> input[k] == d
    ensures forall k :: 0 <= k < |input| ==> PathTo(Leaf(d, f), input[k]).Some?
    ensures EncodeBits(Leaf(d, f), input) == []
    decreases |input|
  {
    if input != [] {
      EncodeSingleLeaf(d, f, input[1..]);
    }
  }

  /** The table entry of a byte the tree holds is the code of its path. */
  lemma CodeOf(root: Node, c: byte)
    requires PathTo(root, c).Some?
    ensures CodeTable(root)[c as int] == Some(Digits(PathTo(root, c).value))
  {
    CodeTableIsPaths(root, c);
  }
}
