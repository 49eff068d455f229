/** The compressed file of `compressFile`/`decompressFile`: a header of
    little-endian fields (total byte count, number of entries, then one
    (byte, count) record per entry) followed by the code bits of every input
    byte, packed most significant bit first. */
module Container {
  import opened Types
  import opened HuffmanTree
  import opened Codes
  import opened BitIO
  import opened Frequency

  // ----- Little-endian fields -----

  function Pow256(n: nat): (p: nat)
    ensures p >= 1
  {
    if n == 0 then 1 else 256 * Pow256(n - 1)
  }

  /** The `n` bytes `fwrite` emits for an unsigned integer field of `n`
      bytes, least significant first. */
  function LittleEndian(x: nat, n: nat): (r: seq<byte>)
    requires x < Pow256(n)
    ensures |r| == n
  {
    if n == 0 then [] else [ByteOf(x % 256)] + LittleEndian(x / 256, n - 1)
  }

  /** The value `fread` stores from little-endian bytes. */
  function FromLittleEndian(s: seq<byte>): (x: nat)
    ensures x < Pow256(|s|)
  {
    if s == [] then 0 else s[0] as int + 256 * FromLittleEndian(s[1..])
  }

  /** Reading back a written field gives its value. */
  lemma {:induction false} ReadWritten(x: nat, n: nat)
    requires x < Pow256(n)
    ensures FromLittleEndian(LittleEndian(x, n)) == x
  {
    if n > 0 {
      ReadWritten(x / 256, n - 1);
      assert LittleEndian(x, n)[1..] == LittleEndian(x / 256, n - 1);
    }
  }

  /** Writing back a read field gives its bytes. */
  lemma {:induction false} WrittenRead(s: seq<byte>)
    ensures LittleEndian(FromLittleEndian(s), |s|) == s
  {
    if s != [] {
      var low, high := s[0] as int, FromLittleEndian(s[1..]);
      var x := FromLittleEndian(s);
      assert x == low + 256 * high;
      WrittenRead(s[1..]);
      SplitByte(low, high);
      ByteOfValue(s[0]);
      assert LittleEndian(x, |s|) == [ByteOf(low)] + LittleEndian(high, |s| - 1);
      assert s == [s[0]] + s[1..];
    }
  }

  lemma SplitByte(low: nat, high: nat)
    requires low < 256
    ensures (low + 256 * high) % 256 == low && (low + 256 * high) / 256 == high
  {
  }

  // ----- The header -----

  /** Every count fits the `uint32_t` it is written as. */
  predicate CountsFit(es: seq<Entry>)
  {
    forall k :: 0 <= k < |es| ==> es[k].count < UINT32
  }

  /** The frequency table of the header: one byte value and one 4-byte
      count per entry. */
  function EntryBytes(es: seq<Entry>): (r: seq<byte>)
    requires CountsFit(es)
    ensures |r| == 5 * |es|
  {
    if es == [] then []
    else [es[0].ch] + LittleEndian(es[0].count, 4) + EntryBytes(es[1..])
  }

  /** The header `compressFile` writes: `totalChars`, the 2-byte unique
      count, then the table. */
  function Header(total: nat, es: seq<Entry>): (r: seq<byte>)
    requires total < UINT32 && |es| < Pow256(2) && CountsFit(es)
    ensures |r| == 6 + 5 * |es|
  {
    LittleEndian(total, 4) + LittleEndian(|es|, 2) + EntryBytes(es)
  }

  /** The `n` records the `fread` loop of `decompressFile` reads. */
  function ParseEntries(s: seq<byte>, n: nat): (es: seq<Entry>)
    requires |s| >= 5 * n
    ensures |es| == n
  {
    seq(n, k requires 0 <= k < n => Entry(s[5 * k], FromLittleEndian(s[5 * k + 1..5 * k + 5])))
  }

  /** Record `k` of the table sits at offset `5 * k`. */
  lemma {:induction false} EntryBytesAt(es: seq<Entry>, k: nat)
    requires CountsFit(es) && k < |es|
    ensures EntryBytes(es)[5 * k] == es[k].ch
    ensures EntryBytes(es)[5 * k + 1..5 * k + 5] == LittleEndian(es[k].count, 4)
    decreases k
  {
    var head := [es[0].ch] + LittleEndian(es[0].count, 4);
    var tail := EntryBytes(es[1..]);
    assert EntryBytes(es) == head + tail;
    if k == 0 {
      PrefixSlice(head, tail, 1, 5);
      assert head[1..5] == LittleEndian(es[0].count, 4);
    } else {
      EntryBytesAt(es[1..], k - 1);
      SuffixSlice(head, tail, 5 * k + 1, 5 * k + 5);
    }
  }

  /** Record `k` reads back as entry `k`. */
  lemma ParseEntryAt(es: seq<Entry>, rest: seq<byte>, k: nat)
    requires CountsFit(es) && k < |es|
    ensures ParseEntries(EntryBytes(es) + rest, |es|)[k] == es[k]
  {
    var t := EntryBytes(es);
    var s := t + rest;
    EntryBytesAt(es, k);
    PrefixSlice(t, rest, 5 * k + 1, 5 * k + 5);
    ReadWritten(es[k].count, 4);
    assert FromLittleEndian(s[5 * k + 1..5 * k + 5]) == es[k].count;
    assert s[5 * k] == es[k].ch;
  }

  lemma PrefixSlice(a: seq<byte>, b: seq<byte>, i: nat, j: nat)
    requires i <= j <= |a|
    ensures (a + b)[i..j] == a[i..j]
  {
  }

  lemma SuffixSlice(a: seq<byte>, b: seq<byte>, i: nat, j: nat)
    requires |a| <= i <= j <= |a| + |b|
    ensures (a + b)[i..j] == b[i - |a|..j - |a|]
  {
  }

  /** The table reads back as the entries it was written from. */
  lemma ParseEntryBytes(es: seq<Entry>, rest: seq<byte>)
    requires CountsFit(es)
    ensures ParseEntries(EntryBytes(es) + rest, |es|) == es
  {
    forall k | 0 <= k < |es|
      ensures ParseEntries(EntryBytes(es) + rest, |es|)[k] == es[k]
    {
      ParseEntryAt(es, rest, k);
    }
  }

  // ----- Decoding -----

  /** The decode loop from node `curr`: each bit moves to the left (0) or
      right (1) child; reaching a leaf emits its byte and restarts at the
      root. It stops once `want` bytes are out or the bits run out. */
  function Walk(root: Node, curr: Node, bits: seq<Bit>, want: nat): (r: seq<byte>)
    requires want == 0 || bits == [] || (root.Internal? && curr.Internal?)
    ensures |r| <= want
    decreases |bits|
  {
    if want == 0 || bits == [] then []
    else
      var next := if bits[0] == 0 then curr.left else curr.right;
      if next.Leaf? then [next.data] + Walk(root, root, bits[1..], want - 1)
      else Walk(root, next, bits[1..], want)
  }

  /** Following the path of `b` from an internal node emits `b` and returns
      to the root. */
  lemma {:induction false} WalkPath(root: Node, sub: Node, b: byte, rest: seq<Bit>, want: nat)
    requires root.Internal? && sub.Internal? && PathTo(sub, b).Some? && want >= 1
    ensures Walk(root, sub, PathTo(sub, b).value + rest, want) == [b] + Walk(root, root, rest, want - 1)
    decreases sub
  {
    var p := PathTo(sub, b).value;
    var next := if p[0] == 0 then sub.left else sub.right;
    assert PathTo(next, b) == Some(p[1..]);
    assert (p + rest)[1..] == p[1..] + rest;
    if next.Internal? {
      WalkPath(root, next, b, rest, want);
    }
  }

  // ----- Encoding -----

  /** With a tree of two or more leaves, the walk undoes the encoding: it
      reads back every byte, whatever pad bits follow. */
  lemma {:induction false} WalkEncoded(t: Node, input: seq<byte>, pad: seq<Bit>)
    requires t.Internal? && forall k :: 0 <= k < |input| ==> PathTo(t, input[k]).Some?
    ensures Walk(t, t, EncodeBits(t, input) + pad, |input|) == input
    decreases |input|
  {
    if input != [] {
      var rest := EncodeBits(t, input[1..]) + pad;
      assert EncodeBits(t, input) + pad == PathTo(t, input[0]).value + rest;
      WalkPath(t, t, input[0], rest, |input|);
      WalkEncoded(t, input[1..], pad);
      assert input == [input[0]] + input[1..];
    }
  }

  // ----- Compressing -----

  /** What the compressor relies on for an input that is not empty and whose
      length fits `totalChars`: one to 256 entries, counts that fit their
      `uint32_t`, a tree holding every input byte, and a tree shallow enough
      for the path buffer. */
  lemma CompressibleInput(input: seq<byte>)
    requires 0 < |input| < UINT32
    ensures var es := InputEntries(input);
      1 <= |es| <= 256 && CountsFit(es) && TotalCount(es) == |input| &&
      Height(Build(es)) <= MAX_TREE_HT &&
      forall k :: 0 <= k < |input| ==> PathTo(Build(es), input[k]).Some?
  {
    var es := InputEntries(input);
    UniqueOfInput(input);
    BuildCorrect(es);
    forall k | 0 <= k < |es| ensures es[k].count < UINT32 {
      assert es[k].count == Occurrences(input, es[k].ch as int) <= |input|;
    }
    forall k | 0 <= k < |input| ensures PathTo(Build(es), input[k]).Some? {
      assert input[k] in input;
      PathExists(Build(es), input[k]);
    }
  }

  /** The file `compressFile` writes for `input`, or None for an empty
      input ("File is empty."). */
  function Compress(input: seq<byte>): (r: Option<seq<byte>>)
    requires |input| < UINT32
    ensures r.None? <==> input == []
    ensures r.Some? ==> |r.value| >= 6 + 5 * |InputEntries(input)|
  {
    if input == [] then None
    else
      CompressibleInput(input);
      var es := InputEntries(input);
      Some(Header(|input|, es) + PackBits(EncodeBits(Build(es), input)))
  }

  // ----- Decompressing -----

  /** How `decompressFile` ends. */
  datatype Outcome =
    | TotalCharsMissing            // "Error reading header (total chars)."
    | UniqueCountMissing           // "Error reading header (unique count)."
    | Decoded(output: seq<byte>, decodedCount: nat, totalChars: nat)

  /** The "Character count mismatch" warning. */
  predicate CountMismatch(r: Outcome)
  {
    r.Decoded? && r.decodedCount != r.totalChars
  }

  /** The `totalChars` field. */
  function TotalField(file: seq<byte>): (total: nat)
    requires |file| >= 4
    ensures total < UINT32
  {
    FromLittleEndian(file[..4])
  }

  /** The `uniqueCount` field. */
  function CountField(file: seq<byte>): (n: nat)
    requires |file| >= 6
    ensures n < Pow256(2)
  {
    FromLittleEndian(file[4..6])
  }

  /** What `decompressFile` needs of a file that holds both counts, since
      it does not check it: a unique count from 1 to 256 (0 empties the
      heap, more overflows `uniqueChars[256]`), a complete table (the
      `fread` calls are unchecked), counts that total below 2^32 (the
      `uint32_t` weights of merged nodes would wrap), and no payload bits
      for a one-leaf tree when bytes are expected (its NULL children would
      be followed). */
  predicate Decodable(file: seq<byte>)
    ensures |file| < 6 ==> Decodable(file)
  {
    |file| >= 6 ==>
      1 <= CountField(file) <= MAX_CHAR && |file| >= 6 + 5 * CountField(file) &&
      TotalCount(ParseEntries(file[6..], CountField(file))) < UINT32 &&
      (CountField(file) >= 2 || TotalField(file) == 0 || |file| == 6 + 5 * CountField(file))
  }

  /** The table records of a file. */
  function TableOf(file: seq<byte>): (es: seq<Entry>)
    requires Decodable(file) && |file| >= 6
    ensures |es| == CountField(file)
  {
    ParseEntries(file[6..], CountField(file))
  }

  /** The bytes after the table. */
  function PayloadOf(file: seq<byte>): seq<byte>
    requires Decodable(file) && |file| >= 6
  {
    file[6 + 5 * CountField(file)..]
  }

  /** The tree rebuilt from a decodable file can follow its payload. */
  lemma TreeFitsPayload(file: seq<byte>)
    requires Decodable(file) && |file| >= 6
    ensures var root := Build(TableOf(file));
      TotalField(file) == 0 || PayloadOf(file) == [] || root.Internal?
  {
  }

  /** What `decompressFile` makes of the bytes of a compressed file. */
  function Decompress(file: seq<byte>): (r: Outcome)
    requires Decodable(file)
    ensures r.Decoded? <==> |file| >= 6
    ensures r.Decoded? ==> r.decodedCount == |r.output| <= r.totalChars < UINT32
  {
    if |file| < 4 then TotalCharsMissing
    else if |file| < 6 then UniqueCountMissing
    else
      TreeFitsPayload(file);
      var root := Build(TableOf(file));
      var out := Walk(root, root, UnpackBits(PayloadOf(file)), TotalField(file));
      Decoded(out, |out|, TotalField(file))
  }

  /** Every byte the walk emits is the byte of a leaf of the tree. */
  lemma {:induction false} WalkEmitsLeaves(root: Node, curr: Node, bits: seq<Bit>, want: nat)
    requires want == 0 || bits == [] || (root.Internal? && curr.Internal?)
    requires Symbols(curr) <= Symbols(root)
    ensures forall b :: b in Walk(root, curr, bits, want) ==> b in Symbols(root)
    decreases |bits|
  {
    if want > 0 && bits != [] {
      var next := if bits[0] == 0 then curr.left else curr.right;
      if next.Leaf? {
        WalkEmitsLeaves(root, root, bits[1..], want - 1);
      } else {
        WalkEmitsLeaves(root, next, bits[1..], want);
      }
    }
  }

  /** Every decoded byte is one of the byte values listed in the header. */
  lemma DecodedFromTable(file: seq<byte>)
    requires Decodable(file) && |file| >= 6
    ensures forall b :: b in Decompress(file).output ==> b in CharSeq(TableOf(file))
  {
    var root := Build(TableOf(file));
    TreeFitsPayload(file);
    BuildCorrect(TableOf(file));
    WalkEmitsLeaves(root, root, UnpackBits(PayloadOf(file)), TotalField(file));
  }

  // ----- The round trip -----

  /** The fields of a compressed file read back as written. */
  lemma ReadHeader(total: nat, es: seq<Entry>, payload: seq<byte>)
    requires total < UINT32 && 1 <= |es| <= 256 && CountsFit(es)
    ensures var file := Header(total, es) + payload;
      FromLittleEndian(file[..4]) == total && FromLittleEndian(file[4..6]) == |es| &&
      ParseEntries(file[6..], |es|) == es && file[6 + 5 * |es|..] == payload
  {
    var file := Header(total, es) + payload;
    assert file[..4] == LittleEndian(total, 4);
    assert file[4..6] == LittleEndian(|es|, 2);
    assert file[6..] == EntryBytes(es) + payload;
    ReadWritten(total, 4);
    ReadWritten(|es|, 2);
    ParseEntryBytes(es, payload);
  }

  /** Decompressing a compressed file gives back the input, with no count
      mismatch, whenever the input holds two different byte values. */
  lemma RoundTrip(input: seq<byte>, i: nat, j: nat)
    requires |input| < UINT32 && i < |input| && j < |input| && input[i] != input[j]
    ensures Decodable(Compress(input).value)
    ensures Decompress(Compress(input).value) == Decoded(input, |input|, |input|)
  {
    var es := InputEntries(input);
    CompressibleInput(input);
    CompressedFields(input);
    TwoDistinctBytes(input, i, j);
    var t := Build(es);
    var bits := EncodeBits(t, input);
    ReadHeader(|input|, es, PackBits(bits));
    UnpackPack(bits);
    WalkEncoded(t, input, Zeros(PadLength(|bits|)));
  }

  /** The header fields of a compressed file, as `decompressFile` reads
      them, and the total the table's counts add up to. */
  lemma CompressedFields(input: seq<byte>)
    requires 0 < |input| < UINT32
    ensures var file := Compress(input).value; var es := InputEntries(input);
      |file| >= 6 + 5 * |es| && CountField(file) == |es| && TotalField(file) == |input| &&
      TotalCount(ParseEntries(file[6..], CountField(file))) == |input|
  {
    var es := InputEntries(input);
    CompressibleInput(input);
    ReadHeader(|input|, es, PackBits(EncodeBits(Build(es), input)));
  }

  /** An input made of one repeated byte value gets an empty code, so the
      payload is empty and nothing is decoded: the file decompresses to no
      bytes, with a count mismatch. */
  lemma SingleSymbolLost(input: seq<byte>)
    requires 0 < |input| < UINT32 && forall k :: 0 <= k < |input| ==> input[k] == input[0]
    ensures Decodable(Compress(input).value)
    ensures Decompress(Compress(input).value) == Decoded([], 0, |input|)
    ensures CountMismatch(Decompress(Compress(input).value))
  {
    var es := InputEntries(input);
    CompressibleInput(input);
    OneEntry(input);
    var t := Build(es);
    BuildCorrect(es);
    assert t.Leaf?;
    assert t.data == es[0].ch == input[0] by {
      assert Symbols(t) == multiset{t.data};
      assert CharSeq(es) == [es[0].ch];
    }
    EncodeSingleLeaf(t.data, t.freq, input);
    ReadHeader(|input|, es, PackBits([]));
  }

  /** Every file `compressFile` writes is one `decompressFile` can read. */
  lemma CompressedIsDecodable(input: seq<byte>)
    requires 0 < |input| < UINT32
    ensures Decodable(Compress(input).value)
  {
    if forall k :: 0 <= k < |input| ==> input[k] == input[0] {
      SingleSymbolLost(input);
    } else {
      var k :| 0 <= k < |input| && input[k] != input[0];
      RoundTrip(input, k, 0);
    }
  }

  /** An input of one repeated byte value has a single entry, for that
      value. */
  lemma OneEntry(input: seq<byte>)
    requires 0 < |input| && forall k :: 0 <= k < |input| ==> input[k] == input[0]
    ensures |InputEntries(input)| == 1 && InputEntries(input)[0].ch == input[0]
  {
    var es := InputEntries(input);
    UniqueOfInput(input);
    forall k | 0 <= k < |es| ensures es[k].ch == input[0] {
      assert es[k].ch in CharSeq(es);
    }
  }

  // ----- `decompressFile`, step by step -----

  /** The decode loop of `decompressFile`: read bits with a `BitReader`,
      step left on 0 and right on 1, and at a leaf emit its byte, count it
      and restart at the root, until `totalChars` bytes are out or the
      reader reports the end. */
  method DecodePayload(root: Node, payload: seq<byte>, totalChars: nat) returns (out: seq<byte>, decodedCount: nat)
    requires root.Internal? || totalChars == 0 || payload == []
    ensures out == Walk(root, root, UnpackBits(payload), totalChars) && decodedCount == |out|
  {
    ghost var bits := UnpackBits(payload);
    ghost var target := Walk(root, root, bits, totalChars);
    var br := new BitReader(payload);
    ghost var at := 0;
    var curr := root;
    out := [];
    decodedCount := 0;
    while decodedCount < totalChars
      invariant br.Valid() && br.src == payload && at == br.Delivered() && 0 <= at <= |bits|
      invariant decodedCount == |out| <= totalChars
      invariant root.Internal? ==> curr.Internal?
      invariant root.Leaf? ==> curr == root && (totalChars == 0 || at == |bits|)
      invariant out + Walk(root, curr, bits[at..], totalChars - decodedCount) == target
      decreases |bits| - at
    {
      var bit := br.ReadBit();
      if bit == -1 {
        break;
      }
      ghost var prev := curr;
      curr := if bit == 0 then curr.left else curr.right;
      WalkStep(root, prev, curr, bits, at, totalChars - decodedCount, out, target);
      at := at + 1;
      if curr.Leaf? {
        out := out + [curr.data];
        decodedCount := decodedCount + 1;
        curr := root;
      }
    }
  }

  /** One turn of the decode loop, on the bit at position `i`, keeps the
      output so far followed by the rest of the walk equal to `target`. */
  lemma WalkStep(root: Node, curr: Node, next: Node, bits: seq<Bit>, i: nat, want: nat, out: seq<byte>, target: seq<byte>)
    requires i < |bits| && want > 0 && root.Internal? && curr.Internal?
    requires next == if bits[i] == 0 then curr.left else curr.right
    requires out + Walk(root, curr, bits[i..], want) == target
    ensures next.Leaf? ==> (out + [next.data]) + Walk(root, root, bits[i + 1..], want - 1) == target
    ensures next.Internal? ==> out + Walk(root, next, bits[i + 1..], want) == target
  {
    assert bits[i..][0] == bits[i] && bits[i..][1..] == bits[i + 1..];
    if next.Leaf? {
      var tail := Walk(root, root, bits[i + 1..], want - 1);
      assert out + ([next.data] + tail) == (out + [next.data]) + tail;
    }
  }

  /** `decompressFile` on the bytes of the compressed file: read the two
      counts and the table, rebuild the tree, decode. */
  method DecompressFile(file: seq<byte>) returns (r: Outcome)
    requires Decodable(file)
    ensures r == Decompress(file)
  {
    if |file| < 4 {
      return TotalCharsMissing;
    }
    var totalChars := FromLittleEndian(file[..4]);
    if |file| < 6 {
      return UniqueCountMissing;
    }
    var uniqueCount := FromLittleEndian(file[4..6]);
    assert totalChars == TotalField(file) && uniqueCount == CountField(file);
    var uniqueChars, uniqueFreqs := ReadTable(file, uniqueCount);
    var root := BuildHuffmanTree(uniqueChars, uniqueFreqs, uniqueCount);
    assert root == Build(TableOf(file));
    TreeFitsPayload(file);
    var out, decodedCount := DecodePayload(root, PayloadOf(file), totalChars);
    r := Decoded(out, decodedCount, totalChars);
  }

  /** The `fread` loop over the `n` records of the frequency table. */
  method ReadTable(file: seq<byte>, n: nat) returns (uniqueChars: array<byte>, uniqueFreqs: array<nat>)
    requires 1 <= n <= MAX_CHAR && |file| >= 6 + 5 * n
    ensures uniqueChars.Length == MAX_CHAR && uniqueFreqs.Length == MAX_CHAR
    ensures Entries(uniqueChars[..n], uniqueFreqs[..n]) == ParseEntries(file[6..], n)
  {
    uniqueChars := new byte[MAX_CHAR];
    uniqueFreqs := new nat[MAX_CHAR];
    var i := 0;
    while i < n
      invariant 0 <= i <= n
      invariant forall k :: 0 <= k < i ==>
        uniqueChars[k] == file[6 + 5 * k] && uniqueFreqs[k] == FromLittleEndian(file[6 + 5 * k + 1..6 + 5 * k + 5])
    {
      uniqueChars[i] := file[6 + 5 * i];
      uniqueFreqs[i] := FromLittleEndian(file[6 + 5 * i + 1..6 + 5 * i + 5]);
      i := i + 1;
    }
    TableRead(file, n, uniqueChars[..n], uniqueFreqs[..n]);
  }

  /** The arrays filled by the `fread` loop pair up into the parsed table. */
  lemma TableRead(file: seq<byte>, n: nat, chars: seq<byte>, counts: seq<nat>)
    requires |file| >= 6 + 5 * n && |chars| == n && |counts| == n
    requires forall k :: 0 <= k < n ==>
      chars[k] == file[6 + 5 * k] && counts[k] == FromLittleEndian(file[6 + 5 * k + 1..6 + 5 * k + 5])
    ensures Entries(chars, counts) == ParseEntries(file[6..], n)
  {
    forall k | 0 <= k < n ensures Entries(chars, counts)[k] == ParseEntries(file[6..], n)[k] {
      assert file[6..][5 * k + 1..5 * k + 5] == file[6 + 5 * k + 1..6 + 5 * k + 5];
    }
  }

  // ----- `compressFile`, step by step -----

  /** Adding an entry adds its record to the table. */
  lemma {:induction false} EntryBytesSnoc(es: seq<Entry>, e: Entry)
    requires CountsFit(es) && e.count < UINT32
    ensures CountsFit(es + [e])
    ensures EntryBytes(es + [e]) == EntryBytes(es) + [e.ch] + LittleEndian(e.count, 4)
    decreases |es|
  {
    if es == [] {
      assert [] + [e] == [e];
      assert [e][1..] == [];
    } else {
      assert (es + [e])[1..] == es[1..] + [e];
      EntryBytesSnoc(es[1..], e);
    }
  }

  /** Counts below `2^32` give entries that fit their field. */
  lemma UniqueCountsFit(f: seq<nat>, n: nat)
    requires |f| == MAX_CHAR && n <= MAX_CHAR
    requires forall v :: 0 <= v < MAX_CHAR ==> f[v] < UINT32
    ensures CountsFit(UniqueUpTo(f, n))
  {
    var es := UniqueUpTo(f, n);
    UniqueSound(f, n);
    forall k | 0 <= k < |es| ensures es[k].count < UINT32 {
      assert es[k] in es;
    }
  }

  /** The header writes of `compressFile`: `totalChars`, the count of
      entries as a `uint16_t`, then byte and count for every `freq[i] > 0`,
      in ascending byte order. */
  method WriteHeader(totalChars: nat, freq: array<nat>, size: nat) returns (out: seq<byte>)
    requires freq.Length == MAX_CHAR && totalChars < UINT32 && size < Pow256(2)
    requires forall v :: 0 <= v < MAX_CHAR ==> freq[v] < UINT32
    ensures CountsFit(UniqueEntries(freq[..]))
    ensures out == LittleEndian(totalChars, 4) + LittleEndian(size, 2) + EntryBytes(UniqueEntries(freq[..]))
  {
    ghost var f := freq[..];
    var head := LittleEndian(totalChars, 4) + LittleEndian(size, 2);
    out := head;
    var i := 0;
    while i < MAX_CHAR
      invariant 0 <= i <= MAX_CHAR && CountsFit(UniqueUpTo(f, i))
      invariant out == head + EntryBytes(UniqueUpTo(f, i))
    {
      UniqueStep(f, i);
      UniqueCountsFit(f, i + 1);
      if freq[i] > 0 {
        EntryBytesSnoc(UniqueUpTo(f, i), Entry(ByteOf(i), freq[i]));
        out := out + [ByteOf(i)] + LittleEndian(freq[i], 4);
      } else {
        assert UniqueUpTo(f, i) + [] == UniqueUpTo(f, i);
      }
      i := i + 1;
    }
  }

  /** The character `code[i]` of a code string, as `code[i] - '0'`, is
      the path bit it stands for. */
  lemma DigitValue(b: Bit)
    ensures Digit(b) as int - '0' as int == b
  {
  }

  /** The inner loop: hand each character of one code to `writeBit`. */
  method WriteCode(bw: BitWriter, code: string, ghost p: seq<Bit>)
    requires bw.Valid() && code == Digits(p)
    modifies bw
    ensures bw.Valid() && bw.written == old(bw.written) + p
  {
    var j := 0;
    while j < |code|
      invariant 0 <= j <= |code| && bw.Valid()
      invariant bw.written == old(bw.written) + p[..j]
    {
      DigitValue(p[j]);
      bw.WriteBit(code[j] as int - '0' as int);
      assert p[..j + 1] == p[..j] + [p[j]];
      j := j + 1;
    }
    assert p[..j] == p;
  }

  /** The data loop of `compressFile` with a `BitWriter`: for every input
      byte, write the bits of its code; then flush. */
  method EncodeWithWriter(input: seq<byte>, codes: array<Option<string>>, ghost root: Node) returns (payload: seq<byte>)
    requires codes.Length == MAX_CHAR && codes[..] == CodeTable(root)
    requires forall k :: 0 <= k < |input| ==> PathTo(root, input[k]).Some?
    ensures payload == PackBits(EncodeBits(root, input))
  {
    var bw := new BitWriter();
    var i := 0;
    while i < |input|
      invariant 0 <= i <= |input| && bw.Valid()
      invariant bw.written == EncodeBits(root, input[..i])
    {
      var c := input[i];
      CodeOf(root, c);
      WriteCode(bw, codes[c as int].value, PathTo(root, c).value);
      EncodePrefix(root, input, i);
      i := i + 1;
    }
    assert input[..i] == input;
    assert bw.written == EncodeBits(root, input);
    bw.Flush();
    payload := bw.out;
  }

  /** The inner loop with the global `writeBit(out, bit)`. */
  method WriteCodeGlobal(g: GlobalBitBuffer, out: seq<byte>, code: string, ghost before: seq<Bit>, ghost p: seq<Bit>)
    returns (out': seq<byte>)
    requires g.Holds(out, before) && code == Digits(p)
    modifies g, g.bitBuffer
    ensures g.Holds(out', before + p)
  {
    out' := out;
    var j := 0;
    while j < |code|
      invariant 0 <= j <= |code| && g.Holds(out', before + p[..j])
    {
      DigitValue(p[j]);
      out' := g.WriteBit(out', code[j] as int - '0' as int, before + p[..j]);
      assert before + p[..j] + [p[j]] == before + p[..j + 1];
      j := j + 1;
    }
    assert p[..j] == p;
  }

  /** The data loop of the `bitBuffer[8]` variant: `bitIndex = 0`, the same
      loop over the codes with the global `writeBit`, then `flushBits`. */
  method EncodeWithGlobalBuffer(g: GlobalBitBuffer, input: seq<byte>, codes: array<Option<string>>, ghost root: Node)
    returns (payload: seq<byte>)
    requires g.bitBuffer.Length == 8
    requires codes.Length == MAX_CHAR && codes[..] == CodeTable(root)
    requires forall k :: 0 <= k < |input| ==> PathTo(root, input[k]).Some?
    modifies g, g.bitBuffer
    ensures g.bitIndex == 0
    ensures payload == PackBits(EncodeBits(root, input))
  {
    g.ResetIndex();
    payload := [];
    var i := 0;
    while i < |input|
      invariant 0 <= i <= |input| && g.Holds(payload, EncodeBits(root, input[..i]))
    {
      var c := input[i];
      CodeOf(root, c);
      payload := WriteCodeGlobal(g, payload, codes[c as int].value, EncodeBits(root, input[..i]), PathTo(root, c).value);
      EncodePrefix(root, input, i);
      i := i + 1;
    }
    assert input[..i] == input;
    payload := g.FlushBits(payload, EncodeBits(root, input));
  }

  /** `compressFile` with the `BitWriter` struct, on the bytes of the input
      file; the bytes of the output file are the result. */
  method CompressFile(input: seq<byte>) returns (file: Option<seq<byte>>)
    requires |input| < UINT32
    ensures file == Compress(input)
  {
    var freq, totalChars := CountFrequencies(input);
    if totalChars == 0 {
      return None;
    }
    var root, codes, header := PrepareHeader(input, freq, totalChars);
    var payload := EncodeWithWriter(input, codes, root);
    file := Some(header + payload);
  }

  /** `compressFile` of the `bitBuffer[8]` variant. */
  method CompressFileGlobal(g: GlobalBitBuffer, input: seq<byte>) returns (file: Option<seq<byte>>)
    requires |input| < UINT32 && g.bitBuffer.Length == 8
    modifies g, g.bitBuffer
    ensures file == Compress(input)
  {
    var freq, totalChars := CountFrequencies(input);
    if totalChars == 0 {
      return None;
    }
    var root, codes, header := PrepareHeader(input, freq, totalChars);
    var payload := EncodeWithGlobalBuffer(g, input, codes, root);
    file := Some(header + payload);
  }

  /** The steps of `compressFile` between the scan and the data loop:
      the unique list, the tree, the code table and the header. */
  method PrepareHeader(input: seq<byte>, freq: array<nat>, totalChars: nat)
    returns (root: Node, codes: array<Option<string>>, header: seq<byte>)
    requires 0 < |input| < UINT32 && freq[..] == Frequencies(input) && totalChars == |input|
    ensures fresh(codes)
    ensures CountsFit(InputEntries(input)) && 1 <= |InputEntries(input)| < Pow256(2)
    ensures root == Build(InputEntries(input)) && codes.Length == MAX_CHAR && codes[..] == CodeTable(root)
    ensures header == Header(|input|, InputEntries(input))
    ensures forall k :: 0 <= k < |input| ==> PathTo(root, input[k]).Some?
  {
    CompressibleInput(input);
    var uniqueChars, uniqueFreqs, size := UniqueList(freq);
    assert Entries(uniqueChars[..size], uniqueFreqs[..size]) == InputEntries(input);
    root := BuildHuffmanTree(uniqueChars, uniqueFreqs, size);
    codes := AssignCodes(root, MAX_TREE_HT);
    forall v | 0 <= v < MAX_CHAR ensures freq[v] < UINT32 {
      assert freq[v] == Occurrences(input, v) <= |input|;
    }
    header := WriteHeader(totalChars, freq, size);
  }
}
