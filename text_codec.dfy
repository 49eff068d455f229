/** The in-memory codec of `dsa_project.c`: read one line of text, count its
    bytes, build the Huffman tree, give every byte a code string of '0' and
    '1' characters, join the codes of the text into `encodedText`, report
    the bit counts, and decode `encodedText` by walking the tree. */
module TextCodec {
  import opened Types
  import opened HuffmanTree
  import opened Codes
  import opened Frequency
  import opened Container

  /** `MAX_TREE_HT` of this codec: the length of its path buffer `arr`. */
  const TEXT_MAX_TREE_HT: nat := 100
  /** The size of `text`, terminator included. */
  const TEXT_SIZE: nat := 1000
  /** The size of `encodedText`, terminator included. */
  const ENCODED_SIZE: nat := 10000

  /** The byte `'\n'`. */
  const NEWLINE: byte := 10

  // ----- Reading the line -----

  /** The C string left in `text` once the newline is cut: the bytes `fgets`
      stored, up to the first newline or NUL. */
  function LineText(line: seq<byte>): (text: seq<byte>)
    ensures text <= line
    ensures forall k :: 0 <= k < |text| ==> text[k] != 0 && text[k] != NEWLINE
    ensures |text| < |line| ==> line[|text|] == 0 || line[|text|] == NEWLINE
  {
    if line == [] || line[0] == 0 || line[0] == NEWLINE then []
    else [line[0]] + LineText(line[1..])
  }

  // ----- `encode` -----

  /** `encode(text, encodedText)`: start from the empty string and `strcat`
      the code of every byte of the text, in order. The result is the
      string of the text's code bits. */
  method Encode(text: seq<byte>, codes: array<Option<string>>, ghost root: Node) returns (encodedText: string)
    requires codes.Length == MAX_CHAR && codes[..] == CodeTable(root)
    requires forall k :: 0 <= k < |text| ==> PathTo(root, text[k]).Some?
    ensures encodedText == Digits(EncodeBits(root, text))
  {
    encodedText := [];
    var i := 0;
    while i < |text|
      invariant 0 <= i <= |text| && encodedText == Digits(EncodeBits(root, text[..i]))
    {
      var c := text[i];
      CodeOf(root, c);
      encodedText := encodedText + codes[c as int].value;
      EncodePrefix(root, text, i);
      DigitsAppend(EncodeBits(root, text[..i]), PathTo(root, c).value);
      i := i + 1;
    }
    assert text[..i] == text;
  }

  /** With a single-leaf tree the table holds only empty codes, so nothing
      is encoded. */
  lemma LeafEncodesEmpty(t: Node, text: seq<byte>)
    requires forall k :: 0 <= k < |text| ==> PathTo(t, text[k]).Some?
    ensures t.Leaf? ==> EncodeBits(t, text) == []
  {
    if t.Leaf? {
      forall k | 0 <= k < |text| ensures text[k] == t.data {
        assert PathTo(t, text[k]).Some?;
      }
      EncodeSingleLeaf(t.data, t.freq, text);
    }
  }

  // ----- `decode` -----

  /** The decode loop from node `curr` over the characters of `s`: '0'
      moves to the left child and any other character to the right child;
      reaching a leaf emits its byte and restarts at the root. Every
      character is read; there is no count to stop at. */
  function WalkText(root: Node, curr: Node, s: string): (r: seq<byte>)
    requires s == [] || (root.Internal? && curr.Internal?)
    ensures |r| <= |s|
    decreases |s|
  {
    if s == [] then []
    else
      var next := if s[0] == '0' then curr.left else curr.right;
      if next.Leaf? then [next.data] + WalkText(root, root, s[1..])
      else WalkText(root, next, s[1..])
  }

  /** `decode(root, encodedText)`: the bytes it prints. A single-leaf root
      has no children to step to, so it must come with an empty string. */
  method Decode(root: Node, encodedText: string) returns (decoded: seq<byte>)
    requires encodedText == [] || root.Internal?
    ensures decoded == WalkText(root, root, encodedText)
  {
    ghost var target := WalkText(root, root, encodedText);
    var curr := root;
    decoded := [];
    var i := 0;
    while i < |encodedText|
      invariant 0 <= i <= |encodedText|
      invariant i < |encodedText| ==> root.Internal? && curr.Internal?
      invariant decoded + WalkText(root, curr, encodedText[i..]) == target
    {
      ghost var prev := curr;
      curr := if encodedText[i] == '0' then curr.left else curr.right;
      WalkTextStep(root, prev, curr, encodedText, i, decoded, target);
      if curr.Leaf? {
        decoded := decoded + [curr.data];
        curr := root;
      }
      i := i + 1;
    }
  }

  /** One turn of the decode loop, on the character at position `i`, keeps
      the output so far followed by the rest of the walk equal to
      `target`. */
  lemma WalkTextStep(root: Node, curr: Node, next: Node, s: string, i: nat, out: seq<byte>, target: seq<byte>)
    requires i < |s| && root.Internal? && curr.Internal?
    requires next == if s[i] == '0' then curr.left else curr.right
    requires out + WalkText(root, curr, s[i..]) == target
    ensures next.Leaf? ==> (out + [next.data]) + WalkText(root, root, s[i + 1..]) == target
    ensures next.Internal? ==> out + WalkText(root, next, s[i + 1..]) == target
  {
    assert s[i..][0] == s[i] && s[i..][1..] == s[i + 1..];
    if next.Leaf? {
      var tail := WalkText(root, root, s[i + 1..]);
      assert out + ([next.data] + tail) == (out + [next.data]) + tail;
    }
  }

  /** Following the code string of `b` from an internal node emits `b` and
      returns to the root. */
  lemma {:induction false} WalkTextPath(root: Node, sub: Node, b: byte, rest: string)
    requires root.Internal? && sub.Internal? && PathTo(sub, b).Some?
    ensures WalkText(root, sub, Digits(PathTo(sub, b).value) + rest) == [b] + WalkText(root, root, rest)
    decreases sub
  {
    var p := PathTo(sub, b).value;
    var next := if p[0] == 0 then sub.left else sub.right;
    assert PathTo(next, b) == Some(p[1..]);
    DigitsAppend([p[0]], p[1..]);
    assert p == [p[0]] + p[1..];
    assert (Digits(p) + rest)[1..] == Digits(p[1..]) + rest;
    if next.Internal? {
      WalkTextPath(root, next, b, rest);
    }
  }

  /** With a tree of two or more leaves, `decode` undoes `encode`. */
  lemma {:induction false} WalkTextEncoded(t: Node, text: seq<byte>)
    requires t.Internal? && forall k :: 0 <= k < |text| ==> PathTo(t, text[k]).Some?
    ensures WalkText(t, t, Digits(EncodeBits(t, text))) == text
    decreases |text|
  {
    if text != [] {
      var p := PathTo(t, text[0]).value;
      var rest := Digits(EncodeBits(t, text[1..]));
      DigitsAppend(p, EncodeBits(t, text[1..]));
      WalkTextPath(t, t, text[0], rest);
      WalkTextEncoded(t, text[1..]);
      assert text == [text[0]] + text[1..];
    }
  }

  // ----- The statistics -----

  /** `strlen(codes[v])`, with no code counted as 0. */
  function CodeLength(code: Option<string>): nat
  {
    if code.Some? then |code.value| else 0
  }

  /** The sum over the byte values `v < n` of `f[v] * strlen(codes[v])`. */
  function WeightedLength(f: seq<nat>, table: seq<Option<string>>, n: nat): nat
    requires n <= |f| && n <= |table|
  {
    if n == 0 then 0 else WeightedLength(f, table, n - 1) + f[n - 1] * CodeLength(table[n - 1])
  }

  /** One more occurrence of the value `c` adds the length of its code. */
  lemma {:induction false} WeightedBump(f: seq<nat>, table: seq<Option<string>>, n: nat, c: nat)
    requires n <= |f| && n <= |table| && c < |f|
    ensures WeightedLength(f[c := f[c] + 1], table, n) ==
              WeightedLength(f, table, n) + (if c < n then CodeLength(table[c]) else 0)
    decreases n
  {
    if n > 0 {
      WeightedBump(f, table, n - 1, c);
      var g := f[c := f[c] + 1];
      if n - 1 == c {
        assert g[n - 1] * CodeLength(table[n - 1]) == f[n - 1] * CodeLength(table[n - 1]) + CodeLength(table[c]);
      }
    }
  }

  /** No occurrences weigh nothing. */
  lemma {:induction false} WeightedNone(table: seq<Option<string>>, n: nat)
    requires n <= MAX_CHAR && n <= |table|
    ensures WeightedLength(Frequencies([]), table, n) == 0
  {
    if n > 0 {
      WeightedNone(table, n - 1);
    }
  }

  /** The number of code bits of a text is the sum, over the byte values,
      of the number of occurrences times the length of the table's code. */
  lemma {:induction false} EncodedLength(t: Node, text: seq<byte>)
    requires forall k :: 0 <= k < |text| ==> PathTo(t, text[k]).Some?
    ensures |EncodeBits(t, text)| == WeightedLength(Frequencies(text), CodeTable(t), MAX_CHAR)
    decreases |text|
  {
    if text == [] {
      WeightedNone(CodeTable(t), MAX_CHAR);
    } else {
      var s := text[..|text| - 1];
      var c := text[|text| - 1];
      assert text == s + [c];
      EncodedLength(t, s);
      EncodeSnoc(t, s, c);
      FrequenciesSnoc(s, c);
      WeightedBump(Frequencies(s), CodeTable(t), MAX_CHAR, c as int);
      CodeOf(t, c);
    }
  }

  // ----- `main` -----

  /** What `main` computes and prints. */
  datatype TextReport =
    | NoLine                 // `fgets` read nothing
    | EmptyInput             // "Empty input."
    | Report(encodedText: string, originalBits: nat, compressedBits: nat, decoded: seq<byte>)

  /** The tree `buildHuffmanTree` builds for a nonempty text. */
  function TextTree(text: seq<byte>): (t: Node)
    requires text != []
    ensures t.freq == |text|
    ensures forall b :: b in Symbols(t) <==> b in text
  {
    UniqueOfInput(text);
    BuildCorrect(InputEntries(text));
    Build(InputEntries(text))
  }

  /** The run of `main` on a text, after the newline is cut. */
  function TextCodec(text: seq<byte>): (r: TextReport)
    requires |text| < TEXT_SIZE
    ensures r.EmptyInput? <==> text == []
    ensures r.Report? ==> r.originalBits == 8 * |text| && r.compressedBits == |r.encodedText|
  {
    if text == [] then EmptyInput
    else
      CompressibleInput(text);
      var t := TextTree(text);
      LeafEncodesEmpty(t, text);
      var encodedText := Digits(EncodeBits(t, text));
      Report(encodedText, 8 * |text|, |encodedText|, WalkText(t, t, encodedText))
  }

  /** The run of `main` on what `fgets` returned. */
  function TextRun(line: Option<seq<byte>>): (r: TextReport)
    requires line.Some? ==> |line.value| < TEXT_SIZE
    ensures r.NoLine? <==> line.None?
  {
    if line.None? then NoLine else TextCodec(LineText(line.value))
  }

  /** The fixed buffers of `main` are large enough for this text: the tree
      fits the path buffer `arr` and the code string fits `encodedText`. */
  predicate FitsBuffers(text: seq<byte>)
    requires |text| < TEXT_SIZE
  {
    text == [] ||
      (CompressibleInput(text);
       var t := TextTree(text);
       Height(t) <= TEXT_MAX_TREE_HT && |EncodeBits(t, text)| < ENCODED_SIZE)
  }

  /** The frequency count, the unique list and `buildHuffmanTree` of `main`. */
  method BuildTextTree(text: seq<byte>) returns (root: Node)
    requires 0 < |text| < TEXT_SIZE
    ensures root == TextTree(text)
  {
    var freq, totalChars := CountFrequencies(text);
    var uniqueData, uniqueFreq, size := UniqueList(freq);
    CompressibleInput(text);
    assert Entries(uniqueData[..size], uniqueFreq[..size]) == InputEntries(text);
    root := BuildHuffmanTree(uniqueData, uniqueFreq, size);
  }

  /** `main`, with the line `fgets` read as its parameter and what it
      prints as its result. */
  method TextCodecMain(line: Option<seq<byte>>) returns (r: TextReport)
    requires line.Some? ==> |line.value| < TEXT_SIZE && FitsBuffers(LineText(line.value))
    ensures r == TextRun(line)
  {
    if line.None? {
      return NoLine;
    }
    var text := LineText(line.value);
    var n := |text|;
    if n == 0 {
      return EmptyInput;
    }
    var root := BuildTextTree(text);
    r := CodeAndReport(text, root);
  }

  /** The steps of `main` after the tree: the code table, `encode`, the bit
      counts and `decode`. */
  method CodeAndReport(text: seq<byte>, root: Node) returns (r: TextReport)
    requires 0 < |text| < TEXT_SIZE && FitsBuffers(text) && root == TextTree(text)
    ensures r == TextCodec(text)
  {
    CompressibleInput(text);
    var codes := AssignCodes(root, TEXT_MAX_TREE_HT);
    var encodedText := Encode(text, codes, root);
    var originalBits := |text| * 8;
    var compressedBits := |encodedText|;
    LeafEncodesEmpty(root, text);
    var decoded := Decode(root, encodedText);
    r := Report(encodedText, originalBits, compressedBits, decoded);
  }

  // ----- What the report says -----

  /** A text with two different byte values decodes to itself. */
  lemma TextRoundTrip(text: seq<byte>, i: nat, j: nat)
    requires |text| < TEXT_SIZE && i < |text| && j < |text| && text[i] != text[j]
    ensures TextCodec(text).decoded == text
  {
    CompressibleInput(text);
    TwoDistinctBytes(text, i, j);
    var t := Build(InputEntries(text));
    WalkTextEncoded(t, text);
  }

  /** A text of one repeated byte value gets the empty code: nothing is
      encoded and nothing is decoded. */
  lemma TextSingleSymbol(text: seq<byte>)
    requires 0 < |text| < TEXT_SIZE && forall k :: 0 <= k < |text| ==> text[k] == text[0]
    ensures TextCodec(text).encodedText == "" && TextCodec(text).compressedBits == 0
    ensures TextCodec(text).decoded == []
  {
    CompressibleInput(text);
    OneEntry(text);
    var es := InputEntries(text);
    BuildCorrect(es);
    assert Build(es).Leaf?;
    LeafEncodesEmpty(Build(es), text);
  }

  /** `compressedBits` is the sum over the byte values of their count
      times the length of their code, and the encoded string holds only
      '0' and '1'. */
  lemma TextCompressedBits(text: seq<byte>)
    requires 0 < |text| < TEXT_SIZE
    ensures TextCodec(text).compressedBits == WeightedLength(Frequencies(text), CodeTable(TextTree(text)), MAX_CHAR)
    ensures forall k :: 0 <= k < |TextCodec(text).encodedText| ==> TextCodec(text).encodedText[k] in "01"
  {
    CompressibleInput(text);
    EncodedLength(Build(InputEntries(text)), text);
  }
}
