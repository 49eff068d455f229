/** The frequency scan of `compressFile` (and of `main` in the in-memory
    codec): count every byte value of the input, then list the values that
    occur, in ascending order, with their counts. */
module Frequency {
  import opened Types
  import opened HuffmanTree

  /** The number of bytes of `s` whose value is `v`. */
  function Occurrences(s: seq<byte>, v: int): (n: nat)
    ensures n <= |s|
  {
    if s == [] then 0
    else Occurrences(s[..|s| - 1], v) + (if s[|s| - 1] as int == v then 1 else 0)
  }

  /** The 256 counters after scanning `input`: entry `v` is the number of
      occurrences of the byte with value `v`. */
  function Frequencies(input: seq<byte>): (f: seq<nat>)
    ensures |f| == MAX_CHAR
    ensures forall v :: 0 <= v < MAX_CHAR ==> f[v] == Occurrences(input, v)
  {
    seq(MAX_CHAR, v => Occurrences(input, v))
  }

  /** The sum of a list of counters. */
  function Sum(f: seq<nat>): nat
  {
    if f == [] then 0 else Sum(f[..|f| - 1]) + f[|f| - 1]
  }

  /** The entries the unique-list loop has produced after looking at the
      values `0 .. n-1`: those with a nonzero counter, in that order. */
  function UniqueUpTo(f: seq<nat>, n: nat): (es: seq<Entry>)
    requires |f| == MAX_CHAR && n <= MAX_CHAR
    ensures |es| <= n
  {
    if n == 0 then []
    else if f[n - 1] > 0 then UniqueUpTo(f, n - 1) + [Entry(ByteOf(n - 1), f[n - 1])]
    else UniqueUpTo(f, n - 1)
  }

  /** The complete unique list. */
  function UniqueEntries(f: seq<nat>): seq<Entry>
    requires |f| == MAX_CHAR
  {
    UniqueUpTo(f, MAX_CHAR)
  }

  // ----- The loops -----

  /** The counting loop: `freq[c]++` and `totalChars++` for every byte read
      until the end of the input. */
  method CountFrequencies(input: seq<byte>) returns (freq: array<nat>, totalChars: nat)
    ensures fresh(freq) && freq[..] == Frequencies(input) && totalChars == |input|
  {
    freq := new nat[MAX_CHAR](_ => 0);
    totalChars := 0;
    var i := 0;
    while i < |input|
      invariant 0 <= i <= |input| && totalChars == i && freq.Length == MAX_CHAR
      invariant forall v :: 0 <= v < MAX_CHAR ==> freq[v] == Occurrences(input[..i], v)
    {
      var c := input[i];
      assert input[..i + 1] == input[..i] + [c];
      CountStep(input[..i], c);
      freq[c as int] := freq[c as int] + 1;
      totalChars := totalChars + 1;
      i := i + 1;
    }
    assert input[..i] == input;
  }

  /** The unique-list loop over `i = 0 .. 255`: every value with a nonzero
      counter is appended to `uniqueChars`/`uniqueFreqs`. */
  method UniqueList(freq: array<nat>) returns (uniqueChars: array<byte>, uniqueFreqs: array<nat>, size: nat)
    requires freq.Length == MAX_CHAR
    ensures fresh(uniqueChars) && fresh(uniqueFreqs)
    ensures uniqueChars.Length == MAX_CHAR && uniqueFreqs.Length == MAX_CHAR && size <= MAX_CHAR
    ensures Entries(uniqueChars[..size], uniqueFreqs[..size]) == UniqueEntries(freq[..])
  {
    ghost var f := freq[..];
    ghost var es: seq<Entry> := [];
    uniqueChars := new byte[MAX_CHAR];
    uniqueFreqs := new nat[MAX_CHAR];
    size := 0;
    var i := 0;
    while i < MAX_CHAR
      invariant 0 <= i <= MAX_CHAR && es == UniqueUpTo(f, i) && size == |es| <= i
      invariant forall k :: 0 <= k < size ==> uniqueChars[k] == es[k].ch && uniqueFreqs[k] == es[k].count
      invariant freq[..] == f
    {
      UniqueStep(f, i);
      var count := freq[i];
      assert count == f[i];
      if count > 0 {
        var e := Entry(ByteOf(i), count);
        uniqueChars[size] := e.ch;
        uniqueFreqs[size] := e.count;
        es := es + [e];
        size := size + 1;
      }
      i := i + 1;
    }
    EntriesOf(uniqueChars[..size], uniqueFreqs[..size], es);
  }

  /** Two arrays whose slots pair up into the entries of `es`. */
  lemma EntriesOf(chars: seq<byte>, counts: seq<nat>, es: seq<Entry>)
    requires |chars| == |counts| == |es|
    requires forall k :: 0 <= k < |es| ==> chars[k] == es[k].ch && counts[k] == es[k].count
    ensures Entries(chars, counts) == es
  {
  }

  /** One round of the unique-list loop: a nonzero counter appends its
      entry, a zero counter changes nothing. */
  lemma UniqueStep(f: seq<nat>, i: nat)
    requires |f| == MAX_CHAR && i < MAX_CHAR
    ensures UniqueUpTo(f, i + 1) == UniqueUpTo(f, i) + if f[i] > 0 then [Entry(ByteOf(i), f[i])] else []
  {
  }

  // ----- Counting -----

  /** Reading one more byte adds one to its own count and leaves the
      others alone. */
  lemma CountStep(s: seq<byte>, c: byte)
    ensures forall v :: Occurrences(s + [c], v) == Occurrences(s, v) + if c as int == v then 1 else 0
  {
    assert (s + [c])[..|s|] == s;
  }

  /** The same, on the 256 counters. */
  lemma FrequenciesSnoc(s: seq<byte>, c: byte)
    ensures Frequencies(s + [c]) == Frequencies(s)[c as int := Frequencies(s)[c as int] + 1]
  {
    CountStep(s, c);
  }

  /** Adding one to a counter adds one to the sum. */
  lemma {:induction false} SumIncrement(f: seq<nat>, k: nat)
    requires k < |f|
    ensures Sum(f[k := f[k] + 1]) == Sum(f) + 1
    decreases |f|
  {
    var g := f[k := f[k] + 1];
    assert g[..|g| - 1] == if k < |f| - 1 then f[..|f| - 1][k := f[k] + 1] else f[..|f| - 1];
    if k < |f| - 1 {
      SumIncrement(f[..|f| - 1], k);
    }
  }

  lemma {:induction false} SumZeros(f: seq<nat>)
    requires forall i :: 0 <= i < |f| ==> f[i] == 0
    ensures Sum(f) == 0
    decreases |f|
  {
    if f != [] {
      SumZeros(f[..|f| - 1]);
    }
  }

  /** After the scan, the counters add up to `totalChars`, the input
      length. */
  lemma {:induction false} FrequenciesSum(input: seq<byte>)
    ensures Sum(Frequencies(input)) == |input|
    decreases |input|
  {
    if input == [] {
      SumZeros(Frequencies(input));
    } else {
      var s, c := input[..|input| - 1], input[|input| - 1];
      assert input == s + [c];
      FrequenciesSum(s);
      FrequenciesSnoc(s, c);
      SumIncrement(Frequencies(s), c as int);
    }
  }

  // ----- The unique list -----

  lemma {:induction false} TotalCountAppend(a: seq<Entry>, b: seq<Entry>)
    ensures TotalCount(a + b) == TotalCount(a) + TotalCount(b)
    decreases |a|
  {
    if a == [] {
      assert a + b == b;
    } else {
      assert (a + b)[1..] == a[1..] + b;
      TotalCountAppend(a[1..], b);
    }
  }

  /** The unique list carries all of the counted bytes: its counts add up
      to the sum of the counters. */
  lemma {:induction false} UniqueTotal(f: seq<nat>, n: nat)
    requires |f| == MAX_CHAR && n <= MAX_CHAR
    ensures TotalCount(UniqueUpTo(f, n)) == Sum(f[..n])
    decreases n
  {
    if n > 0 {
      UniqueTotal(f, n - 1);
      assert f[..n][..n - 1] == f[..n - 1];
      if f[n - 1] > 0 {
        TotalCountAppend(UniqueUpTo(f, n - 1), [Entry(ByteOf(n - 1), f[n - 1])]);
      }
    }
  }

  /** Every entry of the unique list is a value below `n` with a nonzero
      counter, carrying that counter. */
  lemma {:induction false} UniqueSound(f: seq<nat>, n: nat)
    requires |f| == MAX_CHAR && n <= MAX_CHAR
    ensures forall e :: e in UniqueUpTo(f, n) ==> e.ch as int < n && e.count == f[e.ch as int] > 0
    decreases n
  {
    if n > 0 {
      var prev := UniqueUpTo(f, n - 1);
      UniqueSound(f, n - 1);
      if f[n - 1] > 0 {
        var last := Entry(ByteOf(n - 1), f[n - 1]);
        forall e | e in prev + [last] ensures e.ch as int < n && e.count == f[e.ch as int] > 0 {
          if e != last {
            assert e in prev;
          }
        }
      }
    }
  }

  /** Byte order agrees with the order of the byte values. */
  lemma LessAsInt(a: byte, b: byte)
    requires a as int < b as int
    ensures a < b
  {
  }

  lemma AscendingSnoc(es: seq<Entry>, last: Entry)
    requires StrictlyAscending(es) && forall e :: e in es ==> e.ch < last.ch
    ensures StrictlyAscending(es + [last])
  {
    var all := es + [last];
    forall i, j | 0 <= i < j < |all| ensures all[i].ch < all[j].ch {
      assert all[i] == es[i] && es[i] in es;
      if j < |es| {
        assert all[j] == es[j];
      }
    }
  }

  /** The entries produced before value `n - 1` all hold smaller bytes. */
  lemma UniqueBelow(f: seq<nat>, n: nat)
    requires |f| == MAX_CHAR && 0 < n <= MAX_CHAR
    ensures forall e :: e in UniqueUpTo(f, n - 1) ==> e.ch < ByteOf(n - 1)
  {
    UniqueSound(f, n - 1);
    forall e | e in UniqueUpTo(f, n - 1) ensures e.ch < ByteOf(n - 1) {
      LessAsInt(e.ch, ByteOf(n - 1));
    }
  }

  /** The unique list is in strictly ascending byte order. */
  lemma {:induction false} UniqueAscending(f: seq<nat>, n: nat)
    requires |f| == MAX_CHAR && n <= MAX_CHAR
    ensures StrictlyAscending(UniqueUpTo(f, n))
    decreases n
  {
    if n > 0 {
      var prev := UniqueUpTo(f, n - 1);
      UniqueAscending(f, n - 1);
      if f[n - 1] > 0 {
        var last := Entry(ByteOf(n - 1), f[n - 1]);
        UniqueBelow(f, n);
        AscendingSnoc(prev, last);
      }
    }
  }

  /** Every value below `n` with a nonzero counter is on the list. */
  lemma {:induction false} UniqueComplete(f: seq<nat>, n: nat, b: byte)
    requires |f| == MAX_CHAR && b as int < n <= MAX_CHAR && f[b as int] > 0
    ensures b in CharSeq(UniqueUpTo(f, n))
    decreases n
  {
    var es := UniqueUpTo(f, n);
    if b as int == n - 1 {
      ByteOfValue(b);
      assert es[|es| - 1].ch == b;
      assert CharSeq(es)[|es| - 1] == b;
    } else {
      UniqueComplete(f, n - 1, b);
      var prev := UniqueUpTo(f, n - 1);
      var k :| 0 <= k < |prev| && CharSeq(prev)[k] == b;
      assert es[k] == prev[k];
      assert CharSeq(es)[k] == b;
    }
  }

  /** A byte occurs exactly when it is in the input. */
  lemma {:induction false} OccursIn(s: seq<byte>, b: byte)
    ensures Occurrences(s, b as int) > 0 <==> b in s
    decreases |s|
  {
    if s != [] {
      var init := s[..|s| - 1];
      assert s == init + [s[|s| - 1]];
      OccursIn(init, b);
      SameValue(s[|s| - 1], b);
    }
  }

  lemma SameValue(a: byte, b: byte)
    ensures a as int == b as int ==> a == b
  {
  }

  /** What the scan and the unique list promise together: the list holds
      exactly the bytes of the input, each once and in ascending order,
      with their number of occurrences, and its counts add up to the input
      length. Nonempty input gives a nonempty list. */
  lemma UniqueOfInput(input: seq<byte>)
    ensures var es := UniqueEntries(Frequencies(input));
      StrictlyAscending(es) && TotalCount(es) == |input| &&
      (forall k :: 0 <= k < |es| ==> es[k].count == Occurrences(input, es[k].ch as int) > 0) &&
      (forall b: byte :: b in input <==> b in CharSeq(es)) &&
      (|input| > 0 ==> |es| >= 1)
  {
    var f := Frequencies(input);
    var es := UniqueEntries(f);
    UniqueAscending(f, MAX_CHAR);
    UniqueSound(f, MAX_CHAR);
    UniqueTotal(f, MAX_CHAR);
    assert f[..MAX_CHAR] == f;
    FrequenciesSum(input);
    forall k | 0 <= k < |es| ensures es[k].count == Occurrences(input, es[k].ch as int) > 0 {
      assert es[k] in es;
    }
    forall b: byte ensures b in input <==> b in CharSeq(es) {
      OccursIn(input, b);
      if b in input {
        assert f[b as int] == Occurrences(input, b as int);
        UniqueComplete(f, MAX_CHAR, b);
      }
      if b in CharSeq(es) {
        var k :| 0 <= k < |es| && CharSeq(es)[k] == b;
        assert es[k] in es && es[k].ch == b;
      }
    }
    if |input| > 0 {
      assert input[0] in input;
    }
  }

  /** Two different bytes in the input give at least two entries. */
  lemma TwoDistinctBytes(input: seq<byte>, i: nat, j: nat)
    requires i < |input| && j < |input| && input[i] != input[j]
    ensures |UniqueEntries(Frequencies(input))| >= 2
  {
    var es := UniqueEntries(Frequencies(input));
    UniqueOfInput(input);
    assert input[i] in input && input[j] in input;
    var p :| 0 <= p < |es| && CharSeq(es)[p] == input[i];
    var q :| 0 <= q < |es| && CharSeq(es)[q] == input[j];
    assert p != q;
  }

  /** The bytes present in the input: one entry per distinct byte value,
      ascending, with its count (`uniqueChars[]`/`uniqueFreqs[]`). */
  function InputEntries(input: seq<byte>): (es: seq<Entry>)
    ensures |es| <= MAX_CHAR && TotalCount(es) == |input|
    ensures input != [] ==> |es| >= 1
  {
    UniqueOfInput(input);
    UniqueEntries(Frequencies(input))
  }
}
