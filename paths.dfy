/** The path handling of the command-line tool: `trimWhitespace` and
    `trimQuotes` clean a path typed or pasted by the user in place in its
    `char` buffer, and the file name then chooses between compressing to
    `<path>.huf` and decompressing to `<path>_restored`. */
module PathName {
  import opened Types

  /** The C string terminator. */
  const NUL: char := '\0'
  /** The size of the `inputPath` buffer of `main`. */
  const PATH_SIZE: nat := 512

  /** `isspace` in the C locale: space, tab, newline, vertical tab, form
      feed, carriage return. */
  predicate IsSpace(c: char)
  {
    c == ' ' || 9 <= c as int <= 13
  }

  /** The whitespace test accepts exactly the six characters `isspace`
      accepts in the "C" locale. */
  lemma IsSpaceIsCIsspace(c: char)
    ensures IsSpace(c) <==> c == ' ' || c == '\t' || c == '\n' || c == '\U{B}' || c == '\U{C}' || c == '\r'
  {
  }

  predicate AllSpace(s: string)
  {
    forall k :: 0 <= k < |s| ==> IsSpace(s[k])
  }

  // ----- C strings in a buffer -----

  predicate NoNul(s: string)
  {
    forall k :: 0 <= k < |s| ==> s[k] != NUL
  }

  /** `strlen`: the index of the first terminator. */
  function FirstNul(s: string): (n: nat)
    requires NUL in s
    ensures n < |s| && s[n] == NUL && forall k :: 0 <= k < n ==> s[k] != NUL
  {
    if s[0] == NUL then 0
    else
      assert NUL in s[1..] by {
        var k :| 0 <= k < |s| && s[k] == NUL;
        assert s[1..][k - 1] == NUL;
      }
      1 + FirstNul(s[1..])
  }

  /** The string a buffer holds: everything before its first terminator. */
  function CString(buffer: string): (s: string)
    requires NUL in buffer
    ensures NoNul(s) && s <= buffer && buffer[|s|] == NUL
  {
    buffer[..FirstNul(buffer)]
  }

  /** A terminator at `n` with none before it ends the string there. */
  lemma CStringAt(buffer: string, n: nat)
    requires n < |buffer| && buffer[n] == NUL && NoNul(buffer[..n])
    ensures NUL in buffer && CString(buffer) == buffer[..n]
  {
    forall k | 0 <= k < n ensures buffer[k] != NUL {
      assert buffer[k] == buffer[..n][k];
    }
  }

  /** `memmove(str, str + src, count)`: the `count` characters at `src`
      move to the front, copied upwards so that no source character is
      overwritten before it is read. */
  method MemMove(str: array<char>, src: nat, count: nat)
    requires src + count <= str.Length
    modifies str
    ensures str[..count] == old(str[src..src + count])
    ensures str[count..] == old(str[count..])
  {
    var k := 0;
    while k < count
      invariant 0 <= k <= count
      invariant forall j :: 0 <= j < k ==> str[j] == old(str[src + j])
      invariant forall j :: k <= j < str.Length ==> str[j] == old(str[j])
    {
      str[k] := str[src + k];
      k := k + 1;
    }
  }

  // ----- Trimming -----

  /** The length left once trailing whitespace is dropped. */
  function TrailEnd(s: string): (n: nat)
    ensures n <= |s| && (forall k :: n <= k < |s| ==> IsSpace(s[k])) && (n > 0 ==> !IsSpace(s[n - 1]))
  {
    if s != [] && IsSpace(s[|s| - 1]) then TrailEnd(s[..|s| - 1]) else |s|
  }

  /** The number of leading whitespace characters. */
  function LeadCount(s: string): (m: nat)
    ensures m <= |s| && (forall k :: 0 <= k < m ==> IsSpace(s[k])) && (m < |s| ==> !IsSpace(s[m]))
  {
    if s != [] && IsSpace(s[0]) then 1 + LeadCount(s[1..]) else 0
  }

  /** No whitespace at either end. */
  predicate Trimmed(t: string)
  {
    t == [] || (!IsSpace(t[0]) && !IsSpace(t[|t| - 1]))
  }

  /** `s` with its leading and trailing whitespace removed. */
  function Trim(s: string): (t: string)
    ensures |t| <= |s| && Trimmed(t)
  {
    var n := TrailEnd(s);
    s[LeadCount(s[..n])..n]
  }

  /** Only the trailing length has the two properties of `TrailEnd`. */
  lemma TrailEndIs(s: string, n: nat)
    requires n <= |s| && (forall k :: n <= k < |s| ==> IsSpace(s[k])) && (n > 0 ==> !IsSpace(s[n - 1]))
    ensures TrailEnd(s) == n
  {
  }

  /** Only the leading count has the two properties of `LeadCount`. */
  lemma LeadCountIs(s: string, m: nat)
    requires m <= |s| && (forall k :: 0 <= k < m ==> IsSpace(s[k])) && (m < |s| ==> !IsSpace(s[m]))
    ensures LeadCount(s) == m
  {
  }

  /** Trimming keeps the interior: `s` is whitespace, then the trimmed
      string, then whitespace. */
  lemma TrimInterior(s: string)
    ensures exists a, b :: s == a + Trim(s) + b && AllSpace(a) && AllSpace(b)
  {
    var n := TrailEnd(s);
    var m := LeadCount(s[..n]);
    assert s == s[..m] + Trim(s) + s[n..];
    forall k | 0 <= k < m ensures IsSpace(s[..m][k]) {
      assert s[..m][k] == s[..n][k];
    }
    forall k | 0 <= k < |s| - n ensures IsSpace(s[n..][k]) {
      assert s[n..][k] == s[n + k];
    }
    assert AllSpace(s[..m]) && AllSpace(s[n..]);
  }

  /** A string with no whitespace at either end trims to itself. */
  lemma TrimmedFixed(t: string)
    requires Trimmed(t)
    ensures Trim(t) == t
  {
    TrailEndIs(t, |t|);
    assert t[..|t|] == t;
    LeadCountIs(t, 0);
  }

  /** Trimming a trimmed string changes nothing. */
  lemma TrimIdempotent(s: string)
    ensures Trim(Trim(s)) == Trim(s)
  {
    TrimmedFixed(Trim(s));
  }

  /** A string without terminators trims to one without terminators. */
  lemma TrimNoNul(s: string)
    requires NoNul(s)
    ensures NoNul(Trim(s))
  {
    var n := TrailEnd(s);
    var m := LeadCount(s[..n]);
    forall k | 0 <= k < |Trim(s)| ensures Trim(s)[k] != NUL {
      assert Trim(s)[k] == s[m + k];
    }
  }

  /** `trimWhitespace(str, &len)` on the string `str[0..len)`: clear
      trailing whitespace to terminators, count the leading whitespace,
      and move the rest (terminator included) to the front. */
  method TrimWhitespace(str: array<char>, len: nat) returns (newLen: nat)
    requires len < str.Length && str[len] == NUL
    modifies str
    ensures newLen <= len && str[newLen] == NUL
    ensures str[..newLen] == Trim(old(str[..len]))
  {
    ghost var s := str[..len];
    newLen := len;
    while newLen > 0 && IsSpace(str[newLen - 1])
      invariant newLen <= len && str[newLen] == NUL
      invariant str[..newLen] == s[..newLen] && forall k :: newLen <= k < len ==> IsSpace(s[k])
    {
      assert s[newLen - 1] == str[..newLen][newLen - 1];
      str[newLen - 1] := NUL;
      newLen := newLen - 1;
    }
    assert newLen > 0 ==> s[newLen - 1] == str[newLen - 1];
    TrailEndIs(s, newLen);
    ghost var u := str[..newLen];
    var start := 0;
    while start < newLen && IsSpace(str[start])
      invariant start <= newLen && forall k :: 0 <= k < start ==> IsSpace(u[k])
    {
      start := start + 1;
    }
    LeadCountIs(u, start);
    assert Trim(s) == u[start..];
    if start > 0 {
      MemMove(str, start, newLen - start + 1);
      assert str[..newLen - start] == str[..newLen - start + 1][..newLen - start];
      newLen := newLen - start;
    }
  }

  // ----- `trimQuotes` -----

  /** Drop one trailing newline, as `fgets` leaves it. */
  function DropNewline(s: string): (r: string)
    ensures |r| <= |s|
  {
    if |s| > 0 && s[|s| - 1] == '\n' then s[..|s| - 1] else s
  }

  /** Drop one leading '&' (as a shell paste may leave) and trim again. */
  function DropAmpersand(s: string): (r: string)
    ensures |r| <= |s| && (Trimmed(s) ==> Trimmed(r))
  {
    if |s| > 0 && s[0] == '&' then Trim(s[1..]) else s
  }

  /** Enclosed in a matching pair of double or single quotes. */
  predicate Quoted(s: string)
  {
    |s| >= 2 && ((s[0] == '"' && s[|s| - 1] == '"') || (s[0] == '\'' && s[|s| - 1] == '\''))
  }

  /** Drop one pair of matching outer quotes and trim again. */
  function DropQuotes(s: string): (r: string)
    ensures |r| <= |s| && (Trimmed(s) ==> Trimmed(r))
  {
    if Quoted(s) then Trim(s[1..|s| - 1]) else s
  }

  /** The string `trimQuotes` leaves: drop one trailing newline, trim; drop
      one leading '&', trim; drop one pair of matching outer double or
      single quotes, trim. */
  function CleanPath(s: string): (p: string)
    ensures |p| <= |s| && Trim(p) == p
  {
    var p := DropQuotes(DropAmpersand(Trim(DropNewline(s))));
    TrimmedFixed(p);
    p
  }

  /** The newline step of `trimQuotes`, then `trimWhitespace`. */
  method StripNewline(str: array<char>, len: nat) returns (newLen: nat)
    requires len < str.Length && str[len] == NUL && NoNul(str[..len])
    modifies str
    ensures newLen < str.Length && str[newLen] == NUL && NoNul(str[..newLen])
    ensures str[..newLen] == Trim(DropNewline(old(str[..len])))
  {
    ghost var s := str[..len];
    newLen := len;
    if newLen > 0 && str[newLen - 1] == '\n' {
      str[newLen - 1] := NUL;
      newLen := newLen - 1;
      assert str[..newLen] == s[..newLen];
    }
    assert str[..newLen] == DropNewline(s);
    TrimNoNul(DropNewline(s));
    newLen := TrimWhitespace(str, newLen);
  }

  /** The '&' step of `trimQuotes`. */
  method StripAmpersand(str: array<char>, len: nat) returns (newLen: nat)
    requires len < str.Length && str[len] == NUL && NoNul(str[..len])
    modifies str
    ensures newLen < str.Length && str[newLen] == NUL && NoNul(str[..newLen])
    ensures str[..newLen] == DropAmpersand(old(str[..len]))
  {
    ghost var s := str[..len];
    newLen := len;
    if newLen > 0 && str[0] == '&' {
      MemMove(str, 1, newLen);
      assert str[..newLen - 1] == s[1..] && str[newLen - 1] == NUL;
      newLen := newLen - 1;
      TrimNoNul(s[1..]);
      newLen := TrimWhitespace(str, newLen);
    }
  }

  /** The quote step of `trimQuotes`. */
  method StripQuotes(str: array<char>, len: nat) returns (newLen: nat)
    requires len < str.Length && str[len] == NUL && NoNul(str[..len])
    modifies str
    ensures newLen < str.Length && str[newLen] == NUL && NoNul(str[..newLen])
    ensures str[..newLen] == DropQuotes(old(str[..len]))
  {
    ghost var s := str[..len];
    newLen := len;
    if newLen >= 2 {
      if (str[0] == '"' && str[newLen - 1] == '"') || (str[0] == '\'' && str[newLen - 1] == '\'') {
        MemMove(str, 1, newLen - 2);
        str[newLen - 2] := NUL;
        assert str[..newLen - 2] == s[1..|s| - 1];
        newLen := newLen - 2;
        TrimNoNul(s[1..|s| - 1]);
        newLen := TrimWhitespace(str, newLen);
      }
    }
  }

  /** `trimQuotes(str)`: nothing for a null pointer; otherwise the string in
      the buffer becomes its cleaned form. */
  method TrimQuotes(str: array?<char>)
    requires str != null ==> NUL in str[..]
    modifies str
    ensures str != null ==> NUL in str[..] && CString(str[..]) == CleanPath(old(CString(str[..])))
  {
    if str == null {
      return;
    }
    ghost var s := CString(str[..]);
    var len := FirstNul(str[..]);
    assert str[..len] == s;
    len := StripNewline(str, len);
    len := StripAmpersand(str, len);
    len := StripQuotes(str, len);
    CStringAt(str[..], len);
  }

  /** A path between a matching pair of quotes comes out unquoted and
      trimmed. */
  lemma QuotedPath(q: char, p: string)
    requires q == '"' || q == '\''
    ensures CleanPath([q] + p + [q]) == Trim(p)
  {
    var s := [q] + p + [q];
    assert s[0] == q && s[|s| - 1] == q;
    assert DropNewline(s) == s;
    TrimmedFixed(s);
    assert DropAmpersand(s) == s && Quoted(s);
    assert s[1..|s| - 1] == p;
  }

  /** An opening quote without the matching closing one is kept. */
  lemma MismatchedQuoteKept(p: string)
    requires |p| >= 2 && p[0] == '"' && p[|p| - 1] != '"' && !IsSpace(p[|p| - 1])
    ensures CleanPath(p) == p
  {
    assert DropNewline(p) == p;
    TrimmedFixed(p);
    assert DropAmpersand(p) == p && !Quoted(p);
  }

  // ----- The output name -----

  /** `strrchr(s, c)`: the index of the last `c`, if any. */
  function LastIndexOf(s: string, c: char): (r: Option<nat>)
    ensures r.None? <==> c !in s
    ensures r.Some? ==> r.value < |s| && s[r.value] == c && forall k :: r.value < k < |s| ==> s[k] != c
  {
    if s == [] then None
    else if s[|s| - 1] == c then Some(|s| - 1)
    else
      var r := LastIndexOf(s[..|s| - 1], c);
      assert s == s[..|s| - 1] + [s[|s| - 1]];
      r
  }

  /** The test `isHuf`: the text from the last '.' on is ".huf" or ".HUF". */
  predicate IsHufName(path: string)
    ensures IsHufName(path) ==> |path| >= 4 && path[|path| - 4] == '.'
  {
    var dot := LastIndexOf(path, '.');
    dot.Some? && (path[dot.value..] == ".huf" || path[dot.value..] == ".HUF")
  }

  /** The name ends in ".huf" or ".HUF". */
  predicate HasHufSuffix(path: string)
  {
    |path| >= 4 && (path[|path| - 4..] == ".huf" || path[|path| - 4..] == ".HUF")
  }

  /** What the command line asks for. */
  datatype Action =
    | CompressTo(input: string, output: string)
    | DecompressTo(input: string, output: string)

  /** A ".huf" file decompresses to the name with "_restored" appended;
      any other file compresses to the name with ".huf" appended. */
  function ActionFor(path: string): (a: Action)
    ensures a.input == path
  {
    if IsHufName(path) then DecompressTo(path, path + "_restored") else CompressTo(path, path + ".huf")
  }

  /** The `strrchr` test is exactly a test of the last four characters. */
  lemma HufNameIsSuffix(path: string)
    ensures IsHufName(path) <==> HasHufSuffix(path)
  {
    if HasHufSuffix(path) {
      var i := |path| - 4;
      assert path[i] == path[i..][0] == '.';
      forall k | i < k < |path| ensures path[k] != '.' {
        assert path[k] == path[i..][k - i];
      }
      assert LastIndexOf(path, '.') == Some(i);
    }
  }

  /** The action for a path: decompress exactly when it ends in ".huf" or
      ".HUF". */
  lemma ActionBySuffix(path: string)
    ensures ActionFor(path).DecompressTo? <==> HasHufSuffix(path)
    ensures ActionFor(path).output == path + (if HasHufSuffix(path) then "_restored" else ".huf")
  {
    HufNameIsSuffix(path);
  }

  /** The compressed file is recognised as one: running the tool on it
      decompresses it. */
  lemma CompressedNameIsHuf(path: string)
    ensures ActionFor(path + ".huf").DecompressTo?
  {
    HufNameIsSuffix(path + ".huf");
    assert (path + ".huf")[|path|..] == ".huf";
  }

  /** The restored file is not taken for a compressed one: running the tool
      on it compresses it. */
  lemma RestoredNameIsNotHuf(path: string)
    ensures ActionFor(path + "_restored").CompressTo?
  {
    var p := path + "_restored";
    HufNameIsSuffix(p);
    assert p[|p| - 1] == 'd';
  }

  /** `main` with a file argument: copy it into `inputPath[512]`, clean it,
      and choose the action by its name. */
  method CommandLine(arg: string) returns (a: Action)
    requires NUL !in arg && |arg| < PATH_SIZE
    ensures a == ActionFor(CleanPath(arg))
  {
    var inputPath := new char[PATH_SIZE](i requires 0 <= i < PATH_SIZE => if i < |arg| then arg[i] else NUL);
    assert inputPath[..][..|arg|] == arg;
    CStringAt(inputPath[..], |arg|);
    TrimQuotes(inputPath);
    var path := CString(inputPath[..]);
    a := ActionFor(path);
  }
}
