/**
 LSP positions (line, UTF-16 column) and byte offsets, lsp_ops.rs:218-230 and
 749-759.
 */
module Positions {
  import opened Utf8

  // -------------------------------------------------------- column to offset

  /** The characters of `line` that lie before UTF-16 column `col`; a column in
      the middle of a surrogate pair counts the whole pair. */
  function CharsBefore(line: string, col: nat): (k: nat)
    ensures k <= |line|
  {
    if line == [] || col == 0 then 0
    else if col <= Len16(line[0]) then 1
    else 1 + CharsBefore(line[1..], col - Len16(line[0]))
  }

  method Utf16ToByteOffset(line: string, utf16Col: nat) returns (offset: nat)
    ensures offset == ByteLen(line[..CharsBefore(line, utf16Col)])
  {
    var u16Count, byteIdx, i := 0, 0, 0;
    while i < |line|
      invariant i <= |line| && byteIdx == ByteLen(line[..i]) && u16Count == Utf16Len(line[..i])
      invariant i > 0 ==> u16Count <= utf16Col
      invariant u16Count <= utf16Col ==> CharsBefore(line, utf16Col) == i + CharsBefore(line[i..], utf16Col - u16Count)
    {
      if u16Count >= utf16Col {
        return byteIdx;
      }
      CharsBeforeStep(line, i);
      u16Count := u16Count + Len16(line[i]);
      if u16Count > utf16Col {
        return byteIdx + Len8(line[i]);
      }
      byteIdx, i := byteIdx + Len8(line[i]), i + 1;
    }
    assert line[..i] == line;
    return byteIdx;
  }

  lemma PrefixStep(line: string, i: nat)
    requires i < |line|
    ensures ByteLen(line[..i + 1]) == ByteLen(line[..i]) + Len8(line[i])
    ensures Utf16Len(line[..i + 1]) == Utf16Len(line[..i]) + Len16(line[i])
  {
    assert line[..i + 1] == line[..i] + [line[i]];
    ByteLenConcat(line[..i], [line[i]]);
    Utf16LenConcat(line[..i], [line[i]]);
  }

  lemma CharsBeforeStep(line: string, i: nat)
    requires i < |line|
    ensures ByteLen(line[..i + 1]) == ByteLen(line[..i]) + Len8(line[i])
    ensures Utf16Len(line[..i + 1]) == Utf16Len(line[..i]) + Len16(line[i])
    ensures forall c: nat :: c > 0 ==> (CharsBefore(line[i..], c) ==
      if c <= Len16(line[i]) then 1 else 1 + CharsBefore(line[i + 1..], c - Len16(line[i])))
  {
    PrefixStep(line, i);
    assert line[i..][1..] == line[i + 1..];
  }

  /** What `CharsBefore` means: the least prefix whose UTF-16 length reaches the
      column, or the whole line when the column lies past its end. */
  lemma {:induction false} CharsBeforeIsLeast(line: string, col: nat, k: nat)
    requires k <= |line|
    ensures k < CharsBefore(line, col) ==> Utf16Len(line[..k]) < col
    ensures Utf16Len(line[..CharsBefore(line, col)]) >= col || CharsBefore(line, col) == |line|
  {
    if line != [] && col > 0 {
      var w := Len16(line[0]);
      assert line[..1] == [line[0]];
      if col > w {
        CharsBeforeIsLeast(line[1..], col - w, if k == 0 then 0 else k - 1);
        var n := CharsBefore(line, col);
        assert line[..n][1..] == line[1..][..n - 1];
        if k > 0 { assert line[..k][1..] == line[1..][..k - 1]; }
      }
    }
  }

  /** Columns that are UTF-16 lengths of prefixes are exact. */
  lemma {:induction false} CharsBeforeExact(line: string, k: nat)
    requires k <= |line|
    ensures CharsBefore(line, Utf16Len(line[..k])) == k
  {
    if k == 0 {
    } else {
      assert line[..k][1..] == line[1..][..k - 1];
      CharsBeforeExact(line[1..], k - 1);
      if k == 1 { assert line[1..][..0] == []; } else { assert line[1..][..k - 1][0] == line[1]; }
    }
  }

  lemma {:induction false} CharsBeforeMonotone(line: string, c: nat, d: nat)
    requires c <= d
    ensures CharsBefore(line, c) <= CharsBefore(line, d)
  {
    if line != [] && c > Len16(line[0]) {
      CharsBeforeMonotone(line[1..], c - Len16(line[0]), d - Len16(line[0]));
    }
  }

  // ---------------------------------------------------------- line to offset

  /** Length in characters of the first line of `source`, its newline included. */
  function FirstLine(source: string): (n: nat)
    ensures n <= |source| && (source != [] ==> n > 0)
    ensures forall i :: 0 <= i < n - 1 ==> source[i] != '\n'
    ensures n < |source| ==> source[n - 1] == '\n'
  {
    if source == [] then 0
    else if source[0] == '\n' then 1
    else 1 + FirstLine(source[1..])
  }

  /** The character of `source` a position denotes. */
  function CharAt(source: string, line: nat, col: nat): (k: nat)
    ensures k <= |source|
  {
    if source == [] then 0
    else
      var n := FirstLine(source);
      if line == 0 then CharsBefore(source[..n], col) else n + CharAt(source[n..], line - 1, col)
  }

  /** A column past the text of a terminated line lands behind its newline, at the
      start of the next line; the text alone would end one character before. */
  lemma PastTheLine(source: string, col: nat)
    requires source != [] && source[FirstLine(source) - 1] == '\n'
    ensures CharAt(source, 0, col) == FirstLine(source) <==> col > Utf16Len(source[..FirstLine(source) - 1])
  {
    var n := FirstLine(source);
    var line := source[..n];
    assert line[..n - 1] == source[..n - 1];
    CharsBeforeExact(line, n - 1);
    if col > Utf16Len(line[..n - 1]) {
      PastPrefix(line, col, n - 1);
    } else {
      CharsBeforeMonotone(line, col, Utf16Len(line[..n - 1]));
    }
  }

  /** A column past a prefix counts more characters. */
  lemma PastPrefix(line: string, col: nat, k: nat)
    requires k < |line| && col > Utf16Len(line[..k])
    ensures CharsBefore(line, col) > k
  {
    CharsBeforeIsLeast(line, col, k);
    var n := CharsBefore(line, col);
    if n <= k { PrefixLengths(line, n, k); }
  }

  lemma PrefixLengths(line: string, i: nat, j: nat)
    requires i <= j <= |line|
    ensures Utf16Len(line[..i]) <= Utf16Len(line[..j])
  {
    assert line[..j] == line[..i] + line[i..j];
    Utf16LenConcat(line[..i], line[i..j]);
  }

  /** The byte offset a position denotes. */
  function ByteAt(source: string, line: nat, col: nat): nat {
    ByteLen(source[..CharAt(source, line, col)])
  }

  /** The next line of `rest`, as `split_inclusive('\n')` yields it. */
  method NextLine(rest: string) returns (line: string)
    requires rest != []
    ensures line == rest[..FirstLine(rest)]
  {
    var i := 0;
    while rest[i] != '\n' && i + 1 < |rest|
      invariant i < |rest|
      invariant FirstLine(rest) == i + FirstLine(rest[i..])
      decreases |rest| - i
    {
      assert rest[i..][1..] == rest[i + 1..];
      i := i + 1;
    }
    if i + 1 == |rest| { assert rest[i..][1..] == []; }
    return rest[..i + 1];
  }

  lemma ByteLenSplit(s: string, i: nat, j: nat)
    requires i <= j <= |s|
    ensures ByteLen(s[..j]) == ByteLen(s[..i]) + ByteLen(s[i..j])
  {
    assert s[..j] == s[..i] + s[i..j];
    ByteLenConcat(s[..i], s[i..j]);
  }

  /** The offset of a position, line by line. */
  lemma ByteAtByLine(source: string, line: nat, col: nat)
    requires source != []
    ensures var first := source[..FirstLine(source)];
      ByteAt(source, line, col) ==
        if line == 0 then ByteLen(first[..CharsBefore(first, col)])
        else ByteLen(first) + ByteAt(source[|first|..], line - 1, col)
  {
    var n := FirstLine(source);
    if line == 0 {
      var k := CharsBefore(source[..n], col);
      assert source[..n][..k] == source[..k];
    } else {
      var k := CharAt(source[n..], line - 1, col);
      ByteLenSplit(source, n, n + k);
      assert source[n..][..k] == source[n..n + k];
    }
  }

  method LineColToByte(source: string, line: nat, character: nat) returns (offset: nat)
    ensures offset == ByteAt(source, line, character)
  {
    offset := 0;
    var idx, rest := 0, source;
    while rest != []
      invariant idx <= line
      invariant ByteAt(source, line, character) == offset + ByteAt(rest, line - idx, character)
      decreases |rest|
    {
      var lineText := NextLine(rest);
      ByteAtByLine(rest, line - idx, character);
      if idx == line {
        var inLine := Utf16ToByteOffset(lineText, character);
        return offset + inLine;
      }
      offset, rest, idx := offset + ByteLen(lineText), rest[|lineText|..], idx + 1;
    }
  }

  // -------------------------------------------------------------- properties

  predicate NotAfter(l1: nat, c1: nat, l2: nat, c2: nat) {
    l1 < l2 || (l1 == l2 && c1 <= c2)
  }

  lemma {:induction false} CharAtMonotone(source: string, l1: nat, c1: nat, l2: nat, c2: nat)
    requires NotAfter(l1, c1, l2, c2)
    ensures CharAt(source, l1, c1) <= CharAt(source, l2, c2)
  {
    if source == [] {
    } else {
      var n := FirstLine(source);
      if l1 > 0 {
        CharAtMonotone(source[n..], l1 - 1, c1, l2 - 1, c2);
      } else if l2 == 0 {
        CharsBeforeMonotone(source[..n], c1, c2);
      }
    }
  }

  lemma ByteLenMonotone(s: string, i: nat, j: nat)
    requires i <= j <= |s|
    ensures ByteLen(s[..i]) <= ByteLen(s[..j]) <= ByteLen(s)
  {
    assert s[..j] == s[..i] + s[i..j] && s == s[..j] + s[j..];
    ByteLenConcat(s[..i], s[i..j]);
    ByteLenConcat(s[..j], s[j..]);
  }

  /** Positions map monotonically into the source, onto character boundaries:
      the range guard can never refuse an ordered range. */
  lemma ByteAtMonotone(source: string, l1: nat, c1: nat, l2: nat, c2: nat)
    requires NotAfter(l1, c1, l2, c2)
    ensures ByteAt(source, l1, c1) <= ByteAt(source, l2, c2) <= ByteLen(source)
  {
    CharAtMonotone(source, l1, c1, l2, c2);
    ByteLenMonotone(source, CharAt(source, l1, c1), CharAt(source, l2, c2));
  }

  lemma ByteAtIsBoundary(source: string, line: nat, col: nat)
    ensures Boundary(Encode(source), ByteAt(source, line, col))
  {
    PrefixIsBoundary(source, CharAt(source, line, col));
  }

  /** Line number and UTF-16 column of the character with index `k`. */
  function LineOf(source: string, k: nat): nat
    requires k <= |source|
  {
    var n := FirstLine(source);
    if source == [] || k < n || (k == n && source[n - 1] != '\n') then 0 else 1 + LineOf(source[n..], k - n)
  }

  function ColumnOf(source: string, k: nat): nat
    requires k <= |source|
  {
    var n := FirstLine(source);
    if source == [] || k < n || (k == n && source[n - 1] != '\n') then Utf16Len(source[..k])
    else ColumnOf(source[n..], k - n)
  }

  lemma {:induction false} PositionRoundTrip(source: string, k: nat)
    requires k <= |source|
    ensures CharAt(source, LineOf(source, k), ColumnOf(source, k)) == k
  {
    if source == [] {
    } else {
      var n := FirstLine(source);
      if k < n || (k == n && source[n - 1] != '\n') {
        assert source[..n][..k] == source[..k];
        CharsBeforeExact(source[..n], k);
      } else {
        PositionRoundTrip(source[n..], k - n);
      }
    }
  }

  /** Every character's own position maps back to its byte offset. */
  lemma ByteAtExact(source: string, k: nat)
    requires k <= |source|
    ensures ByteAt(source, LineOf(source, k), ColumnOf(source, k)) == ByteLen(source[..k])
  {
    PositionRoundTrip(source, k);
  }

  /** Behind a newline lies the next line. */
  lemma {:induction false} LineStart(source: string, m: nat)
    requires 0 < m <= |source| && source[m - 1] == '\n'
    ensures m >= FirstLine(source) && source[FirstLine(source) - 1] == '\n'
    ensures m > FirstLine(source) ==> source[FirstLine(source)..][m - FirstLine(source) - 1] == '\n'
  {}

  /** The column of a character is the UTF-16 length of its line before it. */
  lemma {:induction false} ColumnFromLineStart(source: string, k: nat, m: nat)
    requires m <= k <= |source| && (m == 0 || source[m - 1] == '\n') && '\n' !in source[m..k]
    ensures ColumnOf(source, k) == Utf16Len(source[m..k])
    decreases |source|
  {
    if source == [] {
    } else {
      var n := FirstLine(source);
      if m == 0 {
        NoNewlineYet(source, k);
        assert source[0..k] == source[..k];
      } else {
        LineStart(source, m);
        assert source[n..][m - n..k - n] == source[m..k];
        ColumnFromLineStart(source[n..], k - n, m - n);
      }
    }
  }

  lemma NoNewlineYet(source: string, k: nat)
    requires source != [] && k <= |source| && '\n' !in source[0..k]
    ensures k < FirstLine(source) || (k == FirstLine(source) && source[k - 1] != '\n')
  {
    var n := FirstLine(source);
    if k >= n { assert source[0..k][n - 1] == source[n - 1]; }
  }

  function Newlines(s: string): nat {
    if s == [] then 0 else (if s[0] == '\n' then 1 else 0) + Newlines(s[1..])
  }

  lemma {:induction false} NewlinesConcat(a: string, b: string)
    ensures Newlines(a + b) == Newlines(a) + Newlines(b)
  {
    if a == [] {
      assert a + b == b;
    } else {
      NewlinesConcat(a[1..], b);
      assert (a + b)[1..] == a[1..] + b;
    }
  }

  lemma {:induction false} NoNewlines(s: string)
    requires '\n' !in s
    ensures Newlines(s) == 0
  {
    if s == [] {
    } else {
      NoNewlines(s[1..]);
    }
  }

  /** The line number of a character is the number of newlines before it. */
  lemma {:induction false} LineOfCounts(source: string, k: nat)
    requires k <= |source|
    ensures LineOf(source, k) == Newlines(source[..k])
  {
    var n := FirstLine(source);
    if source == [] {
    } else if k < n || (k == n && source[n - 1] != '\n') {
      NoNewlines(source[..k]);
    } else {
      LineOfCounts(source[n..], k - n);
      assert source[..k] == source[..n - 1] + ['\n'] + source[n..][..k - n];
      NoNewlines(source[..n - 1]);
      NewlinesConcat(source[..n - 1], ['\n']);
      NewlinesConcat(source[..n - 1] + ['\n'], source[n..][..k - n]);
    }
  }
}
