/**
 Frames with any header lines, lsp_ops.rs:109-168: the last Content-Length line
 decides, wherever it stands and however it is written.
 */
module HeaderLines {
  import opened Seqs
  import opened Wrappers
  import opened Utf8
  import opened Strings
  import opened Framing

  /** The header of these lines: each ended by CR LF, and an empty one behind them. */
  function HeaderText(lines: seq<string>): string {
    if lines == [] then "\r\n" else lines[0] + ("\r\n" + HeaderText(lines[1..]))
  }

  /** A header line: ASCII, not empty, without CR or LF. */
  predicate IsLine(line: string) {
    line != "" && forall i :: 0 <= i < |line| ==> line[i] as int < 0x80 && line[i] != '\r' && line[i] != '\n'
  }

  predicate AreLines(lines: seq<string>) {
    forall k :: 0 <= k < |lines| ==> IsLine(lines[k])
  }

  // ----------------------------------------------------- which line decides

  /** Letter by letter, in either case. */
  predicate SpellsLength(name: string) {
    |name| == 14 && forall i :: 0 <= i < 14 ==> name[i] == "content-length"[i] || name[i] == "CONTENT-LENGTH"[i]
  }

  /** The first colon of the line. */
  predicate ColonAt(line: string, k: nat) {
    k < |line| && line[k] == ':' && ':' !in line[..k]
  }

  /** The line is no Content-Length line: what stands before its first colon, white
      space aside, is not that name. */
  predicate SilentOnLength(line: string) {
    forall k :: 0 <= k < |line| && ColonAt(line, k) ==> !SpellsLength(Trim(line[..k]))
  }

  /** The lines declare `length`: the last Content-Length line decides, and one whose
      value is no 64-bit decimal declares nothing. */
  predicate Declares(lines: seq<string>, length: Option<nat>) {
    if lines == [] then length == None
    else
      var last := lines[|lines| - 1];
      if SilentOnLength(last) then Declares(lines[..|lines| - 1], length)
      else exists k :: 0 <= k < |last| && ColonAt(last, k) && length == ParseUsize(Trim(last[k + 1..]))
  }

  lemma ColonIs(line: string, k: nat)
    requires ColonAt(line, k)
    ensures FirstColon(line) == k
  {
    assert forall i :: 0 <= i < k ==> line[..k][i] == line[i];
    FindColon(line, k);
  }

  lemma {:induction false} FirstColonIs(line: string)
    ensures FirstColon(line) < |line| ==> ColonAt(line, FirstColon(line))
    ensures FirstColon(line) == |line| ==> ':' !in line
  {
    if line != [] && line[0] != ':' {
      FirstColonIs(line[1..]);
      var k := FirstColon(line);
      assert line[..k] == [line[0]] + line[1..][..k - 1];
      assert line == [line[0]] + line[1..];
    }
  }

  lemma LettersOfName(i: nat)
    requires i < 14
    ensures var l, u := "content-length"[i], "CONTENT-LENGTH"[i];
      LowerChar(l) == l && LowerChar(u) == l && (l == '-' || 'a' <= l <= 'z') && (u == l || u as int + 32 == l as int)
      && (l == '-' ==> u == '-')
  {}

  lemma SpellsIff(name: string)
    ensures SpellsLength(name) <==> EqIgnoreAsciiCase(name, "content-length")
  {
    if |name| == 14 {
      forall i | 0 <= i < 14
        ensures LowerChar(name[i]) == LowerChar("content-length"[i]) <==>
          (name[i] == "content-length"[i] || name[i] == "CONTENT-LENGTH"[i])
      {
        LettersOfName(i);
        EitherCase(name[i], "content-length"[i], "CONTENT-LENGTH"[i]);
      }
    }
  }

  lemma EitherCase(c: char, l: char, u: char)
    requires (l == '-' && u == '-') || ('a' <= l <= 'z' && u as int + 32 == l as int)
    ensures LowerChar(c) == LowerChar(l) <==> c == l || c == u
  {}

  lemma SilentIff(line: string)
    ensures SilentOnLength(line) <==> !NamesLength(line)
    ensures forall k :: 0 <= k < |line| && ColonAt(line, k) ==> k == FirstColon(line)
  {
    FirstColonIs(line);
    SpellsIff(Trim(line[..FirstColon(line)]));
    forall k | 0 <= k < |line| && ColonAt(line, k) ensures k == FirstColon(line) { ColonIs(line, k); }
  }

  lemma {:induction false} DeclaredIsRead(lines: seq<string>, length: Option<nat>)
    ensures Declares(lines, length) <==> LengthOf(lines) == length
  {
    if lines == [] {
    } else {
      var last := lines[|lines| - 1];
      DeclaredIsRead(lines[..|lines| - 1], length);
      SilentIff(last);
      FirstColonIs(last);
    }
  }

  // -------------------------------------------------------------- end of header

  /** The four characters of a blank line start at `i`. */
  predicate BlankAt(s: string, i: int) {
    0 <= i && i + 4 <= |s| && s[i] == '\r' && s[i + 1] == '\n' && s[i + 2] == '\r' && s[i + 3] == '\n'
  }

  lemma {:induction false} HeaderShape(lines: seq<string>)
    requires AreLines(lines)
    ensures var t := HeaderText(lines);
      && |t| >= 2 && Ascii(t) && (lines != [] ==> |t| > 4 && t[0] != '\r' && t[0] != '\n')
      && (lines == [] ==> t == "\r\n")
      && (lines != [] ==> BlankAt(t, |t| - 4))
      && forall i: nat :: i + 4 < |t| ==> !BlankAt(t, i)
  {
    if lines == [] {
    } else {
      var line, rest := lines[0], HeaderText(lines[1..]);
      assert IsLine(line);
      assert AreLines(lines[1..]);
      HeaderShape(lines[1..]);
      OneMoreLine(line, rest);
      if lines[1..] == [] { assert HeaderText(lines) == line + "\r\n\r\n"; }
    }
  }

  lemma OneMoreLine(line: string, rest: string)
    requires IsLine(line) && Ascii(rest) && |rest| >= 2
    requires rest[0] != '\r' || rest == "\r\n"
    requires forall i: nat :: i + 4 < |rest| ==> !BlankAt(rest, i)
    requires rest == "\r\n" || BlankAt(rest, |rest| - 4)
    ensures var t := line + ("\r\n" + rest);
      && Ascii(t) && |t| == |line| + 2 + |rest| && t[0] == line[0] && BlankAt(t, |t| - 4)
      && forall i: nat :: i + 4 < |t| ==> !BlankAt(t, i)
  {
    var t, m := line + ("\r\n" + rest), |line|;
    assert t[m] == '\r' && t[m + 1] == '\n';
    assert forall j :: 0 <= j < m ==> t[j] == line[j];
    assert forall j :: 0 <= j < |rest| ==> t[m + 2 + j] == rest[j];
    forall i: nat | i + 4 < |t| ensures !BlankAt(t, i) {
      if i >= m + 2 { assert !BlankAt(rest, i - (m + 2)); }
    }
  }

  lemma {:induction false} HeaderSplits(lines: seq<string>)
    requires AreLines(lines)
    ensures SplitCrLf(HeaderText(lines)) == lines + ["", ""]
  {
    if lines == [] {
      assert "\r\n"[2..] == "" && SplitCrLf("\r\n") == [""] + [""];
    } else {
      assert IsLine(lines[0]);
      HeaderSplits(lines[1..]);
      SplitPlain(lines[0], HeaderText(lines[1..]));
      HeadAndTail(lines);
      Assoc([lines[0]], lines[1..], ["", ""]);
    }
  }

  lemma TwoEmptyLines(lines: seq<string>)
    ensures LengthOf(lines + ["", ""]) == LengthOf(lines)
  {
    var one, two := lines + [""], lines + ["", ""];
    assert two[..|two| - 1] == one && two[|two| - 1] == "";
    assert one[..|one| - 1] == lines && one[|one| - 1] == "";
    assert !NamesLength("");
  }

  lemma {:induction false} FindsFirstBlank(s: seq<byte>, h: nat, n: nat)
    requires n < h <= |s| && h <= MAX_HEADER_BYTES + 1 && EndsBlank(s[..h])
    requires forall k :: n < k < h ==> !EndsBlank(s[..k])
    ensures ScanHeader(s, n) == Found(h)
    decreases h - n
  {
    if n + 1 < h { FindsFirstBlank(s, h, n + 1); }
  }

  lemma BlankIsBlank(t: string, k: nat)
    requires Ascii(t) && k <= |t|
    ensures |Encode(t)| == |t|
    ensures EndsBlank(Encode(t)[..k]) <==> k >= 4 && BlankAt(t, k - 4)
  {
    EncodeAscii(t);
    var head := Encode(t)[..k];
    if k >= 4 {
      LastFour(head);
      assert head[k - 4] == t[k - 4] as int && head[k - 3] == t[k - 3] as int;
      assert head[k - 2] == t[k - 2] as int && head[k - 1] == t[k - 1] as int;
    }
  }

  lemma HeaderIsFound(lines: seq<string>, tail: seq<byte>)
    requires AreLines(lines) && lines != [] && |HeaderText(lines)| <= 8193
    ensures var h := Encode(HeaderText(lines));
      && |h| == |HeaderText(lines)| && ScanHeader(h + tail, 0) == Found(|h|)
      && (h + tail)[..|h|] == h && (h + tail)[|h|..] == tail
  {
    var t := HeaderText(lines);
    HeaderShape(lines);
    EncodeAscii(t);
    var h := Encode(t);
    forall k | 0 < k <= |h| ensures EndsBlank((h + tail)[..k]) <==> k == |h| {
      assert (h + tail)[..k] == h[..k];
      BlankIsBlank(t, k);
      if 4 <= k < |h| { assert !BlankAt(t, k - 4); }
    }
    FindsFirstBlank(h + tail, |h|, 0);
  }

  /** A frame with any header lines within the limit: what comes back, and what is
      left unread, by the length they declare. */
  lemma FrameIsRead(lines: seq<string>, length: Option<nat>, tail: seq<byte>)
    requires AreLines(lines) && lines != [] && |HeaderText(lines)| <= 8193 && Declares(lines, length)
    ensures var (r, rest) := ReadSpec(Encode(HeaderText(lines)) + tail);
      match length
      case None => r == Err(MissingLength) && rest == tail
      case Some(n) =>
        && (n == 0 || n > 10_485_760 ==> r == Err(SizeOutOfBounds) && rest == tail)
        && (1 <= n <= 10_485_760 && n > |tail| ==> r == Err(BodyCutShort) && rest == [])
        && (1 <= n <= 10_485_760 && n <= |tail| ==>
              && rest == tail[n..]
              && (Decode(tail[..n]).None? ==> r == Err(BodyNotText))
              && (Decode(tail[..n]).Some? ==> r == Ok(Some(Decode(tail[..n]).value))))
  {
    HeaderIsFound(lines, tail);
    DecodeEncode(HeaderText(lines));
    HeaderSplits(lines);
    TwoEmptyLines(lines);
    DeclaredIsRead(lines, length);
  }

  /** For one: other lines around the length line change nothing. */
  lemma OtherLinesDoNotMatter(before: seq<string>, after: seq<string>, line: string, k: nat, body: string,
                             rest: seq<byte>)
    requires AreLines(before + [line] + after) && |HeaderText(before + [line] + after)| <= 8193
    requires ColonAt(line, k) && SpellsLength(Trim(line[..k])) && Trim(line[k + 1..]) == Print(ByteLen(body))
    requires 1 <= ByteLen(body) <= 10_485_760
    requires forall i :: 0 <= i < |after| ==> SilentOnLength(after[i])
    ensures ReadSpec(Encode(HeaderText(before + [line] + after)) + (Encode(body) + rest)) == (Ok(Some(body)), rest)
  {
    var n := ByteLen(body);
    ParsePrinted(n);
    LastSpeaks(before, after, line, k, Some(n));
    FrameIsRead(before + [line] + after, Some(n), Encode(body) + rest);
    EncodedLength(body);
    assert (Encode(body) + rest)[..n] == Encode(body) && (Encode(body) + rest)[n..] == rest;
    DecodeEncode(body);
  }

  lemma {:induction false} LastSpeaks(before: seq<string>, after: seq<string>, line: string, k: nat,
                                      length: Option<nat>)
    requires ColonAt(line, k) && SpellsLength(Trim(line[..k])) && length == ParseUsize(Trim(line[k + 1..]))
    requires forall i :: 0 <= i < |after| ==> SilentOnLength(after[i])
    ensures Declares(before + [line] + after, length)
  {
    var lines := before + [line] + after;
    if after == [] {
      assert lines == before + [line] && lines[|lines| - 1] == line;
      assert !SilentOnLength(line);
    } else {
      assert lines[..|lines| - 1] == before + [line] + after[..|after| - 1];
      assert lines[|lines| - 1] == after[|after| - 1];
      LastSpeaks(before, after[..|after| - 1], line, k, length);
    }
  }
}
