/**
 Content-Length framing ("Base Protocol" of LSP 3.17), lsp_ops.rs:109-168;
 shared by the language-server and debug-adapter clients.
 */
module Framing {
  import opened Seqs
  import opened Wrappers
  import opened Utf8
  import opened Strings

  const MAX_FRAME_BYTES: nat := 10 * 1024 * 1024
  const MAX_HEADER_BYTES: nat := 8192

  datatype FrameError = HeaderTooLong | HeaderNotText | MissingLength | SizeOutOfBounds | BodyCutShort | BodyNotText

  // ------------------------------------------------------------------ writing

  const NAME := "Content-Length: "
  const BLANK := "\r\n\r\n"

  function Header(n: nat): string { NAME + Print(n) + BLANK }

  function Frame(body: string): seq<byte> {
    Encode(Header(ByteLen(body))) + Encode(body)
  }

  // ------------------------------------------------------------------ reading

  predicate EndsBlank(s: seq<byte>) {
    |s| >= 4 && s[|s| - 4..] == [13, 10, 13, 10]
  }

  datatype HeaderEnd = Eof | Found(n: nat) | TooLong

  /** Scan byte by byte, `n` bytes read so far. */
  function ScanHeader(s: seq<byte>, n: nat): (r: HeaderEnd)
    requires n <= |s| && n <= MAX_HEADER_BYTES
    ensures r.Found? ==> n < r.n <= |s| && EndsBlank(s[..r.n])
    ensures r.TooLong? ==> |s| > MAX_HEADER_BYTES
    decreases |s| - n
  {
    if n == |s| then Eof
    else if EndsBlank(s[..n + 1]) then Found(n + 1)
    else if n + 1 > MAX_HEADER_BYTES then TooLong
    else ScanHeader(s, n + 1)
  }

  /** `split("\r\n")`. */
  function SplitCrLf(s: string): (parts: seq<string>)
    ensures parts != []
  {
    if s == [] then [[]]
    else if |s| > 1 && s[0] == '\r' && s[1] == '\n' then [[]] + SplitCrLf(s[2..])
    else
      var rest := SplitCrLf(s[1..]);
      [[s[0]] + rest[0]] + rest[1..]
  }

  function FirstColon(s: string): (k: nat)
    ensures k <= |s|
  {
    if s == [] || s[0] == ':' then 0 else 1 + FirstColon(s[1..])
  }

  function LowerChar(c: char): char {
    if 'A' <= c <= 'Z' then (c as int + 32) as char else c
  }

  predicate EqIgnoreAsciiCase(a: string, b: string) {
    |a| == |b| && forall i :: 0 <= i < |a| ==> LowerChar(a[i]) == LowerChar(b[i])
  }

  predicate NamesLength(line: string) {
    FirstColon(line) < |line| && EqIgnoreAsciiCase(Trim(line[..FirstColon(line)]), "content-length")
  }

  /** The last Content-Length line decides; an unparsable one undoes earlier
      ones. */
  function LengthOf(lines: seq<string>): Option<nat> {
    if lines == [] then None
    else
      var last := lines[|lines| - 1];
      if NamesLength(last) then ParseUsize(Trim(last[FirstColon(last) + 1..]))
      else LengthOf(lines[..|lines| - 1])
  }

  /** One frame off the stream: its outcome and what is left unread. */
  function ReadSpec(s: seq<byte>): (r: (Result<Option<string>, FrameError>, seq<byte>))
    ensures r.0.Ok? && r.0.value.Some? ==> |r.1| < |s|
  {
    match ScanHeader(s, 0)
    case Eof => (Ok(None), [])
    case TooLong => (Err(HeaderTooLong), s[MAX_HEADER_BYTES + 1..])
    case Found(n) =>
      var header, rest := Decode(s[..n]), s[n..];
      if header.None? then (Err(HeaderNotText), rest)
      else
        match LengthOf(SplitCrLf(header.value))
        case None => (Err(MissingLength), rest)
        case Some(len) =>
          if len == 0 || len > MAX_FRAME_BYTES then (Err(SizeOutOfBounds), rest)
          else if |rest| < len then (Err(BodyCutShort), [])
          else
            match Decode(rest[..len])
            case None => (Err(BodyNotText), rest[len..])
            case Some(body) => (Ok(Some(body)), rest[len..])
  }

  lemma TakeByte(s: seq<byte>, header: seq<byte>, unread: seq<byte>)
    requires header + unread == s && unread != [] && |header| <= MAX_HEADER_BYTES
    ensures var longer := header + [unread[0]];
      && longer + unread[1..] == s
      && ScanHeader(s, |header|) ==
          if EndsBlank(longer) then Found(|longer|)
          else if |longer| > MAX_HEADER_BYTES then TooLong
          else ScanHeader(s, |longer|)
  {
    var longer := header + [unread[0]];
    assert unread == [unread[0]] + unread[1..];
    Assoc(header, [unread[0]], unread[1..]);
    assert s == longer + unread[1..];
    assert s[..|longer|] == longer;
  }

  class FrameReader {
    var unread: seq<byte>

    constructor (bytes: seq<byte>)
      ensures unread == bytes
    {
      unread := bytes;
    }

    /** The header loop: bytes are consumed one at a time. */
    method ReadHeader() returns (end: HeaderEnd, header: seq<byte>)
      modifies this
      ensures end == ScanHeader(old(unread), 0)
      ensures header + unread == old(unread)
      ensures match end
        case Eof => unread == []
        case Found(n) => |header| == n
        case TooLong => |header| == MAX_HEADER_BYTES + 1
    {
      ghost var s := unread;
      header := [];
      while true
        invariant |header| <= MAX_HEADER_BYTES && header + unread == s
        invariant ScanHeader(s, 0) == ScanHeader(s, |header|)
        decreases |unread|
      {
        if unread == [] { return Eof, header; }
        TakeByte(s, header, unread);
        header := header + [unread[0]];
        unread := unread[1..];
        if EndsBlank(header) { return Found(|header|), header; }
        if |header| > MAX_HEADER_BYTES { return TooLong, header; }
      }
    }

    method Read() returns (r: Result<Option<string>, FrameError>)
      modifies this
      ensures (r, unread) == ReadSpec(old(unread))
    {
      ghost var s := unread;
      var end, header := ReadHeader();
      assert s[..|header|] == header && s[|header|..] == unread;
      if end.Eof? { return Ok(None); }
      if end.TooLong? { return Err(HeaderTooLong); }
      var text := Decode(header);
      if text.None? { return Err(HeaderNotText); }
      var length := LengthOf(SplitCrLf(text.value));
      if length.None? { return Err(MissingLength); }
      var len := length.value;
      if len == 0 || len > MAX_FRAME_BYTES { return Err(SizeOutOfBounds); }
      if |unread| < len {
        unread := [];
        return Err(BodyCutShort);
      }
      var body := Decode(unread[..len]);
      unread := unread[len..];
      if body.None? { return Err(BodyNotText); }
      return Ok(Some(body.value));
    }
  }

  // --------------------------------------------------------------- round trip

  lemma HeaderIsPlain(n: nat)
    requires n < 0x1_0000_0000_0000_0000
    ensures Ascii(Header(n)) && 20 <= |Header(n)| <= 40
    ensures forall i :: 0 <= i < |Header(n)| - 4 ==> Header(n)[i] != '\r' && Header(n)[i] != '\n'
    ensures Header(n)[|Header(n)| - 4..] == BLANK
  {
    assert Pow10(20) == 100_000_000_000_000_000_000 by { PowTwenty(); }
    PrintIsShort(n, 20);
    var h, digits := Header(n), Print(n);
    assert forall i :: 0 <= i < |NAME| ==> h[i] == NAME[i];
    assert forall i :: 0 <= i < |digits| ==> h[|NAME| + i] == digits[i];
  }

  lemma PowTwenty()
    ensures Pow10(20) == 100_000_000_000_000_000_000
  {
    assert Pow10(5) == 100_000;
    assert Pow10(10) == 10_000_000_000;
    assert Pow10(15) == 1_000_000_000_000_000;
  }

  /** A header whose only CRs end it is found at its end. */
  lemma {:induction false} ScanFinds(s: seq<byte>, h: nat, n: nat)
    requires n < h <= |s| && 4 <= h <= MAX_HEADER_BYTES
    requires s[h - 4..h] == [13, 10, 13, 10] && forall i :: 0 <= i < h - 4 ==> s[i] != 13 && s[i] != 10
    ensures ScanHeader(s, n) == Found(h)
    decreases h - n
  {
    var head := s[..n + 1];
    if n + 1 == h {
      assert head[|head| - 4..] == s[h - 4..h];
    } else {
      NotYet(s, h, n + 1);
      ScanFinds(s, h, n + 1);
    }
  }

  lemma NotYet(s: seq<byte>, h: nat, n: nat)
    requires n < h <= |s| && 4 <= h
    requires s[h - 4..h] == [13, 10, 13, 10] && forall i :: 0 <= i < h - 4 ==> s[i] != 13 && s[i] != 10
    ensures !EndsBlank(s[..n])
  {
    var head, tail := s[..n], s[h - 4..h];
    if n >= 4 {
      assert head[|head| - 4..][1] == s[n - 3];
      assert n == h - 1 ==> s[n - 3] == s[h - 4] == tail[0];
    }
  }

  /** A stream that ends inside such a header ends the scan. */
  lemma {:induction false} ScanEnds(s: seq<byte>, full: seq<byte>, h: nat, n: nat)
    requires n <= |s| < h <= |full| && s <= full && 4 <= h <= MAX_HEADER_BYTES
    requires full[h - 4..h] == [13, 10, 13, 10] && forall i :: 0 <= i < h - 4 ==> full[i] != 13 && full[i] != 10
    ensures ScanHeader(s, n) == Eof
    decreases |s| - n
  {
    if n < |s| {
      NotYet(full, h, n + 1);
      assert s[..n + 1] == full[..n + 1];
      ScanEnds(s, full, h, n + 1);
    }
  }

  lemma {:induction false} SplitPlain(x: string, rest: string)
    requires '\r' !in x
    ensures SplitCrLf(x + ("\r\n" + rest)) == [x] + SplitCrLf(rest)
  {
    var s := x + ("\r\n" + rest);
    if x == [] {
      assert s == "\r\n" + rest && s[2..] == rest;
    } else {
      assert s[1..] == x[1..] + ("\r\n" + rest) && s[0] == x[0];
      SplitPlain(x[1..], rest);
      assert x == [x[0]] + x[1..];
    }
  }

  lemma ColonOfName(digits: string)
    ensures FirstColon(NAME + digits) == 14
    ensures NamesLength(NAME + digits)
  {
    var line := NAME + digits;
    assert line[..14] == "Content-Length";
    assert forall i :: 0 <= i < 14 ==> line[i] == "Content-Length"[i];
    FindColon(line, 14);
    assert Trim("Content-Length") == "Content-Length";
    CaseOfName();
  }

  lemma CaseOfName()
    ensures EqIgnoreAsciiCase("Content-Length", "content-length")
  {
    var a, b := "Content-Length", "content-length";
    assert a == "C" + "ontent-" + "L" + "ength" && b == "c" + "ontent-" + "l" + "ength";
    forall i | 0 <= i < 14 ensures LowerChar(a[i]) == LowerChar(b[i]) {
      if 0 < i < 8 { assert a[i] == "ontent-"[i - 1] == b[i]; }
      if 8 < i { assert a[i] == "ength"[i - 9] == b[i]; }
    }
  }

  lemma {:induction false} FindColon(s: string, k: nat)
    requires k < |s| && s[k] == ':' && forall i :: 0 <= i < k ==> s[i] != ':'
    ensures FirstColon(s) == k
  {
    if k == 0 {
    } else {
      FindColon(s[1..], k - 1);
    }
  }

  /** A written header reads back as its length. */
  lemma HeaderParses(n: nat)
    requires n < 0x1_0000_0000_0000_0000
    ensures LengthOf(SplitCrLf(Header(n))) == Some(n)
  {
    var line := NAME + Print(n);
    SplitHeader(line, n);
    ColonOfName(Print(n));
    LengthOfFirst(line);
    assert line[15..] == [' '] + Print(n);
    PrintIsTrimmed(n);
    ParsePrinted(n);
  }

  lemma SplitHeader(line: string, n: nat)
    requires line == NAME + Print(n)
    ensures SplitCrLf(Header(n)) == [line, "", ""]
  {
    assert '\r' !in NAME && '\r' !in Print(n);
    assert Header(n) == line + ("\r\n" + ("\r\n" + ""));
    SplitPlain(line, "\r\n" + "");
    assert "" + ("\r\n" + "") == "\r\n" + "";
    SplitPlain("", "");
    assert SplitCrLf(Header(n)) == [line] + ([""] + [""]) == [line, "", ""];
  }

  /** Empty lines after the length line change nothing. */
  lemma LengthOfFirst(line: string)
    requires NamesLength(line)
    ensures LengthOf([line, "", ""]) == ParseUsize(Trim(line[FirstColon(line) + 1..]))
  {
    var parts := [line, "", ""];
    assert parts[..2] == [line, ""] && [line, ""][..1] == [line];
    assert !NamesLength("");
    assert LengthOf(parts) == LengthOf([line, ""]) == LengthOf([line]);
  }

  /** Reading a written frame: the body comes back exactly when it has between 1
      byte and 10 MiB, and the rest of the stream is untouched. */
  lemma FrameRoundTrip(body: string, rest: seq<byte>)
    requires ByteLen(body) < 0x1_0000_0000_0000_0000
    ensures var r := ReadSpec(Frame(body) + rest);
      && (1 <= ByteLen(body) <= MAX_FRAME_BYTES ==> r == (Ok(Some(body)), rest))
      && (!(1 <= ByteLen(body) <= MAX_FRAME_BYTES) ==> r == (Err(SizeOutOfBounds), Encode(body) + rest))
  {
    var n := ByteLen(body);
    var h, s := Encode(Header(n)), Frame(body) + rest;
    HeaderInStream(n, Encode(body) + rest);
    Assoc(h, Encode(body), rest);
    HeaderParses(n);
    DecodeEncode(Header(n));
    DecodeEncode(body);
    EncodedLength(body);
    var tail := Encode(body) + rest;
    assert tail[..n] == Encode(body) && tail[n..] == rest;
  }

  lemma HeaderInStream(n: nat, tail: seq<byte>)
    requires n < 0x1_0000_0000_0000_0000
    ensures var h := Encode(Header(n));
      && ScanHeader(h + tail, 0) == Found(|h|)
      && (h + tail)[..|h|] == h && (h + tail)[|h|..] == tail
  {
    HeaderIsPlain(n);
    EncodeAscii(Header(n));
    var h := Encode(Header(n));
    var s, k := h + tail, |h|;
    BlankBytes(Header(n));
    assert s[k - 4..k] == h[k - 4..];
    ScanFinds(s, k, 0);
  }

  lemma BlankBytes(t: string)
    requires |t| >= 4 && t[|t| - 4..] == BLANK && Ascii(t)
    ensures |Encode(t)| == |t| && Encode(t)[|t| - 4..] == [13, 10, 13, 10]
  {
    EncodeAscii(t);
    var k := |t| - 4;
    forall i | 0 <= i < 4 ensures t[k + i] == BLANK[i] { assert t[k..][i] == t[k + i]; }
    LastFour(Encode(t));
  }

  lemma LastFour(s: seq<byte>)
    requires |s| >= 4
    ensures s[|s| - 4..] == [s[|s| - 4], s[|s| - 3], s[|s| - 2], s[|s| - 1]]
  {}

  // ----------------------------------------------------------- whole streams

  function FrameAll(bodies: seq<string>): seq<byte> {
    if bodies == [] then [] else Frame(bodies[0]) + FrameAll(bodies[1..])
  }

  /** Reading until the stream stops giving bodies, as the reader tasks do. */
  function ReadAll(s: seq<byte>): (seq<string>, Result<Option<string>, FrameError>)
    decreases |s|
  {
    var (r, rest) := ReadSpec(s);
    if r.Ok? && r.value.Some? then
      var (more, end) := ReadAll(rest);
      ([r.value.value] + more, end)
    else ([], r)
  }

  /** The frames of any list of bodies of 1 byte to 10 MiB read back as exactly
      that list, then end of stream. */
  lemma {:induction false} StreamRoundTrip(bodies: seq<string>)
    requires forall i :: 0 <= i < |bodies| ==> 1 <= ByteLen(bodies[i]) <= MAX_FRAME_BYTES
    ensures ReadAll(FrameAll(bodies)) == (bodies, Ok(None))
  {
    if bodies == [] {
    } else {
      FrameRoundTrip(bodies[0], FrameAll(bodies[1..]));
      StreamRoundTrip(bodies[1..]);
      ReadAllStep(FrameAll(bodies), bodies[0], FrameAll(bodies[1..]));
      HeadAndTail(bodies);
    }
  }

  lemma ReadAllStep(s: seq<byte>, body: string, rest: seq<byte>)
    requires ReadSpec(s) == (Ok(Some(body)), rest)
    ensures ReadAll(s) == ([body] + ReadAll(rest).0, ReadAll(rest).1)
  {}

  lemma {:induction false} EofIff(s: seq<byte>, n: nat)
    requires n <= |s| && n <= MAX_HEADER_BYTES
    ensures ScanHeader(s, n) == Eof <==> |s| <= MAX_HEADER_BYTES && forall k :: n < k <= |s| ==> !EndsBlank(s[..k])
    decreases |s| - n
  {
    if n < |s| && !EndsBlank(s[..n + 1]) && n + 1 <= MAX_HEADER_BYTES {
      EofIff(s, n + 1);
    }
  }

  /** Whatever the other program sent: reading reports a clean end if and only if the
      input ends, within the header limit, before any blank line; at a message
      boundary nothing is left, and that is only one such input. */
  lemma CleanEndIff(s: seq<byte>)
    ensures ReadSpec(s).0 == Ok(None) <==>
      |s| <= MAX_HEADER_BYTES && forall k :: 0 < k <= |s| ==> !EndsBlank(s[..k])
  {
    EofIff(s, 0);
  }

  /** A stream cut inside a frame: inside the header it looks like a clean end,
      inside the body it is an error. */
  lemma CutFrame(body: string, k: nat)
    requires 1 <= ByteLen(body) <= MAX_FRAME_BYTES && k < |Frame(body)|
    ensures ReadSpec(Frame(body)[..k]).0
         == if k < |Encode(Header(ByteLen(body)))| then Ok(None) else Err(BodyCutShort)
  {
    var n := ByteLen(body);
    var h, b := Encode(Header(n)), Encode(body);
    EncodedLength(body);
    HeaderIsPlain(n);
    EncodeAscii(Header(n));
    BlankBytes(Header(n));
    if k < |h| {
      assert Frame(body)[..k] == h[..k];
      ScanEnds(h[..k], h, |h|, 0);
    } else {
      assert Frame(body)[..k] == h + b[..k - |h|];
      HeaderInStream(n, b[..k - |h|]);
      HeaderParses(n);
      DecodeEncode(Header(n));
    }
  }
}
