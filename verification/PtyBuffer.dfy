/**
 The PTY output buffer, pty_ops.rs:108-202: escape sequences are scrubbed chunk
 by chunk, complete lines kept in a ring, the open line capped.
 */
module PtyBuffer {
  import opened Seqs
  import opened Wrappers
  import opened Utf8
  import opened Strings
  import opened Lines
  import Positions

  const RING_LINES: nat := 1000
  const MAX_OPEN_LINE: nat := 16 * 1024

  // ------------------------------------------------------------------ scrubbing

  /** Where the scanner stands: plain text, after ESC, inside a control
      sequence.  Every chunk starts in plain text. */
  datatype Mode = Ground | Escape | Control

  predicate Bell(c: char) {
    var u := c as int;
    u == 0x7 || u == 0x8 || u == 0xB || u == 0xC
  }

  function ModeAfter(m: Mode, c: char): Mode {
    match m
    case Ground => if c as int == 0x1B then Escape else Ground
    case Escape => if c == '[' then Control else Ground
    case Control => if 0x40 <= c as int <= 0x7E then Ground else Control
  }

  function ScrubFrom(m: Mode, s: string): string
    decreases |s|
  {
    if s == [] then []
    else
      var rest := ScrubFrom(ModeAfter(m, s[0]), s[1..]);
      if m == Ground && s[0] as int != 0x1B && !Bell(s[0]) then [s[0]] + rest else rest
  }

  function EndMode(m: Mode, s: string): Mode
    decreases |s|
  {
    if s == [] then m else EndMode(ModeAfter(m, s[0]), s[1..])
  }

  function Scrub(s: string): string { ScrubFrom(Ground, s) }

  lemma ScrubStep(m: Mode, s: string)
    requires s != []
    ensures ScrubFrom(m, s) ==
      (if m == Ground && s[0] as int != 0x1B && !Bell(s[0]) then [s[0]] + ScrubFrom(Ground, s[1..])
       else ScrubFrom(ModeAfter(m, s[0]), s[1..]))
    ensures s[1..] == [] ==> ScrubFrom(ModeAfter(m, s[0]), s[1..]) == []
  {}

  /** The scrubber as the program runs it: nested loops over one iterator. */
  method ScrubAnsi(s: string) returns (out: string)
    ensures out == Scrub(s)
  {
    out := [];
    var rest := s;
    assert [] + Scrub(s) == Scrub(s);
    while rest != []
      invariant out + Scrub(rest) == Scrub(s)
      decreases |rest|
    {
      var c := rest[0];
      ScrubStep(Ground, rest);
      rest := rest[1..];
      if c as int == 0x1B {
        if rest != [] { ScrubStep(Escape, rest); }
        if rest != [] && rest[0] == '[' {
          rest := rest[1..];
          var more := rest != [];
          while more
            invariant more ==> rest != []
            invariant out + ScrubFrom(if more then Control else Ground, rest) == Scrub(s)
            decreases |rest|, more
          {
            var n := rest[0];
            ScrubStep(Control, rest);
            rest := rest[1..];
            more := rest != [] && !(0x40 <= n as int <= 0x7E);
          }
        } else if rest != [] {
          rest := rest[1..];
        }
      } else if !Bell(c) {
        Assoc(out, [c], Scrub(rest));
        out := out + [c];
      }
    }
    assert out + [] == out;
  }

  /** A control sequence vanishes up to its final byte, the first from '@' to '~'. */
  lemma {:induction false} SequenceVanishes(parameters: string, final: char, rest: string)
    requires forall i :: 0 <= i < |parameters| ==> !('@' <= parameters[i] <= '~')
    requires '@' <= final <= '~'
    ensures ScrubFrom(Control, parameters + ([final] + rest)) == Scrub(rest)
  {
    var s := parameters + ([final] + rest);
    if parameters == [] {
      assert s[1..] == rest;
    } else {
      assert s[1..] == parameters[1..] + ([final] + rest);
      SequenceVanishes(parameters[1..], final, rest);
    }
  }

  lemma {:induction false} UnfinishedVanishes(parameters: string)
    requires forall i :: 0 <= i < |parameters| ==> !('@' <= parameters[i] <= '~')
    ensures ScrubFrom(Control, parameters) == []
  {
    if parameters != [] { UnfinishedVanishes(parameters[1..]); }
  }

  /** The four noises that are dropped: bell, backspace, vertical tab, form feed. */
  const NOISE := "\U{7}\U{8}\U{B}\U{C}"

  /** What scrubbing leaves, by the front of the text: an escape sequence vanishes
      whole or as far as the chunk goes, an escape takes one more character, noise is
      dropped and anything else stays. */
  lemma ScrubReads(parameters: string, final: char, c: char, rest: string)
    requires forall i :: 0 <= i < |parameters| ==> !('@' <= parameters[i] <= '~')
    requires '@' <= final <= '~'
    ensures Scrub("\U{1B}[" + (parameters + ([final] + rest))) == Scrub(rest)
    ensures Scrub("\U{1B}[" + parameters) == ""
    ensures c != '[' ==> Scrub("\U{1B}" + ([c] + rest)) == Scrub(rest)
    ensures Scrub("\U{1B}") == "" && Scrub("") == ""
    ensures c in NOISE ==> Scrub([c] + rest) == Scrub(rest)
    ensures c !in NOISE && c != '\U{1B}' ==> Scrub([c] + rest) == [c] + Scrub(rest)
  {
    SequenceVanishes(parameters, final, rest);
    UnfinishedVanishes(parameters);
    AfterBracket(parameters + ([final] + rest));
    AfterBracket(parameters);
    assert ([c] + rest)[1..] == rest;
    if c != '[' { TwoByteEscape(c, rest); }
    assert "\U{1B}"[1..] == "";
  }

  lemma AfterBracket(tail: string)
    ensures Scrub("\U{1B}[" + tail) == ScrubFrom(Control, tail)
  {
    var s := "\U{1B}[" + tail;
    assert s[0] == '\U{1B}' && s[1..] == ['['] + tail && (['['] + tail)[1..] == tail;
    ScrubStep(Ground, s);
    ScrubStep(Escape, ['['] + tail);
  }

  lemma TwoByteEscape(c: char, rest: string)
    requires c != '['
    ensures Scrub("\U{1B}" + ([c] + rest)) == Scrub(rest)
  {
    var s := "\U{1B}" + ([c] + rest);
    assert s[0] == '\U{1B}' && s[1..] == [c] + rest && ([c] + rest)[1..] == rest;
    ScrubStep(Ground, s);
    ScrubStep(Escape, [c] + rest);
  }

  lemma {:induction false} ScrubConcat(m: Mode, a: string, b: string)
    ensures ScrubFrom(m, a + b) == ScrubFrom(m, a) + ScrubFrom(EndMode(m, a), b)
    ensures EndMode(m, a + b) == EndMode(EndMode(m, a), b)
    decreases |a|
  {
    if a == [] {
      assert a + b == b && [] + ScrubFrom(m, b) == ScrubFrom(m, b);
    } else {
      var m' := ModeAfter(m, a[0]);
      ScrubConcat(m', a[1..], b);
      ConcatTail(a, b);
      Assoc([a[0]], ScrubFrom(m', a[1..]), ScrubFrom(EndMode(m', a[1..]), b));
    }
  }

  /** A text may be cut after `a` without changing what is scrubbed, whatever
      follows, exactly when the scanner is back in plain text there. */
  lemma CutIsCleanIff(a: string)
    ensures EndMode(Ground, a) == Ground <==> forall b :: Scrub(a + b) == Scrub(a) + Scrub(b)
  {
    if EndMode(Ground, a) == Ground {
      forall b ensures Scrub(a + b) == Scrub(a) + Scrub(b) { ScrubConcat(Ground, a, b); }
    } else {
      ScrubConcat(Ground, a, "m");
      assert "m"[1..] == [];
      assert |Scrub(a + "m")| == |Scrub(a)| && |Scrub(a) + Scrub("m")| == |Scrub(a)| + 1;
    }
  }

  lemma {:induction false} EscFreeIsClean(s: string)
    requires forall i :: 0 <= i < |s| ==> s[i] as int != 0x1B
    ensures EndMode(Ground, s) == Ground
  {
    if s == [] {
    } else {
      EscFreeIsClean(s[1..]);
    }
  }

  // -------------------------------------------------------------------- buffer

  /** `bytes` is the program's running counter; a panic while the lock is held
      poisons the buffer. */
  datatype Buffer = Buffer(lines: seq<string>, partial: string, bytes: int, poisoned: bool)

  function Cost(lines: seq<string>): nat {
    if lines == [] then 0 else ByteLen(lines[0]) + 1 + Cost(lines[1..])
  }

  function StripCr(line: string): string {
    if line != [] && line[|line| - 1] == '\r' then line[..|line| - 1] else line
  }

  /** How many lines are too many for the ring. */
  function Excess(lines: seq<string>): (n: nat)
    ensures n <= |lines|
  {
    if |lines| > RING_LINES then |lines| - RING_LINES else 0
  }

  function PushChar(b: Buffer, c: char): Buffer {
    if c != '\n' then b.(partial := b.partial + [c])
    else
      var lines := b.lines + [StripCr(b.partial)];
      var bytes := b.bytes + ByteLen(b.partial) + 1;
      var drop := Excess(lines);
      Buffer(lines[drop..], "", bytes - Cost(lines[..drop]), b.poisoned)
  }

  function PushChars(b: Buffer, s: string): Buffer {
    if s == [] then b else PushChar(PushChars(b, s[..|s| - 1]), s[|s| - 1])
  }

  /** `drain(..cut)` on a string: None when `cut` splits a character. */
  function DropBytes(s: string, cut: nat): Option<string> {
    if cut == 0 then Some(s)
    else if s == [] || cut < Len8(s[0]) then None
    else DropBytes(s[1..], cut - Len8(s[0]))
  }

  function CapOpenLine(b: Buffer): Buffer {
    if ByteLen(b.partial) <= MAX_OPEN_LINE then b
    else
      match DropBytes(b.partial, ByteLen(b.partial) - MAX_OPEN_LINE)
      case None => b.(poisoned := true)
      case Some(tail) => b.(partial := tail)
  }

  function Pushed(b: Buffer, chunk: string): Buffer {
    if b.poisoned then b else CapOpenLine(PushChars(b, Scrub(chunk)))
  }

  function DrainedText(b: Buffer): string {
    if b.poisoned then ""
    else JoinWith('\n', b.lines) + (if b.partial == "" then "" else "\n" + b.partial)
  }

  function Drained(b: Buffer): Buffer {
    if b.poisoned then b else b.(lines := [], bytes := 0)
  }

  class OutputBuffer {
    var lines: seq<string>
    var partial: string
    var bytes: int
    var poisoned: bool

    constructor ()
      ensures State() == Buffer([], "", 0, false)
    {
      lines, partial, bytes, poisoned := [], "", 0, false;
    }

    function State(): Buffer
      reads this
    {
      Buffer(lines, partial, bytes, poisoned)
    }

    /** One scrubbed character. */
    method Append(ch: char)
      modifies this
      ensures State() == PushChar(old(State()), ch)
    {
      if ch == '\n' {
        var line := partial;
        partial := "";
        bytes := bytes + ByteLen(line) + 1;
        if line != [] && line[|line| - 1] == '\r' { line := line[..|line| - 1]; }
        lines := lines + [line];
        TrimRing();
      } else {
        partial := partial + [ch];
      }
    }

    method TrimRing()
      modifies this
      ensures partial == old(partial) && poisoned == old(poisoned)
      ensures lines == old(lines)[Excess(old(lines))..]
      ensures bytes == old(bytes) - Cost(old(lines)[..Excess(old(lines))])
    {
      if |lines| > RING_LINES {
        var drop := |lines| - RING_LINES;
        bytes := bytes - Cost(lines[..drop]);
        lines := lines[drop..];
      }
    }

    method Push(chunk: string)
      modifies this
      ensures State() == Pushed(old(State()), chunk)
    {
      if poisoned { return; }
      var text := ScrubAnsi(chunk);
      for i := 0 to |text|
        invariant State() == PushChars(old(State()), text[..i])
      {
        assert text[..i + 1][..i] == text[..i];
        Append(text[i]);
      }
      assert text[..|text|] == text;
      if ByteLen(partial) > MAX_OPEN_LINE {
        match DropBytes(partial, ByteLen(partial) - MAX_OPEN_LINE) {
          case None => poisoned := true;
          case Some(tail) => partial := tail;
        }
      }
    }

    method Drain() returns (out: string)
      modifies this
      ensures out == DrainedText(old(State())) && State() == Drained(old(State()))
    {
      if poisoned { return ""; }
      out := JoinWith('\n', lines);
      lines := [];
      if partial != "" {
        out := out + ['\n'] + partial;
      }
      bytes := 0;
    }
  }

  // ----------------------------------------------- what the characters amount to

  /** The complete lines of a text, without their terminators. */
  function Complete(s: string): seq<string> {
    var n := Positions.FirstLine(s);
    if s == [] || s[n - 1] != '\n' then [] else [Body(s[..n])] + Complete(s[n..])
  }

  /** What follows the last newline. */
  function OpenLine(s: string): string {
    var n := Positions.FirstLine(s);
    if s == [] || s[n - 1] != '\n' then s else OpenLine(s[n..])
  }

  lemma {:induction false} FirstLineOf(s: string, k: nat)
    requires k < |s| && s[k] == '\n' && forall i :: 0 <= i < k ==> s[i] != '\n'
    ensures Positions.FirstLine(s) == k + 1
  {
    if k == 0 {
    } else {
      FirstLineOf(s[1..], k - 1);
    }
  }

  lemma {:induction false} OnlyLine(s: string)
    requires forall i :: 0 <= i < |s| ==> s[i] != '\n'
    ensures Positions.FirstLine(s) == |s| && Complete(s) == [] && OpenLine(s) == s
  {
    if s == [] {
    } else {
      OnlyLine(s[1..]);
    }
  }

  lemma {:induction false} SnocChar(s: string, c: char)
    ensures OpenLine(s + [c]) == if c == '\n' then "" else OpenLine(s) + [c]
    ensures Complete(s + [c]) == if c == '\n' then Complete(s) + [StripCr(OpenLine(s))] else Complete(s)
    decreases |s|
  {
    var t, n := s + [c], Positions.FirstLine(s);
    if s == [] || s[n - 1] != '\n' {
      OnlyLine(s);
      SnocOpen(s, c);
    } else {
      FirstOfMore(s, c);
      SnocChar(s[n..], c);
    }
  }

  /** What follows does not change a terminated first line. */
  lemma FirstOfMore(s: string, c: char)
    requires s != [] && s[Positions.FirstLine(s) - 1] == '\n'
    ensures var n, t := Positions.FirstLine(s), s + [c];
      Positions.FirstLine(t) == n && t[n - 1] == '\n' && t[..n] == s[..n] && t[n..] == s[n..] + [c]
  {
    var n, t := Positions.FirstLine(s), s + [c];
    assert t[n - 1] == '\n' && forall i :: 0 <= i < n - 1 ==> t[i] == s[i];
    FirstLineOf(t, n - 1);
  }

  lemma SnocOpen(s: string, c: char)
    requires forall i :: 0 <= i < |s| ==> s[i] != '\n'
    ensures OpenLine(s + [c]) == if c == '\n' then "" else s + [c]
    ensures Complete(s + [c]) == if c == '\n' then [StripCr(s)] else []
  {
    var t := s + [c];
    if c == '\n' {
      FirstLineOf(t, |s|);
      OneLine(t);
      assert t[..|t| - 1] == s;
    } else {
      OnlyLine(t);
    }
  }

  /** A text that is one terminated line. */
  lemma OneLine(t: string)
    requires t != [] && Positions.FirstLine(t) == |t| && t[|t| - 1] == '\n'
    ensures Complete(t) == [StripCr(t[..|t| - 1])] && OpenLine(t) == ""
  {
    BodyIsStripped(t);
    assert t[..|t|] == t && t[|t|..] == [];
    assert [Body(t)] + [] == [Body(t)];
  }

  lemma BodyIsStripped(t: string)
    requires t != [] && t[|t| - 1] == '\n'
    ensures Body(t) == StripCr(t[..|t| - 1])
  {
    var line := t[..|t| - 1];
    if |t| > 1 { assert line[|line| - 1] == t[|t| - 2] && line[..|line| - 1] == t[..|t| - 2]; }
  }

  lemma RingStep(b: Buffer, c: char)
    requires |b.lines| <= RING_LINES
    ensures c == '\n' ==> PushChar(b, c).lines == Newest(b.lines + [StripCr(b.partial)], RING_LINES)
  {}

  /** One character on a buffer that holds the newest lines of `lines` and the
      text `t`. */
  lemma PushedLine(b: Buffer, lines: seq<string>, t: string, c: char)
    requires b.lines == Newest(lines + Complete(t), RING_LINES) && b.partial == OpenLine(t)
    ensures PushChar(b, c).lines == Newest(lines + Complete(t + [c]), RING_LINES)
    ensures PushChar(b, c).partial == OpenLine(t + [c])
  {
    SnocChar(t, c);
    if c == '\n' {
      RingStep(b, c);
      NewestSnoc(lines + Complete(t), StripCr(OpenLine(t)), RING_LINES);
      Assoc(lines, Complete(t), [StripCr(OpenLine(t))]);
    }
  }

  /** The ring holds the newest thousand complete lines, CR stripped, of all text
      pushed; the open line is what follows the last newline. */
  lemma {:induction false} PushedLines(b: Buffer, s: string)
    requires |b.lines| <= RING_LINES && '\n' !in b.partial
    ensures PushChars(b, s).lines == Newest(b.lines + Complete(b.partial + s), RING_LINES)
    ensures PushChars(b, s).partial == OpenLine(b.partial + s)
  {
    if s == [] {
      assert b.partial + s == b.partial;
      OnlyLine(b.partial);
      assert b.lines + [] == b.lines;
    } else {
      var init, c := s[..|s| - 1], s[|s| - 1];
      PushedLines(b, init);
      assert b.partial + s == (b.partial + init) + [c];
      PushedLine(PushChars(b, init), b.lines, b.partial + init, c);
    }
  }

  // ------------------------------------------------------------ chunk boundaries

  lemma {:induction false} PushCharsConcat(b: Buffer, s: string, t: string)
    ensures PushChars(b, s + t) == PushChars(PushChars(b, s), t)
  {
    if t == [] {
      assert s + t == s;
    } else {
      var init := t[..|t| - 1];
      PushCharsConcat(b, s, init);
      assert (s + t)[..|s + t| - 1] == s + init && (s + t)[|s + t| - 1] == t[|t| - 1];
    }
  }

  /** Cutting a chunk where the scanner is in plain text and the open line is
      within its cap changes nothing, not even inside a CRLF. */
  lemma CutChangesNothing(b: Buffer, s: string, t: string)
    requires EndMode(Ground, s) == Ground
    requires ByteLen(PushChars(b, Scrub(s)).partial) <= MAX_OPEN_LINE
    ensures Pushed(Pushed(b, s), t) == Pushed(b, s + t)
  {
    ScrubConcat(Ground, s, t);
    PushCharsConcat(b, Scrub(s), Scrub(t));
    KeepsPoison(b, Scrub(s));
  }

  lemma {:induction false} KeepsPoison(b: Buffer, s: string)
    ensures PushChars(b, s).poisoned == b.poisoned
  {
    if s == [] {
    } else {
      KeepsPoison(b, s[..|s| - 1]);
    }
  }

  function PushAll(b: Buffer, chunks: seq<string>): Buffer
    decreases |chunks|
  {
    if chunks == [] then b else PushAll(Pushed(b, chunks[0]), chunks[1..])
  }

  /** Every chunk ends in plain text with the open line within its cap. */
  predicate CleanCuts(b: Buffer, chunks: seq<string>)
    decreases |chunks|
  {
    chunks == []
    || (EndMode(Ground, chunks[0]) == Ground
        && ByteLen(PushChars(b, Scrub(chunks[0])).partial) <= MAX_OPEN_LINE
        && CleanCuts(Pushed(b, chunks[0]), chunks[1..]))
  }

  /** The buffer does not depend on how the output was cut into chunks. */
  lemma {:induction false} ChunksDoNotMatter(b: Buffer, chunks: seq<string>)
    requires CleanCuts(b, chunks) && !b.poisoned && ByteLen(b.partial) <= MAX_OPEN_LINE
    ensures PushAll(b, chunks) == Pushed(b, Flatten(chunks))
    decreases |chunks|
  {
    if chunks == [] {
    } else {
      var first, rest := chunks[0], chunks[1..];
      KeepsPoison(b, Scrub(first));
      ChunksDoNotMatter(Pushed(b, first), rest);
      FlattenHead(chunks);
      CutChangesNothing(b, first, Flatten(rest));
    }
  }

  /** No escape sequence, and no open line ever above its cap. */
  predicate PlainText(b: Buffer, text: string) {
    (forall i :: 0 <= i < |text| ==> text[i] as int != 0x1B)
    && (forall k :: 0 <= k <= |text| ==> ByteLen(PushChars(b, Scrub(text[..k])).partial) <= MAX_OPEN_LINE)
  }

  lemma PlainHead(b: Buffer, s: string, t: string)
    requires PlainText(b, s + t) && !b.poisoned
    ensures EndMode(Ground, s) == Ground && Pushed(b, s) == PushChars(b, Scrub(s)) && !Pushed(b, s).poisoned
    ensures PlainText(Pushed(b, s), t)
  {
    forall i | 0 <= i < |s| ensures s[i] as int != 0x1B { assert s[i] == (s + t)[i]; }
    EscFreeIsClean(s);
    KeepsPoison(b, Scrub(s));
    assert (s + t)[..|s|] == s;
    forall i | 0 <= i < |t| ensures t[i] as int != 0x1B { assert t[i] == (s + t)[|s| + i]; }
    forall k | 0 <= k <= |t| ensures ByteLen(PushChars(Pushed(b, s), Scrub(t[..k])).partial) <= MAX_OPEN_LINE {
      assert (s + t)[..|s| + k] == s + t[..k];
      ScrubConcat(Ground, s, t[..k]);
      PushCharsConcat(b, Scrub(s), Scrub(t[..k]));
    }
  }

  lemma {:induction false} PlainTextCutsCleanly(b: Buffer, chunks: seq<string>)
    requires PlainText(b, Flatten(chunks)) && !b.poisoned
    ensures CleanCuts(b, chunks)
    decreases |chunks|
  {
    if chunks == [] {
    } else {
      FlattenHead(chunks);
      PlainHead(b, chunks[0], Flatten(chunks[1..]));
      assert Flatten(chunks)[..|chunks[0]|] == chunks[0];
      PlainTextCutsCleanly(Pushed(b, chunks[0]), chunks[1..]);
    }
  }

  /** Two ways of cutting the same plain text leave the same buffer. */
  lemma AnyTwoCuttingsAgree(b: Buffer, chunks: seq<string>, others: seq<string>)
    requires !b.poisoned && Flatten(chunks) == Flatten(others) && PlainText(b, Flatten(chunks))
    ensures PushAll(b, chunks) == PushAll(b, others)
  {
    assert Scrub(Flatten(chunks)[..0]) == "" && PushChars(b, "") == b;
    PlainTextCutsCleanly(b, chunks);
    PlainTextCutsCleanly(b, others);
    ChunksDoNotMatter(b, chunks);
    ChunksDoNotMatter(b, others);
  }

  // -------------------------------------------------------------------- counter

  /** The counter covers the lines kept, and the ring is within its size. */
  predicate Accounted(b: Buffer) {
    b.bytes >= Cost(b.lines) && |b.lines| <= RING_LINES
  }

  lemma {:induction false} CostConcat(a: seq<string>, b: seq<string>)
    ensures Cost(a + b) == Cost(a) + Cost(b)
  {
    if a == [] {
      NothingBeside(b);
    } else {
      CostConcat(a[1..], b);
      ConcatTail(a, b);
    }
  }

  lemma PushCharAccounts(b: Buffer, c: char)
    requires Accounted(b)
    ensures Accounted(PushChar(b, c))
    ensures c == '\n' ==>
      var dropped := (b.lines + [StripCr(b.partial)])[..if |b.lines| == RING_LINES then 1 else 0];
      b.bytes + ByteLen(b.partial) + 1 >= Cost(dropped)
  {
    var lines := b.lines + [StripCr(b.partial)];
    var drop := if |lines| > RING_LINES then |lines| - RING_LINES else 0;
    LineCost(b.partial);
    CostConcat(b.lines, [StripCr(b.partial)]);
    Rejoin(lines, drop);
    CostConcat(lines[..drop], lines[drop..]);
  }

  lemma LineCost(partial: string)
    ensures Cost([StripCr(partial)]) <= ByteLen(partial) + 1
  {
    var line := StripCr(partial);
    if line != partial {
      assert partial == line + ['\r'];
      ByteLenConcat(line, ['\r']);
    }
    assert [line][1..] == [];
  }

  lemma {:induction false} PushAccounts(b: Buffer, s: string)
    requires Accounted(b)
    ensures Accounted(PushChars(b, s))
  {
    if s == [] {
    } else {
      PushAccounts(b, s[..|s| - 1]);
      PushCharAccounts(PushChars(b, s[..|s| - 1]), s[|s| - 1]);
    }
  }

  datatype Op = Push(chunk: string) | Drain

  function Perform(b: Buffer, op: Op): Buffer {
    match op
    case Push(chunk) => Pushed(b, chunk)
    case Drain => Drained(b)
  }

  function PerformAll(b: Buffer, ops: seq<Op>): Buffer {
    if ops == [] then b else Perform(PerformAll(b, ops[..|ops| - 1]), ops[|ops| - 1])
  }

  /** In every run of pushes and drains the counter never goes below the bytes
      still kept (so no subtraction underflows) and at most a thousand lines are
      kept. */
  lemma {:induction false} RunsAreAccounted(ops: seq<Op>)
    ensures Accounted(PerformAll(Buffer([], "", 0, false), ops))
  {
    if ops == [] {
    } else {
      var b := PerformAll(Buffer([], "", 0, false), ops[..|ops| - 1]);
      RunsAreAccounted(ops[..|ops| - 1]);
      match ops[|ops| - 1]
      case Push(chunk) => PushAccounts(b, Scrub(chunk));
      case Drain =>
    }
  }

  // ---------------------------------------------------- what the drains return

  const EMPTY := Buffer([], "", 0, false)

  /** All scrubbed output of a run. */
  function Text(ops: seq<Op>): string {
    if ops == [] then ""
    else
      match ops[|ops| - 1]
      case Push(chunk) => Text(ops[..|ops| - 1]) + Scrub(chunk)
      case Drain => Text(ops[..|ops| - 1])
  }

  /** The lines completed since the last drain. */
  function Since(ops: seq<Op>): seq<string> {
    if ops == [] then []
    else
      var init := ops[..|ops| - 1];
      match ops[|ops| - 1]
      case Push(chunk) => Since(init) + Complete(OpenLine(Text(init)) + Scrub(chunk))
      case Drain => []
  }

  /** The open line stays within its cap after every push. */
  predicate WithinCap(ops: seq<Op>) {
    ops == [] || (WithinCap(ops[..|ops| - 1]) && ByteLen(OpenLine(Text(ops))) <= MAX_OPEN_LINE)
  }

  /** The complete lines the drains of a run hand out, one drain after another. */
  function Delivered(ops: seq<Op>): seq<string> {
    if ops == [] then []
    else
      var init := ops[..|ops| - 1];
      Delivered(init) + if ops[|ops| - 1].Drain? then PerformAll(EMPTY, init).lines else []
  }

  /** Never more than a thousand lines complete between two drains. */
  predicate NeverOverflows(ops: seq<Op>) {
    ops == [] || (NeverOverflows(ops[..|ops| - 1]) && |Since(ops)| <= RING_LINES)
  }

  lemma {:induction false} OpenHasNoNewline(s: string)
    ensures '\n' !in OpenLine(s)
    decreases |s|
  {
    var n := Positions.FirstLine(s);
    if s != [] && s[n - 1] == '\n' { OpenHasNoNewline(s[n..]); }
  }

  lemma {:induction false} CompleteConcat(a: string, s: string)
    ensures Complete(a + s) == Complete(a) + Complete(OpenLine(a) + s)
    ensures OpenLine(a + s) == OpenLine(OpenLine(a) + s)
    decreases |s|
  {
    var open := OpenLine(a);
    if s == [] {
      NothingBeside(a);
      NothingBeside(open);
      NothingBeside(Complete(a));
      OpenHasNoNewline(a);
      OnlyLine(open);
    } else {
      var init, c := s[..|s| - 1], s[|s| - 1];
      CompleteConcat(a, init);
      assert s == init + [c];
      Assoc(a, init, [c]);
      Assoc(open, init, [c]);
      SnocChar(a + init, c);
      SnocChar(open + init, c);
      if c == '\n' { Assoc(Complete(a), Complete(open + init), [StripCr(OpenLine(a + init))]); }
    }
  }

  /** The buffer after a run, in terms of the output alone. */
  lemma {:induction false} StateOfRun(ops: seq<Op>)
    requires WithinCap(ops)
    ensures var b := PerformAll(EMPTY, ops);
      !b.poisoned && b.partial == OpenLine(Text(ops)) && b.lines == Newest(Since(ops), RING_LINES)
  {
    if ops == [] {
      OnlyLine("");
    } else {
      var init := ops[..|ops| - 1];
      var b := PerformAll(EMPTY, init);
      StateOfRun(init);
      match ops[|ops| - 1]
      case Drain =>
      case Push(chunk) =>
        var s := Scrub(chunk);
        OpenHasNoNewline(Text(init));
        PushedLines(b, s);
        CompleteConcat(Text(init), s);
        NewestConcat(Since(init), Complete(b.partial + s), RING_LINES);
        KeepsPoison(b, s);
    }
  }

  /** What a drain returns: the newest thousand lines completed since the drain
      before it, and the open line, which every drain repeats until it completes. */
  lemma DrainReturns(ops: seq<Op>)
    requires WithinCap(ops)
    ensures var open := OpenLine(Text(ops));
      DrainedText(PerformAll(EMPTY, ops))
      == JoinWith('\n', Newest(Since(ops), 1000)) + (if open == "" then "" else "\n" + open)
  {
    StateOfRun(ops);
  }

  /** One more push, as lists of lines. */
  lemma PushDelivers(delivered: seq<string>, kept: seq<string>, since: seq<string>, all: seq<string>, more: seq<string>)
    requires kept == Newest(since, RING_LINES)
    requires |delivered + kept| <= |all| && (delivered + kept == all ==> |since| <= RING_LINES)
    ensures var kept' := Newest(since + more, RING_LINES);
      && |delivered + kept'| <= |all + more|
      && (delivered + kept' == all + more <==> delivered + kept == all && |since + more| <= RING_LINES)
  {
    var kept' := Newest(since + more, RING_LINES);
    if delivered + kept == all && |since + more| <= RING_LINES {
      Assoc(delivered, kept, more);
    }
    if delivered + kept' == all + more {
      if more == [] { assert since + more == since && all + more == all; }
      assert |since + more| <= RING_LINES;
      Assoc(delivered, kept, more);
      assert (delivered + kept) + more == all + more;
      assert ((delivered + kept) + more)[..|all|] == delivered + kept && (all + more)[..|all|] == all;
    }
  }

  /** The drains of a run, followed by what is still kept, give every complete
      line of the output exactly once and in order if and only if never more than a
      thousand lines complete between two drains. */
  lemma {:induction false} DrainsDeliver(ops: seq<Op>)
    requires WithinCap(ops)
    ensures var b := PerformAll(EMPTY, ops);
      && |Delivered(ops) + b.lines| <= |Complete(Text(ops))|
      && (Delivered(ops) + b.lines == Complete(Text(ops)) <==> NeverOverflows(ops))
      && (NeverOverflows(ops) ==> |Since(ops)| <= RING_LINES)
  {
    StateOfRun(ops);
    if ops == [] {
      OnlyLine("");
    } else {
      var init := ops[..|ops| - 1];
      var b := PerformAll(EMPTY, init);
      StateOfRun(init);
      DrainsDeliver(init);
      match ops[|ops| - 1]
      case Drain =>
        assert Delivered(ops) + [] == Delivered(ops);
      case Push(chunk) =>
        var more := Complete(OpenLine(Text(init)) + Scrub(chunk));
        CompleteConcat(Text(init), Scrub(chunk));
        assert Delivered(init) + [] == Delivered(init);
        PushDelivers(Delivered(init), b.lines, Since(init), Complete(Text(init)), more);
    }
  }

  // ---------------------------------------------------------------- poisoning

  /** A push poisons the buffer if and only if the open line exceeds its cap and no
      character boundary lies where it is to be cut. */
  lemma PoisonedIff(b: Buffer, chunk: string)
    requires !b.poisoned
    ensures var open := PushChars(b, Scrub(chunk)).partial;
      Pushed(b, chunk).poisoned <==>
        ByteLen(open) > MAX_OPEN_LINE
        && !exists k :: 0 <= k <= |open| && ByteLen(open[..k]) == ByteLen(open) - MAX_OPEN_LINE
  {
    var open := PushChars(b, Scrub(chunk)).partial;
    KeepsPoison(b, Scrub(chunk));
    if ByteLen(open) > MAX_OPEN_LINE {
      var cut := ByteLen(open) - MAX_OPEN_LINE;
      DropBytesAt(open, cut, 0);
      if k :| 0 <= k <= |open| && ByteLen(open[..k]) == cut { DropBytesAt(open, cut, k); }
    }
  }

  /** What a push leaves: the lines as completed, and an open line of more than 16 KiB
      cut down to its last 16 KiB, or left whole when that poisons the buffer. */
  lemma PushCaps(b: Buffer, chunk: string)
    requires !b.poisoned
    ensures var full, after := PushChars(b, Scrub(chunk)), Pushed(b, chunk);
      && after.lines == full.lines && after.bytes == full.bytes
      && (ByteLen(full.partial) <= 16_384 || after.poisoned ==> after.partial == full.partial)
      && (ByteLen(full.partial) > 16_384 && !after.poisoned ==>
            && |after.partial| <= |full.partial| && ByteLen(after.partial) == 16_384
            && after.partial == full.partial[|full.partial| - |after.partial|..])
  {
    var open := PushChars(b, Scrub(chunk)).partial;
    KeepsPoison(b, Scrub(chunk));
    if ByteLen(open) > MAX_OPEN_LINE {
      var cut := ByteLen(open) - MAX_OPEN_LINE;
      DropBytesAt(open, cut, 0);
      if DropBytes(open, cut).Some? {
        var k :| 0 <= k <= |open| && ByteLen(open[..k]) == cut;
        DropBytesAt(open, cut, k);
        Rejoin(open, k);
        ByteLenConcat(open[..k], open[k..]);
      }
    }
  }

  /** A poisoned buffer takes nothing and gives nothing. */
  lemma PoisonedIsMute(b: Buffer, chunk: string)
    requires b.poisoned
    ensures Pushed(b, chunk) == b && Drained(b) == b && DrainedText(b) == ""
  {}

  lemma {:induction false} ScrubMembers(m: Mode, s: string)
    requires Ascii(s)
    ensures Ascii(ScrubFrom(m, s))
    decreases |s|
  {
    if s == [] {
    } else {
      ScrubMembers(ModeAfter(m, s[0]), s[1..]);
    }
  }

  lemma {:induction false} PartialMembers(b: Buffer, s: string)
    requires Ascii(b.partial) && Ascii(s)
    ensures Ascii(PushChars(b, s).partial)
  {
    if s == [] {
    } else {
      PartialMembers(b, s[..|s| - 1]);
    }
  }

  /** ASCII output never poisons. */
  lemma AsciiNeverPoisons(b: Buffer, chunk: string)
    requires !b.poisoned && Ascii(b.partial) && Ascii(chunk)
    ensures !Pushed(b, chunk).poisoned && Ascii(Pushed(b, chunk).partial)
  {
    ScrubMembers(Ground, chunk);
    PartialMembers(b, Scrub(chunk));
    KeepsPoison(b, Scrub(chunk));
    var open := PushChars(b, Scrub(chunk)).partial;
    AsciiIff(open);
    if |open| > MAX_OPEN_LINE {
      var cut := |open| - MAX_OPEN_LINE;
      AsciiIff(open[..cut]);
      DropBytesAt(open, cut, cut);
    }
  }

  /** In no run of ASCII output is the buffer ever poisoned. */
  lemma {:induction false} AsciiRunsNeverPoison(ops: seq<Op>)
    requires forall i :: 0 <= i < |ops| && ops[i].Push? ==> Ascii(ops[i].chunk)
    ensures !PerformAll(EMPTY, ops).poisoned && Ascii(PerformAll(EMPTY, ops).partial)
  {
    if ops == [] {
    } else {
      AsciiRunsNeverPoison(ops[..|ops| - 1]);
      var last := ops[|ops| - 1];
      if last.Push? { AsciiNeverPoisons(PerformAll(EMPTY, ops[..|ops| - 1]), last.chunk); }
    }
  }

  lemma {:induction false} ScrubPlain(s: string)
    requires forall i :: 0 <= i < |s| ==> s[i] as int != 0x1B && !Bell(s[i])
    ensures Scrub(s) == s
  {
    if s == [] {
    } else {
      ScrubPlain(s[1..]);
      assert s == [s[0]] + s[1..];
    }
  }

  /** An accented letter and 16383 plain ones: the cut falls inside the accented
      one. */
  lemma AccentPoisons(letters: string)
    requires |letters| == MAX_OPEN_LINE - 1 && forall i :: 0 <= i < |letters| ==> 'a' <= letters[i] <= 'z'
    ensures Pushed(EMPTY, ['\U{E9}'] + letters).poisoned
  {
    var s := ['\U{E9}'] + letters;
    ScrubPlain(s);
    OnlyOpen(s);
    AsciiIff(letters);
    WideHead('\U{E9}', letters);
    PoisonedIff(EMPTY, s);
  }

  lemma OnlyOpen(s: string)
    requires '\n' !in s
    ensures PushChars(EMPTY, s).partial == s
  {
    OnlyLine(s);
    assert EMPTY.partial + s == s;
    PushedLines(EMPTY, s);
  }

  /** No character boundary lies one byte behind the start of a wide character. */
  lemma WideHead(c: char, rest: string)
    requires Len8(c) == 2
    ensures ByteLen([c] + rest) == 2 + ByteLen(rest)
    ensures forall k :: 0 <= k <= |[c] + rest| ==> ByteLen(([c] + rest)[..k]) != 1
  {
    var s := [c] + rest;
    assert s[1..] == rest;
    forall k | 0 <= k <= |s| ensures ByteLen(s[..k]) != 1 {
      if k > 0 { assert s[..k][0] == c; }
    }
  }

  /** Cutting a long open line keeps a suffix, and panics exactly when the cut
      falls inside a character. */
  lemma {:induction false} DropBytesAt(s: string, cut: nat, k: nat)
    requires k <= |s|
    ensures ByteLen(s[..k]) == cut ==> DropBytes(s, cut) == Some(s[k..])
    ensures DropBytes(s, cut).Some? ==> exists j :: 0 <= j <= |s| && ByteLen(s[..j]) == cut
  {
    if cut == 0 {
      assert ByteLen(s[..0]) == 0 && s[0..] == s;
      if k > 0 { assert s[..k][0] == s[0]; }
    } else if s != [] && cut >= Len8(s[0]) {
      DropBytesAt(s[1..], cut - Len8(s[0]), if k == 0 then 0 else k - 1);
      if k > 0 { assert s[..k][1..] == s[1..][..k - 1] && s[1..][k - 1..] == s[k..]; }
      if j :| 0 <= j <= |s| - 1 && ByteLen(s[1..][..j]) == cut - Len8(s[0]) {
        assert s[..j + 1][1..] == s[1..][..j];
        assert ByteLen(s[..j + 1]) == cut;
      }
    } else if k > 0 {
      assert s[..k][0] == s[0];
    }
  }
}
