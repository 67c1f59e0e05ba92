/**
 The output pump of a shell command, shell.rs:60-77 and 199-249: one stream is
 accumulated under a hard cap and sent live in batches.  Both streams run the
 same code.
 */
module ShellPump {
  import opened Seqs
  import opened Utf8

  const MAX_OUTPUT_BYTES: nat := 4 * 1024 * 1024
  const STREAM_FLUSH_BYTES: nat := 8 * 1024
  const MARKER := "\n…[synthhires: output truncated at 4 MiB]\n"

  /** The accumulated output, the drop flag, the unsent batch, whether the live
      stream has ended, and the chunks sent. */
  datatype Stream = Stream(buf: string, dropped: bool, pending: string, stopped: bool, sent: seq<string>)

  const FRESH := Stream("", false, "", false, [])

  /** How many characters of `data` are kept when only `space` bytes are left:
      the cut counts characters, not bytes. */
  function Cut(data: string, space: nat): (k: nat)
    ensures k <= |data|
  {
    if space < |data| then space else |data|
  }

  function PushCapped(buf: string, data: string, dropped: bool): (string, bool) {
    if ByteLen(buf) >= MAX_OUTPUT_BYTES then (buf, true)
    else if ByteLen(buf) + ByteLen(data) > MAX_OUTPUT_BYTES then
      (buf + data[..Cut(data, MAX_OUTPUT_BYTES - ByteLen(buf))] + MARKER, true)
    else (buf + data, dropped)
  }

  function Batch(pending: string): seq<string> {
    if pending == "" then [] else [pending]
  }

  /** One line of output. */
  function Feed(st: Stream, line: string): Stream {
    var data := line + "\n";
    var (buf, dropped) := PushCapped(st.buf, data, st.dropped);
    if dropped then
      if st.stopped then st.(buf := buf, dropped := true)
      else Stream(buf, true, "", true, st.sent + Batch(st.pending) + [MARKER])
    else if ByteLen(st.pending + data) >= STREAM_FLUSH_BYTES then
      Stream(buf, false, "", st.stopped, st.sent + [st.pending + data])
    else Stream(buf, false, st.pending + data, st.stopped, st.sent)
  }

  function FeedAll(st: Stream, lines: seq<string>): Stream {
    if lines == [] then st else Feed(FeedAll(st, lines[..|lines| - 1]), lines[|lines| - 1])
  }

  /** End of output: what is still batched goes out. */
  function Finish(st: Stream): Stream {
    st.(pending := "", sent := st.sent + Batch(st.pending))
  }

  // ------------------------------------------------- a receiver that goes away

  /** The line fills a batch when the receiver has already taken its last chunk. */
  predicate Halts(st: Stream, line: string, room: nat) {
    !Feed(st, line).dropped && ByteLen(st.pending + (line + "\n")) >= STREAM_FLUSH_BYTES && |st.sent| >= room
  }

  function Going(st: Stream, lines: seq<string>, room: nat): (flags: seq<bool>)
    ensures |flags| == |lines|
    ensures forall i :: 0 <= i < |lines| ==> flags[i] == !Halts(FeedAll(st, lines[..i]), lines[i], room)
  {
    seq(|lines|, i requires 0 <= i < |lines| => !Halts(FeedAll(st, lines[..i]), lines[i], room))
  }

  /** How many lines are read when the receiver takes only `room` chunks: a batch
      that cannot be sent ends the reading. */
  function LinesRead(st: Stream, lines: seq<string>, room: nat): (n: nat)
    ensures n <= |lines|
  {
    var k := Leading(Going(st, lines, room));
    if k < |lines| then k + 1 else k
  }

  /** What arrives of the chunks that are sent. */
  function Received(st: Stream, room: nat): Stream {
    st.(sent := Arrived(st.sent, room))
  }

  function Arrived(chunks: seq<string>, room: nat): seq<string> {
    if |chunks| <= room then chunks else chunks[..room]
  }

  lemma ArrivedSnoc(chunks: seq<string>, chunk: string, room: nat)
    ensures |Arrived(chunks, room)| < room <==> |chunks| < room
    ensures Arrived(chunks + [chunk], room)
         == if |chunks| < room then Arrived(chunks, room) + [chunk] else Arrived(chunks, room)
  {}

  class StreamPump {
    var buf: string
    var dropped: bool
    var pending: string
    var stopped: bool
    var sent: seq<string>

    constructor ()
      ensures State() == FRESH
    {
      buf, dropped, pending, stopped, sent := "", false, "", false, [];
    }

    function State(): Stream
      reads this
    {
      Stream(buf, dropped, pending, stopped, sent)
    }

    method Push(data: string)
      modifies this`buf, this`dropped
      ensures (buf, dropped) == PushCapped(old(buf), data, old(dropped))
    {
      if ByteLen(buf) >= MAX_OUTPUT_BYTES {
        dropped := true;
        return;
      }
      if ByteLen(buf) + ByteLen(data) > MAX_OUTPUT_BYTES {
        var space := MAX_OUTPUT_BYTES - ByteLen(buf);
        var cut := if space < |data| then space else |data|;
        buf := buf + data[..cut] + MARKER;
        dropped := true;
        return;
      }
      buf := buf + data;
    }

    /** Send one chunk to a receiver that takes `room` in all. */
    method Send(chunk: string, room: nat) returns (ok: bool)
      modifies this`sent
      ensures ok <==> |old(sent)| < room
      ensures sent == if ok then old(sent) + [chunk] else old(sent)
    {
      ok := |sent| < room;
      if ok { sent := sent + [chunk]; }
    }

    /** One line; false ends the reading. */
    method PumpLine(line: string, room: nat, ghost st: Stream) returns (more: bool)
      requires State() == Received(st, room)
      modifies this
      ensures State() == Received(Feed(st, line), room)
      ensures more <==> !Halts(st, line, room)
    {
      var data := line + "\n";
      Push(data);
      if dropped {
        if !stopped {
          ghost var before := st.sent + Batch(st.pending);
          NothingBeside(st.sent);
          if pending != "" {
            ArrivedSnoc(st.sent, pending, room);
            var _ := Send(pending, room);
            pending := "";
          }
          ArrivedSnoc(before, MARKER, room);
          var _ := Send(MARKER, room);
          stopped := true;
        }
        return true;
      }
      pending := pending + data;
      if ByteLen(pending) >= STREAM_FLUSH_BYTES {
        ArrivedSnoc(st.sent, pending, room);
        more := Send(pending, room);
        pending := "";
        return;
      }
      return true;
    }

    method SendRest(room: nat, ghost st: Stream)
      requires State() == Received(st, room)
      modifies this
      ensures State() == Received(Finish(st), room)
    {
      NothingBeside(st.sent);
      ArrivedSnoc(st.sent, pending, room);
      if pending != "" {
        var _ := Send(pending, room);
        pending := "";
      }
    }

    /** The whole pump, for a receiver that takes `room` chunks and goes away. */
    method Pump(lines: seq<string>, room: nat)
      requires |sent| <= room
      modifies this
      ensures State() ==
        Received(Finish(FeedAll(old(State()), lines[..LinesRead(old(State()), lines, room)])), room)
    {
      ghost var start := State();
      var i := 0;
      assert lines[..0] == [] && lines[..|lines|] == lines;
      while i < |lines|
        invariant i <= |lines| && i <= Leading(Going(start, lines, room))
        invariant State() == Received(FeedAll(start, lines[..i]), room)
      {
        GoingStep(start, lines, room, i);
        var more := PumpLine(lines[i], room, FeedAll(start, lines[..i]));
        if !more { return; }
        i := i + 1;
      }
      SendRest(room, FeedAll(start, lines));
    }
  }

  lemma GoingStep(st: Stream, lines: seq<string>, room: nat, i: nat)
    requires i < |lines| && i <= Leading(Going(st, lines, room))
    ensures var before := FeedAll(st, lines[..i]);
      && FeedAll(st, lines[..i + 1]) == Feed(before, lines[i])
      && (!Halts(before, lines[i], room) <==> i < Leading(Going(st, lines, room)))
      && (Halts(before, lines[i], room) ==>
            LinesRead(st, lines, room) == i + 1 && Finish(Feed(before, lines[i])) == Feed(before, lines[i]))
  {
    assert lines[..i + 1][..i] == lines[..i];
    assert Going(st, lines, room)[i] == !Halts(FeedAll(st, lines[..i]), lines[i], room);
    if Halts(FeedAll(st, lines[..i]), lines[i], room) { HaltedIsFlushed(FeedAll(st, lines[..i]), lines[i], room); }
  }

  /** Reading ends with nothing left in the batch. */
  lemma HaltedIsFlushed(st: Stream, line: string, room: nat)
    requires Halts(st, line, room)
    ensures Finish(Feed(st, line)) == Feed(st, line)
  {
    NothingBeside(Feed(st, line).sent);
  }


  // ---------------------------------------------------------------- agreement

  /** The command's output, line by line. */
  function Text(lines: seq<string>): string {
    if lines == [] then [] else Text(lines[..|lines| - 1]) + (lines[|lines| - 1] + "\n")
  }

  predicate FullChunks(chunks: seq<string>) {
    forall i :: 0 <= i < |chunks| ==> ByteLen(chunks[i]) >= STREAM_FLUSH_BYTES
  }

  /** Before the first drop: buffer, live stream and output are one text. */
  predicate Open(st: Stream, text: string) {
    && !st.dropped && !st.stopped
    && st.buf == text && Flatten(st.sent) + st.pending == text
    && FullChunks(st.sent) && ByteLen(st.pending) < STREAM_FLUSH_BYTES
    && ByteLen(text) <= MAX_OUTPUT_BYTES
  }

  /** A prefix of the output, or one followed by the marker. */
  predicate Kept(buf: string, text: string) {
    buf <= text || (|buf| >= |MARKER| && buf[|buf| - |MARKER|..] == MARKER && buf[..|buf| - |MARKER|] <= text)
  }

  /** After it: the buffer is full and, its marker aside, a prefix of the output;
      the live stream is a prefix of the output too, closed by one marker. */
  predicate Closed(st: Stream, text: string) {
    && st.dropped && st.stopped && st.pending == "" && ByteLen(text) > MAX_OUTPUT_BYTES
    && ByteLen(st.buf) >= MAX_OUTPUT_BYTES
    && Kept(st.buf, text)
    && st.sent != [] && st.sent[|st.sent| - 1] == MARKER
    && Flatten(st.sent[..|st.sent| - 1]) <= text
    && |st.sent| <= 513
  }

  lemma FlattenSnoc(chunks: seq<string>, c: string)
    ensures Flatten(chunks + [c]) == Flatten(chunks) + c
  {
    assert (chunks + [c])[..|chunks|] == chunks;
  }

  /** Full chunks are few. */
  lemma {:induction false} ChunkBytes(chunks: seq<string>)
    requires FullChunks(chunks)
    ensures ByteLen(Flatten(chunks)) >= |chunks| * STREAM_FLUSH_BYTES
  {
    if chunks == [] {
    } else {
      ChunkBytes(chunks[..|chunks| - 1]);
      ByteLenConcat(Flatten(chunks[..|chunks| - 1]), chunks[|chunks| - 1]);
    }
  }

  lemma {:induction false} ByteLenAtLeast(s: string)
    ensures |s| <= ByteLen(s) <= 4 * |s|
  {
    if s != [] { ByteLenAtLeast(s[1..]); }
  }

  lemma OpenIsShort(st: Stream, text: string)
    requires Open(st, text)
    ensures |st.sent + Batch(st.pending)| <= 512
  {
    ChunkBytes(st.sent);
    ByteLenConcat(Flatten(st.sent), st.pending);
    ByteLenAtLeast(st.pending);
  }

  lemma OpenStep(st: Stream, text: string, line: string)
    requires Open(st, text) && !Overflows(text, line + "\n")
    ensures Open(Feed(st, line), text + (line + "\n"))
  {
    var data := line + "\n";
    ByteLenConcat(text, data);
    Assoc(Flatten(st.sent), st.pending, data);
    Flushed(st.sent, st.pending + data);
  }

  /** Sending a batch moves it from the pending text to the chunks. */
  lemma Flushed(sent: seq<string>, batch: string)
    ensures Flatten(sent + [batch]) + "" == Flatten(sent) + batch
    ensures FullChunks(sent) && ByteLen(batch) >= STREAM_FLUSH_BYTES ==> FullChunks(sent + [batch])
  {
    FlattenSnoc(sent, batch);
    assert (Flatten(sent) + batch) + "" == Flatten(sent) + batch;
  }

  /** The cut leaves no room: the buffer is at the cap or beyond. */
  lemma CutFills(buf: string, data: string, marker: string)
    requires ByteLen(buf) < MAX_OUTPUT_BYTES < ByteLen(buf) + ByteLen(data)
    ensures ByteLen(buf + data[..Cut(data, MAX_OUTPUT_BYTES - ByteLen(buf))] + marker) >= MAX_OUTPUT_BYTES
  {
    var kept := data[..Cut(data, MAX_OUTPUT_BYTES - ByteLen(buf))];
    assert data[..|data|] == data;
    ByteLenAtLeast(kept);
    ByteLenConcat(buf, kept);
    ByteLenConcat(buf + kept, marker);
  }

  predicate Overflows(text: string, data: string) {
    ByteLen(text) == MAX_OUTPUT_BYTES || ByteLen(text) + ByteLen(data) > MAX_OUTPUT_BYTES
  }

  /** The buffer of a closing push. */
  lemma ClosingBuffer(text: string, data: string)
    requires ByteLen(text) <= MAX_OUTPUT_BYTES && Overflows(text, data)
    ensures var (buf, dropped) := PushCapped(text, data, false);
      && dropped && ByteLen(buf) >= MAX_OUTPUT_BYTES && Kept(buf, text + data)
  {
    if ByteLen(text) < MAX_OUTPUT_BYTES {
      CutFills(text, data, MARKER);
      var kept := text + data[..Cut(data, MAX_OUTPUT_BYTES - ByteLen(text))];
      DropTail(kept, MARKER);
      assert kept <= text + data;
    }
  }

  lemma DropTail(kept: string, tail: string)
    ensures (kept + tail)[|kept + tail| - |tail|..] == tail && (kept + tail)[..|kept + tail| - |tail|] == kept
  {}

  lemma ClosingStep(st: Stream, text: string, line: string)
    requires Open(st, text) && Overflows(text, line + "\n")
    ensures Closed(Feed(st, line), text + (line + "\n"))
  {
    var data, st' := line + "\n", Feed(st, line);
    ByteLenConcat(text, data);
    ByteLenAtLeast(data);
    ClosingBuffer(text, data);
    OpenIsShort(st, text);
    var all := st.sent + Batch(st.pending);
    assert st'.sent[..|st'.sent| - 1] == all;
    if st.pending != "" {
      FlattenSnoc(st.sent, st.pending);
    } else {
      assert all == st.sent && Flatten(st.sent) + "" == Flatten(st.sent);
    }
    assert Flatten(all) == text <= text + data;
  }

  lemma ClosedStep(st: Stream, text: string, line: string)
    requires Closed(st, text)
    ensures Closed(Feed(st, line), text + (line + "\n"))
    ensures Feed(st, line).sent == st.sent && Feed(st, line).buf == st.buf
  {
    ByteLenConcat(text, line + "\n");
    KeptGrows(st.buf, text, line + "\n");
    PrefixGrows(Flatten(st.sent[..|st.sent| - 1]), text, line + "\n");
  }

  lemma PrefixGrows(a: string, b: string, c: string)
    ensures a <= b ==> a <= b + c
  {}

  lemma KeptGrows(buf: string, text: string, data: string)
    requires Kept(buf, text)
    ensures Kept(buf, text + data)
  {
    PrefixGrows(buf, text, data);
    if |buf| >= |MARKER| { PrefixGrows(buf[..|buf| - |MARKER|], text, data); }
  }

  /** Over every output: one of the two pictures holds at every point. */
  lemma {:induction false} PumpAgrees(lines: seq<string>)
    ensures Open(FeedAll(FRESH, lines), Text(lines)) || Closed(FeedAll(FRESH, lines), Text(lines))
  {
    if lines == [] {
      assert Flatten([]) + "" == "";
    } else {
      var init, line := lines[..|lines| - 1], lines[|lines| - 1];
      PumpAgrees(init);
      var st, text := FeedAll(FRESH, init), Text(init);
      if Closed(st, text) {
        ClosedStep(st, text, line);
      } else if Overflows(text, line + "\n") {
        ClosingStep(st, text, line);
      } else {
        OpenStep(st, text, line);
      }
    }
  }

  /** One stream sends at most 513 chunks; undropped, they spell the buffer and
      the output. */
  lemma StreamIsBounded(lines: seq<string>)
    ensures var st := Finish(FeedAll(FRESH, lines));
      && |st.sent| <= 513
      && (st.dropped <==> ByteLen(Text(lines)) > 4_194_304)
      && (!st.dropped ==> Flatten(st.sent) == st.buf == Text(lines) && |st.sent| <= 512)
      && (st.dropped ==> Closed(st, Text(lines)))
  {
    var st := FeedAll(FRESH, lines);
    PumpAgrees(lines);
    if Open(st, Text(lines)) {
      OpenIsShort(st, Text(lines));
      FlattenSnoc(st.sent, st.pending);
      assert st.pending == "" ==> Flatten(st.sent) + "" == Flatten(st.sent);
      assert st.sent + [] == st.sent;
    } else {
      assert st.sent + [] == st.sent;
    }
  }

  /** The buffer when `data` is the first output that does not fit behind `text`. */
  function Cropped(text: string, data: string): string {
    var space := MAX_OUTPUT_BYTES - ByteLen(text);
    if space <= 0 then text else text + (if space < |data| then data[..space] else data) + MARKER
  }

  lemma FeedCrops(st: Stream, line: string)
    requires ByteLen(st.buf + (line + "\n")) > MAX_OUTPUT_BYTES
    ensures Feed(st, line).buf == Cropped(st.buf, line + "\n")
    ensures !st.stopped ==> Feed(st, line).sent == st.sent + Batch(st.pending) + [MARKER]
  {
    ByteLenConcat(st.buf, line + "\n");
    assert (line + "\n")[..|line + "\n"|] == line + "\n";
  }

  /** The chunks spell the text, and the marker closes them. */
  predicate ClosedBehind(sent: seq<string>, text: string) {
    sent != [] && sent[|sent| - 1] == MARKER && Flatten(sent[..|sent| - 1]) == text
  }

  lemma ClosingSends(st: Stream, text: string)
    requires Open(st, text)
    ensures ClosedBehind(st.sent + Batch(st.pending) + [MARKER], text)
  {
    var all := st.sent + Batch(st.pending);
    assert (all + [MARKER])[..|all|] == all;
    if st.pending != "" {
      FlattenSnoc(st.sent, st.pending);
    } else {
      NothingBeside(st.sent);
      NothingBeside(Flatten(st.sent));
    }
  }

  /** The first line that does not fit decides the buffer for good: the lines before
      it alone if they fill the cap exactly, else those, as many of its characters
      as there are bytes left, and the marker.  The live stream spells the lines
      before it and ends in the marker. */
  lemma {:induction false} FirstOverflowDecides(lines: seq<string>, k: nat)
    requires k < |lines| && ByteLen(Text(lines[..k])) <= MAX_OUTPUT_BYTES
    requires ByteLen(Text(lines[..k + 1])) > MAX_OUTPUT_BYTES
    ensures FeedAll(FRESH, lines).buf == Cropped(Text(lines[..k]), lines[k] + "\n")
    ensures ClosedBehind(FeedAll(FRESH, lines).sent, Text(lines[..k]))
    decreases |lines|
  {
    var init, last := lines[..|lines| - 1], lines[|lines| - 1];
    if k == |lines| - 1 {
      assert lines[..k + 1] == lines;
      LastOverflows(init, last);
    } else {
      assert init[..k] == lines[..k] && init[..k + 1] == lines[..k + 1];
      FirstOverflowDecides(init, k);
      LongerText(init, k + 1);
      BufferStays(init, last);
    }
  }

  lemma LastOverflows(lines: seq<string>, line: string)
    requires ByteLen(Text(lines)) <= MAX_OUTPUT_BYTES < ByteLen(Text(lines) + (line + "\n"))
    ensures Feed(FeedAll(FRESH, lines), line).buf == Cropped(Text(lines), line + "\n")
    ensures ClosedBehind(Feed(FeedAll(FRESH, lines), line).sent, Text(lines))
  {
    StreamOf(lines);
    FeedCrops(FeedAll(FRESH, lines), line);
    ClosingSends(FeedAll(FRESH, lines), Text(lines));
  }

  lemma BufferStays(lines: seq<string>, line: string)
    requires ByteLen(Text(lines)) > MAX_OUTPUT_BYTES
    ensures Feed(FeedAll(FRESH, lines), line).buf == FeedAll(FRESH, lines).buf
    ensures Feed(FeedAll(FRESH, lines), line).sent == FeedAll(FRESH, lines).sent
  {
    PumpAgrees(lines);
    ClosedStep(FeedAll(FRESH, lines), Text(lines), line);
  }

  lemma StreamOf(lines: seq<string>)
    requires ByteLen(Text(lines)) <= MAX_OUTPUT_BYTES
    ensures FeedAll(FRESH, lines).buf == Text(lines) && Open(FeedAll(FRESH, lines), Text(lines))
  {
    PumpAgrees(lines);
  }

  lemma {:induction false} LongerText(lines: seq<string>, k: nat)
    requires k <= |lines|
    ensures ByteLen(Text(lines[..k])) <= ByteLen(Text(lines))
  {
    if k == |lines| {
      assert lines[..k] == lines;
    } else {
      var init := lines[..|lines| - 1];
      LongerText(init, k);
      assert init[..k] == lines[..k];
      ByteLenConcat(Text(init), lines[|lines| - 1] + "\n");
    }
  }

  /** After `n` full lines: `n` chunks, nothing batched. */
  predicate Full(st: Stream, n: nat) {
    |st.sent| == n && st.pending == "" && !st.dropped && !st.stopped && ByteLen(st.buf) == n * STREAM_FLUSH_BYTES
  }

  lemma FullStep(st: Stream, n: nat, line: string)
    requires ByteLen(line + "\n") == STREAM_FLUSH_BYTES && n < 512 && Full(st, n)
    ensures Full(Feed(st, line), n + 1)
  {
    var data := line + "\n";
    ByteLenConcat(st.buf, data);
    assert "" + data == data;
    Undropped(st.buf, data);
  }

  lemma Undropped(buf: string, data: string)
    requires ByteLen(buf) < MAX_OUTPUT_BYTES && ByteLen(buf) + ByteLen(data) <= MAX_OUTPUT_BYTES
    ensures PushCapped(buf, data, false) == (buf + data, false)
  {}

  lemma {:induction false} FullLines(line: string, n: nat)
    requires ByteLen(line + "\n") == STREAM_FLUSH_BYTES && n <= 512
    ensures Full(FeedAll(FRESH, Repeat(line, n)), n)
  {
    if n == 0 {
    } else {
      FullLines(line, n - 1);
      var lines := Repeat(line, n);
      assert lines[..n - 1] == Repeat(line, n - 1) && lines[n - 1] == line;
      FullStep(FeedAll(FRESH, Repeat(line, n - 1)), n - 1, line);
    }
  }

  /** The bound is met: 513 lines of 8 KiB send 513 chunks. */
  lemma BoundIsTight(line: string)
    requires ByteLen(line + "\n") == STREAM_FLUSH_BYTES
    ensures |Finish(FeedAll(FRESH, Repeat(line, 513))).sent| == 513
  {
    FullLines(line, 512);
    var lines := Repeat(line, 513);
    assert lines[..512] == Repeat(line, 512) && lines[512] == line;
    var st := FeedAll(FRESH, Repeat(line, 512));
    assert Feed(st, line).sent == st.sent + [] + [MARKER];
  }

  /** A receiver that goes away has got a prefix of the whole stream. */
  lemma {:induction false} SentGrows(st: Stream, lines: seq<string>, n: nat)
    requires n <= |lines|
    ensures FeedAll(st, lines[..n]).sent <= FeedAll(st, lines).sent
  {
    if n == |lines| {
      assert lines[..n] == lines;
    } else {
      var init := lines[..|lines| - 1];
      SentGrows(st, init, n);
      assert init[..n] == lines[..n];
      FeedSends(FeedAll(st, init), lines[|lines| - 1]);
    }
  }

  lemma FeedSends(st: Stream, line: string)
    ensures st.sent <= Feed(st, line).sent
  {}

  lemma HaltedEarly(lines: seq<string>, room: nat)
    requires Leading(Going(FRESH, lines, room)) < |lines|
    ensures var st := FeedAll(FRESH, lines[..LinesRead(FRESH, lines, room)]);
      Finish(st) == st && |st.sent| > room && st.sent <= FeedAll(FRESH, lines).sent
  {
    var k := Leading(Going(FRESH, lines, room));
    GoingStep(FRESH, lines, room, k);
    HaltsAfter(FeedAll(FRESH, lines[..k]), lines[k], room);
    SentGrows(FRESH, lines, k + 1);
  }

  lemma CutPrefix(got: Stream, whole: seq<string>, room: nat)
    requires |got.sent| > room && got.sent <= whole
    ensures Received(got, room).sent <= whole && room < |whole|
  {}

  lemma FinishSends(st: Stream)
    ensures st.sent <= Finish(st).sent
  {}

  lemma PrefixOfPrefix(a: seq<string>, b: seq<string>, c: seq<string>)
    requires a <= b && b <= c
    ensures a <= c
  {}

  /** The chunks of the whole stream, and those a receiver of `room` chunks gets. */
  function Whole(lines: seq<string>): seq<string> {
    Finish(FeedAll(FRESH, lines)).sent
  }

  function Got(lines: seq<string>, room: nat): seq<string> {
    Received(Finish(FeedAll(FRESH, lines[..LinesRead(FRESH, lines, room)])), room).sent
  }

  lemma AtMost513(lines: seq<string>)
    ensures |Whole(lines)| <= 513
  {
    StreamIsBounded(lines);
  }

  lemma GoneEarly(lines: seq<string>, room: nat)
    requires Leading(Going(FRESH, lines, room)) < |lines|
    ensures Got(lines, room) <= Whole(lines) && room < |Whole(lines)|
  {
    var st := FeedAll(FRESH, lines[..LinesRead(FRESH, lines, room)]);
    var all := FeedAll(FRESH, lines);
    HaltedEarly(lines, room);
    FinishSends(all);
    PrefixOfPrefix(st.sent, all.sent, Finish(all).sent);
    CutPrefix(st, Finish(all).sent, room);
  }

  lemma GoneLate(lines: seq<string>, room: nat)
    requires Leading(Going(FRESH, lines, room)) == |lines|
    ensures LinesRead(FRESH, lines, room) == |lines| && Got(lines, room) == Arrived(Whole(lines), room)
  {
    assert lines[..|lines|] == lines;
  }

  /** Whatever the receiver takes before it goes away is a prefix of what it would
      have got, and one that takes 513 chunks misses nothing. */
  lemma GoneReceiverGotPrefix(lines: seq<string>, room: nat)
    ensures Got(lines, room) <= Whole(lines)
    ensures room >= 513 ==> LinesRead(FRESH, lines, room) == |lines| && Got(lines, room) == Whole(lines)
  {
    AtMost513(lines);
    if Leading(Going(FRESH, lines, room)) < |lines| {
      GoneEarly(lines, room);
    } else {
      GoneLate(lines, room);
    }
  }

  lemma HaltsAfter(st: Stream, line: string, room: nat)
    requires Halts(st, line, room)
    ensures |Feed(st, line).sent| > room
  {}

  // ------------------------------------------------------ the cap, in bytes

  /** Since the cut counts characters, what a truncating push keeps respects the
      byte cap exactly when the kept characters are single bytes and fill the
      space; otherwise it overshoots, by at most three bytes a character. */
  lemma CapIsExact(buf: string, data: string)
    requires ByteLen(buf) < MAX_OUTPUT_BYTES < ByteLen(buf) + ByteLen(data)
    ensures var space := MAX_OUTPUT_BYTES - ByteLen(buf);
      var kept := buf + data[..Cut(data, space)];
      && (ByteLen(kept) <= MAX_OUTPUT_BYTES <==> space <= |data| && Ascii(data[..space]))
      && ByteLen(kept) <= MAX_OUTPUT_BYTES + 3 * space
  {
    var space := MAX_OUTPUT_BYTES - ByteLen(buf);
    var head := data[..Cut(data, space)];
    assert data[..|data|] == data;
    AsciiIff(head);
    ByteLenAtLeast(head);
    ByteLenConcat(buf, head);
  }
}
