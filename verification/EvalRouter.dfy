/**
 The eval console router, eval_session.rs:115-327.  Frames of many sessions
 arrive on one pipe; a call reads the pipe until its own reply, keeps its own
 console frames and queues those of other live sessions.
 */
module EvalRouter {
  import opened Seqs
  import opened Wrappers
  import opened Utf8
  import opened Strings

  type Session = string

  datatype Channel = Stdout | Stderr

  /** One line of the runtime's protocol; `Noise` is anything unparsable or of an
      unknown type. */
  datatype Frame =
    | Console(channel: Channel, session: Option<Session>, id: Option<string>, data: Option<string>)
    | Reply(failed: bool, id: Option<string>, created: bool, payload: Option<string>)
    | Noise

  /** The value of a call, None for null, or its error. */
  datatype Answer = Success(result: Option<string>) | Failure(message: string)

  function AnswerOf(f: Frame): Answer
    requires f.Reply?
  {
    if f.failed then Failure(f.payload.GetOr("unknown eval error")) else Success(f.payload)
  }

  datatype Out = Out(stdout: string, stderr: string)

  const EMPTY := Out("", "")
  const MAX_CAPTURED: nat := 200_000
  const SESSION_TTL: nat := 600_000
  const CUT := "…\n"

  // --------------------------------------------------------- capped buffers

  predicate EndsCut(buf: string) {
    |buf| >= 2 && buf[|buf| - 2..] == CUT
  }

  function AppendCapped(buf: string, data: Option<string>): string {
    if data.None? then buf
    else if ByteLen(buf) < MAX_CAPTURED then buf + data.value + "\n"
    else if EndsCut(buf) then buf
    else buf + CUT
  }

  /** A console line as it reaches a session. */
  datatype Line = Line(channel: Channel, data: Option<string>)

  function Absorb(out: Out, l: Line): Out {
    if l.channel == Stdout then out.(stdout := AppendCapped(out.stdout, l.data))
    else out.(stderr := AppendCapped(out.stderr, l.data))
  }

  function AbsorbAll(out: Out, lines: seq<Line>): Out
    decreases |lines|
  {
    if lines == [] then out else AbsorbAll(Absorb(out, lines[0]), lines[1..])
  }

  // --------------------------------------------------------------- the engine

  datatype Engine = Engine(sessions: map<Session, nat>, pending: map<Session, Out>, pipe: seq<Frame>)

  /** One call: requested session, ids drawn, clock at start and end, whether the
      request could be written, and the frames that arrive before the deadline. */
  datatype Call = Call(session: Option<Session>, newSession: Session, request: string, now: nat, done: nat,
                       sent: bool, incoming: seq<Frame>)

  datatype Outcome =
    | Returned(answer: Answer, session: Session, created: bool, out: Out)
    | Killed
    | NotSent

  function Elapsed(now: nat, since: nat): nat { if now < since then 0 else now - since }

  function Expired(e: Engine, now: nat): set<Session> {
    set s | s in e.sessions && Elapsed(now, e.sessions[s]) > SESSION_TTL
  }

  function Reap(e: Engine, now: nat): Engine {
    Engine(e.sessions - Expired(e, now), e.pending - Expired(e, now), e.pipe)
  }

  function SessionOf(c: Call): Session {
    if c.session.Some? && Trim(c.session.value) != [] then c.session.value else c.newSession
  }

  function GetOut(pending: map<Session, Out>, s: Session): Out {
    if s in pending then pending[s] else EMPTY
  }

  predicate IsReply(f: Frame, request: string) {
    f.Reply? && f.id == Some(request)
  }

  predicate Mine(f: Frame, cur: Session, request: string) {
    f.Console? && (f.session == Some(cur) || (f.session.None? && f.id == Some(request)))
  }

  datatype Reading =
    | Exhausted
    | Answered(pending: map<Session, Out>, out: Out, rest: seq<Frame>, answer: Answer, created: bool)

  /** The frame loop. */
  function ReadLoop(live: set<Session>, pending: map<Session, Out>, out: Out, pipe: seq<Frame>, cur: Session,
                    request: string): Reading
    decreases |pipe|
  {
    if pipe == [] then Exhausted
    else
      var f := pipe[0];
      if IsReply(f, request) then Answered(pending, out, pipe[1..], AnswerOf(f), f.created)
      else if Mine(f, cur, request) then
        ReadLoop(live, pending, Absorb(out, Line(f.channel, f.data)), pipe[1..], cur, request)
      else if f.Console? && f.session.Some? && f.session.value in live then
        var s := f.session.value;
        ReadLoop(live, pending[s := Absorb(GetOut(pending, s), Line(f.channel, f.data))], out, pipe[1..], cur, request)
      else ReadLoop(live, pending, out, pipe[1..], cur, request)
  }

  /** One whole call; running out of frames is a dead or wedged runtime, which is
      killed with every session. */
  function Exec(e: Engine, c: Call): (Engine, Outcome) {
    var r := Reap(e, c.now);
    var cur := SessionOf(c);
    if !c.sent then (r, NotSent)
    else
      match ReadLoop(r.sessions.Keys, r.pending - {cur}, GetOut(r.pending, cur), r.pipe + c.incoming, cur, c.request)
      case Exhausted => (Engine(map[], map[], []), Killed)
      case Answered(pending, out, rest, answer, created) =>
        (Engine(r.sessions[cur := c.done], pending, rest), Returned(answer, cur, created, out))
  }

  class EvalEngine {
    var sessions: map<Session, nat>
    var pending: map<Session, Out>
    var pipe: seq<Frame>

    constructor ()
      ensures State() == Engine(map[], map[], [])
    {
      sessions, pending, pipe := map[], map[], [];
    }

    function State(): Engine
      reads this
    {
      Engine(sessions, pending, pipe)
    }

    /** One call, and the sessions the runtime is told to destroy. */
    method Call(c: Call) returns (r: Outcome, destroyed: set<Session>)
      modifies this
      ensures (State(), r) == Exec(old(State()), c)
      ensures destroyed == Expired(old(State()), c.now)
    {
      var expired := set s | s in sessions && Elapsed(c.now, sessions[s]) > SESSION_TTL;
      sessions := sessions - expired;
      pending := pending - expired;
      var cur := SessionOf(c);
      if !c.sent { return NotSent, expired; }
      pipe := pipe + c.incoming;
      var out := if cur in pending then pending[cur] else EMPTY;
      pending := pending - {cur};
      ghost var goal := ReadLoop(sessions.Keys, pending, out, pipe, cur, c.request);
      while pipe != []
        invariant sessions == Reap(old(State()), c.now).sessions
        invariant ReadLoop(sessions.Keys, pending, out, pipe, cur, c.request) == goal
        decreases |pipe|
      {
        var f := pipe[0];
        pipe := pipe[1..];
        match f {
          case Console(channel, session, id, data) =>
            if session == Some(cur) || (session == None && id == Some(c.request)) {
              out := Absorb(out, Line(channel, data));
            } else if session.Some? && session.value in sessions {
              var slot := if session.value in pending then pending[session.value] else EMPTY;
              pending := pending[session.value := Absorb(slot, Line(channel, data))];
            }
          case Reply(failed, id, created, payload) =>
            if id == Some(c.request) {
              sessions := sessions[cur := c.done];
              var answer := if failed then Failure(payload.GetOr("unknown eval error")) else Success(payload);
              return Returned(answer, cur, created, out), expired;
            }
          case Noise =>
        }
      }
      sessions, pending, pipe := map[], map[], [];
      return Killed, expired;
    }
  }

  // ------------------------------------------ what a call gives each session

  /** The frame is for `s`: its own tag, or for the caller an untagged frame
      with the caller's request id; frames of dead sessions are nobody's. */
  predicate Reaches(f: Frame, s: Session, live: set<Session>, cur: Session, request: string) {
    f.Console? && match f.session
      case Some(t) => t == s && (s == cur || s in live)
      case None => s == cur && f.id == Some(request)
  }

  /** The lines of `read` that are for `s`, in pipe order. */
  function Given(read: seq<Frame>, s: Session, live: set<Session>, cur: Session, request: string): seq<Line> {
    if read == [] then []
    else
      var later := Given(read[1..], s, live, cur, request);
      if Reaches(read[0], s, live, cur, request) then [Line(read[0].channel, read[0].data)] + later else later
  }

  /** Frames before the reply to `request`. */
  function UntilReply(pipe: seq<Frame>, request: string): (n: nat)
    ensures n <= |pipe|
    ensures n < |pipe| ==> IsReply(pipe[n], request)
    ensures forall i :: 0 <= i < n ==> !IsReply(pipe[i], request)
  {
    if pipe == [] || IsReply(pipe[0], request) then 0 else 1 + UntilReply(pipe[1..], request)
  }

  /** The loop, read as a whole: it stops at its reply, and the caller's buffer
      has absorbed exactly the lines given to the caller. */
  lemma {:induction false} LoopDelivers(live: set<Session>, pending: map<Session, Out>, out: Out, pipe: seq<Frame>,
                                        cur: Session, request: string)
    ensures var n := UntilReply(pipe, request);
      var r := ReadLoop(live, pending, out, pipe, cur, request);
      && (r.Answered? <==> n < |pipe|)
      && (n < |pipe| ==>
            && r.answer == AnswerOf(pipe[n]) && r.created == pipe[n].created && r.rest == pipe[n + 1..]
            && r.out == AbsorbAll(out, Given(pipe[..n], cur, live, cur, request)))
    decreases |pipe|
  {
    if pipe != [] && !IsReply(pipe[0], request) {
      var f, tail := pipe[0], pipe[1..];
      PrefixTail(pipe, UntilReply(pipe, request));
      if Mine(f, cur, request) {
        AbsorbFirst(out, Line(f.channel, f.data), Given(tail[..UntilReply(tail, request)], cur, live, cur, request));
        LoopDelivers(live, pending, Absorb(out, Line(f.channel, f.data)), tail, cur, request);
      } else if f.Console? && f.session.Some? && f.session.value in live {
        var s := f.session.value;
        LoopDelivers(live, pending[s := Absorb(GetOut(pending, s), Line(f.channel, f.data))], out, tail, cur, request);
      } else {
        LoopDelivers(live, pending, out, tail, cur, request);
      }
    }
  }

  /** Every other session's queue has absorbed exactly the lines given to it. */
  lemma {:induction false} LoopQueues(live: set<Session>, pending: map<Session, Out>, out: Out, pipe: seq<Frame>,
                                      cur: Session, request: string, s: Session)
    requires s != cur
    ensures var n := UntilReply(pipe, request);
      var r := ReadLoop(live, pending, out, pipe, cur, request);
      var lines := Given(pipe[..n], s, live, cur, request);
      n < |pipe| ==>
        && r.Answered?
        && GetOut(r.pending, s) == AbsorbAll(GetOut(pending, s), lines)
        && (s in r.pending <==> s in pending || lines != [])
        && (cur in r.pending <==> cur in pending)
    decreases |pipe|
  {
    LoopDelivers(live, pending, out, pipe, cur, request);
    if pipe != [] && !IsReply(pipe[0], request) {
      var f, tail := pipe[0], pipe[1..];
      PrefixTail(pipe, UntilReply(pipe, request));
      if Mine(f, cur, request) {
        LoopQueues(live, pending, Absorb(out, Line(f.channel, f.data)), tail, cur, request, s);
      } else if f.Console? && f.session.Some? && f.session.value in live {
        var t, l := f.session.value, Line(f.channel, f.data);
        AbsorbFirst(GetOut(pending, s), l, Given(tail[..UntilReply(tail, request)], s, live, cur, request));
        LoopQueues(live, pending[t := Absorb(GetOut(pending, t), l)], out, tail, cur, request, s);
      } else {
        LoopQueues(live, pending, out, tail, cur, request, s);
      }
    }
  }

  lemma PrefixTail(pipe: seq<Frame>, n: nat)
    requires 0 < n <= |pipe|
    ensures pipe[..n][1..] == pipe[1..][..n - 1] && pipe[..n][0] == pipe[0]
    ensures n < |pipe| ==> pipe[1..][n..] == pipe[n + 1..] && pipe[1..][n - 1] == pipe[n]
  {}

  lemma AbsorbFirst(out: Out, l: Line, rest: seq<Line>)
    ensures AbsorbAll(out, [l] + rest) == AbsorbAll(Absorb(out, l), rest)
  {
    assert ([l] + rest)[1..] == rest;
  }

  lemma {:induction false} AbsorbJoined(out: Out, a: seq<Line>, b: seq<Line>)
    ensures AbsorbAll(AbsorbAll(out, a), b) == AbsorbAll(out, a + b)
    decreases |a|
  {
    if a == [] {
      NothingBeside(b);
    } else {
      AbsorbJoined(Absorb(out, a[0]), a[1..], b);
      ConcatTail(a, b);
    }
  }

  // ---------------------------------------------- the mailbox each call refines

  /** One box of lines per session, instead of strings in two places. */
  datatype Mailbox = Mailbox(sessions: map<Session, nat>, boxes: map<Session, seq<Line>>, pipe: seq<Frame>)

  datatype Receipt = Handed(answer: Answer, session: Session, created: bool, lines: seq<Line>) | Lost | Unsent

  function Box(boxes: map<Session, seq<Line>>, s: Session): seq<Line> {
    if s in boxes then boxes[s] else []
  }

  function Stale(m: Mailbox, now: nat): set<Session> {
    set s | s in m.sessions && Elapsed(now, m.sessions[s]) > SESSION_TTL
  }

  function Freshened(m: Mailbox, now: nat): Mailbox {
    Mailbox(m.sessions - Stale(m, now), m.boxes - Stale(m, now), m.pipe)
  }

  /** What a call reads: up to its reply, or all there is. */
  function Read(m: Mailbox, c: Call): seq<Frame> {
    var pipe := m.pipe + c.incoming;
    pipe[..UntilReply(pipe, c.request)]
  }

  predicate Answers(m: Mailbox, c: Call) {
    var pipe := m.pipe + c.incoming;
    c.sent && UntilReply(pipe, c.request) < |pipe|
  }

  /** The lines a call gives to `s`. */
  function GivenBy(m: Mailbox, c: Call, s: Session): seq<Line> {
    if c.sent then Given(Read(m, c), s, Freshened(m, c.now).sessions.Keys, SessionOf(c), c.request) else []
  }

  /** Every given line goes into its session's box; the caller takes its whole
      box; a kill empties all boxes. */
  function Deliver(m: Mailbox, c: Call): (Mailbox, Receipt) {
    var r, cur, pipe := Freshened(m, c.now), SessionOf(c), m.pipe + c.incoming;
    if !c.sent then (r, Unsent)
    else if !Answers(m, c) then (Mailbox(map[], map[], []), Lost)
    else
      var n := UntilReply(pipe, c.request);
      var boxes := map s | s in r.boxes.Keys + r.sessions.Keys && s != cur && Box(r.boxes, s) + GivenBy(m, c, s) != []
                       :: Box(r.boxes, s) + GivenBy(m, c, s);
      (Mailbox(r.sessions[cur := c.done], boxes, pipe[n + 1..]),
       Handed(AnswerOf(pipe[n]), cur, pipe[n].created, Box(r.boxes, cur) + GivenBy(m, c, cur)))
  }

  /** Queues exist only for live sessions and hold exactly their boxes. */
  ghost predicate Agrees(e: Engine, m: Mailbox) {
    && e.sessions == m.sessions && e.pipe == m.pipe
    && e.pending.Keys == m.boxes.Keys && e.pending.Keys <= e.sessions.Keys
    && forall s :: s in e.pending ==> m.boxes[s] != [] && e.pending[s] == AbsorbAll(EMPTY, m.boxes[s])
  }

  predicate Matches(o: Outcome, r: Receipt) {
    match r
    case Lost => o == Killed
    case Unsent => o == NotSent
    case Handed(answer, session, created, lines) => o == Returned(answer, session, created, AbsorbAll(EMPTY, lines))
  }

  lemma {:induction false} DeadGetNothing(read: seq<Frame>, s: Session, live: set<Session>, cur: Session,
                                          request: string)
    requires s != cur && s !in live
    ensures Given(read, s, live, cur, request) == []
  {
    if read == [] {
    } else {
      DeadGetNothing(read[1..], s, live, cur, request);
    }
  }

  lemma BoxedOut(e: Engine, m: Mailbox, s: Session, now: nat)
    requires Agrees(e, m)
    ensures Agrees(Reap(e, now), Freshened(m, now))
    ensures GetOut(Reap(e, now).pending, s) == AbsorbAll(EMPTY, Box(Freshened(m, now).boxes, s))
  {
    assert Expired(e, now) == Stale(m, now);
  }

  /** The engine's strings refine the mailbox, call by call: the caller is handed
      exactly its own outstanding lines, and no others. */
  lemma CallRefines(e: Engine, m: Mailbox, c: Call)
    requires Agrees(e, m)
    ensures Agrees(Exec(e, c).0, Deliver(m, c).0)
    ensures Matches(Exec(e, c).1, Deliver(m, c).1)
  {
    var r, f, cur := Reap(e, c.now), Freshened(m, c.now), SessionOf(c);
    BoxedOut(e, m, cur, c.now);
    if c.sent {
      var pipe := e.pipe + c.incoming;
      LoopDelivers(r.sessions.Keys, r.pending - {cur}, GetOut(r.pending, cur), pipe, cur, c.request);
      AbsorbJoined(EMPTY, Box(f.boxes, cur), GivenBy(m, c, cur));
      if Answers(m, c) {
        var e', m' := Exec(e, c).0, Deliver(m, c).0;
        forall s ensures s in e'.pending <==> s in m'.boxes
          ensures s in e'.pending ==> s in e'.sessions && e'.pending[s] == AbsorbAll(EMPTY, m'.boxes[s])
        {
          if s != cur { QueueRefines(e, m, c, s); } else { OwnQueueIsTaken(e, m, c); }
        }
      }
    }
  }

  /** The caller's own queue is gone. */
  lemma OwnQueueIsTaken(e: Engine, m: Mailbox, c: Call)
    requires Agrees(e, m) && Answers(m, c)
    ensures SessionOf(c) !in Exec(e, c).0.pending && SessionOf(c) !in Deliver(m, c).0.boxes
  {
    var r, cur, pipe := Reap(e, c.now), SessionOf(c), e.pipe + c.incoming;
    LoopQueues(r.sessions.Keys, r.pending - {cur}, GetOut(r.pending, cur), pipe, cur, c.request, cur + "x");
  }

  lemma QueueRefines(e: Engine, m: Mailbox, c: Call, s: Session)
    requires Agrees(e, m) && Answers(m, c) && s != SessionOf(c)
    ensures var e', m' := Exec(e, c).0, Deliver(m, c).0;
      && (s in e'.pending <==> s in m'.boxes)
      && (s in e'.pending ==> s in e'.sessions && e'.pending[s] == AbsorbAll(EMPTY, m'.boxes[s]))
  {
    var r, f, cur := Reap(e, c.now), Freshened(m, c.now), SessionOf(c);
    var pipe := e.pipe + c.incoming;
    BoxedOut(e, m, s, c.now);
    LoopDelivers(r.sessions.Keys, r.pending - {cur}, GetOut(r.pending, cur), pipe, cur, c.request);
    LoopQueues(r.sessions.Keys, r.pending - {cur}, GetOut(r.pending, cur), pipe, cur, c.request, s);
    AbsorbJoined(EMPTY, Box(f.boxes, s), GivenBy(m, c, s));
    if s !in f.sessions { DeadGetNothing(Read(m, c), s, f.sessions.Keys, cur, c.request); }
  }

  // ------------------------------------------------- conservation over runs

  function Play(m: Mailbox, calls: seq<Call>): Mailbox
    decreases |calls|
  {
    if calls == [] then m else Play(Deliver(m, calls[0]).0, calls[1..])
  }

  /** Lines of `s` that a call hands to `s`. */
  function HandedBy(m: Mailbox, c: Call, s: Session): seq<Line> {
    var r := Deliver(m, c).1;
    if r.Handed? && r.session == s then r.lines else []
  }

  /** Lines of `s` that a call discards: its box when the session is reaped, then
      everything when the runtime is killed. */
  function DiscardedBy(m: Mailbox, c: Call, s: Session): seq<Line> {
    (if s in Stale(m, c.now) then Box(m.boxes, s) else [])
    + (if Deliver(m, c).1.Lost? then Box(Freshened(m, c.now).boxes, s) + GivenBy(m, c, s) else [])
  }

  function AllGiven(m: Mailbox, calls: seq<Call>, s: Session): seq<Line>
    decreases |calls|
  {
    if calls == [] then [] else GivenBy(m, calls[0], s) + AllGiven(Deliver(m, calls[0]).0, calls[1..], s)
  }

  /** Everything that left the box of `s`, discarded or handed over, in order. */
  function AllTaken(m: Mailbox, calls: seq<Call>, s: Session): seq<Line>
    decreases |calls|
  {
    if calls == [] then []
    else DiscardedBy(m, calls[0], s) + HandedBy(m, calls[0], s) + AllTaken(Deliver(m, calls[0]).0, calls[1..], s)
  }

  function AllHanded(m: Mailbox, calls: seq<Call>, s: Session): seq<Line>
    decreases |calls|
  {
    if calls == [] then [] else HandedBy(m, calls[0], s) + AllHanded(Deliver(m, calls[0]).0, calls[1..], s)
  }

  predicate NothingDiscarded(m: Mailbox, calls: seq<Call>, s: Session)
    decreases |calls|
  {
    calls == [] || (DiscardedBy(m, calls[0], s) == [] && NothingDiscarded(Deliver(m, calls[0]).0, calls[1..], s))
  }

  ghost predicate LiveBoxes(m: Mailbox) {
    m.boxes.Keys <= m.sessions.Keys
  }

  lemma CallConserves(m: Mailbox, c: Call, s: Session)
    requires LiveBoxes(m)
    ensures LiveBoxes(Deliver(m, c).0)
    ensures Box(m.boxes, s) + GivenBy(m, c, s)
         == DiscardedBy(m, c, s) + HandedBy(m, c, s) + Box(Deliver(m, c).0.boxes, s)
  {
    var f, cur := Freshened(m, c.now), SessionOf(c);
    StaleOrKept(m, c.now, s);
    if Answers(m, c) {
      if s != cur && s !in f.sessions { DeadGetNothing(Read(m, c), s, f.sessions.Keys, cur, c.request); }
      AnsweredBox(m, c, s);
    }
    Both(Box(m.boxes, s), Box(f.boxes, s), GivenBy(m, c, s));
  }

  lemma StaleOrKept(m: Mailbox, now: nat, s: Session)
    ensures Box(Freshened(m, now).boxes, s) == if s in Stale(m, now) then [] else Box(m.boxes, s)
  {}

  lemma Both(box: seq<Line>, left: seq<Line>, given: seq<Line>)
    ensures [] + box == box && box + [] == box && given + [] == given && [] + given == given
    ensures (left + given) + [] == left + given && [] + (left + given) == left + given
    ensures left == [] ==> left + given == given
    ensures box + [] + given == box + given
  {}

  /** The box of `s` after an answered call. */
  lemma AnsweredBox(m: Mailbox, c: Call, s: Session)
    requires LiveBoxes(m) && Answers(m, c)
    requires s != SessionOf(c) && s !in Freshened(m, c.now).sessions ==> GivenBy(m, c, s) == []
    ensures Box(Deliver(m, c).0.boxes, s)
         == if s == SessionOf(c) then [] else Box(Freshened(m, c.now).boxes, s) + GivenBy(m, c, s)
  {}

  /** Over every run, whatever is killed or reaped: the lines given to a session
      leave its box exactly once and in order, or are still in it. */
  lemma {:induction false} RunConserves(m: Mailbox, calls: seq<Call>, s: Session)
    requires LiveBoxes(m)
    ensures Box(m.boxes, s) + AllGiven(m, calls, s) == AllTaken(m, calls, s) + Box(Play(m, calls).boxes, s)
    decreases |calls|
  {
    if calls == [] {
    } else {
      var c, rest, m' := calls[0], calls[1..], Deliver(m, calls[0]).0;
      CallConserves(m, c, s);
      RunConserves(m', rest, s);
      var taken := DiscardedBy(m, c, s) + HandedBy(m, c, s);
      Assoc(Box(m.boxes, s), GivenBy(m, c, s), AllGiven(m', rest, s));
      Assoc(taken, Box(m'.boxes, s), AllGiven(m', rest, s));
      Assoc(taken, AllTaken(m', rest, s), Box(Play(m', rest).boxes, s));
    }
  }

  lemma {:induction false} UndiscardedIsHanded(m: Mailbox, calls: seq<Call>, s: Session)
    requires NothingDiscarded(m, calls, s)
    ensures AllTaken(m, calls, s) == AllHanded(m, calls, s)
    decreases |calls|
  {
    if calls == [] {
    } else {
      UndiscardedIsHanded(Deliver(m, calls[0]).0, calls[1..], s);
      NothingBeside(HandedBy(m, calls[0], s));
    }
  }

  // ------------------------------------------------- back to stdout and stderr

  /** The text of the lines of one channel, uncapped. */
  function Plain(lines: seq<Line>, ch: Channel): string {
    if lines == [] then []
    else
      var l := lines[0];
      (if l.channel == ch && l.data.Some? then l.data.value + "\n" else []) + Plain(lines[1..], ch)
  }

  function TextOf(out: Out, ch: Channel): string {
    if ch == Stdout then out.stdout else out.stderr
  }

  lemma {:induction false} PlainConcat(a: seq<Line>, b: seq<Line>, ch: Channel)
    ensures Plain(a + b, ch) == Plain(a, ch) + Plain(b, ch)
  {
    if a == [] {
      NothingBeside(b);
    } else {
      PlainConcat(a[1..], b, ch);
      ConcatTail(a, b);
      var l := a[0];
      Assoc(if l.channel == ch && l.data.Some? then l.data.value + "\n" else [], Plain(a[1..], ch), Plain(b, ch));
    }
  }

  predicate Feeds(l: Line, ch: Channel) {
    l.channel == ch && l.data.Some?
  }

  /** Whenever one of these lines reaches the buffer that starts out as `before`,
      the buffer is still below its cap; only the last line may exceed it. */
  predicate HasRoom(before: string, lines: seq<Line>, ch: Channel)
    decreases |lines|
  {
    lines == []
    || ((Feeds(lines[0], ch) ==> ByteLen(before) < 200_000)
        && HasRoom(if Feeds(lines[0], ch) then before + (lines[0].data.value + "\n") else before, lines[1..], ch))
  }

  /** While the cap is not reached a buffer is the plain text of its lines. */
  lemma {:induction false} UncappedIsPlain(out: Out, lines: seq<Line>, ch: Channel)
    requires HasRoom(TextOf(out, ch), lines, ch)
    ensures TextOf(AbsorbAll(out, lines), ch) == TextOf(out, ch) + Plain(lines, ch)
    decreases |lines|
  {
    var t := TextOf(out, ch);
    if lines == [] {
      assert t + [] == t;
    } else {
      var l, tail := lines[0], Plain(lines[1..], ch);
      if Feeds(l, ch) {
        Assoc(t, l.data.value + "\n", tail);
        Assoc(t, l.data.value, "\n");
      } else {
        assert [] + tail == tail;
      }
      UncappedIsPlain(Absorb(out, l), lines[1..], ch);
    }
  }

  /** A buffer at its cap that ends in the ellipsis no longer changes. */
  lemma {:induction false} Saturated(out: Out, lines: seq<Line>, ch: Channel)
    requires ByteLen(TextOf(out, ch)) >= MAX_CAPTURED && EndsCut(TextOf(out, ch))
    ensures TextOf(AbsorbAll(out, lines), ch) == TextOf(out, ch)
    decreases |lines|
  {
    if lines == [] {
    } else {
      Saturated(Absorb(out, lines[0]), lines[1..], ch);
    }
  }

  /** Once the cap is reached a buffer is the plain text of the lines before it,
      closed by one ellipsis: the lines that found room, and nothing of the first
      that did not. */
  lemma {:induction false} CappedIsPrefix(out: Out, lines: seq<Line>, ch: Channel, k: nat)
    requires k < |lines| && HasRoom(TextOf(out, ch), lines[..k], ch)
    requires Feeds(lines[k], ch) && ByteLen(TextOf(out, ch) + Plain(lines[..k], ch)) >= 200_000
    ensures var kept := TextOf(out, ch) + Plain(lines[..k], ch);
      TextOf(AbsorbAll(out, lines), ch) == if EndsCut(kept) then kept else kept + CUT
  {
    var full := AbsorbAll(out, lines[..k]);
    UncappedIsPlain(out, lines[..k], ch);
    AbsorbInThree(out, lines, k);
    FirstCut(full, lines[k], ch);
    Saturated(Absorb(full, lines[k]), lines[k + 1..], ch);
  }

  lemma AbsorbInThree(out: Out, lines: seq<Line>, k: nat)
    requires k < |lines|
    ensures AbsorbAll(out, lines) == AbsorbAll(Absorb(AbsorbAll(out, lines[..k]), lines[k]), lines[k + 1..])
  {
    var before, after := lines[..k], lines[k + 1..];
    assert lines == before + ([lines[k]] + after);
    AbsorbJoined(out, before, [lines[k]] + after);
    AbsorbFirst(AbsorbAll(out, before), lines[k], after);
  }

  /** A line that finds a full buffer leaves the ellipsis, once. */
  lemma FirstCut(out: Out, l: Line, ch: Channel)
    requires Feeds(l, ch) && ByteLen(TextOf(out, ch)) >= MAX_CAPTURED
    ensures var text, cut := TextOf(out, ch), TextOf(Absorb(out, l), ch);
      cut == (if EndsCut(text) then text else text + CUT) && ByteLen(cut) >= MAX_CAPTURED && EndsCut(cut)
  {
    var text := TextOf(out, ch);
    ByteLenConcat(text, CUT);
    DropHead(text, CUT);
  }

  function EngineAfter(e: Engine, calls: seq<Call>): Engine
    decreases |calls|
  {
    if calls == [] then e else EngineAfter(Exec(e, calls[0]).0, calls[1..])
  }

  /** What the calls of a run return to `s` on one channel, end to end. */
  function ReturnedText(e: Engine, calls: seq<Call>, s: Session, ch: Channel): string
    decreases |calls|
  {
    if calls == [] then []
    else
      var (e', o) := Exec(e, calls[0]);
      (if o.Returned? && o.session == s then TextOf(o.out, ch) else []) + ReturnedText(e', calls[1..], s, ch)
  }

  lemma HandedText(e: Engine, m: Mailbox, c: Call, s: Session, ch: Channel)
    requires Agrees(e, m) && HasRoom("", HandedBy(m, c, s), ch)
    ensures var o := Exec(e, c).1;
      (if o.Returned? && o.session == s then TextOf(o.out, ch) else []) == Plain(HandedBy(m, c, s), ch)
  {
    CallRefines(e, m, c);
    var lines := HandedBy(m, c, s);
    assert [] + Plain(lines, ch) == Plain(lines, ch);
    UncappedIsPlain(EMPTY, lines, ch);
  }

  /** No buffer of the run reaches its cap: each call's own, and the one still
      queued at the end, taken by itself. */
  predicate BuffersHaveRoom(m: Mailbox, calls: seq<Call>, s: Session, ch: Channel)
    decreases |calls|
  {
    if calls == [] then HasRoom("", Box(m.boxes, s), ch)
    else HasRoom("", HandedBy(m, calls[0], s), ch) && BuffersHaveRoom(Deliver(m, calls[0]).0, calls[1..], s, ch)
  }

  lemma {:induction false} ReturnedIsHanded(e: Engine, m: Mailbox, calls: seq<Call>, s: Session, ch: Channel)
    requires Agrees(e, m) && BuffersHaveRoom(m, calls, s, ch)
    ensures ReturnedText(e, calls, s, ch) == Plain(AllHanded(m, calls, s), ch)
    ensures Agrees(EngineAfter(e, calls), Play(m, calls))
    ensures HasRoom("", Box(Play(m, calls).boxes, s), ch)
    decreases |calls|
  {
    if calls == [] {
    } else {
      var c, rest := calls[0], calls[1..];
      var e', m' := Exec(e, c).0, Deliver(m, c).0;
      PlainConcat(HandedBy(m, c, s), AllHanded(m', rest, s), ch);
      CallRefines(e, m, c);
      HandedText(e, m, c, s, ch);
      ReturnedIsHanded(e', m', rest, s, ch);
    }
  }

  /** From a fresh engine, with nothing discarded and no buffer at its cap, however
      much the run prints in all: what the calls returned to a session, followed by
      what is still queued for it, is exactly the text of every console line read
      for it, in order. */
  lemma ConsoleIsConserved(calls: seq<Call>, s: Session, ch: Channel)
    requires var m := Mailbox(map[], map[], []);
      NothingDiscarded(m, calls, s) && BuffersHaveRoom(m, calls, s, ch)
    ensures var e, m := Engine(map[], map[], []), Mailbox(map[], map[], []);
      ReturnedText(e, calls, s, ch) + TextOf(GetOut(EngineAfter(e, calls).pending, s), ch)
      == Plain(AllGiven(m, calls, s), ch)
  {
    var e, m := Engine(map[], map[], []), Mailbox(map[], map[], []);
    var left := Box(Play(m, calls).boxes, s);
    GivenIsHandedOrLeft(m, calls, s);
    PlainConcat(AllHanded(m, calls, s), left, ch);
    ReturnedIsHanded(e, m, calls, s, ch);
    QueuedText(EngineAfter(e, calls), Play(m, calls), s, ch);
  }

  lemma GivenIsHandedOrLeft(m: Mailbox, calls: seq<Call>, s: Session)
    requires LiveBoxes(m) && s !in m.boxes && NothingDiscarded(m, calls, s)
    ensures AllGiven(m, calls, s) == AllHanded(m, calls, s) + Box(Play(m, calls).boxes, s)
  {
    RunConserves(m, calls, s);
    UndiscardedIsHanded(m, calls, s);
    NothingBeside(AllGiven(m, calls, s));
  }

  lemma QueuedText(e: Engine, m: Mailbox, s: Session, ch: Channel)
    requires Agrees(e, m) && HasRoom("", Box(m.boxes, s), ch)
    ensures TextOf(GetOut(e.pending, s), ch) == Plain(Box(m.boxes, s), ch)
  {
    var left := Box(m.boxes, s);
    assert [] + Plain(left, ch) == Plain(left, ch);
    UncappedIsPlain(EMPTY, left, ch);
  }
}
