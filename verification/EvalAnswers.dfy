/**
 What a caller of the eval engine is told, eval_session.rs:118-286, on the fields
 of the frames that arrive.
 */
module EvalAnswers {
  import opened Seqs
  import opened Wrappers
  import opened Strings
  import opened EvalRouter

  /** Frame `n` of the pipe is the first reply that carries the call's request id. */
  predicate FirstReply(pipe: seq<Frame>, request: string, n: nat) {
    && n < |pipe| && pipe[n].Reply? && pipe[n].id == Some(request)
    && forall i :: 0 <= i < n && pipe[i].Reply? ==> pipe[i].id != Some(request)
  }

  lemma FirstReplyIs(pipe: seq<Frame>, request: string, n: nat)
    requires FirstReply(pipe, request, n)
    ensures UntilReply(pipe, request) == n
  {}

  /** A call names its session, by more than white space. */
  predicate NamesSession(c: Call) {
    c.session.Some? && exists i :: 0 <= i < |c.session.value| && !Whitespace(c.session.value[i])
  }

  lemma SessionIs(c: Call)
    ensures NamesSession(c) ==> SessionOf(c) == c.session.value
    ensures !NamesSession(c) ==> SessionOf(c) == c.newSession
  {
    if c.session.Some? { BlankIff(c.session.value); }
  }

  /** Sessions idle for more than ten minutes are reaped, and only those. */
  lemma ReapedIff(e: Engine, now: nat, s: Session)
    ensures s in Expired(e, now) <==> s in e.sessions && e.sessions[s] + 600_000 < now
    ensures s in Reap(e, now).sessions <==> s in e.sessions && now <= e.sessions[s] + 600_000
    ensures s in Reap(e, now).sessions ==> Reap(e, now).sessions[s] == e.sessions[s]
    ensures s in Reap(e, now).pending <==> s in e.pending && (s in e.sessions ==> now <= e.sessions[s] + 600_000)
    ensures s in Reap(e, now).pending ==> Reap(e, now).pending[s] == e.pending[s]
  {}

  /** The session a call runs in. */
  function OwnSession(c: Call): Session {
    if NamesSession(c) then c.session.value else c.newSession
  }

  /** The first own reply decides: `done` gives its value and `error` its message, for
      the session asked for or, without one, a new one; frames behind it stay. */
  lemma CallAnswers(e: Engine, c: Call, n: nat)
    requires c.sent && FirstReply(e.pipe + c.incoming, c.request, n)
    ensures var reply, o, after := (e.pipe + c.incoming)[n], Exec(e, c).1, Exec(e, c).0;
      && o.Returned? && o.created == reply.created
      && (!reply.failed ==> o.answer == Success(reply.payload))
      && (reply.failed && reply.payload.Some? ==> o.answer == Failure(reply.payload.value))
      && (reply.failed && reply.payload.None? ==> o.answer == Failure("unknown eval error"))
      && (NamesSession(c) ==> o.session == c.session.value)
      && (!NamesSession(c) ==> o.session == c.newSession)
      && after.pipe == (e.pipe + c.incoming)[n + 1..]
  {
    var r, cur, pipe := Reap(e, c.now), SessionOf(c), e.pipe + c.incoming;
    SessionIs(c);
    FirstReplyIs(pipe, c.request, n);
    LoopDelivers(r.sessions.Keys, r.pending - {cur}, GetOut(r.pending, cur), pipe, cur, c.request);
  }

  /** An answered call dates its own session by its end and keeps the others that
      were used within ten minutes of its start. */
  lemma SessionsAfterAnswer(e: Engine, c: Call, n: nat, s: Session)
    requires c.sent && FirstReply(e.pipe + c.incoming, c.request, n)
    ensures var own, after := OwnSession(c), Exec(e, c).0;
      && own in after.sessions && after.sessions[own] == c.done && own !in after.pending
      && (s != own ==>
            && (s in after.sessions <==> s in e.sessions && c.now <= e.sessions[s] + 600_000)
            && (s in after.sessions ==> after.sessions[s] == e.sessions[s]))
  {
    var r, cur, pipe := Reap(e, c.now), SessionOf(c), e.pipe + c.incoming;
    SessionIs(c);
    ReapedIff(e, c.now, s);
    FirstReplyIs(pipe, c.request, n);
    LoopDelivers(r.sessions.Keys, r.pending - {cur}, GetOut(r.pending, cur), pipe, cur, c.request);
    LoopQueues(r.sessions.Keys, r.pending - {cur}, GetOut(r.pending, cur), pipe, cur, c.request, cur + "x");
  }

  /** Without an own reply before the frames end the runtime is killed and every
      session with it. */
  lemma UnansweredIsKilled(e: Engine, c: Call)
    requires c.sent && forall f :: f in e.pipe + c.incoming && f.Reply? ==> f.id != Some(c.request)
    ensures Exec(e, c) == (Engine(map[], map[], []), Killed)
  {
    var r, cur, pipe := Reap(e, c.now), SessionOf(c), e.pipe + c.incoming;
    LoopDelivers(r.sessions.Keys, r.pending - {cur}, GetOut(r.pending, cur), pipe, cur, c.request);
  }

  /** A request that cannot be written reads nothing and only reaps. */
  lemma UnsentReadsNothing(e: Engine, c: Call, s: Session)
    requires !c.sent
    ensures var (after, o) := Exec(e, c);
      && o == NotSent && after.pipe == e.pipe
      && (s in after.sessions <==> s in e.sessions && c.now <= e.sessions[s] + 600_000)
      && (s in after.sessions ==> after.sessions[s] == e.sessions[s])
  {
    ReapedIff(e, c.now, s);
  }

  /** While a buffer stays below 200,000 bytes, a call returns on each stream what was
      queued for its session and then, line by line, what the frames before its
      reply say on that stream for that session. */
  lemma CallReturnsItsConsole(e: Engine, c: Call, n: nat, queued: Out)
    requires c.sent && FirstReply(e.pipe + c.incoming, c.request, n)
    requires var own := OwnSession(c);
      && (StillQueued(e, c.now, own) ==> queued == e.pending[own])
      && (!StillQueued(e, c.now, own) ==> queued == Out("", ""))
    requires var lines := OwnLines((e.pipe + c.incoming)[..n], OwnSession(c), c.request);
      HasRoom(queued.stdout, lines, Stdout) && HasRoom(queued.stderr, lines, Stderr)
    ensures var lines := OwnLines((e.pipe + c.incoming)[..n], OwnSession(c), c.request);
      Exec(e, c).1.Returned? && Exec(e, c).1.out
        == Out(queued.stdout + Plain(lines, Stdout), queued.stderr + Plain(lines, Stderr))
  {
    SessionIs(c);
    QueuedOut(e, c.now, OwnSession(c), queued);
    CallAbsorbs(e, c, n);
    AbsorbedText(queued, OwnLines((e.pipe + c.incoming)[..n], OwnSession(c), c.request));
  }

  lemma QueuedOut(e: Engine, now: nat, s: Session, queued: Out)
    requires StillQueued(e, now, s) ==> queued == e.pending[s]
    requires !StillQueued(e, now, s) ==> queued == Out("", "")
    ensures GetOut(Reap(e, now).pending, s) == queued
  {
    ReapedIff(e, now, s);
  }

  lemma CallAbsorbs(e: Engine, c: Call, n: nat)
    requires c.sent && FirstReply(e.pipe + c.incoming, c.request, n)
    ensures var own := SessionOf(c);
      Exec(e, c).1.Returned? && Exec(e, c).1.out
        == AbsorbAll(GetOut(Reap(e, c.now).pending, own), OwnLines((e.pipe + c.incoming)[..n], own, c.request))
  {
    var r, cur, pipe := Reap(e, c.now), SessionOf(c), e.pipe + c.incoming;
    FirstReplyIs(pipe, c.request, n);
    LoopDelivers(r.sessions.Keys, r.pending - {cur}, GetOut(r.pending, cur), pipe, cur, c.request);
    OwnLinesAreGiven(pipe[..n], r.sessions.Keys, cur, c.request);
  }

  lemma AbsorbedText(queued: Out, lines: seq<Line>)
    requires HasRoom(queued.stdout, lines, Stdout) && HasRoom(queued.stderr, lines, Stderr)
    ensures AbsorbAll(queued, lines) == Out(queued.stdout + Plain(lines, Stdout), queued.stderr + Plain(lines, Stderr))
  {
    UncappedIsPlain(queued, lines, Stdout);
    UncappedIsPlain(queued, lines, Stderr);
  }

  /** Output waits for the session, and the session was not reaped with it. */
  predicate StillQueued(e: Engine, now: nat, s: Session) {
    s in e.pending && (s in e.sessions ==> now <= e.sessions[s] + 600_000)
  }

  /** The console lines tagged with the session, or untagged with the request id. */
  function OwnLines(read: seq<Frame>, own: Session, request: string): seq<Line> {
    if read == [] then []
    else
      var f := read[0];
      if f.Console? && (f.session == Some(own) || (f.session == None && f.id == Some(request)))
      then [Line(f.channel, f.data)] + OwnLines(read[1..], own, request)
      else OwnLines(read[1..], own, request)
  }

  lemma {:induction false} OwnLinesAreGiven(read: seq<Frame>, live: set<Session>, own: Session, request: string)
    ensures Given(read, own, live, own, request) == OwnLines(read, own, request)
  {
    if read == [] {
    } else {
      OwnLinesAreGiven(read[1..], live, own, request);
    }
  }
}
