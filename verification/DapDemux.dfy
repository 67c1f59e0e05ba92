/**
 The debug-adapter client, dap_ops.rs:166-195 and 247-297: callers register a
 sequence number and wait, one reader task routes responses, timeouts and the
 reader's death compete with them.  Every lock-protected action is one step of a
 machine, taken in any order.
 */
module DapDemux {
  import opened Seqs
  import opened Wrappers

  const EVENT_RING: nat := 100
  const EXITED := "adapter exited"

  datatype Reply = Success(body: string) | Failure(message: string)

  /** An inbound message; fields the adapter left out are None. */
  datatype Message =
    | Response(requestSeq: Option<nat>, success: Option<bool>, body: Option<string>, message: Option<string>)
    | Event(event: string)
    | Other

  function ReplyOf(m: Message): Reply
    requires m.Response?
  {
    if m.success.GetOr(false) then Success(m.body.GetOr("null")) else Failure(m.message.GetOr("adapter error"))
  }

  /** What a caller gets, and the step that sent it. */
  datatype Sent = Sent(reply: Reply, step: nat)

  datatype Outcome = Got(sent: Sent) | TimedOut | WriteFailed

  /** Where a caller stands: number drawn, sender registered, request written and
      waiting, timer fired, done. */
  datatype Phase = Drawn | Registered | Waiting | Expiring | Done(outcome: Outcome)

  /** `pending` are the registered senders, `channel` the replies sent and not
      yet picked up. */
  datatype State = State(seqNo: nat, pending: set<nat>, callers: map<nat, Phase>, channel: map<nat, Sent>,
                         readerUp: bool, events: seq<string>)

  datatype Step =
    | Draw
    | Register(id: nat)
    | Write(id: nat, ok: bool)
    | Route(m: Message)
    | ReaderExit
    | ReaderAbort
    | PickUp(id: nat)
    | TimerFires(id: nat)
    | TimerCleans(id: nat)
    | DrainEvents

  const START := State(1, {}, map[], map[], true, [])

  // ------------------------------------------------------------ what steps do

  function Push(ring: seq<string>, e: string): seq<string> {
    (if |ring| >= EVENT_RING then ring[1..] else ring) + [e]
  }

  /** `route_message`: a response resolves the request it names, once. */
  function Routed(s: State, m: Message, n: nat): State {
    match m
    case Response(Some(id), _, _, _) =>
      if id in s.pending then s.(pending := s.pending - {id}, channel := s.channel[id := Sent(ReplyOf(m), n)]) else s
    case Event(e) => s.(events := Push(s.events, e))
    case _ => s
  }

  /** The reader's last act: fail every registered request. */
  function Exited(s: State, n: nat): State {
    s.(readerUp := false, pending := {},
       channel := map id | id in s.channel.Keys + s.pending ::
         if id in s.pending then Sent(Failure(EXITED), n) else s.channel[id])
  }

  predicate InPhase(s: State, id: nat, p: Phase) { id in s.callers && s.callers[id] == p }

  predicate Enabled(s: State, step: Step) {
    match step
    case Draw => true
    case Register(id) => InPhase(s, id, Drawn)
    case Write(id, _) => InPhase(s, id, Registered)
    case Route(_) => s.readerUp
    case ReaderExit => s.readerUp
    case ReaderAbort => s.readerUp
    case PickUp(id) => InPhase(s, id, Waiting) && id in s.channel
    case TimerFires(id) => InPhase(s, id, Waiting) && id !in s.channel
    case TimerCleans(id) => InPhase(s, id, Expiring)
    case DrainEvents => true
  }

  function Next(s: State, step: Step, n: nat): State
    requires Enabled(s, step)
  {
    match step
    case Draw => s.(seqNo := s.seqNo + 1, callers := s.callers[s.seqNo := Drawn])
    case Register(id) => s.(pending := s.pending + {id}, callers := s.callers[id := Registered])
    case Write(id, ok) => s.(callers := s.callers[id := if ok then Waiting else Done(WriteFailed)])
    case Route(m) => Routed(s, m, n)
    case ReaderExit => Exited(s, n)
    case ReaderAbort => s.(readerUp := false)
    case PickUp(id) => s.(callers := s.callers[id := Done(Got(s.channel[id]))], channel := s.channel - {id})
    case TimerFires(id) => s.(callers := s.callers[id := Expiring])
    case TimerCleans(id) => s.(pending := s.pending - {id}, callers := s.callers[id := Done(TimedOut)])
    case DrainEvents => s.(events := [])
  }

  /** The shared state of one client; the methods are the critical sections. */
  class DapClient {
    var seqNo: nat
    var pending: set<nat>
    var callers: map<nat, Phase>
    var channel: map<nat, Sent>
    var readerUp: bool
    var events: seq<string>

    constructor ()
      ensures Snapshot() == START
    {
      seqNo, pending, callers, channel, readerUp, events := 1, {}, map[], map[], true, [];
    }

    function Snapshot(): State
      reads this
    {
      State(seqNo, pending, callers, channel, readerUp, events)
    }

    method DrawSeq() returns (id: nat)
      modifies this
      ensures id == old(seqNo) && Snapshot() == Next(old(Snapshot()), Draw, 0)
    {
      id := seqNo;
      seqNo := seqNo + 1;
      callers := callers[id := Drawn];
    }

    method RegisterSender(id: nat)
      requires Enabled(Snapshot(), Register(id))
      modifies this
      ensures Snapshot() == Next(old(Snapshot()), Register(id), 0)
    {
      pending := pending + {id};
      callers := callers[id := Registered];
    }

    method RouteMessage(m: Message, n: nat)
      requires Enabled(Snapshot(), Route(m))
      modifies this
      ensures Snapshot() == Next(old(Snapshot()), Route(m), n)
    {
      match m {
        case Response(requestSeq, success, body, message) =>
          if requestSeq.Some? {
            var id := requestSeq.value;
            if id in pending {
              pending := pending - {id};
              var payload := if success.GetOr(false) then Success(body.GetOr("null"))
                             else Failure(message.GetOr("adapter error"));
              channel := channel[id := Sent(payload, n)];
            }
          }
        case Event(e) =>
          if |events| >= EVENT_RING { events := events[1..]; }
          events := events + [e];
        case Other =>
      }
    }

    /** The draining loop, in the map's own order. */
    method FailAll(n: nat)
      requires Enabled(Snapshot(), ReaderExit)
      modifies this
      ensures Snapshot() == Next(old(Snapshot()), ReaderExit, n)
    {
      readerUp := false;
      while pending != {}
        invariant pending <= old(pending)
        invariant channel.Keys == old(channel.Keys) + (old(pending) - pending)
        invariant forall id :: id in channel ==>
          channel[id] == if id in old(pending) - pending then Sent(Failure(EXITED), n) else old(channel)[id]
        invariant seqNo == old(seqNo) && callers == old(callers) && !readerUp && events == old(events)
        decreases pending
      {
        var id :| id in pending;
        pending := pending - {id};
        channel := channel[id := Sent(Failure(EXITED), n)];
      }
    }

    method CleanTimeout(id: nat)
      requires Enabled(Snapshot(), TimerCleans(id))
      modifies this
      ensures Snapshot() == Next(old(Snapshot()), TimerCleans(id), 0)
    {
      pending := pending - {id};
      callers := callers[id := Done(TimedOut)];
    }
  }

  // -------------------------------------------------------------------- runs

  predicate Legal(trace: seq<Step>)
    decreases |trace|, 0
  {
    trace == [] || (Legal(trace[..|trace| - 1]) && Enabled(After(trace[..|trace| - 1]), trace[|trace| - 1]))
  }

  function After(trace: seq<Step>): State
    requires Legal(trace)
    decreases |trace|, 1
  {
    if trace == [] then START
    else Next(After(trace[..|trace| - 1]), trace[|trace| - 1], |trace| - 1)
  }

  /** The reply was sent to `id` by a response naming `id`, or by the reader's
      death. */
  predicate FromTrace(trace: seq<Step>, id: nat, d: Sent) {
    && d.step < |trace|
    && match trace[d.step]
       case Route(m) => m.Response? && m.requestSeq == Some(id) && d.reply == ReplyOf(m)
       case ReaderExit => d.reply == Failure(EXITED)
       case _ => false
  }

  predicate PhaseSound(s: State, trace: seq<Step>, id: nat)
    requires id in s.callers
  {
    var p := s.callers[id];
    && (p.Drawn? ==> id !in s.pending && id !in s.channel)
    && (p.Done? && p.outcome.Got? ==> id !in s.pending && id !in s.channel && FromTrace(trace, id, p.outcome.sent))
    && (p == Done(TimedOut) ==> id !in s.pending)
  }

  /** Only numbers drawn so far are in use. */
  ghost predicate Drew(s: State) {
    && (forall id :: id in s.callers ==> id < s.seqNo)
    && s.pending <= s.callers.Keys && s.channel.Keys <= s.callers.Keys
  }

  /** What holds after every legal run. */
  ghost predicate Consistent(s: State, trace: seq<Step>) {
    && Drew(s)
    && (forall id :: id in s.channel ==> id !in s.pending && FromTrace(trace, id, s.channel[id]))
    && (forall id :: id in s.callers ==> PhaseSound(s, trace, id))
  }

  lemma TraceGrows(trace: seq<Step>, step: Step, id: nat, d: Sent)
    requires FromTrace(trace, id, d)
    ensures FromTrace(trace + [step], id, d)
  {}

  lemma StepKeepsConsistent(s: State, trace: seq<Step>, step: Step)
    requires Consistent(s, trace) && Enabled(s, step)
    ensures Consistent(Next(s, step, |trace|), trace + [step])
  {
    var s', t := Next(s, step, |trace|), trace + [step];
    StepDraws(s, step, |trace|);
    forall id | id in s'.channel ensures id !in s'.pending && FromTrace(t, id, s'.channel[id]) {
      ChannelAfter(s, trace, step, id);
    }
    forall id | id in s'.callers ensures PhaseSound(s', t, id) { PhaseAfter(s, trace, step, id); }
  }

  lemma StepDraws(s: State, step: Step, n: nat)
    requires Drew(s) && Enabled(s, step)
    ensures Drew(Next(s, step, n))
  {}

  lemma ChannelAfter(s: State, trace: seq<Step>, step: Step, id: nat)
    requires Consistent(s, trace) && Enabled(s, step) && id in Next(s, step, |trace|).channel
    ensures var s' := Next(s, step, |trace|);
      id !in s'.pending && FromTrace(trace + [step], id, s'.channel[id])
  {
    assert (trace + [step])[|trace|] == step;
    if id in s.channel {
      TraceGrows(trace, step, id, s.channel[id]);
      assert id in s.callers && PhaseSound(s, trace, id);
    }
  }

  lemma PhaseAfter(s: State, trace: seq<Step>, step: Step, id: nat)
    requires Consistent(s, trace) && Enabled(s, step) && id in Next(s, step, |trace|).callers
    ensures PhaseSound(Next(s, step, |trace|), trace + [step], id)
  {
    if id in s.callers && s.callers[id].Done? && s.callers[id].outcome.Got? {
      TraceGrows(trace, step, id, s.callers[id].outcome.sent);
    }
    if step == PickUp(id) { TraceGrows(trace, step, id, s.channel[id]); }
  }

  lemma {:induction false} RunsAreConsistent(trace: seq<Step>)
    requires Legal(trace)
    ensures Consistent(After(trace), trace)
  {
    if trace == [] {
    } else {
      var init := trace[..|trace| - 1];
      RunsAreConsistent(init);
      StepKeepsConsistent(After(init), init, trace[|trace| - 1]);
      assert init + [trace[|trace| - 1]] == trace;
    }
  }

  predicate HasOutcome(s: State, id: nat, o: Outcome) {
    InPhase(s, id, Done(o))
  }

  lemma PrefixIsLegal(trace: seq<Step>, k: nat)
    requires Legal(trace) && k <= |trace|
    ensures Legal(trace[..k])
    decreases |trace|
  {
    if k == |trace| {
      assert trace[..k] == trace;
    } else {
      var init := trace[..|trace| - 1];
      PrefixIsLegal(init, k);
      assert init[..k] == trace[..k];
    }
  }

  lemma LastStep(trace: seq<Step>, init: seq<Step>, step: Step)
    requires trace == init + [step] && Legal(trace)
    ensures Legal(init) && Enabled(After(init), step)
    ensures After(trace) == Next(After(init), step, |init|)
  {
    var n := |trace| - 1;
    assert trace[..n] == init && trace[n] == step;
  }

  lemma RunStep(trace: seq<Step>, k: nat)
    requires Legal(trace) && k < |trace|
    ensures Legal(trace[..k]) && Legal(trace[..k + 1]) && Enabled(After(trace[..k]), trace[k])
    ensures After(trace[..k + 1]) == Next(After(trace[..k]), trace[k], k)
  {
    PrefixIsLegal(trace, k + 1);
    TakeSnoc(trace, k);
    LastStep(trace[..k + 1], trace[..k], trace[k]);
  }

  /** An outcome, once reached, is the outcome ever after. */
  lemma {:induction false} OutcomesAreFinal(trace: seq<Step>, k: nat, id: nat, o: Outcome)
    requires Legal(trace) && k <= |trace| && Legal(trace[..k]) && HasOutcome(After(trace[..k]), id, o)
    ensures HasOutcome(After(trace), id, o)
    decreases |trace| - k
  {
    if k == |trace| {
      assert trace[..k] == trace;
    } else {
      RunStep(trace, k);
      RunsAreConsistent(trace[..k]);
      OutcomesAreFinal(trace, k + 1, id, o);
    }
  }

  /** What a response answers: its body or null if it succeeded, otherwise its
      message or a stock one. */
  predicate Tells(m: Message, reply: Reply) {
    m.Response?
    && match (m.success, m.body, m.message)
       case (Some(true), Some(body), _) => reply == Success(body)
       case (Some(true), None, _) => reply == Success("null")
       case (_, _, Some(why)) => reply == Failure(why)
       case (_, _, None) => reply == Failure("adapter error")
  }

  lemma RepliesTell(m: Message)
    requires m.Response?
    ensures Tells(m, ReplyOf(m))
  {}

  /** A response to a registered request puts its answer into that caller's channel
      and unregisters it; every other message touches no request. */
  lemma RoutedReply(s: State, m: Message, n: nat, id: nat)
    requires s.readerUp
    ensures var after := Next(s, Route(m), n);
      && (m.Response? && m.requestSeq == Some(id) && id in s.pending ==>
            && id !in after.pending && id in after.channel
            && after.channel[id].step == n && Tells(m, after.channel[id].reply))
      && (!(m.Response? && m.requestSeq == Some(id) && id in s.pending) ==>
            && (id in after.pending <==> id in s.pending)
            && (id in after.channel <==> id in s.channel)
            && (id in after.channel ==> after.channel[id] == s.channel[id]))
      && after.callers == s.callers && after.seqNo == s.seqNo && after.readerUp
  {
    if m.Response? { RepliesTell(m); }
  }

  /** In every run: a success a caller got is the body, or null, of a response that
      carried the caller's own number and succeeded, and no response serves two
      callers. */
  lemma SuccessIsOwn(trace: seq<Step>, id: nat, d: Sent)
    requires Legal(trace) && HasOutcome(After(trace), id, Got(d)) && d.reply.Success?
    ensures d.step < |trace| && trace[d.step].Route? && trace[d.step].m.Response?
    ensures var m := trace[d.step].m;
      && m.requestSeq == Some(id) && m.success == Some(true)
      && (m.body.Some? ==> d.reply == Success(m.body.value))
      && (m.body.None? ==> d.reply == Success("null"))
    ensures forall other, e :: HasOutcome(After(trace), other, Got(e)) && e.step == d.step ==> other == id
  {
    RunsAreConsistent(trace);
    forall other, e | HasOutcome(After(trace), other, Got(e)) && e.step == d.step ensures other == id {
      assert FromTrace(trace, other, e) && FromTrace(trace, id, d);
    }
  }

  /** In every run: a failure a caller got is the reader's exit, or the message, or a
      stock one, of a response that carried the caller's own number and did not
      succeed. */
  lemma FailureIsOwn(trace: seq<Step>, id: nat, d: Sent)
    requires Legal(trace) && HasOutcome(After(trace), id, Got(d)) && d.reply.Failure?
    ensures d.step < |trace|
    ensures trace[d.step] == ReaderExit ==> d.reply == Failure("adapter exited")
    ensures trace[d.step] != ReaderExit ==>
      && trace[d.step].Route? && trace[d.step].m.Response?
      && var m := trace[d.step].m;
         && m.requestSeq == Some(id) && m.success != Some(true)
         && (m.message.Some? ==> d.reply == Failure(m.message.value))
         && (m.message.None? ==> d.reply == Failure("adapter error"))
  {
    RunsAreConsistent(trace);
    assert FromTrace(trace, id, d);
  }

  // ------------------------------------------------------------ reader death

  /** The failure sent at step `n` lies in the channel of `id`. */
  predicate FailureWaits(s: State, id: nat, n: nat) {
    id in s.channel && s.channel[id] == Sent(Failure(EXITED), n)
  }

  /** What has become of `id`, whose request was registered and whose caller stood
      at `death` when the reader died at step `n`. */
  predicate FailedSince(s: State, id: nat, n: nat, death: Phase) {
    var failed := Done(Got(Sent(Failure(EXITED), n)));
    && id in s.callers && id !in s.pending
    && var now := s.callers[id];
       match death
       case Waiting => (now == Waiting && FailureWaits(s, id, n)) || now == failed
       case Registered =>
         ((now == Registered || now == Waiting) && FailureWaits(s, id, n)) || now == failed || now == Done(WriteFailed)
       case Expiring => now == Expiring || now == Done(TimedOut)
       case Done(o) => o == WriteFailed && now == death
       case Drawn => false
  }

  lemma ExitFails(s: State, trace: seq<Step>, id: nat)
    requires Consistent(s, trace) && id in s.pending && Enabled(s, ReaderExit)
    ensures id in s.callers && FailedSince(Next(s, ReaderExit, |trace|), id, |trace|, s.callers[id])
  {
    assert PhaseSound(s, trace, id);
  }

  lemma FailedStays(s: State, trace: seq<Step>, step: Step, id: nat, n: nat, death: Phase)
    requires Consistent(s, trace) && FailedSince(s, id, n, death) && !s.readerUp && Enabled(s, step)
    ensures FailedSince(Next(s, step, |trace|), id, n, death) && !Next(s, step, |trace|).readerUp
  {}

  lemma {:induction false} DeathFailsPending(trace: seq<Step>, n: nat, id: nat, k: nat)
    requires Legal(trace) && n < k <= |trace| && trace[n] == ReaderExit
    requires Legal(trace[..n]) && id in After(trace[..n]).pending
    ensures id in After(trace[..n]).callers
    ensures Legal(trace[..k]) && FailedSince(After(trace[..k]), id, n, After(trace[..n]).callers[id])
    ensures !After(trace[..k]).readerUp
    decreases k
  {
    RunStep(trace, k - 1);
    RunsAreConsistent(trace[..k - 1]);
    if k - 1 > n {
      DeathFailsPending(trace, n, id, k - 1);
      FailedStays(After(trace[..k - 1]), trace[..k - 1], trace[k - 1], id, n, After(trace[..n]).callers[id]);
    } else {
      ExitFails(After(trace[..n]), trace[..n], id);
    }
  }

  /** Reader death fails every request then registered.  A caller that was waiting
      can only end with that failure; one that had still to write, with it or with
      its own write error; one whose timer had fired times out. */
  lemma PendingAtDeathFails(trace: seq<Step>, n: nat, id: nat)
    requires Legal(trace) && n < |trace| && trace[n] == ReaderExit
    requires Legal(trace[..n]) && id in After(trace[..n]).pending
    ensures id in After(trace[..n]).callers && FailedSince(After(trace), id, n, After(trace[..n]).callers[id])
    ensures InPhase(After(trace), id, Waiting) ==>
      Enabled(After(trace), PickUp(id)) && !Enabled(After(trace), TimerFires(id))
  {
    DeathFailsPending(trace, n, id, |trace|);
    assert trace[..|trace|] == trace;
  }

  /** `id` registers, if at all, after the reader is gone: nothing is ever sent to
      it. */
  predicate Late(s: State, id: nat) {
    && !s.readerUp && id !in s.channel
    && (id in s.callers && s.callers[id].Done? ==> !s.callers[id].outcome.Got?)
  }

  lemma LateStays(s: State, step: Step, n: nat, id: nat)
    requires Drew(s) && Late(s, id) && Enabled(s, step)
    ensures Late(Next(s, step, n), id)
  {}

  lemma {:induction false} LateForever(trace: seq<Step>, n: nat, id: nat, k: nat)
    requires Legal(trace) && n <= k <= |trace| && Legal(trace[..n]) && Late(After(trace[..n]), id)
    ensures Legal(trace[..k]) && Late(After(trace[..k]), id)
    decreases k
  {
    if k > n {
      LateForever(trace, n, id, k - 1);
      RunStep(trace, k - 1);
      RunsAreConsistent(trace[..k - 1]);
      LateStays(After(trace[..k - 1]), trace[k - 1], k - 1, id);
    }
  }

  /** A caller that had not registered when the reader was gone, exited or aborted,
      can only time out or fail to write, in every run. */
  lemma LateCallersGetNothing(trace: seq<Step>, n: nat, id: nat, o: Outcome)
    requires Legal(trace) && n <= |trace| && Legal(trace[..n]) && !After(trace[..n]).readerUp
    requires id !in After(trace[..n]).callers || InPhase(After(trace[..n]), id, Drawn)
    requires HasOutcome(After(trace), id, o)
    ensures o == TimedOut || o == WriteFailed
  {
    RunsAreConsistent(trace[..n]);
    LateForever(trace, n, id, |trace|);
    assert trace[..|trace|] == trace;
  }

  /** The only outcome left to a caller that was waiting when the reader died. */
  lemma WaitingAtDeath(trace: seq<Step>, n: nat, id: nat, o: Outcome)
    requires Legal(trace) && n < |trace| && trace[n] == ReaderExit && Legal(trace[..n])
    requires id in After(trace[..n]).pending && InPhase(After(trace[..n]), id, Waiting)
    requires HasOutcome(After(trace), id, o)
    ensures o == Got(Sent(Failure(EXITED), n))
  {
    PendingAtDeathFails(trace, n, id);
  }

  // ------------------------------------------------------- senders left behind

  /** The step takes the sender of `id` out, if it is registered. */
  predicate Resolves(step: Step, id: nat) {
    step == ReaderExit || (step.Route? && step.m.Response? && step.m.requestSeq == Some(id))
  }

  /** `id` was registered, and since then neither a response naming it nor the
      reader's exit has been routed. */
  predicate Unresolved(trace: seq<Step>, id: nat) {
    trace != []
    && var last := trace[|trace| - 1];
       last == Register(id) || (!Resolves(last, id) && Unresolved(trace[..|trace| - 1], id))
  }

  lemma {:induction false} UnresolvedMeans(trace: seq<Step>, id: nat)
    ensures Unresolved(trace, id) <==>
      exists r :: 0 <= r < |trace| && trace[r] == Register(id)
        && forall k :: r < k < |trace| ==> !Resolves(trace[k], id)
  {
    if trace == [] {
    } else {
      var init := trace[..|trace| - 1];
      UnresolvedMeans(init, id);
      if Unresolved(init, id) && !Resolves(trace[|trace| - 1], id) {
        var r :| 0 <= r < |init| && init[r] == Register(id) && forall k :: r < k < |init| ==> !Resolves(init[k], id);
        forall k | r < k < |trace| ensures !Resolves(trace[k], id) { assert k < |init| ==> trace[k] == init[k]; }
        assert trace[r] == init[r];
      }
      if r :| 0 <= r < |init| && trace[r] == Register(id) && forall k :: r < k < |trace| ==> !Resolves(trace[k], id) {
        forall k | r < k < |init| ensures !Resolves(init[k], id) { assert init[k] == trace[k]; }
        assert init[r] == trace[r];
      }
    }
  }

  lemma StepRegisters(s: State, step: Step, n: nat, id: nat, before: bool)
    requires Drew(s) && Enabled(s, step)
    requires id in s.pending <==> before && !InPhase(s, id, Done(TimedOut))
    ensures id in Next(s, step, n).pending <==>
      (step == Register(id) || (!Resolves(step, id) && before)) && !InPhase(Next(s, step, n), id, Done(TimedOut))
  {}

  lemma {:induction false} PendingIsUnresolved(trace: seq<Step>, id: nat)
    requires Legal(trace)
    ensures id in After(trace).pending <==> Unresolved(trace, id) && !InPhase(After(trace), id, Done(TimedOut))
  {
    if trace == [] {
    } else {
      var init, last := trace[..|trace| - 1], trace[|trace| - 1];
      PendingIsUnresolved(init, id);
      RunsAreConsistent(init);
      LastStep(trace, init, last);
      StepRegisters(After(init), last, |init|, id, Unresolved(init, id));
    }
  }

  /** The sender of a finished caller stays registered if and only if its write
      failed and, since it registered, neither a response naming it nor the
      reader's exit has been routed. */
  lemma LeaksIff(trace: seq<Step>, id: nat, o: Outcome)
    requires Legal(trace) && HasOutcome(After(trace), id, o)
    ensures id in After(trace).pending <==>
      o == WriteFailed
      && exists r :: 0 <= r < |trace| && trace[r] == Register(id)
           && forall k :: r < k < |trace| ==> !Resolves(trace[k], id)
  {
    RunsAreConsistent(trace);
    PendingIsUnresolved(trace, id);
    UnresolvedMeans(trace, id);
  }

  lemma WriteErrorLeaks()
    ensures var trace := [Draw, Register(1), Write(1, false)];
      Legal(trace) && HasOutcome(After(trace), 1, WriteFailed) && 1 in After(trace).pending
  {
    var trace := [Draw, Register(1), Write(1, false)];
    assert trace[..2] == [Draw, Register(1)] && trace[..2][..1] == [Draw] && [Draw][..0] == [];
    assert Legal([Draw]) && After([Draw]) == Next(START, Draw, 0);
    assert Legal(trace[..2]) && After(trace[..2]) == Next(After([Draw]), Register(1), 1);
  }

  // -------------------------------------------------------------- event ring

  /** Events routed since the ring was last drained. */
  function SinceDrain(trace: seq<Step>): seq<string> {
    if trace == [] then []
    else
      var prev, last := SinceDrain(trace[..|trace| - 1]), trace[|trace| - 1];
      match last
      case DrainEvents => []
      case Route(Event(e)) => prev + [e]
      case _ => prev
  }

  lemma PushKeepsNewest(all: seq<string>, e: string)
    ensures Push(Newest(all, EVENT_RING), e) == Newest(all + [e], EVENT_RING)
  {}

  /** The ring is the newest events since the drain, at most a hundred. */
  lemma {:induction false} RingIsNewest(trace: seq<Step>)
    requires Legal(trace)
    ensures After(trace).events == Newest(SinceDrain(trace), 100)
  {
    if trace == [] {
    } else {
      var init, last := trace[..|trace| - 1], trace[|trace| - 1];
      RingIsNewest(init);
      LastStep(trace, init, last);
      if last.Route? && last.m.Event? { PushKeepsNewest(SinceDrain(init), last.m.event); }
    }
  }
}
