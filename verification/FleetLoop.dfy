/** Whole runs of the fleet loop against an arbitrary network: what is sent, and how long the loop
    sleeps between iterations. */
module FleetLoop {
  import opened Prelude
  import opened FleetWire
  import opened FleetClient

  const U32_MAX: u32 := 0xFFFF_FFFF

  /** One completed sleep. */
  datatype Sleep = Sleep(afterRetry: bool, ms: nat)

  datatype Loop = Loop(client: Client, retry_attempt: u32, stopped: bool, trace: seq<Sent>, sleeps: seq<Sleep>)

  function Jittered(ms: nat, factor: Factor): nat { ms * factor / 100 }

  function Pow2(n: nat): nat { if n == 0 then 1 else 2 * Pow2(n - 1) }

  /** The delay before the jitter, in seconds: 1, 2, 4, 8, 16, then 30. */
  function Backoff(attempt: u32): nat { Min(Pow2(Min(attempt, 5)), 30) }

  function RetryDelay(attempt: u32, factor: Factor): nat { Jittered(1000 * Backoff(attempt), factor) }

  function Appended(sent: Option<Sent>): seq<Sent> { if sent.Some? then [sent.value] else [] }

  function LoopStep(l: Loop, i: Input): Loop {
    if l.stopped then l
    else
      var p := Poll(l.client, i);
      var trace := l.trace + Appended(p.sent);
      match p.outcome
      case Stop => Loop(p.client, l.retry_attempt, true, trace, l.sleeps)
      case Retry(_) =>
        Loop(p.client, if l.retry_attempt == U32_MAX then U32_MAX else l.retry_attempt + 1, false, trace,
             l.sleeps + [Sleep(true, RetryDelay(l.retry_attempt, i.jitter))])
      case Wait(ms) => Loop(p.client, 0, false, trace, l.sleeps + [Sleep(false, Jittered(ms, i.jitter))])
  }

  /** The loop after the given iterations, from the start of the process. */
  function Run(process: Uuid, inputs: seq<Input>): Loop {
    if inputs == [] then Loop(NewClient(process), 0, false, [], [])
    else LoopStep(Run(process, inputs[..|inputs| - 1]), inputs[|inputs| - 1])
  }

  method RunFleetLoop(process: Uuid, inputs: seq<Input>) returns (trace: seq<Sent>, sleeps: seq<Sleep>, stopped: bool)
    ensures trace == Run(process, inputs).trace
    ensures sleeps == Run(process, inputs).sleeps
    ensures stopped == Run(process, inputs).stopped
  {
    var state := new FleetLoopState(process);
    var retry_attempt: u32 := 0;
    trace, sleeps, stopped := [], [], false;
    for n := 0 to |inputs|
      invariant Loop(state.State(), retry_attempt, stopped, trace, sleeps) == Run(process, inputs[..n])
      invariant fresh(state)
    {
      assert inputs[..n + 1][..n] == inputs[..n];
      if !stopped {
        var outcome, sent := state.PollIteration(inputs[n]);
        trace := trace + Appended(sent);
        match outcome {
          case Retry(_) =>
            sleeps := sleeps + [Sleep(true, RetryDelay(retry_attempt, inputs[n].jitter))];
            retry_attempt := if retry_attempt == U32_MAX then U32_MAX else retry_attempt + 1;
          case Wait(ms) =>
            retry_attempt := 0;
            sleeps := sleeps + [Sleep(false, Jittered(ms, inputs[n].jitter))];
          case Stop =>
            stopped := true;
        }
      }
    }
    assert inputs[..|inputs|] == inputs;
  }

  // ---------------------------------------------------------------- the requests sent

  function Accepted(t: seq<Sent>): nat {
    if t == [] then 0 else Accepted(t[..|t| - 1]) + if t[|t| - 1].accepted() then 1 else 0
  }

  lemma AcceptedSnoc(t: seq<Sent>, e: Sent)
    ensures Accepted(t + [e]) == Accepted(t) + if e.accepted() then 1 else 0
  {
    assert (t + [e])[..|t|] == t;
  }

  /** Each entry's sequence is one more than the number of acceptances before it. */
  ghost predicate Numbered(t: seq<Sent>) {
    forall i :: 0 <= i < |t| ==> t[i].request.sequence == 1 + Accepted(t[..i])
  }

  /** An entry that was not accepted is followed by the identical request. */
  ghost predicate Repeats(t: seq<Sent>) {
    forall i, j :: 0 <= i < j < |t| && j == i + 1 && !t[i].accepted() ==> t[j].request == t[i].request
  }

  /** The pending request is the last one sent, while it is unanswered. */
  ghost predicate Tracks(s: Client, t: seq<Sent>) {
    && Inv(s)
    && s.next_sequence == 1 + Accepted(t)
    && (s.pending.Some? <==> t != [] && !t[|t| - 1].accepted())
    && (s.pending.Some? ==> t[|t| - 1].request == s.pending.value)
  }

  lemma NumberedSnoc(t: seq<Sent>, e: Sent)
    requires Numbered(t) && e.request.sequence == 1 + Accepted(t)
    ensures Numbered(t + [e])
  {
    var u := t + [e];
    assert t[..|t|] == t;
    forall i | 0 <= i < |u| ensures u[i].request.sequence == 1 + Accepted(u[..i]) {
      assert u[..i] == t[..i];
    }
  }

  lemma RepeatsSnoc(t: seq<Sent>, e: Sent)
    requires Repeats(t)
    requires t != [] && !t[|t| - 1].accepted() ==> e.request == t[|t| - 1].request
    ensures Repeats(t + [e])
  {
  }

  /** The state in which an iteration talks to the network, if it does. */
  lemma PollSends(s: Client, i: Input)
    requires Inv(s) && Poll(s, i).sent.Some?
    ensures var p, e := Poll(s, i), Poll(s, i).sent.value;
            && e.request.sequence == s.next_sequence
            && (s.pending.Some? ==> e.request == s.pending.value)
            && (s.pending.None? ==> e.request.request_id == i.request_id)
            && (e.accepted() <==> p.outcome.Wait?)
            && (e.accepted() ==> e.response.value.poll_after_ms == p.outcome.ms)
            && (e.accepted() ==> p.client.pending.None? && p.client.next_sequence == s.next_sequence + 1)
            && (!e.accepted() ==> p.client.pending == Some(e.request) && p.client.next_sequence == s.next_sequence)
  {
    if s.pending.None? {
      RequestsAlwaysBuild(s, i.snapshot.value, i.request_id);
      ExchangeKeepsInv(Prepare(s, i.snapshot.value, i.request_id).value, i.reply);
    } else {
      ExchangeKeepsInv(s, i.reply);
    }
  }

  lemma PollSilent(s: Client, i: Input)
    requires Inv(s) && Poll(s, i).sent.None?
    ensures Poll(s, i).client == s && s.pending.None? && Poll(s, i).outcome == Retry(true)
  {
    if s.pending.None? && SnapshotOk(i.snapshot) {
      RequestsAlwaysBuild(s, i.snapshot.value, i.request_id);
    }
  }

  /** Sending `e` from state `s` to state `s'` extends a tracked trace. */
  lemma SendTracks(s: Client, t: seq<Sent>, s': Client, e: Sent)
    requires Tracks(s, t) && Numbered(t) && Repeats(t) && Inv(s')
    requires e.request.sequence == s.next_sequence && (s.pending.Some? ==> e.request == s.pending.value)
    requires e.accepted() ==> s'.pending.None? && s'.next_sequence == s.next_sequence + 1
    requires !e.accepted() ==> s'.pending == Some(e.request) && s'.next_sequence == s.next_sequence
    ensures Tracks(s', t + [e]) && Numbered(t + [e]) && Repeats(t + [e])
  {
    NumberedSnoc(t, e);
    RepeatsSnoc(t, e);
    AcceptedSnoc(t, e);
  }

  lemma PollTracks(s: Client, t: seq<Sent>, i: Input)
    requires Tracks(s, t) && Numbered(t) && Repeats(t)
    ensures var p := Poll(s, i);
            var u := t + Appended(p.sent);
            Tracks(p.client, u) && Numbered(u) && Repeats(u)
  {
    var p := Poll(s, i);
    PollKeepsInv(s, i);
    if p.sent.Some? {
      PollSends(s, i);
      SendTracks(s, t, p.client, p.sent.value);
    } else {
      PollSilent(s, i);
      assert t + [] == t;
    }
  }

  lemma StepUnfold(l: Loop, i: Input)
    requires !l.stopped
    ensures LoopStep(l, i).client == Poll(l.client, i).client
    ensures LoopStep(l, i).trace == l.trace + Appended(Poll(l.client, i).sent)
  {
  }

  lemma {:induction false} RunTracks(process: Uuid, inputs: seq<Input>)
    ensures var l := Run(process, inputs); Tracks(l.client, l.trace) && Numbered(l.trace) && Repeats(l.trace)
  {
    if inputs != [] {
      var l, i := Run(process, inputs[..|inputs| - 1]), inputs[|inputs| - 1];
      RunTracks(process, inputs[..|inputs| - 1]);
      if !l.stopped {
        PollTracks(l.client, l.trace, i);
        StepUnfold(l, i);
      }
    }
  }

  lemma {:induction false} AcceptedMonotone(t: seq<Sent>, i: nat, j: nat)
    requires i <= j <= |t|
    ensures Accepted(t[..i]) <= Accepted(t[..j])
    ensures forall k :: i <= k < j && t[k].accepted() ==> Accepted(t[..i]) < Accepted(t[..j])
    decreases j
  {
    if i < j {
      AcceptedMonotone(t, i, j - 1);
      assert t[..j][..j - 1] == t[..j - 1];
    }
  }

  lemma {:induction false} SameBlock(t: seq<Sent>, i: nat, j: nat)
    requires Numbered(t) && Repeats(t) && i <= j < |t| && Accepted(t[..i]) == Accepted(t[..j])
    ensures t[i].request == t[j].request
    decreases j
  {
    if i < j {
      AcceptedMonotone(t, i, j);
      AcceptedMonotone(t, i, j - 1);
      AcceptedMonotone(t, j - 1, j);
      SameBlock(t, i, j - 1);
    }
  }

  /** Exactly-once sequencing, for every run: the requests sent carry sequences 1, 2, 3, … in
      blocks; one sequence number always means the identical request; the next sequence appears only
      after the one acceptance of the previous; and the client's counter is one more than the number
      of acceptances. */
  lemma SequencesAreExactlyOnce(process: Uuid, inputs: seq<Input>)
    ensures var t, client := Run(process, inputs).trace, Run(process, inputs).client;
            && client.next_sequence == 1 + Accepted(t)
            && (forall i :: 0 <= i < |t| ==> t[i].request.sequence == 1 + Accepted(t[..i]))
            && (forall i, j :: 0 <= i < |t| && 0 <= j < |t| && t[i].request.sequence == t[j].request.sequence ==>
                  t[i].request == t[j].request)
            && (forall i, j :: 0 <= i < j < |t| && t[i].accepted() && t[j].accepted() ==>
                  t[i].request.sequence != t[j].request.sequence)
  {
    RunTracks(process, inputs);
    var t := Run(process, inputs).trace;
    forall i, j | 0 <= i <= j < |t| && t[i].request.sequence == t[j].request.sequence
      ensures t[i].request == t[j].request
      ensures t[i].accepted() ==> i == j
    {
      SameBlock(t, i, j);
      AcceptedMonotone(t, i, j);
    }
  }

  // ---------------------------------------------------------------- sessions over a run

  lemma SessionStep(process: Uuid, inputs: seq<Input>)
    requires inputs != []
    ensures var l, m := Run(process, inputs[..|inputs| - 1]), Run(process, inputs);
            && SessionAdvances(l.client.session, m.client.session)
            && m.client.process_instance_id == l.client.process_instance_id
  {
    var l, i := Run(process, inputs[..|inputs| - 1]), inputs[|inputs| - 1];
    RunTracks(process, inputs[..|inputs| - 1]);
    if !l.stopped {
      PollKeepsInv(l.client, i);
      StepUnfold(l, i);
    }
  }

  /** Once granted, a session is kept for the life of the process: at every later point of the run
      it has the same identity and at least the same generation. */
  lemma {:induction false} SessionNeverGoesBack(process: Uuid, inputs: seq<Input>, n: nat)
    requires n <= |inputs|
    ensures SessionAdvances(Run(process, inputs[..n]).client.session, Run(process, inputs).client.session)
    ensures Run(process, inputs).client.process_instance_id == process
  {
    if inputs == [] {
    } else if n == |inputs| {
      assert inputs[..n] == inputs;
      SessionNeverGoesBack(process, inputs[..n - 1], 0);
      SessionStep(process, inputs);
    } else {
      SessionNeverGoesBack(process, inputs[..|inputs| - 1], n);
      assert inputs[..|inputs| - 1][..n] == inputs[..n];
      SessionStep(process, inputs);
    }
  }

  // ---------------------------------------------------------------- request identifiers

  ghost predicate FreshIds(inputs: seq<Input>) {
    forall i, j :: 0 <= i < j < |inputs| ==> inputs[i].request_id != inputs[j].request_id
  }

  ghost predicate IdsDrawnFrom(t: seq<Sent>, inputs: seq<Input>) {
    forall i :: 0 <= i < |t| ==> Supplied(t[i].request.request_id, inputs)
  }

  ghost predicate Supplied(id: Uuid, inputs: seq<Input>) {
    exists k :: 0 <= k < |inputs| && inputs[k].request_id == id
  }

  ghost predicate IdsIdentify(t: seq<Sent>) {
    forall i, j :: 0 <= i < |t| && 0 <= j < |t| && t[i].request.request_id == t[j].request.request_id ==>
      t[i].request == t[j].request
  }

  lemma IdsSnoc(t: seq<Sent>, e: Sent, inputs: seq<Input>)
    requires inputs != [] && FreshIds(inputs)
    requires IdsDrawnFrom(t, inputs[..|inputs| - 1]) && IdsIdentify(t)
    requires (t != [] && e.request == t[|t| - 1].request) || e.request.request_id == inputs[|inputs| - 1].request_id
    ensures IdsDrawnFrom(t + [e], inputs) && IdsIdentify(t + [e])
  {
    IdsWiden(t, inputs);
    if t != [] && e.request == t[|t| - 1].request {
      assert forall i :: 0 <= i <= |t| ==> (t + [e])[i].request == t[if i < |t| then i else |t| - 1].request;
    } else {
      assert inputs[|inputs| - 1].request_id == (t + [e])[|t|].request.request_id;
    }
  }

  lemma IdsWiden(t: seq<Sent>, inputs: seq<Input>)
    requires inputs != [] && FreshIds(inputs) && IdsDrawnFrom(t, inputs[..|inputs| - 1])
    ensures IdsDrawnFrom(t, inputs)
    ensures forall i :: 0 <= i < |t| ==> t[i].request.request_id != inputs[|inputs| - 1].request_id
  {
    var n := |inputs| - 1;
    forall i | 0 <= i < |t|
      ensures Supplied(t[i].request.request_id, inputs)
      ensures t[i].request.request_id != inputs[n].request_id
    {
      assert Supplied(t[i].request.request_id, inputs[..n]);
      var k :| 0 <= k < n && inputs[..n][k].request_id == t[i].request.request_id;
      assert inputs[k].request_id == t[i].request.request_id;
    }
  }

  lemma IdsStep(process: Uuid, inputs: seq<Input>)
    requires inputs != [] && FreshIds(inputs)
    requires var l := Run(process, inputs[..|inputs| - 1]);
             IdsDrawnFrom(l.trace, inputs[..|inputs| - 1]) && IdsIdentify(l.trace)
    ensures IdsDrawnFrom(Run(process, inputs).trace, inputs) && IdsIdentify(Run(process, inputs).trace)
  {
    var l, i := Run(process, inputs[..|inputs| - 1]), inputs[|inputs| - 1];
    RunTracks(process, inputs[..|inputs| - 1]);
    IdsWiden(l.trace, inputs);
    if !l.stopped {
      StepUnfold(l, i);
      var sent := Poll(l.client, i).sent;
      if sent.Some? {
        PollSends(l.client, i);
        IdsSnoc(l.trace, sent.value, inputs);
      } else {
        assert l.trace + [] == l.trace;
      }
    }
  }

  /** With fresh identifiers, the request identifier and the sequence number identify the same
      thing: two transmissions share one exactly when they share the other. */
  lemma {:induction false} IdsMatchSequences(process: Uuid, inputs: seq<Input>)
    requires FreshIds(inputs)
    ensures IdsDrawnFrom(Run(process, inputs).trace, inputs) && IdsIdentify(Run(process, inputs).trace)
    ensures var t := Run(process, inputs).trace;
            forall i, j :: 0 <= i < |t| && 0 <= j < |t| ==>
              (t[i].request.request_id == t[j].request.request_id <==>
               t[i].request.sequence == t[j].request.sequence)
  {
    if inputs != [] {
      IdsMatchSequences(process, inputs[..|inputs| - 1]);
      IdsStep(process, inputs);
    }
    SequencesAreExactlyOnce(process, inputs);
  }

  // ---------------------------------------------------------------- sleeping

  /** How many sleeps immediately before position `i` followed a retry. */
  function RetriesBefore(s: seq<Sleep>, i: nat): nat
    requires i <= |s|
  {
    if i == 0 || !s[i - 1].afterRetry then 0 else 1 + RetriesBefore(s, i - 1)
  }

  lemma {:induction false} RetriesBeforePrefix(s: seq<Sleep>, u: seq<Sleep>, i: nat)
    requires i <= |s|
    ensures RetriesBefore(s + u, i) == RetriesBefore(s, i)
  {
    if i > 0 {
      RetriesBeforePrefix(s, u, i - 1);
    }
  }

  lemma {:induction false} Pow2Grows(n: nat)
    ensures n >= 5 ==> Pow2(n) >= 32
    ensures Pow2(n) >= 1
  {
    if n > 0 {
      Pow2Grows(n - 1);
    }
    if n == 5 {
      assert Pow2(5) == 2 * Pow2(4) == 4 * Pow2(3) == 8 * Pow2(2) == 16 * Pow2(1) == 32;
    }
  }

  /** The saturating attempt counter loses nothing: the backoff of the k-th consecutive retry is
      min(2^k, 30) seconds for every k. */
  lemma BackoffExact(k: nat)
    ensures Backoff(Min(k, U32_MAX)) == Min(Pow2(k), 30)
    ensures 1 <= Min(Pow2(k), 30) <= 30
  {
    Pow2Grows(k);
    Pow2Grows(5);
  }

  /** A sleep is its base with at most a fifth added or taken away. */
  ghost predicate SleepOk(s: seq<Sleep>, i: nat)
    requires i < |s|
  {
    && (s[i].afterRetry ==> exists f: Factor ::
          s[i].ms == Jittered(1000 * Min(Pow2(RetriesBefore(s, i)), 30), f))
    && (s[i].afterRetry ==> 800 <= s[i].ms <= 36_000)
    && (!s[i].afterRetry ==> 4_000 <= s[i].ms <= 72_000)
  }

  lemma JitterBounds(ms: nat, f: Factor, lo: nat, hi: nat)
    requires lo <= ms <= hi
    ensures lo * 80 / 100 <= Jittered(ms, f) <= hi * 120 / 100
  {
    assert lo * 80 <= ms * f <= hi * 120;
  }

  ghost predicate Paced(attempt: u32, sleeps: seq<Sleep>) {
    && attempt == Min(RetriesBefore(sleeps, |sleeps|), U32_MAX)
    && (forall i :: 0 <= i < |sleeps| ==> SleepOk(sleeps, i))
  }

  lemma SleepSnoc(s: seq<Sleep>, e: Sleep)
    requires forall i :: 0 <= i < |s| ==> SleepOk(s, i)
    requires e.afterRetry ==> exists f: Factor ::
               e.ms == Jittered(1000 * Min(Pow2(RetriesBefore(s, |s|)), 30), f)
    requires !e.afterRetry ==> 4_000 <= e.ms <= 72_000
    ensures forall i :: 0 <= i < |s| + 1 ==> SleepOk(s + [e], i)
    ensures RetriesBefore(s + [e], |s| + 1) == if e.afterRetry then 1 + RetriesBefore(s, |s|) else 0
  {
    var u := s + [e];
    RetriesBeforePrefix(s, [e], |s|);
    forall i | 0 <= i < |u| ensures SleepOk(u, i) {
      if i < |s| {
        assert SleepOk(s, i);
        RetriesBeforePrefix(s, [e], i);
      } else if e.afterRetry {
        var base := Min(Pow2(RetriesBefore(s, |s|)), 30);
        BackoffExact(RetriesBefore(s, |s|));
        var f: Factor :| e.ms == Jittered(1000 * base, f);
        JitterBounds(1000 * base, f, 1000, 30_000);
      }
    }
  }

  lemma RetryPaced(attempt: u32, sleeps: seq<Sleep>, f: Factor)
    requires Paced(attempt, sleeps)
    ensures Paced(if attempt == U32_MAX then U32_MAX else attempt + 1, sleeps + [Sleep(true, RetryDelay(attempt, f))])
  {
    BackoffExact(RetriesBefore(sleeps, |sleeps|));
    SleepSnoc(sleeps, Sleep(true, RetryDelay(attempt, f)));
  }

  lemma WaitPaced(attempt: u32, sleeps: seq<Sleep>, ms: nat, f: Factor)
    requires Paced(attempt, sleeps) && 5_000 <= ms <= 60_000
    ensures Paced(0, sleeps + [Sleep(false, Jittered(ms, f))])
  {
    JitterBounds(ms, f, 5_000, 60_000);
    SleepSnoc(sleeps, Sleep(false, Jittered(ms, f)));
  }

  lemma WaitIsLive(s: Client, i: Input)
    requires Inv(s) && Poll(s, i).outcome.Wait?
    ensures 5_000 <= Poll(s, i).outcome.ms <= 60_000
  {
  }

  lemma StepPaced(l: Loop, i: Input)
    requires Inv(l.client) && Paced(l.retry_attempt, l.sleeps) && !l.stopped
    ensures Paced(LoopStep(l, i).retry_attempt, LoopStep(l, i).sleeps)
  {
    match Poll(l.client, i).outcome {
      case Stop =>
      case Retry(_) => RetryPaced(l.retry_attempt, l.sleeps, i.jitter);
      case Wait(ms) =>
        WaitIsLive(l.client, i);
        WaitPaced(l.retry_attempt, l.sleeps, ms, i.jitter);
    }
  }

  lemma {:induction false} RunPaced(process: Uuid, inputs: seq<Input>)
    ensures Paced(Run(process, inputs).retry_attempt, Run(process, inputs).sleeps)
  {
    if inputs != [] {
      var front := inputs[..|inputs| - 1];
      RunPaced(process, front);
      RunTracks(process, front);
      if !Run(process, front).stopped {
        StepPaced(Run(process, front), inputs[|inputs| - 1]);
      }
    }
  }

  // ---------------------------------------------------------------- waits and acceptances

  /** The delays that the accepted responses asked for, in order. */
  function Delays(t: seq<Sent>): seq<nat> {
    if t == [] then []
    else
      var last := t[|t| - 1];
      Delays(t[..|t| - 1]) + if last.accepted() then [last.response.value.poll_after_ms] else []
  }

  /** The sleeps that did not follow a retry, in order. */
  function WaitTimes(s: seq<Sleep>): seq<nat> {
    if s == [] then []
    else
      var last := s[|s| - 1];
      WaitTimes(s[..|s| - 1]) + if last.afterRetry then [] else [last.ms]
  }

  ghost predicate WithinAFifth(ms: nat, base: nat) { exists f: Factor :: ms == Jittered(base, f) }

  /** The k-th wait is the k-th delay with at most a fifth added or taken away. */
  ghost predicate WaitsFor(waits: seq<nat>, delays: seq<nat>) {
    |waits| == |delays| && forall k :: 0 <= k < |waits| ==> WithinAFifth(waits[k], delays[k])
  }

  lemma DelaysSnoc(t: seq<Sent>, sent: Option<Sent>)
    ensures Delays(t + Appended(sent)) ==
            Delays(t) + if sent.Some? && sent.value.accepted() then [sent.value.response.value.poll_after_ms] else []
  {
    if sent.Some? {
      assert (t + [sent.value])[..|t|] == t;
    } else {
      assert t + [] == t && Delays(t) + [] == Delays(t);
    }
  }

  lemma WaitTimesSnoc(s: seq<Sleep>, e: Sleep)
    ensures WaitTimes(s + [e]) == WaitTimes(s) + if e.afterRetry then [] else [e.ms]
  {
    assert (s + [e])[..|s|] == s;
  }

  lemma WaitsForSnoc(waits: seq<nat>, delays: seq<nat>, base: nat, f: Factor)
    requires WaitsFor(waits, delays)
    ensures WaitsFor(waits + [Jittered(base, f)], delays + [base])
  {
    assert WithinAFifth(Jittered(base, f), base);
  }

  lemma PollDelay(s: Client, i: Input)
    requires Inv(s)
    ensures var p := Poll(s, i);
            && (p.outcome.Wait? <==> p.sent.Some? && p.sent.value.accepted())
            && (p.outcome.Wait? ==> p.sent.value.response.value.poll_after_ms == p.outcome.ms)
  {
    if Poll(s, i).sent.Some? {
      PollSends(s, i);
    } else {
      PollSilent(s, i);
    }
  }

  lemma StepWaits(l: Loop, i: Input)
    requires Inv(l.client) && !l.stopped && WaitsFor(WaitTimes(l.sleeps), Delays(l.trace))
    ensures WaitsFor(WaitTimes(LoopStep(l, i).sleeps), Delays(LoopStep(l, i).trace))
  {
    hide Poll;
    hide Jittered;
    PollDelay(l.client, i);
    var p := Poll(l.client, i);
    DelaysSnoc(l.trace, p.sent);
    assert WaitTimes(l.sleeps) + [] == WaitTimes(l.sleeps) && Delays(l.trace) + [] == Delays(l.trace);
    match p.outcome {
      case Stop =>
      case Retry(_) => WaitTimesSnoc(l.sleeps, Sleep(true, RetryDelay(l.retry_attempt, i.jitter)));
      case Wait(ms) =>
        WaitTimesSnoc(l.sleeps, Sleep(false, Jittered(ms, i.jitter)));
        WaitsForSnoc(WaitTimes(l.sleeps), Delays(l.trace), ms, i.jitter);
    }
  }

  lemma {:induction false} RunWaits(process: Uuid, inputs: seq<Input>)
    ensures WaitsFor(WaitTimes(Run(process, inputs).sleeps), Delays(Run(process, inputs).trace))
  {
    if inputs != [] {
      var front := inputs[..|inputs| - 1];
      RunWaits(process, front);
      RunTracks(process, front);
      if !Run(process, front).stopped {
        StepWaits(Run(process, front), inputs[|inputs| - 1]);
      }
    }
  }

  /** Pacing, for every run: the k-th consecutive retry (from 0) sleeps min(2^k, 30) seconds within
      a fifth; the sleeps that end such streaks are, one by one and in order, the delays the accepted
      responses asked for, within a fifth; and every sleep lies between 800 milliseconds and 72
      seconds. */
  lemma SleepsArePaced(process: Uuid, inputs: seq<Input>)
    ensures var l := Run(process, inputs);
            && (forall i :: 0 <= i < |l.sleeps| ==> SleepOk(l.sleeps, i) && 800 <= l.sleeps[i].ms <= 72_000)
            && WaitsFor(WaitTimes(l.sleeps), Delays(l.trace))
  {
    RunPaced(process, inputs);
    RunWaits(process, inputs);
    var l := Run(process, inputs);
    forall i | 0 <= i < |l.sleeps| ensures SleepOk(l.sleeps, i) && 800 <= l.sleeps[i].ms <= 72_000 {
      assert SleepOk(l.sleeps, i);
    }
  }

  // ---------------------------------------------------------------- what is sent, when, and for how long

  /** Once stopped, the loop sends nothing and sleeps no more, whatever follows. */
  lemma {:induction false} StoppedIsFinal(process: Uuid, inputs: seq<Input>, n: nat)
    requires n <= |inputs| && Run(process, inputs[..n]).stopped
    ensures Run(process, inputs) == Run(process, inputs[..n])
  {
    if n == |inputs| {
      assert inputs[..n] == inputs;
    } else {
      var front := inputs[..|inputs| - 1];
      assert front[..n] == inputs[..n];
      StoppedIsFinal(process, front, n);
    }
  }

  /** The session of the last accepted response. */
  function LastSession(t: seq<Sent>): Option<Session> {
    if t == [] then None
    else if t[|t| - 1].accepted() then Some(t[|t| - 1].response.value.session)
    else LastSession(t[..|t| - 1])
  }

  /** The request of this process for a capacity, in the session and at the sequence that `t` leads to. */
  ghost predicate FormedAfter(process: Uuid, t: seq<Sent>, r: PollRequest) {
    && r == PollRequest(ProtocolRange(1, 1), process, LastSession(t), r.request_id, r.sequence, r.capacity,
                        [], [], [], [])
    && r.sequence == 1 + Accepted(t)
    && ValidCapacity(r.capacity)
  }

  ghost predicate AllFormed(process: Uuid, t: seq<Sent>) {
    forall i :: 0 <= i < |t| ==> FormedAfter(process, t[..i], t[i].request)
  }

  lemma AllFormedSnoc(process: Uuid, t: seq<Sent>, e: Sent)
    requires AllFormed(process, t) && FormedAfter(process, t, e.request)
    ensures AllFormed(process, t + [e])
  {
    hide FormedAfter;
    var u := t + [e];
    assert t[..|t|] == t;
    forall i | 0 <= i < |u| ensures FormedAfter(process, u[..i], u[i].request) {
      assert u[..i] == t[..i];
    }
  }

  lemma SentIsFormed(s: Client, i: Input, t: seq<Sent>)
    requires Tracks(s, t) && LastSession(t) == s.session && Poll(s, i).sent.Some?
    ensures FormedAfter(s.process_instance_id, t, Poll(s, i).sent.value.request)
    ensures LastSession(t + [Poll(s, i).sent.value]) == Poll(s, i).client.session
  {
    hide Poll, Acceptable, ValidCapacity, CapacityFault;
    PollIterates(s, i);
    CapacityAcceptedIffValid(Poll(s, i).sent.value.request.capacity);
    assert (t + [Poll(s, i).sent.value])[..|t|] == t;
  }

  lemma StepFormed(process: Uuid, l: Loop, i: Input)
    requires !l.stopped && Tracks(l.client, l.trace) && l.client.process_instance_id == process
    requires AllFormed(process, l.trace) && LastSession(l.trace) == l.client.session
    ensures AllFormed(process, LoopStep(l, i).trace)
    ensures LastSession(LoopStep(l, i).trace) == LoopStep(l, i).client.session
  {
    hide AllFormed, FormedAfter, LoopStep, Poll;
    StepUnfold(l, i);
    var p := Poll(l.client, i);
    if p.sent.Some? {
      SentIsFormed(l.client, i, l.trace);
      AllFormedSnoc(process, l.trace, p.sent.value);
    } else {
      PollSilent(l.client, i);
      assert l.trace + [] == l.trace;
    }
  }

  /** Every request of every run is this process's, offers version 1 and nothing else, is about a valid
      capacity, and names the session that the last accepted response granted. */
  lemma {:induction false} RequestsAreFormed(process: Uuid, inputs: seq<Input>)
    ensures AllFormed(process, Run(process, inputs).trace)
    ensures LastSession(Run(process, inputs).trace) == Run(process, inputs).client.session
  {
    hide AllFormed, LoopStep;
    if inputs == [] {
      NothingSent(process);
    } else {
      var front := inputs[..|inputs| - 1];
      RequestsAreFormed(process, front);
      RunTracks(process, front);
      SessionNeverGoesBack(process, front, 0);
      var l := Run(process, front);
      if l.stopped {
        assert inputs[..|front|] == front;
        StoppedIsFinal(process, inputs, |front|);
      } else {
        StepFormed(process, l, inputs[|inputs| - 1]);
      }
    }
  }

  lemma NothingSent(process: Uuid)
    ensures AllFormed(process, Run(process, []).trace)
    ensures LastSession(Run(process, []).trace) == Run(process, []).client.session
  {
  }

  /** Sleep `k` is the one after iteration `k`: the backoff of its streak, or the delay its response asked for,
      times that iteration's jitter in per cent. */
  ghost predicate SleepsAfter(s: seq<Sleep>, inputs: seq<Input>, k: nat)
    requires k < |s| && k < |inputs|
  {
    if s[k].afterRetry then s[k].ms == 1000 * Min(Pow2(RetriesBefore(s, k)), 30) * inputs[k].jitter / 100
    else
      && inputs[k].reply.Answer? && inputs[k].reply.r.Ok?
      && s[k].ms == inputs[k].reply.r.value.poll_after_ms * inputs[k].jitter / 100
  }

  ghost predicate AllSleepsAfter(s: seq<Sleep>, inputs: seq<Input>) {
    |s| <= |inputs| && forall k :: 0 <= k < |s| ==> SleepsAfter(s, inputs, k)
  }

  lemma SleepsAfterWiden(s: seq<Sleep>, extra: seq<Sleep>, inputs: seq<Input>)
    requires inputs != [] && AllSleepsAfter(s, inputs[..|inputs| - 1])
    ensures |s| <= |s + extra| && forall k :: 0 <= k < |s| ==> SleepsAfter(s + extra, inputs, k)
  {
    forall k | 0 <= k < |s| ensures SleepsAfter(s + extra, inputs, k) {
      assert SleepsAfter(s, inputs[..|inputs| - 1], k);
      RetriesBeforePrefix(s, extra, k);
    }
  }

  lemma StepSleeps(l: Loop, inputs: seq<Input>)
    requires inputs != [] && !l.stopped && |l.sleeps| == |inputs| - 1
    requires Inv(l.client) && AllSleepsAfter(l.sleeps, inputs[..|inputs| - 1])
    requires l.retry_attempt == Min(RetriesBefore(l.sleeps, |l.sleeps|), U32_MAX)
    ensures var m := LoopStep(l, inputs[|inputs| - 1]);
            AllSleepsAfter(m.sleeps, inputs) && (!m.stopped ==> |m.sleeps| == |inputs|)
  {
    hide Poll, Acceptable, SleepsAfter, Pow2, Backoff;
    var i := inputs[|inputs| - 1];
    PollIterates(l.client, i);
    var outcome := Poll(l.client, i).outcome;
    var m := LoopStep(l, i);
    if outcome.Stop? {
      SleepsAfterWiden(l.sleeps, [], inputs);
      assert l.sleeps + [] == l.sleeps;
    } else {
      SleepsAfterWiden(l.sleeps, [m.sleeps[|l.sleeps|]], inputs);
      LastSleep(l, inputs);
    }
  }

  lemma LastSleep(l: Loop, inputs: seq<Input>)
    requires inputs != [] && !l.stopped && |l.sleeps| == |inputs| - 1 && Inv(l.client)
    requires l.retry_attempt == Min(RetriesBefore(l.sleeps, |l.sleeps|), U32_MAX)
    requires !Poll(l.client, inputs[|inputs| - 1]).outcome.Stop?
    ensures var m := LoopStep(l, inputs[|inputs| - 1]);
            |m.sleeps| == |inputs| && SleepsAfter(m.sleeps, inputs, |l.sleeps|)
  {
    hide Poll, Acceptable, Pow2, Backoff;
    var i := inputs[|inputs| - 1];
    PollIterates(l.client, i);
    BackoffExact(RetriesBefore(l.sleeps, |l.sleeps|));
    RetriesBeforePrefix(l.sleeps, [LoopStep(l, i).sleeps[|l.sleeps|]], |l.sleeps|);
  }

  /** Every run sleeps once after each iteration until it stops, for exactly the time that iteration's outcome
      and jitter give. */
  lemma {:induction false} SleepsAreExact(process: Uuid, inputs: seq<Input>)
    ensures AllSleepsAfter(Run(process, inputs).sleeps, inputs)
    ensures !Run(process, inputs).stopped ==> |Run(process, inputs).sleeps| == |inputs|
  {
    hide SleepsAfter, LoopStep;
    if inputs != [] {
      var front := inputs[..|inputs| - 1];
      SleepsAreExact(process, front);
      RunTracks(process, front);
      RunPaced(process, front);
      var l := Run(process, front);
      if l.stopped {
        assert inputs[..|front|] == front;
        StoppedIsFinal(process, inputs, |front|);
        SleepsAfterWiden(l.sleeps, [], inputs);
        assert l.sleeps + [] == l.sleeps;
      } else {
        StepSleeps(l, inputs);
      }
    }
  }
}
