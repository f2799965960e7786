/** The order in which the request loop serves its queue (rust/synapse-core-tool/src/llm.rs:223-289): commands are
    taken in the order in which they were submitted, so a close lets everything asked for before it finish. */
module WebSocketOrder {
  import opened Wrappers
  import opened WebSocketLoop

  function RequestsIn(cmds: seq<Cmd>): nat {
    if cmds == [] then 0
    else RequestsIn(cmds[..|cmds| - 1]) + if cmds[|cmds| - 1].Request? then 1 else 0
  }

  /** What has been submitted so far, read off the steps; requests are numbered as they come. */
  function Submitted(resp: nat -> seq<Event>, steps: seq<Step>): seq<Cmd> {
    if steps == [] then []
    else
      var before, step := steps[..|steps| - 1], steps[|steps| - 1];
      var cmds := Submitted(resp, before);
      if !Enabled(Exec(resp, INITIAL, before), step) then cmds
      else if step.Submit? then cmds + [Request(RequestsIn(cmds))]
      else if step.SubmitClose? then cmds + [Close]
      else cmds
  }

  /** What the loop has taken so far, read off what it went on to do. */
  function Taken(resp: nat -> seq<Event>, steps: seq<Step>): seq<Cmd> {
    if steps == [] then []
    else
      var before, step := steps[..|steps| - 1], steps[|steps| - 1];
      var s, cmds := Exec(resp, INITIAL, before), Taken(resp, before);
      if !step.TakeCommand? || !Enabled(s, step) then cmds
      else
        var phase := Apply(resp, s, step).phase;
        cmds + [if phase.Sending? then Request(phase.id) else Close]
  }

  ghost predicate InOrder(s: State, taken: seq<Cmd>, submitted: seq<Cmd>) {
    && taken <= submitted
    && (!s.phase.Exited? ==> taken + s.queue == submitted)
    && |s.chans| == RequestsIn(submitted)
  }

  /** In every run that has not returned, the commands taken so far followed by the queue are the commands submitted
      so far, in order. */
  lemma {:induction false} ServedInOrder(resp: nat -> seq<Event>, steps: seq<Step>)
    ensures InOrder(Exec(resp, INITIAL, steps), Taken(resp, steps), Submitted(resp, steps))
  {
    if steps != [] {
      var before, step := steps[..|steps| - 1], steps[|steps| - 1];
      ServedInOrder(resp, before);
      var s := Exec(resp, INITIAL, before);
      if Enabled(s, step) {
        StepInOrder(resp, s, step, Taken(resp, before), Submitted(resp, before),
                    Taken(resp, steps), Submitted(resp, steps));
      }
    }
  }

  lemma StepInOrder(resp: nat -> seq<Event>, s: State, step: Step, taken: seq<Cmd>, submitted: seq<Cmd>,
                    taken1: seq<Cmd>, submitted1: seq<Cmd>)
    requires InOrder(s, taken, submitted) && Enabled(s, step)
    requires var phase := Apply(resp, s, step).phase;
             taken1 == if step.TakeCommand? then taken + [if phase.Sending? then Request(phase.id) else Close]
                       else taken
    requires submitted1 == if step.Submit? then submitted + [Request(RequestsIn(submitted))]
                           else if step.SubmitClose? then submitted + [Close] else submitted
    ensures InOrder(Apply(resp, s, step), taken1, submitted1)
  {
    var t := Apply(resp, s, step);
    if step.TakeCommand? {
      TakenNext(resp, s);
      Collections.Associate(taken, [s.queue[0]], s.queue[1..]);
    } else if step.Submit? || step.SubmitClose? {
      var cmd := submitted1[|submitted|];
      assert t.queue == s.queue + [cmd] && submitted1[..|submitted|] == submitted;
      Collections.Associate(taken, s.queue, [cmd]);
    } else if !t.phase.Exited? {
      assert t.queue == s.queue && |t.chans| == |s.chans|;
    }
  }

  lemma TakenNext(resp: nat -> seq<Event>, s: State)
    requires Enabled(s, TakeCommand)
    ensures var t := Apply(resp, s, TakeCommand);
            && s.queue == [if t.phase.Sending? then Request(t.phase.id) else Close] + t.queue
            && t.queue == s.queue[1..] && t.chans == s.chans && !t.phase.Exited?
  {
    assert s.queue == [s.queue[0]] + s.queue[1..];
  }

  /** The server has received the frames of the first requests taken; only the last one can be missing. */
  ghost predicate SentInOrder(s: State, taken: seq<Cmd>) {
    && |s.frames| <= |taken|
    && (forall i :: 0 <= i < |s.frames| ==> taken[i] == Request(s.frames[i]))
    && (s.phase.Idle? || s.phase.Streaming? || s.phase.Forwarding? ==> |s.frames| == |taken|)
    && (s.phase.Sending? ==> |s.frames| + 1 == |taken| && taken[|taken| - 1] == Request(s.phase.id))
  }

  lemma {:induction false} FramesFollowOrder(resp: nat -> seq<Event>, steps: seq<Step>)
    ensures SentInOrder(Exec(resp, INITIAL, steps), Taken(resp, steps))
  {
    if steps != [] { FramesFollowOrder(resp, steps[..|steps| - 1]); }
  }

  // ---------------------------------------------------------------------------------------------
  // Closing

  ghost predicate FirstClose(cmds: seq<Cmd>, p: nat) {
    p < |cmds| && cmds[p] == Close && forall i :: 0 <= i < p ==> cmds[i].Request?
  }

  /** The loop takes one close at most, and nothing after it. */
  ghost predicate Stops(s: State, taken: seq<Cmd>) {
    if s.phase == Closing(None) then taken != [] && FirstClose(taken, |taken| - 1)
    else s.phase.Exited? || forall i :: 0 <= i < |taken| ==> taken[i].Request?
  }

  lemma {:induction false} TakesOneClose(resp: nat -> seq<Event>, steps: seq<Step>)
    ensures Stops(Exec(resp, INITIAL, steps), Taken(resp, steps))
  {
    if steps != [] {
      TakesOneClose(resp, steps[..|steps| - 1]);
      NeverHangsUp(resp, steps[..|steps| - 1]);
    }
  }

  lemma {:induction false} RequestsAreNumbered(resp: nat -> seq<Event>, steps: seq<Step>)
    ensures Numbered(Submitted(resp, steps))
  {
    if steps != [] {
      var cmds := Submitted(resp, steps[..|steps| - 1]);
      RequestsAreNumbered(resp, steps[..|steps| - 1]);
      if Submitted(resp, steps) != cmds { NumberedGrows(cmds, Submitted(resp, steps)[|cmds|]); }
    }
  }

  /** Every number below the number of requests is a request's, and once only. */
  ghost predicate Numbered(cmds: seq<Cmd>) {
    && (forall id: nat :: id < RequestsIn(cmds) <==> Request(id) in cmds)
    && (forall i, j :: 0 <= i < j < |cmds| && cmds[i].Request? ==> cmds[i] != cmds[j])
  }

  lemma NumberedGrows(cmds: seq<Cmd>, cmd: Cmd)
    requires Numbered(cmds) && (cmd.Request? ==> cmd.id == RequestsIn(cmds))
    ensures Numbered(cmds + [cmd])
  {
    assert (cmds + [cmd])[..|cmds|] == cmds;
    assert forall c :: c in cmds + [cmd] <==> c in cmds || c == cmd;
    if cmd.Request? { assert cmd !in cmds; }
  }

  /** When the loop hangs up because of a close, every request submitted before the first close has been given its
      whole response, and every later one is still in the queue and has been given nothing. */
  lemma {:induction false} CloseServesFirst(resp: nat -> seq<Event>, steps: seq<Step>, id: nat) returns (p: nat)
    requires EndsAtTerminal(resp)
    requires var s := Exec(resp, INITIAL, steps); s.phase == Closing(None) && id < |s.chans|
    ensures FirstClose(Submitted(resp, steps), p)
    ensures var s, cmds := Exec(resp, INITIAL, steps), Submitted(resp, steps);
            if Request(id) in cmds[..p] then Request(id) !in s.queue && Complete(s.chans[id].sent, resp(id))
            else Request(id) in s.queue && s.chans[id].sent == []
  {
    var s, cmds := Exec(resp, INITIAL, steps), Submitted(resp, steps);
    p := ClosedBehind(resp, steps);
    RequestsAreNumbered(resp, steps);
    RunKeepsInv(resp, steps);
    ServedInOrder(resp, steps);
    assert Request(id) in cmds;
    if Request(id) in cmds[..p] {
      EarlierNotQueued(cmds, p, s.queue, id);
      EndsCompleteBeforeReturn(resp, steps, id);
    }
  }

  /** Up to the close everything has been taken, what is left is the queue. */
  lemma ClosedBehind(resp: nat -> seq<Event>, steps: seq<Step>) returns (p: nat)
    requires Exec(resp, INITIAL, steps).phase == Closing(None)
    ensures var cmds := Submitted(resp, steps);
            FirstClose(cmds, p) && cmds == cmds[..p] + [Close] + Exec(resp, INITIAL, steps).queue
  {
    var s, cmds, taken := Exec(resp, INITIAL, steps), Submitted(resp, steps), Taken(resp, steps);
    ServedInOrder(resp, steps);
    TakesOneClose(resp, steps);
    p := |taken| - 1;
    assert forall i :: 0 <= i < |taken| ==> cmds[i] == taken[i];
    assert taken == cmds[..p] + [Close];
  }

  lemma EarlierNotQueued(cmds: seq<Cmd>, p: nat, queue: seq<Cmd>, id: nat)
    requires Numbered(cmds) && p < |cmds| && cmds == cmds[..p] + [Close] + queue && Request(id) in cmds[..p]
    ensures Request(id) !in queue
  {
    var i :| 0 <= i < p && cmds[..p][i] == Request(id);
    forall j | 0 <= j < |queue|
      ensures queue[j] != Request(id)
    {
      assert cmds[i] == Request(id) && cmds[p + 1 + j] == queue[j];
    }
  }

  // ---------------------------------------------------------------------------------------------
  // What the loop waits for

  /** A response event ends its request if and only if it completes, fails or cuts short the response or reports an
      error; after any other event the loop goes on reading. */
  lemma {:induction false} TerminalEndsRequest(resp: nat -> seq<Event>, steps: seq<Step>)
    requires Enabled(Exec(resp, INITIAL, steps), Forward)
    ensures var s := Exec(resp, INITIAL, steps);
            var t, e := Apply(resp, s, Forward), s.phase.event;
            && (t.phase == Idle <==>
                  e.ErrorEvent? ||
                  (e.Stream? && e.kind in {"response.completed", "response.failed", "response.incomplete"}))
            && (t.phase != Idle ==> t.phase == Streaming(s.phase.id))
  {
  }

  lemma {:induction false} QueueBounded(resp: nat -> seq<Event>, steps: seq<Step>)
    ensures |Exec(resp, INITIAL, steps).queue| <= 8
  {
    if steps != [] { QueueBounded(resp, steps[..|steps| - 1]); }
  }

  /** Back-pressure: a command has to wait exactly when eight are queued, and an event or error for an iterator that is
      still held exactly when 64 items are unread. */
  lemma {:induction false} WaitsIff(resp: nat -> seq<Event>, steps: seq<Step>)
    requires EndsAtTerminal(resp)
    ensures var s := Exec(resp, INITIAL, steps);
            && (s.handles > 0 && !s.phase.Exited? ==> (!Enabled(s, Submit) <==> |s.queue| == 8))
            && (s.handles > 0 && !s.phase.Exited? ==> (!Enabled(s, SubmitClose) <==> |s.queue| == 8))
            && (s.phase.Forwarding? || s.phase.Failing? ==> s.phase.id < |s.chans|)
            && (s.phase.Forwarding? && s.chans[s.phase.id].rxOpen ==>
                  (!Enabled(s, Forward) <==> |s.chans[s.phase.id].sent| == s.chans[s.phase.id].taken + 64))
            && (s.phase.Failing? && s.chans[s.phase.id].rxOpen ==>
                  (!Enabled(s, ReportFailure) <==> |s.chans[s.phase.id].sent| == s.chans[s.phase.id].taken + 64))
  {
    RunKeepsInv(resp, steps);
    QueueBounded(resp, steps);
  }
}
