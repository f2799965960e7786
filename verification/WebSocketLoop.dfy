/** The persistent Responses WebSocket: one background task owns the socket and serves queued requests
    one at a time (rust/synapse-core-tool/src/llm.rs).  Requesters, consumers, the loop and the server
    interleave freely; every statement below is about all of their interleavings. */
module WebSocketLoop {
  import opened Wrappers
  import Collections

  /** What the socket yields: a typed stream event, a nested error, or a provider extension event. */
  datatype Event =
    | Stream(kind: string, body: string)
    | ErrorEvent(message: string)
    | Unknown(data: string)

  /** The flag `websocket_event_to_json` returns beside the text. */
  predicate IsTerminal(e: Event) {
    match e
    case Stream(kind, _) =>
      kind == "response.completed" || kind == "response.failed" || kind == "response.incomplete"
    case ErrorEvent(_) => true
    case Unknown(_) => false
  }

  datatype Item = Chunk(event: Event) | Failure

  datatype Cmd = Request(id: nat) | Close

  /** Where the loop stands between two of its awaits. */
  datatype Phase =
    | Idle
    | Sending(id: nat)
    | Streaming(id: nat)
    | Forwarding(id: nat, event: Event)
    | Failing(id: nat)
    | Closing(held: Option<nat>)   // `ws.close().await` before a return; a failed request's sender still exists
    | Exited

  /** One per-request channel: all items ever put in, how many the iterator took, and whether it still exists. */
  datatype Channel = Channel(sent: seq<Item>, taken: nat, rxOpen: bool)

  /** `handles` are the senders of the command queue outside the loop, `frames` the requests the server has
      received, `outbox` what it has still to say about them, `wire` what it has said and nobody has read. */
  datatype State = State(
    handles: nat,
    queue: seq<Cmd>,
    phase: Phase,
    frames: seq<nat>,
    outbox: seq<Event>,
    wire: seq<Event>,
    chans: seq<Channel>)

  const COMMAND_CAPACITY: nat := 8
  const CHANNEL_CAPACITY: nat := 64

  const INITIAL := State(1, [], Idle, [], [], [], [])

  datatype Step =
    | Submit                 // `RustWebSocket.request` puts a command in the queue
    | SubmitClose            // `WebSocketConnection::close`
    | CloneHandle
    | DropHandle
    | HangUp                 // every sender is gone: `recv` answers None
    | TakeCommand
    | SendFrame
    | SendFails
    | ServerEmits
    | Receive
    | ReceiveFails
    | Forward                // `tx.send(Ok(json))` goes through
    | ForwardRefused         // the consumer dropped its iterator
    | ReportFailure          // `tx.send(Err(..))`, delivered or refused
    | Return                 // the socket is closed and the loop returns
    | ConsumerTakes(who: nat)
    | ConsumerDrops(who: nat)

  predicate HasRoom(c: Channel) {
    |c.sent| - c.taken < CHANNEL_CAPACITY
  }

  /** The senders of the command queue.  The spawned loop owns its connection, and with it a sender, until it has
      returned. */
  function Senders(s: State): nat {
    s.handles + if s.phase.Exited? then 0 else 1
  }

  predicate Enabled(s: State, step: Step) {
    match step
    case Submit => s.handles > 0 && !s.phase.Exited? && |s.queue| < COMMAND_CAPACITY
    case SubmitClose => s.handles > 0 && !s.phase.Exited? && |s.queue| < COMMAND_CAPACITY
    case CloneHandle => s.handles > 0
    case DropHandle => s.handles > 0
    case HangUp => s.phase.Idle? && s.queue == [] && Senders(s) == 0
    case TakeCommand => s.phase.Idle? && s.queue != []
    case SendFrame => s.phase.Sending?
    case SendFails => s.phase.Sending?
    case ServerEmits => s.outbox != []
    case Receive => s.phase.Streaming? && s.wire != []
    case ReceiveFails => s.phase.Streaming?
    case Forward =>
      s.phase.Forwarding? && s.phase.id < |s.chans| &&
      s.chans[s.phase.id].rxOpen && HasRoom(s.chans[s.phase.id])
    case ForwardRefused => s.phase.Forwarding? && s.phase.id < |s.chans| && !s.chans[s.phase.id].rxOpen
    case ReportFailure =>
      s.phase.Failing? && s.phase.id < |s.chans| &&
      (s.chans[s.phase.id].rxOpen ==> HasRoom(s.chans[s.phase.id]))
    case Return => s.phase.Closing?
    case ConsumerTakes(who) => who < |s.chans| && s.chans[who].rxOpen && s.chans[who].taken < |s.chans[who].sent|
    case ConsumerDrops(who) => who < |s.chans| && s.chans[who].rxOpen
  }

  /** The request whose sender the loop itself holds. */
  function Held(p: Phase): Option<nat> {
    match p
    case Idle => None
    case Closing(held) => held
    case Exited => None
    case _ => Some(p.id)
  }

  function Put(s: State, id: nat, item: Item): State
    requires id < |s.chans|
  {
    s.(chans := s.chans[id := s.chans[id].(sent := s.chans[id].sent + [item])])
  }

  /** `resp(id)` is the whole sequence of events the server produces for request `id`. */
  function Apply(resp: nat -> seq<Event>, s: State, step: Step): State
    requires Enabled(s, step)
  {
    match step
    case Submit => s.(queue := s.queue + [Request(|s.chans|)], chans := s.chans + [Channel([], 0, true)])
    case SubmitClose => s.(queue := s.queue + [Close])
    case CloneHandle => s.(handles := s.handles + 1)
    case DropHandle => s.(handles := s.handles - 1)
    case HangUp => s.(phase := Closing(None))
    case TakeCommand =>
      s.(queue := s.queue[1..], phase := if s.queue[0].Request? then Sending(s.queue[0].id) else Closing(None))
    case SendFrame =>
      s.(phase := Streaming(s.phase.id), frames := s.frames + [s.phase.id], outbox := s.outbox + resp(s.phase.id))
    case SendFails => s.(phase := Failing(s.phase.id))
    case ServerEmits => s.(outbox := s.outbox[1..], wire := s.wire + [s.outbox[0]])
    case Receive => s.(wire := s.wire[1..], phase := Forwarding(s.phase.id, s.wire[0]))
    case ReceiveFails => s.(phase := Failing(s.phase.id))
    case Forward =>
      Put(s, s.phase.id, Chunk(s.phase.event)).
      (phase := if IsTerminal(s.phase.event) then Idle else Streaming(s.phase.id))
    case ForwardRefused => s.(phase := Closing(Some(s.phase.id)))
    case ReportFailure =>
      (if s.chans[s.phase.id].rxOpen then Put(s, s.phase.id, Failure) else s).(phase := Closing(Some(s.phase.id)))
    case Return => s.(phase := Exited, queue := [])
    case ConsumerTakes(who) => s.(chans := s.chans[who := s.chans[who].(taken := s.chans[who].taken + 1)])
    case ConsumerDrops(who) => s.(chans := s.chans[who := s.chans[who].(rxOpen := false)])
  }

  /** A step that cannot be taken leaves the state alone, so every step sequence is a run. */
  function Do(resp: nat -> seq<Event>, s: State, step: Step): State {
    if Enabled(s, step) then Apply(resp, s, step) else s
  }

  function Exec(resp: nat -> seq<Event>, s: State, steps: seq<Step>): State {
    if steps == [] then s
    else Do(resp, Exec(resp, s, steps[..|steps| - 1]), steps[|steps| - 1])
  }

  /** The server's side of the protocol: nothing follows the first terminal event of a response. */
  ghost predicate EndsAtTerminal(resp: nat -> seq<Event>) {
    forall id, k :: 0 <= k < |resp(id)| - 1 ==> !IsTerminal(resp(id)[k])
  }

  // ---------------------------------------------------------------------------------------------
  // What a consumer may see

  function Chunks(es: seq<Event>): (items: seq<Item>)
    ensures |items| == |es|
    ensures forall k :: 0 <= k < |es| ==> items[k] == Chunk(es[k])
  {
    seq(|es|, k requires 0 <= k < |es| => Chunk(es[k]))
  }

  ghost predicate IsPrefixOfResponse(items: seq<Item>, r: seq<Event>) {
    |items| <= |r| && items == Chunks(r[..|items|])
  }

  /** A prefix of the request's own response, possibly followed by one error. */
  ghost predicate Explained(items: seq<Item>, r: seq<Event>) {
    || IsPrefixOfResponse(items, r)
    || (items != [] && items[|items| - 1] == Failure && IsPrefixOfResponse(items[..|items| - 1], r))
  }

  ghost predicate Complete(items: seq<Item>, r: seq<Event>) {
    r != [] && IsTerminal(r[|r| - 1]) && items == Chunks(r)
  }

  ghost predicate ForwardedTerminal(items: seq<Item>) {
    exists k :: 0 <= k < |items| && items[k].Chunk? && IsTerminal(items[k].event)
  }

  /** The sender half of `id` still exists: queued, or in the loop's hands.  Otherwise its iterator ends after what
      it has been given. */
  ghost predicate TxAlive(s: State, id: nat) {
    Request(id) in s.queue || Held(s.phase) == Some(id)
  }

  // ---------------------------------------------------------------------------------------------
  // The inductive invariant

  /** What is still to come of the active request, starting with the event in the loop's hand. */
  function Coming(s: State): seq<Event> {
    (if s.phase.Forwarding? then [s.phase.event] else []) + s.wire + s.outbox
  }

  ghost predicate NoTerminal(es: seq<Event>) {
    forall k :: 0 <= k < |es| ==> !IsTerminal(es[k])
  }

  /** The request in the loop's hands has been given exactly the part of its response already read. */
  ghost predicate ActiveOk(resp: nat -> seq<Event>, s: State) {
    match s.phase
    case Idle => s.wire == [] && s.outbox == []
    case Exited => true
    case Closing(None) => true
    case Closing(Some(id)) =>
      id < |s.chans| && Settled(resp(id), s, id) && (s.chans[id].rxOpen ==> Failure in s.chans[id].sent)
    case Sending(id) => id < |s.chans| && s.wire == [] && s.outbox == [] && s.chans[id].sent == [] && id !in s.frames
    case Failing(id) =>
      && id < |s.chans|
      && IsPrefixOfResponse(s.chans[id].sent, resp(id)) && NoTerminal(resp(id)[..|s.chans[id].sent|])
    case Streaming(id) => id < |s.chans| && InFlight(resp(id), s, id)
    case Forwarding(id, _) => id < |s.chans| && InFlight(resp(id), s, id)
  }

  ghost predicate InFlight(r: seq<Event>, s: State, id: nat)
    requires id < |s.chans|
  {
    var sent := s.chans[id].sent;
    IsPrefixOfResponse(sent, r) && NoTerminal(r[..|sent|]) && r[|sent|..] == Coming(s)
  }

  ghost predicate Settled(r: seq<Event>, s: State, id: nat)
    requires id < |s.chans|
  {
    var c := s.chans[id];
    || Complete(c.sent, r)
    || (c.sent != [] && c.sent[|c.sent| - 1] == Failure && IsPrefixOfResponse(c.sent[..|c.sent| - 1], r) &&
        NoTerminal(r[..|c.sent| - 1]))
    || (!c.rxOpen && IsPrefixOfResponse(c.sent, r) && NoTerminal(r[..|c.sent|]))
    || (c.sent == [] && id !in s.frames)
  }

  /** An iterator ends with its whole response as long as the loop has not returned. */
  ghost predicate Ended(r: seq<Event>, s: State, id: nat)
    requires id < |s.chans|
  {
    if s.phase.Exited? then Settled(r, s, id) else Complete(s.chans[id].sent, r)
  }

  ghost predicate QueueOk(s: State) {
    && (forall i :: 0 <= i < |s.queue| && s.queue[i].Request? ==>
          s.queue[i].id < |s.chans| && s.chans[s.queue[i].id].sent == [] && s.queue[i].id !in s.frames)
    && (forall i, j :: 0 <= i < j < |s.queue| && s.queue[i].Request? ==> s.queue[i] != s.queue[j])
    && (Held(s.phase).Some? ==> Held(s.phase).value < |s.chans| && Request(Held(s.phase).value) !in s.queue)
    && (s.phase.Exited? ==> s.queue == [])
    && (forall f :: f in s.frames ==> f < |s.chans|)
  }

  ghost predicate Inv(resp: nat -> seq<Event>, s: State) {
    && QueueOk(s)
    && ActiveOk(resp, s)
    && (forall id :: 0 <= id < |s.chans| ==>
          s.chans[id].taken <= |s.chans[id].sent| <= s.chans[id].taken + CHANNEL_CAPACITY)
    && (forall id :: 0 <= id < |s.chans| && !TxAlive(s, id) ==> Ended(resp(id), s, id))
  }

  lemma {:induction false} StepKeepsInv(resp: nat -> seq<Event>, s: State, step: Step)
    requires EndsAtTerminal(resp) && Inv(resp, s) && Enabled(s, step)
    ensures Inv(resp, Apply(resp, s, step))
  {
    match step
    case Submit => SubmitKeeps(resp, s);
    case TakeCommand => TakeKeeps(resp, s);
    case ServerEmits => EmitKeeps(resp, s);
    case Receive => ReceiveKeeps(resp, s);
    case SendFrame => SendKeeps(resp, s);
    case Forward => ForwardKeeps(resp, s);
    case SubmitClose => SubmitCloseKeeps(resp, s);
    case HangUp => assert false;
    case ForwardRefused | ReportFailure => ClosingKeeps(resp, s, step);
    case Return => ReturnKeeps(resp, s);
    case CloneHandle | DropHandle => HandleKeeps(resp, s, step);
    case SendFails | ReceiveFails => FailureKeeps(resp, s, step);
    case ConsumerTakes(who) => ConsumerKeeps(resp, s, step, who);
    case ConsumerDrops(who) => ConsumerKeeps(resp, s, step, who);
  }

  lemma ReceiveKeeps(resp: nat -> seq<Event>, s: State)
    requires Inv(resp, s) && Enabled(s, Receive)
    ensures Inv(resp, Apply(resp, s, Receive))
  {
    var t := Apply(resp, s, Receive);
    assert Coming(t) == Coming(s);
    forall id | 0 <= id < |t.chans| && !TxAlive(t, id) ensures Ended(resp(id), t, id) { assert !TxAlive(s, id); }
  }

  lemma SendKeeps(resp: nat -> seq<Event>, s: State)
    requires Inv(resp, s) && Enabled(s, SendFrame)
    ensures Inv(resp, Apply(resp, s, SendFrame))
  {
    var t := Apply(resp, s, SendFrame);
    assert Coming(t) == resp(s.phase.id);
    forall i | 0 <= i < |t.chans| && !TxAlive(t, i) ensures Ended(resp(i), t, i) { assert !TxAlive(s, i); }
  }

  lemma SubmitCloseKeeps(resp: nat -> seq<Event>, s: State)
    requires Inv(resp, s) && Enabled(s, SubmitClose)
    ensures Inv(resp, Apply(resp, s, SubmitClose))
  {
    var t := Apply(resp, s, SubmitClose);
    assert forall c :: c in s.queue ==> c in t.queue;
    assert Coming(t) == Coming(s);
    forall id | 0 <= id < |t.chans| && !TxAlive(t, id) ensures Ended(resp(id), t, id) { assert !TxAlive(s, id); }
  }

  lemma FailureKeeps(resp: nat -> seq<Event>, s: State, step: Step)
    requires Inv(resp, s) && Enabled(s, step) && (step.SendFails? || step.ReceiveFails?)
    ensures Inv(resp, Apply(resp, s, step))
  {
    var t := Apply(resp, s, step);
    forall id | 0 <= id < |t.chans| && !TxAlive(t, id) ensures Ended(resp(id), t, id) { assert !TxAlive(s, id); }
  }

  lemma SubmitQueueOk(resp: nat -> seq<Event>, s: State)
    requires QueueOk(s) && Enabled(s, Submit)
    ensures QueueOk(Apply(resp, s, Submit)) && Request(|s.chans|) in Apply(resp, s, Submit).queue
  {
    assert Apply(resp, s, Submit).queue[|s.queue|] == Request(|s.chans|);
  }

  lemma SubmitKeeps(resp: nat -> seq<Event>, s: State)
    requires Inv(resp, s) && Enabled(s, Submit)
    ensures Inv(resp, Apply(resp, s, Submit))
  {
    var t := Apply(resp, s, Submit);
    assert Coming(t) == Coming(s);
    SubmitQueueOk(resp, s);
    assert forall c :: c in s.queue ==> c in t.queue;
    forall id | 0 <= id < |t.chans| && !TxAlive(t, id)
      ensures Ended(resp(id), t, id)
    {
      assert !TxAlive(s, id);
    }
  }

  lemma TakeKeeps(resp: nat -> seq<Event>, s: State)
    requires Inv(resp, s) && Enabled(s, TakeCommand)
    ensures Inv(resp, Apply(resp, s, TakeCommand))
  {
    var t := Apply(resp, s, TakeCommand);
    assert s.queue[0] in s.queue;
    assert forall c :: c in s.queue ==> c == s.queue[0] || c in s.queue[1..];
    forall id | 0 <= id < |t.chans| && !TxAlive(t, id)
      ensures Ended(resp(id), t, id)
    {
      assert s.queue[0].Request? ==> !TxAlive(s, id);
    }
  }

  lemma EmitKeeps(resp: nat -> seq<Event>, s: State)
    requires Inv(resp, s) && Enabled(s, ServerEmits)
    ensures Inv(resp, Apply(resp, s, ServerEmits))
  {
    var t := Apply(resp, s, ServerEmits);
    assert t.wire + t.outbox == s.wire + s.outbox;
    assert Coming(t) == Coming(s) by {
      var hand := if s.phase.Forwarding? then [s.phase.event] else [];
      assert Coming(s) == hand + (s.wire + s.outbox);
      assert Coming(t) == hand + (t.wire + t.outbox);
    }
    forall id | 0 <= id < |t.chans| && !TxAlive(t, id) ensures Ended(resp(id), t, id) { assert !TxAlive(s, id); }
  }

  /** Forwarding the next event of a response leaves the rest of it to come; nothing follows a terminal event. */
  lemma {:induction false} NextOfResponse(r: seq<Event>, sent: seq<Item>, e: Event, rest: seq<Event>)
    requires IsPrefixOfResponse(sent, r) && NoTerminal(r[..|sent|]) && r[|sent|..] == [e] + rest
    requires forall k :: 0 <= k < |r| - 1 ==> !IsTerminal(r[k])
    ensures IsPrefixOfResponse(sent + [Chunk(e)], r) && r[|sent| + 1..] == rest
    ensures IsTerminal(e) ==> rest == [] && Complete(sent + [Chunk(e)], r)
    ensures !IsTerminal(e) ==> NoTerminal(r[..|sent| + 1])
  {
    var n := |sent|;
    Collections.OneFurther(r, n);
    assert r[n] == e;
    if IsTerminal(e) {
      assert n == |r| - 1;
      assert r[..n + 1] == r;
    }
  }

  lemma ForwardKeeps(resp: nat -> seq<Event>, s: State)
    requires EndsAtTerminal(resp) && Inv(resp, s) && Enabled(s, Forward)
    ensures Inv(resp, Apply(resp, s, Forward))
  {
    var t := Apply(resp, s, Forward);
    var id := s.phase.id;
    var r, n := resp(id), |s.chans[id].sent|;
    NextOfResponse(r, s.chans[id].sent, s.phase.event, s.wire + s.outbox);
    forall i | 0 <= i < |t.chans| && !TxAlive(t, i)
      ensures Ended(resp(i), t, i)
    {
      if i != id { assert !TxAlive(s, i); }
    }
  }

  lemma HandleKeeps(resp: nat -> seq<Event>, s: State, step: Step)
    requires Inv(resp, s) && Enabled(s, step) && (step.CloneHandle? || step.DropHandle?)
    ensures Inv(resp, Apply(resp, s, step))
  {
    var t := Apply(resp, s, step);
    assert Coming(t) == Coming(s);
    forall i | 0 <= i < |t.chans| && !TxAlive(t, i) ensures Ended(resp(i), t, i) { assert !TxAlive(s, i); }
  }

  lemma ClosingKeeps(resp: nat -> seq<Event>, s: State, step: Step)
    requires Inv(resp, s) && Enabled(s, step) && (step.ForwardRefused? || step.ReportFailure?)
    ensures Inv(resp, Apply(resp, s, step))
  {
    var t := Apply(resp, s, step);
    ActiveSettles(resp, s, step);
    forall i | 0 <= i < |t.chans| && !TxAlive(t, i) ensures Ended(resp(i), t, i) { assert !TxAlive(s, i); }
  }

  /** A request that fails has been given the error, or nobody listens any more. */
  lemma {:induction false} ActiveSettles(resp: nat -> seq<Event>, s: State, step: Step)
    requires Inv(resp, s) && Enabled(s, step) && (step.ForwardRefused? || step.ReportFailure?)
    ensures var t := Apply(resp, s, step);
            Settled(resp(s.phase.id), t, s.phase.id) &&
            (t.chans[s.phase.id].rxOpen ==> Failure in t.chans[s.phase.id].sent)
  {
    var t, id := Apply(resp, s, step), s.phase.id;
    if step.ReportFailure? && s.chans[id].rxOpen {
      var sent := t.chans[id].sent;
      assert sent == s.chans[id].sent + [Failure];
      assert sent[..|sent| - 1] == s.chans[id].sent && sent[|sent| - 1] == Failure;
    }
  }

  /** The return settles every request: the loop drops the senders it still has. */
  lemma {:induction false} ReturnKeeps(resp: nat -> seq<Event>, s: State)
    requires Inv(resp, s) && Enabled(s, Return)
    ensures Inv(resp, Apply(resp, s, Return))
  {
    var t := Apply(resp, s, Return);
    forall i | 0 <= i < |s.chans|
      ensures Settled(resp(i), t, i)
    {
      if !TxAlive(s, i) {
        assert Ended(resp(i), s, i);
      } else if Request(i) in s.queue {
        assert s.chans[i].sent == [];
      }
    }
  }

  lemma ConsumerKeeps(resp: nat -> seq<Event>, s: State, step: Step, who: nat)
    requires Inv(resp, s) && Enabled(s, step)
    requires step == ConsumerTakes(who) || step == ConsumerDrops(who)
    ensures Inv(resp, Apply(resp, s, step))
  {
    var t := Apply(resp, s, step);
    assert forall i :: 0 <= i < |s.chans| ==> t.chans[i].sent == s.chans[i].sent;
    assert Coming(t) == Coming(s);
    forall i | 0 <= i < |t.chans| && !TxAlive(t, i) ensures Ended(resp(i), t, i) { assert !TxAlive(s, i); }
  }

  lemma {:induction false} RunKeepsInv(resp: nat -> seq<Event>, steps: seq<Step>)
    requires EndsAtTerminal(resp)
    ensures Inv(resp, Exec(resp, INITIAL, steps))
  {
    if steps != [] {
      var before := steps[..|steps| - 1];
      RunKeepsInv(resp, before);
      if Enabled(Exec(resp, INITIAL, before), steps[|steps| - 1]) {
        StepKeepsInv(resp, Exec(resp, INITIAL, before), steps[|steps| - 1]);
      }
    }
  }

  // ---------------------------------------------------------------------------------------------
  // Main results

  /** In every run, whatever request `id`'s iterator has been given is a prefix of the server's own response
      to `id`, possibly followed by one error; it is the whole response exactly when a terminal event went
      through.  So no request ever receives an event left over from another. */
  lemma {:induction false} DeliveredIsOwnResponse(resp: nat -> seq<Event>, steps: seq<Step>, id: nat)
    requires EndsAtTerminal(resp)
    requires id < |Exec(resp, INITIAL, steps).chans|
    ensures var c := Exec(resp, INITIAL, steps).chans[id];
            && c.taken <= |c.sent|
            && Explained(c.sent, resp(id))
            && Explained(c.sent[..c.taken], resp(id))
            && (ForwardedTerminal(c.sent) <==> Complete(c.sent, resp(id)))
  {
    RunKeepsInv(resp, steps);
    var s := Exec(resp, INITIAL, steps);
    InvExplains(resp, s, id);
    PrefixExplained(s.chans[id].sent, resp(id), s.chans[id].taken);
  }

  lemma InvExplains(resp: nat -> seq<Event>, s: State, id: nat)
    requires Inv(resp, s) && id < |s.chans|
    ensures s.chans[id].taken <= |s.chans[id].sent|
    ensures Explained(s.chans[id].sent, resp(id))
    ensures ForwardedTerminal(s.chans[id].sent) <==> Complete(s.chans[id].sent, resp(id))
  {
    var sent := s.chans[id].sent;
    var r := resp(id);
    if !TxAlive(s, id) || (s.phase.Closing? && s.phase.held == Some(id)) {
      SettledExplains(r, s, id);
    } else if Request(id) in s.queue {
      assert sent == [];
    } else {
      assert IsPrefixOfResponse(sent, r) && NoTerminal(r[..|sent|]);
      assert r != [] && |sent| == |r| ==> r[..|sent|][|r| - 1] == r[|r| - 1];
    }
  }

  lemma SettledExplains(r: seq<Event>, s: State, id: nat)
    requires id < |s.chans| && Settled(r, s, id)
    ensures Explained(s.chans[id].sent, r)
    ensures ForwardedTerminal(s.chans[id].sent) <==> Complete(s.chans[id].sent, r)
  {
    var sent := s.chans[id].sent;
    if Complete(sent, r) {
      assert r[..|r|] == r;
      assert sent[|r| - 1] == Chunk(r[|r| - 1]);
    }
  }

  lemma PrefixExplained(items: seq<Item>, r: seq<Event>, n: nat)
    requires n <= |items| && Explained(items, r)
    ensures Explained(items[..n], r)
  {
    if IsPrefixOfResponse(items, r) {
      assert items[..n] == Chunks(r[..n]);
    } else if n < |items| {
      var body := items[..|items| - 1];
      assert items[..n] == body[..n];
      assert body[..n] == Chunks(r[..n]);
    } else {
      assert items[..n] == items;
    }
  }

  /** Whenever the loop is ready for its next command, or about to send the next frame, nothing the server
      said about an earlier request is unread or still to come. */
  lemma {:induction false} NothingUnreadBetweenRequests(resp: nat -> seq<Event>, steps: seq<Step>)
    requires EndsAtTerminal(resp)
    ensures var s := Exec(resp, INITIAL, steps);
            s.phase.Idle? || s.phase.Sending? ==> s.wire == [] && s.outbox == []
  {
    RunKeepsInv(resp, steps);
  }

  /** As long as the loop has not returned, an iterator ends only with its whole response. */
  lemma {:induction false} EndsCompleteBeforeReturn(resp: nat -> seq<Event>, steps: seq<Step>, id: nat)
    requires EndsAtTerminal(resp)
    requires id < |Exec(resp, INITIAL, steps).chans|
    ensures var s := Exec(resp, INITIAL, steps);
            !s.phase.Exited? && !TxAlive(s, id) ==> Complete(s.chans[id].sent, resp(id))
  {
    RunKeepsInv(resp, steps);
  }

  /** When it returns, every iterator ends, and one that is still held stops short of its response without an error
      if and only if its request was still in the queue. */
  lemma {:induction false} SilentEndIff(resp: nat -> seq<Event>, steps: seq<Step>, id: nat)
    requires EndsAtTerminal(resp)
    requires var s := Exec(resp, INITIAL, steps);
             Enabled(s, Return) && id < |s.chans| && s.chans[id].rxOpen
    ensures var s, t := Exec(resp, INITIAL, steps), Exec(resp, INITIAL, steps + [Return]);
            && id < |t.chans| && !TxAlive(t, id)
            && (Failure !in t.chans[id].sent && !Complete(t.chans[id].sent, resp(id)) <==> Request(id) in s.queue)
  {
    RunKeepsInv(resp, steps);
    ExecUnrolls(resp, INITIAL, steps, Return);
    ReturnIff(resp, Exec(resp, INITIAL, steps), id);
  }

  lemma {:induction false} ReturnIff(resp: nat -> seq<Event>, s: State, id: nat)
    requires Inv(resp, s) && Enabled(s, Return) && id < |s.chans| && s.chans[id].rxOpen
    ensures Failure !in s.chans[id].sent && !Complete(s.chans[id].sent, resp(id)) <==> Request(id) in s.queue
  {
    if Request(id) in s.queue {
      assert s.chans[id].sent == [];
    } else if Held(s.phase) != Some(id) {
      assert Ended(resp(id), s, id);
    }
  }

  /** The loop owns a sender of its own queue, so `recv` never answers None. */
  lemma {:induction false} NeverHangsUp(resp: nat -> seq<Event>, steps: seq<Step>)
    ensures !Enabled(Exec(resp, INITIAL, steps), HangUp)
  {
  }

  /** Once every handle is dropped while the loop waits for a command, it waits forever. */
  lemma {:induction false} OrphanWaitsForever(resp: nat -> seq<Event>, s: State, steps: seq<Step>)
    requires s.handles == 0 && s.phase.Idle? && s.queue == []
    ensures var t := Exec(resp, s, steps); t.handles == 0 && t.phase.Idle? && t.queue == []
  {
    if steps != [] { OrphanWaitsForever(resp, s, steps[..|steps| - 1]); }
  }

  /** One such run: two requests are queued and sending the first one fails. */
  lemma {:induction false} SilentEndIsReachable(resp: nat -> seq<Event>)
    ensures var s := Exec(resp, INITIAL, [Submit, Submit, TakeCommand, SendFails]);
            Request(1) in s.queue && |s.chans| == 2 && s.chans[1].rxOpen &&
            Enabled(s, ReportFailure) && Enabled(Apply(resp, s, ReportFailure), Return)
  {
    TwoSubmitted(resp);
    var two := [Submit, Submit];
    ExecUnrolls(resp, INITIAL, two, TakeCommand);
    ExecUnrolls(resp, INITIAL, two + [TakeCommand], SendFails);
    assert two + [TakeCommand] + [SendFails] == [Submit, Submit, TakeCommand, SendFails];
    assert Exec(resp, INITIAL, two + [TakeCommand]).queue == [Request(1)];
  }

  lemma TwoSubmitted(resp: nat -> seq<Event>)
    ensures var s := Exec(resp, INITIAL, [Submit, Submit]);
            && s.queue == [Request(0), Request(1)] && s.phase == Idle
            && s.chans == [Channel([], 0, true), Channel([], 0, true)]
  {
    ExecUnrolls(resp, INITIAL, [], Submit);
    ExecUnrolls(resp, INITIAL, [Submit], Submit);
    assert [Submit] + [Submit] == [Submit, Submit];
    assert Exec(resp, INITIAL, [Submit]).chans == [Channel([], 0, true)];
    assert Exec(resp, INITIAL, [Submit]).handles == 1;
  }

  lemma ExecUnrolls(resp: nat -> seq<Event>, s: State, steps: seq<Step>, step: Step)
    ensures Exec(resp, s, steps + [step]) == Do(resp, Exec(resp, s, steps), step)
    ensures steps == [] ==> Exec(resp, s, [step]) == Do(resp, s, step)
  {
    assert (steps + [step])[..|steps|] == steps;
    if steps == [] { assert steps + [step] == [step]; }
  }
}
