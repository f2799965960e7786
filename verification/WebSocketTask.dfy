/** The code of `websocket_loop_inner` (rust/synapse-core-tool/src/llm.rs:223-277), loop for loop, over the shared
    queue, channels and socket.  `Valid` says that everything done so far is a run of WebSocketLoop, so all that
    module proves about runs holds of the code at each of its awaits. */
module WebSocketTask {
  import opened Wrappers
  import opened WebSocketLoop

  /** What an await comes back with; `Pending` means it had not come back when the observation stopped. */
  datatype Await<T> = Ready(value: T) | Broken | Pending

  class Connection {
    const resp: nat -> seq<Event>
    var handles: nat                // senders of the queue outside the loop
    var queue: seq<Cmd>
    var wire: seq<Event>
    var chans: seq<Channel>
    var phase: Phase                // where the code stands
    var outbox: seq<Event>          // what the server has still to say
    ghost var frames: seq<nat>      // what the server has received
    ghost var trace: seq<Step>      // every atomic step taken so far, by anyone

    ghost function View(): State
      reads this
    {
      State(handles, queue, phase, frames, outbox, wire, chans)
    }

    ghost predicate Valid()
      reads this
    {
      && EndsAtTerminal(resp)
      && View() == Exec(resp, INITIAL, trace)
      && Inv(resp, View())
    }

    constructor (resp: nat -> seq<Event>)
      requires EndsAtTerminal(resp)
      ensures Valid() && View() == INITIAL && trace == []
    {
      this.resp := resp;
      handles, queue, wire, chans := 1, [], [], [];
      phase, frames, outbox, trace := Idle, [], [], [];
    }

    /** At every await of the code, each iterator has been given its own response and nothing else. */
    lemma {:induction false} IteratorsSeeOnlyTheirResponse(id: nat)
      requires Valid() && id < |chans|
      ensures Explained(chans[id].sent, resp(id))
      ensures ForwardedTerminal(chans[id].sent) <==> Complete(chans[id].sent, resp(id))
    {
      InvExplains(resp, View(), id);
    }

    /** Writes down a step that has just been carried out on the fields. */
    ghost method Record(step: Step, before: State)
      requires EndsAtTerminal(resp) && before == Exec(resp, INITIAL, trace) && Inv(resp, before)
      requires Enabled(before, step) && View() == Apply(resp, before, step)
      modifies this`trace
      ensures Valid() && trace == old(trace) + [step]
    {
      ExecUnrolls(resp, INITIAL, trace, step);
      StepKeepsInv(resp, before, step);
      trace := trace + [step];
    }

    /** Any number of steps of requesters, consumers and the server. */
    method Others()
      requires Valid()
      modifies this
      ensures Valid() && old(trace) <= trace && phase == old(phase)
    {
      var rounds: nat := *;
      while rounds > 0
        invariant Valid() && old(trace) <= trace && phase == old(phase)
      {
        rounds := rounds - 1;
        var what: nat := *;
        if what == 0 {
          SomeRequester();
        } else if what == 3 {
          SomeHandle();
        } else if what == 1 {
          SomeConsumer();
        } else {
          ServerMayEmit();
        }
      }
    }

    method SomeRequester()
      requires Valid()
      modifies this
      ensures Valid() && old(trace) <= trace && phase == old(phase)
    {
      ghost var before := View();
      var close: bool := *;
      if handles > 0 && |queue| < COMMAND_CAPACITY && !phase.Exited? {
        if close {
          queue := queue + [Close];
          Record(SubmitClose, before);
        } else {
          queue, chans := queue + [Request(|chans|)], chans + [Channel([], 0, true)];
          Record(Submit, before);
        }
      }
    }

    method SomeHandle()
      requires Valid()
      modifies this
      ensures Valid() && old(trace) <= trace && phase == old(phase)
    {
      ghost var before := View();
      var drop: bool := *;
      if handles > 0 {
        handles := if drop then handles - 1 else handles + 1;
        Record(if drop then DropHandle else CloneHandle, before);
      }
    }

    method SomeConsumer()
      requires Valid()
      modifies this
      ensures Valid() && old(trace) <= trace && phase == old(phase)
    {
      ghost var before := View();
      var who: nat := *;
      var drop: bool := *;
      if 0 <= who < |chans| && chans[who].rxOpen {
        if drop {
          chans := chans[who := chans[who].(rxOpen := false)];
          Record(ConsumerDrops(who), before);
        } else if chans[who].taken < |chans[who].sent| {
          chans := chans[who := chans[who].(taken := chans[who].taken + 1)];
          Record(ConsumerTakes(who), before);
        }
      }
    }

    method ServerMayEmit()
      requires Valid()
      modifies this
      ensures Valid() && old(trace) <= trace && phase == old(phase)
    {
      ghost var before := View();
      if outbox != [] {
        wire, outbox := wire + [outbox[0]], outbox[1..];
        Record(ServerEmits, before);
      }
    }

    /** `cmd_rx.recv().await`; the loop's own sender keeps it from ever coming back empty. */
    method RecvCommand() returns (r: Await<Cmd>)
      requires Valid() && phase.Idle?
      modifies this
      ensures Valid() && old(trace) <= trace
      ensures match r
              case Ready(Request(id)) => phase == Sending(id)
              case Ready(Close) => phase == Closing(None)
              case Broken => false
              case Pending => phase.Idle?
    {
      Others();
      ghost var before := View();
      if queue != [] {
        r := Ready(queue[0]);
        phase := if queue[0].Request? then Sending(queue[0].id) else Closing(None);
        queue := queue[1..];
        Record(TakeCommand, before);
      } else {
        r := Pending;
      }
    }

    /** `ws.send_raw(data).await` */
    method SendRaw(id: nat) returns (ok: bool)
      requires Valid() && phase == Sending(id)
      modifies this
      ensures Valid() && old(trace) <= trace
      ensures phase == if ok then Streaming(id) else Failing(id)
    {
      Others();
      ghost var before := View();
      ok := *;
      if ok {
        phase, frames, outbox := Streaming(id), frames + [id], outbox + resp(id);
        Record(WebSocketLoop.SendFrame, before);
      } else {
        phase := Failing(id);
        Record(SendFails, before);
      }
    }

    /** `ws.recv().await` */
    method Recv(id: nat) returns (r: Await<Event>)
      requires Valid() && phase == Streaming(id)
      modifies this
      ensures Valid() && old(trace) <= trace
      ensures match r
              case Ready(e) => phase == Forwarding(id, e)
              case Broken => phase == Failing(id)
              case Pending => phase == Streaming(id)
    {
      Others();
      ghost var before := View();
      var broken: bool := *;
      if broken {
        phase := Failing(id);
        Record(ReceiveFails, before);
        r := Broken;
      } else if wire != [] {
        r := Ready(wire[0]);
        phase := Forwarding(id, wire[0]);
        wire := wire[1..];
        Record(WebSocketLoop.Receive, before);
      } else {
        r := Pending;
      }
    }

    /** `tx.send(Ok(json)).await`; the sender is dropped with a terminal event. */
    method SendChunk(id: nat, e: Event) returns (r: Await<()>)
      requires Valid() && phase == Forwarding(id, e)
      modifies this
      ensures Valid() && old(trace) <= trace
      ensures match r
              case Ready(_) => phase == if IsTerminal(e) then Idle else Streaming(id)
              case Broken => phase == Closing(Some(id))
              case Pending => phase == Forwarding(id, e)
    {
      Others();
      ghost var before := View();
      if !chans[id].rxOpen {
        phase := Closing(Some(id));
        Record(ForwardRefused, before);
        r := Broken;
      } else if HasRoom(chans[id]) {
        chans := chans[id := chans[id].(sent := chans[id].sent + [Chunk(e)])];
        phase := if IsTerminal(e) then Idle else Streaming(id);
        Record(WebSocketLoop.Forward, before);
        r := Ready(());
      } else {
        r := Pending;
      }
    }

    /** `tx.send(Err(..)).await`, whose outcome is ignored. */
    method SendError(id: nat) returns (r: Await<()>)
      requires Valid() && phase == Failing(id)
      modifies this
      ensures Valid() && old(trace) <= trace
      ensures phase == if r.Pending? then Failing(id) else Closing(Some(id))
    {
      Others();
      ghost var before := View();
      if !chans[id].rxOpen {
        phase := Closing(Some(id));
        Record(WebSocketLoop.ReportFailure, before);
        r := Broken;
      } else if HasRoom(chans[id]) {
        chans := chans[id := chans[id].(sent := chans[id].sent + [Failure])];
        phase := Closing(Some(id));
        Record(WebSocketLoop.ReportFailure, before);
        r := Ready(());
      } else {
        r := Pending;
      }
    }

    /** `ws.close().await` and the return; whatever was queued meanwhile goes with the receiver. */
    method CloseAndReturn()
      requires Valid() && phase.Closing?
      modifies this
      ensures Valid() && old(trace) <= trace && phase.Exited? && queue == []
    {
      Others();
      ghost var before := View();
      phase, queue := Exited, [];
      Record(WebSocketLoop.Return, before);
    }

    /** The inner loop: stream one request's events until a terminal one.  `patience` bounds how long it is
        watched, not what it does. */
    method StreamEvents(id: nat, patience: nat) returns (r: Await<()>, left: nat)
      requires Valid() && phase == Streaming(id)
      modifies this
      ensures Valid() && old(trace) <= trace && left <= patience
      ensures r.Ready? ==> phase.Idle?
      ensures r.Broken? ==> phase == Closing(Some(id))
    {
      left := patience;
      while left > 0
        invariant Valid() && old(trace) <= trace && phase == Streaming(id) && left <= patience
      {
        left := left - 1;
        var got := Recv(id);
        if got.Pending? { return Pending, left; }
        if got.Broken? {
          var told := SendError(id);
          return if told.Pending? then Pending else Broken, left;
        }
        var passed := SendChunk(id, got.value);
        if !passed.Ready? { return passed, left; }
        if IsTerminal(got.value) { return Ready(()), left; }
      }
      return Pending, left;
    }

    /** The background task. */
    method RunLoop(patience: nat) returns (returned: bool)
      requires Valid() && phase.Idle?
      modifies this
      ensures Valid() && old(trace) <= trace
      ensures returned ==> phase.Exited?
    {
      var left := patience;
      while left > 0
        invariant Valid() && phase.Idle? && old(trace) <= trace
      {
        left := left - 1;
        var cmd := RecvCommand();
        if cmd.Pending? { return false; }
        if cmd.value.Close? {
          CloseAndReturn();
          return true;
        }
        var sent := SendRaw(cmd.value.id);
        if !sent {
          var told := SendError(cmd.value.id);
          if told.Pending? { return false; }
          CloseAndReturn();
          return true;
        }
        var served, rest := StreamEvents(cmd.value.id, left);
        if served.Pending? { return false; }
        if served.Broken? {
          CloseAndReturn();
          return true;
        }
        left := rest;
      }
      return false;
    }
  }
}
