/** The cached connection slot of `RustOpenAIClient`: openers, closers and exiting tasks meet in one
    `Mutex<Option<Arc<WebSocketConnection>>>` (rust/synapse-core-tool/src/llm.rs:47-62, 315-338, 488-568).
    Whoever opens or closes holds the connect lock, so the state needs only what the holder is doing. */
module WebSocketSlot {
  import opened Wrappers

  /** A connection's task: dialling, serving, back from its loop but not yet at the slot, finished. */
  datatype Status = Connecting | Serving | Returned | Finished

  /** `ready` is the answer on the oneshot channel, `told` that a Close command has been queued. */
  datatype Conn = Conn(status: Status, ready: bool, told: bool)

  /** What the holder of the connect lock is in the middle of. */
  datatype Holder = Nobody | AwaitingReady(conn: nat) | FoundOwn(conn: nat) | SendingClose(conn: nat)

  datatype State = State(slot: Option<nat>, holder: Holder, conns: seq<Conn>)

  const INITIAL := State(None, Nobody, [])

  datatype Step =
    | OpenLooks                     // open_websocket up to spawning the loop
    | Dialled(conn: nat)
    | DialFails(conn: nat)
    | OpenFinishes                  // open_websocket from `block_on(ready_rx)` on
    | LoopReturns(conn: nat)
    | TaskClears(conn: nat)         // websocket_loop, after its inner loop
    | HandleLooks(conn: nat)        // RustWebSocket.close: is the cached one mine?
    | HandleTakes                   // RustWebSocket.close: take
    | ClientTakes                   // close_websocket: take
    | CloseQueued                   // `cmd_tx.send(Close)` goes through

  /** `cmd_tx.is_closed()`: the loop has dropped its receiver. */
  predicate IsClosed(c: Conn) {
    c.status.Returned? || c.status.Finished?
  }

  predicate Enabled(s: State, step: Step) {
    match step
    case OpenLooks => s.holder.Nobody?
    case Dialled(c) => c < |s.conns| && s.conns[c].status.Connecting?
    case DialFails(c) => c < |s.conns| && s.conns[c].status.Connecting?
    case OpenFinishes =>
      s.holder.AwaitingReady? && s.holder.conn < |s.conns| && !s.conns[s.holder.conn].status.Connecting?
    case LoopReturns(c) => c < |s.conns| && s.conns[c].status.Serving?
    case TaskClears(c) => c < |s.conns| && s.conns[c].status.Returned?
    case HandleLooks(c) => s.holder.Nobody? && c < |s.conns| && s.conns[c].ready
    case HandleTakes => s.holder.FoundOwn?
    case ClientTakes => s.holder.Nobody?
    case CloseQueued => s.holder.SendingClose? && s.holder.conn < |s.conns|
  }

  predicate Shares(s: State) {
    s.slot.Some? && s.slot.value < |s.conns| && !IsClosed(s.conns[s.slot.value])
  }

  function SetStatus(s: State, c: nat, status: Status): State
    requires c < |s.conns|
  {
    s.(conns := s.conns[c := s.conns[c].(status := status)])
  }

  function Apply(s: State, step: Step): State
    requires Enabled(s, step)
  {
    match step
    case OpenLooks =>
      if Shares(s) then s
      else State(None, AwaitingReady(|s.conns|), s.conns + [Conn(Connecting, false, false)])
    case Dialled(c) => s.(conns := s.conns[c := s.conns[c].(status := Serving, ready := true)])
    case DialFails(c) => SetStatus(s, c, Finished)
    case OpenFinishes =>
      var c := s.holder.conn;
      if !s.conns[c].ready then s.(holder := Nobody)
      else if s.slot.Some? then s.(holder := SendingClose(c))   // lines 535-539
      else s.(slot := Some(c), holder := Nobody)
    case LoopReturns(c) => SetStatus(s, c, Returned)
    case TaskClears(c) =>
      SetStatus(s, c, Finished).(slot := if s.slot == Some(c) then None else s.slot)
    case HandleLooks(c) => if s.slot == Some(c) then s.(holder := FoundOwn(c)) else s
    case HandleTakes => s.(slot := None, holder := SendingClose(s.holder.conn))
    case ClientTakes =>
      (match s.slot
       case Some(c) => s.(slot := None, holder := SendingClose(c))
       case None => s)
    case CloseQueued =>
      var c := s.holder.conn;
      s.(holder := Nobody, conns := s.conns[c := s.conns[c].(told := true)])
  }

  function Do(s: State, step: Step): State {
    if Enabled(s, step) then Apply(s, step) else s
  }

  function Exec(s: State, steps: seq<Step>): State {
    if steps == [] then s else Do(Exec(s, steps[..|steps| - 1]), steps[|steps| - 1])
  }

  // ---------------------------------------------------------------------------------------------

  /** A task that is dialling or serving and that nobody has told to close. */
  ghost predicate Live(s: State, c: nat) {
    c < |s.conns| && !IsClosed(s.conns[c]) && !s.conns[c].told
  }

  ghost predicate Inv(s: State) {
    && (s.slot.Some? ==> s.slot.value < |s.conns| && s.conns[s.slot.value].ready)
    && (!s.holder.Nobody? ==> s.holder.conn < |s.conns|)
    && (s.holder.AwaitingReady? || s.holder.SendingClose? ==> s.slot == None)
    && (s.holder.FoundOwn? ==> s.slot == None || s.slot == Some(s.holder.conn))
    && (forall c :: 0 <= c < |s.conns| && s.conns[c].status.Connecting? ==> s.holder == AwaitingReady(c))
    && (forall c :: 0 <= c < |s.conns| && s.conns[c].status.Connecting? ==> !s.conns[c].ready)
    && (forall c :: 0 <= c < |s.conns| && s.conns[c].status.Serving? ==> s.conns[c].ready)
    && (s.slot.Some? ==> !s.conns[s.slot.value].told)
    && (forall c: nat {:trigger Live(s, c)} :: Live(s, c) ==>
          s.slot == Some(c) || s.holder == AwaitingReady(c) || s.holder == SendingClose(c))
    && (s.holder.AwaitingReady? ==> !s.conns[s.holder.conn].told)
  }

  lemma {:induction false} StepKeepsInv(s: State, step: Step)
    requires Inv(s) && Enabled(s, step)
    ensures Inv(Apply(s, step))
  {
    var t := Apply(s, step);
    forall c: nat | Live(t, c)
      ensures t.slot == Some(c) || t.holder == AwaitingReady(c) || t.holder == SendingClose(c)
    {
      if c < |s.conns| { assert Live(s, c); }
    }
  }

  lemma {:induction false} RunKeepsInv(steps: seq<Step>)
    ensures Inv(Exec(INITIAL, steps))
  {
    if steps != [] {
      var before := steps[..|steps| - 1];
      RunKeepsInv(before);
      if Enabled(Exec(INITIAL, before), steps[|steps| - 1]) {
        StepKeepsInv(Exec(INITIAL, before), steps[|steps| - 1]);
      }
    }
  }

  /** An opener whose handshake succeeded always finds the slot empty: the branch that would hand out an
      existing connection and close the new one is never taken. */
  lemma {:induction false} SlotEmptyWhenStoring(steps: seq<Step>)
    ensures var s := Exec(INITIAL, steps);
            s.holder.AwaitingReady? ==>
              && s.slot == None
              && (Enabled(s, OpenFinishes) && s.conns[s.holder.conn].ready ==>
                    Apply(s, OpenFinishes).slot == Some(s.holder.conn))
  {
    RunKeepsInv(steps);
  }

  /** At most one connection is ever dialling or serving without having been told to close. */
  lemma {:induction false} AtMostOneLive(steps: seq<Step>, c: nat, d: nat)
    requires Live(Exec(INITIAL, steps), c) && Live(Exec(INITIAL, steps), d)
    ensures c == d
  {
    RunKeepsInv(steps);
  }

  /** The connection a step works on. */
  function Owner(s: State, step: Step): Option<nat> {
    match step
    case TaskClears(c) => Some(c)
    case HandleTakes => if s.holder.FoundOwn? then Some(s.holder.conn) else None
    case _ => None
  }

  /** An exiting task and a handle's close remove their own connection or nothing, even though the close
      looks and takes in two separate critical sections. */
  lemma {:induction false} OnlyOwnConnectionRemoved(steps: seq<Step>, step: Step)
    requires step.TaskClears? || step.HandleTakes?
    ensures var s := Exec(INITIAL, steps);
            var t := Do(s, step);
            t.slot != s.slot ==> t.slot == None && s.slot == Owner(s, step)
  {
    RunKeepsInv(steps);
  }

  /** Whatever leaves the slot is finished or about to be told to close. */
  lemma {:induction false} RemovedIsClosedOrClosing(steps: seq<Step>, step: Step, c: nat)
    requires Exec(INITIAL, steps).slot == Some(c) && Do(Exec(INITIAL, steps), step).slot != Some(c)
    ensures var t := Do(Exec(INITIAL, steps), step);
            c < |t.conns| && (IsClosed(t.conns[c]) || t.holder == SendingClose(c))
  {
    RunKeepsInv(steps);
  }

  /** Steps that neither end connection `c` nor ask for its closing; closes through other handles,
      exits of other tasks and any number of opens are all allowed. */
  predicate Spares(step: Step, c: nat) {
    step != LoopReturns(c) && step != HandleLooks(c) && step != ClientTakes
  }

  /** While the cached connection keeps serving and nobody closes it, every open shares it: the slot keeps it
      and not one more handshake is started. */
  lemma {:induction false} OpensShare(before: seq<Step>, after: seq<Step>, c: nat)
    requires var s := Exec(INITIAL, before);
             s.slot == Some(c) && s.holder == Nobody && c < |s.conns| && s.conns[c].status.Serving?
    requires forall i :: 0 <= i < |after| ==> Spares(after[i], c)
    ensures var t := Exec(Exec(INITIAL, before), after);
            && t.slot == Some(c) && t.holder == Nobody
            && |t.conns| == |Exec(INITIAL, before).conns|
            && c < |t.conns| && t.conns[c].status.Serving?
  {
    RunKeepsInv(before);
    if after != [] {
      var rest := after[..|after| - 1];
      OpensShare(before, rest, c);
      assert Spares(after[|after| - 1], c);
    }
  }

  /** An open that cannot share dials a connection of its own; if that succeeds it is cached, otherwise nothing is. */
  lemma {:induction false} OpenDials(steps: seq<Step>)
    requires var s := Exec(INITIAL, steps);
             s.holder == Nobody &&
             (s.slot.Some? && s.slot.value < |s.conns| ==> s.conns[s.slot.value].status in {Returned, Finished})
    ensures var s := Exec(INITIAL, steps);
            var c, dialling := |s.conns|, Do(s, OpenLooks);
            var good := Do(Do(dialling, Dialled(c)), OpenFinishes);
            var bad := Do(Do(dialling, DialFails(c)), OpenFinishes);
            && dialling.holder == AwaitingReady(c)
            && good.holder == Nobody && good.slot == Some(c) && c < |good.conns| && good.conns[c].status == Serving
            && bad.holder == Nobody && bad.slot == None
  {
    RunKeepsInv(steps);
  }

  /** A task that comes back from its loop leaves the slot without its connection. */
  lemma {:induction false} ExitClears(steps: seq<Step>, c: nat)
    requires var s := Exec(INITIAL, steps); c < |s.conns| && s.conns[c].status == Serving
    ensures var s := Exec(INITIAL, steps);
            var t := Do(Do(s, LoopReturns(c)), TaskClears(c));
            && t.slot == (if s.slot == Some(c) then None else s.slot)
            && c < |t.conns| && t.conns[c].status == Finished
  {
  }

  /** Connection `c` has been told to close, or the holder of the connect lock is on the way to telling it. */
  predicate BeingClosed(s: State, c: nat) {
    s.holder == FoundOwn(c) || s.holder == SendingClose(c) || (c < |s.conns| && s.conns[c].told)
  }

  lemma {:induction false} CloseGoesOn(s: State, steps: seq<Step>, c: nat)
    requires BeingClosed(s, c)
    ensures BeingClosed(Exec(s, steps), c)
  {
    if steps != [] { CloseGoesOn(s, steps[..|steps| - 1], c); }
  }

  /** Closing the handle of the cached connection, or the client's cached connection, tells that connection to close:
      whatever happens in between, once the connect lock is free again the Close command has been queued. */
  lemma {:induction false} CloseTellsCached(before: seq<Step>, close: Step, after: seq<Step>, c: nat)
    requires var s := Exec(INITIAL, before); s.slot == Some(c) && s.holder == Nobody
    requires close == HandleLooks(c) || close == ClientTakes
    ensures var t := Exec(Do(Exec(INITIAL, before), close), after);
            t.holder == Nobody ==> c < |t.conns| && t.conns[c].told
  {
    RunKeepsInv(before);
    CloseGoesOn(Do(Exec(INITIAL, before), close), after, c);
  }

  /** The holder gets through without anybody's help. */
  lemma {:induction false} CloseFinishes(before: seq<Step>, c: nat)
    requires var s := Exec(INITIAL, before); s.slot == Some(c) && s.holder == Nobody
    ensures var t := Do(Do(Do(Exec(INITIAL, before), HandleLooks(c)), HandleTakes), CloseQueued);
            t.holder == Nobody && t.slot == None && c < |t.conns| && t.conns[c].told
    ensures var t := Do(Do(Exec(INITIAL, before), ClientTakes), CloseQueued);
            t.holder == Nobody && t.slot == None && c < |t.conns| && t.conns[c].told
  {
    RunKeepsInv(before);
  }

  /** Closing the handle of a connection that is not the cached one changes nothing. */
  lemma {:induction false} StaleHandleIsHarmless(steps: seq<Step>, c: nat)
    requires Exec(INITIAL, steps).slot != Some(c)
    ensures Do(Exec(INITIAL, steps), HandleLooks(c)) == Exec(INITIAL, steps)
  {
  }

  /** At step `i` somebody closes connection `c` while it is the cached one. */
  ghost predicate ClosedAt(steps: seq<Step>, i: nat, c: nat)
    requires i < |steps|
  {
    var s := Exec(INITIAL, steps[..i]);
    s.slot == Some(c) && s.holder == Nobody && (steps[i] == HandleLooks(c) || steps[i] == ClientTakes)
  }

  ghost predicate WasClosed(steps: seq<Step>, c: nat) {
    exists i: nat :: i < |steps| && ClosedAt(steps, i, c)
  }

  /** Nobody is told to close who was not closed while cached. */
  lemma {:induction false} ToldWasClosed(steps: seq<Step>, c: nat)
    requires BeingClosed(Exec(INITIAL, steps), c)
    ensures WasClosed(steps, c)
  {
    var n := |steps| - 1;
    var before := steps[..n];
    RunKeepsInv(before);
    if BeingClosed(Exec(INITIAL, before), c) {
      ToldWasClosed(before, c);
      var i: nat :| i < n && ClosedAt(before, i, c);
      assert before[..i] == steps[..i];
      assert ClosedAt(steps, i, c);
    } else {
      assert ClosedAt(steps, n, c);
    }
  }

  // ---------------------------------------------------------------------------------------------

  /** The shared fields, with each critical section as the code has it. */
  class ConnectionCache {
    var slot: Option<nat>
    var holder: Holder
    var conns: seq<Conn>

    ghost function View(): State
      reads this
    {
      State(slot, holder, conns)
    }

    constructor ()
      ensures View() == INITIAL
    {
      slot, holder, conns := None, Nobody, [];
    }

    /** `open_websocket`, first half: share the cached connection or forget a closed one and dial. */
    method OpenOrSpawn() returns (shared: Option<nat>)
      requires Inv(View()) && holder.Nobody?
      modifies this
      ensures View() == Apply(old(View()), OpenLooks) && Inv(View())
      ensures shared == if Shares(old(View())) then old(slot) else None
      ensures shared == None ==> holder == AwaitingReady(|old(conns)|)
    {
      StepKeepsInv(View(), OpenLooks);
      if slot.Some? {
        if !IsClosed(conns[slot.value]) {
          return slot;
        }
        slot := None;
      }
      holder := AwaitingReady(|conns|);
      conns := conns + [Conn(Connecting, false, false)];
      return None;
    }

    /** `open_websocket`, second half, once the spawned loop has answered. */
    method StoreOrFail() returns (stored: Option<nat>)
      requires Inv(View()) && Enabled(View(), OpenFinishes)
      modifies this
      ensures View() == Apply(old(View()), OpenFinishes) && Inv(View())
      ensures stored == if old(conns[holder.conn].ready) then Some(old(holder.conn)) else None
      ensures stored.Some? ==> slot == stored
    {
      StepKeepsInv(View(), OpenFinishes);
      var c := holder.conn;
      if !conns[c].ready {
        holder := Nobody;
        return None;
      }
      assert slot == None;   // so lines 535-539 are not reached
      slot, holder := Some(c), Nobody;
      return slot;
    }

    /** `websocket_loop` after its inner loop returned. */
    method ClearIfOwn(c: nat)
      requires Inv(View()) && Enabled(View(), TaskClears(c))
      modifies this
      ensures View() == Apply(old(View()), TaskClears(c)) && Inv(View())
      ensures slot != Some(c)
    {
      StepKeepsInv(View(), TaskClears(c));
      conns := conns[c := conns[c].(status := Finished)];
      if slot == Some(c) {
        slot := None;
      }
    }

    /** `RustWebSocket.close`: look, and in a second critical section take. */
    method CloseHandleLook(c: nat) returns (own: bool)
      requires Inv(View()) && Enabled(View(), HandleLooks(c))
      modifies this
      ensures View() == Apply(old(View()), HandleLooks(c)) && Inv(View())
      ensures own <==> old(slot) == Some(c)
    {
      StepKeepsInv(View(), HandleLooks(c));
      own := slot == Some(c);
      if own {
        holder := FoundOwn(c);
      }
    }

    method CloseHandleTake() returns (taken: Option<nat>)
      requires Inv(View()) && holder.FoundOwn?
      modifies this
      ensures View() == Apply(old(View()), HandleTakes) && Inv(View())
      ensures taken == old(slot) && (taken == None || taken == Some(old(holder.conn)))
    {
      StepKeepsInv(View(), HandleTakes);
      taken := slot;
      slot, holder := None, SendingClose(holder.conn);
    }

    /** `close_websocket` */
    method CloseCached() returns (taken: Option<nat>)
      requires Inv(View()) && holder.Nobody?
      modifies this
      ensures View() == Apply(old(View()), ClientTakes) && Inv(View())
      ensures taken == old(slot) && slot == None
    {
      StepKeepsInv(View(), ClientTakes);
      taken := slot;
      if slot.Some? {
        holder := SendingClose(slot.value);
        slot := None;
      }
    }
  }
}
