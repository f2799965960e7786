/** The terminal half of `ClientServiceGateway` (src/synapse/acp/client_services.py:114-191): creates, releases
    and one or more closes of a session interleave; only the release made by a late create is awaited while
    the lock is held. */
module TerminalGateway {
  import Collections
  import opened Wrappers

  /** `_terminals`, `_closed`, and the create that holds the lock while it releases its terminal. */
  datatype Gateway = Gateway(terminals: set<string>, closed: bool, lockedBy: Option<string>)

  /** Around the gateway: `asked` counts create RPCs the client has not answered, `returned` are terminals whose
      create has come back but not yet taken the lock, `releasing` and `sweeping` are terminals whose release
      RPC is still to be sent by `release_terminal` and by `close`.
      `made` and `requested` are history: terminals the client created, releases requested. */
  datatype State = State(
    gateway: Gateway,
    asked: nat,
    returned: multiset<string>,
    releasing: multiset<string>,
    discarding: multiset<string>,
    sweeping: multiset<string>,
    made: set<string>,
    requested: set<string>)

  const INITIAL := State(Gateway({}, false, None), 0, multiset{}, multiset{}, multiset{}, multiset{}, {}, {})

  datatype Step =
    | AskCreate                      // `create_terminal` passes its checks and calls the client
    | CreateFails
    | ClientCreates(id: string)
    | Enroll(id: string)             // the lock section of `create_terminal`
    | LateReleaseSent                // its release inside that section, when the gateway is closed
    | StartRelease(id: string)       // `release_terminal` passes `_require_terminal`
    | ReleaseSent(id: string)
    | Discard(id: string)            // `release_terminal`, its lock section
    | ReleaseFailed(id: string)      // the RPC raised: nothing is discarded
    | Close
    | SweepSent(id: string)

  predicate LockFree(s: State) {
    s.gateway.lockedBy.None?
  }

  predicate Enabled(s: State, step: Step) {
    match step
    case AskCreate => !s.gateway.closed
    case CreateFails => s.asked > 0
    case ClientCreates(_) => s.asked > 0
    case Enroll(id) => LockFree(s) && id in s.returned
    case LateReleaseSent => s.gateway.lockedBy.Some?
    case StartRelease(id) => !s.gateway.closed && id in s.gateway.terminals
    case ReleaseSent(id) => id in s.releasing
    case Discard(id) => LockFree(s) && id in s.discarding
    case ReleaseFailed(id) => id in s.discarding
    case Close => LockFree(s)
    case SweepSent(id) => id in s.sweeping
  }

  function EnrollIn(g: Gateway, id: string): Gateway {
    if g.closed then g.(lockedBy := Some(id)) else g.(terminals := g.terminals + {id})
  }

  function CloseIn(g: Gateway): Gateway {
    if g.closed then g else g.(closed := true, terminals := {})
  }

  function Apply(s: State, step: Step): State
    requires Enabled(s, step)
  {
    match step
    case AskCreate => s.(asked := s.asked + 1)
    case CreateFails => s.(asked := s.asked - 1)
    case ClientCreates(id) =>
      s.(asked := s.asked - 1, returned := s.returned + multiset{id}, made := s.made + {id})
    case Enroll(id) => s.(returned := s.returned - multiset{id}, gateway := EnrollIn(s.gateway, id))
    case LateReleaseSent =>
      s.(requested := s.requested + {s.gateway.lockedBy.value}, gateway := s.gateway.(lockedBy := None))
    case StartRelease(id) => s.(releasing := s.releasing + multiset{id})
    case ReleaseSent(id) =>
      s.(releasing := s.releasing - multiset{id}, discarding := s.discarding + multiset{id},
         requested := s.requested + {id})
    case Discard(id) =>
      s.(discarding := s.discarding - multiset{id}, gateway := s.gateway.(terminals := s.gateway.terminals - {id}))
    case ReleaseFailed(id) => s.(discarding := s.discarding - multiset{id})
    case Close =>
      s.(gateway := CloseIn(s.gateway),
         sweeping := s.sweeping + if s.gateway.closed then multiset{} else multiset(s.gateway.terminals))
    case SweepSent(id) => s.(sweeping := s.sweeping - multiset{id}, requested := s.requested + {id})
  }

  function Do(s: State, step: Step): State {
    if Enabled(s, step) then Apply(s, step) else s
  }

  function Exec(s: State, steps: seq<Step>): State {
    if steps == [] then s else Do(Exec(s, steps[..|steps| - 1]), steps[|steps| - 1])
  }

  // ---------------------------------------------------------------------------------------------

  /** Somebody is still in charge of this terminal, or its release has been requested. */
  ghost predicate Tracked(s: State, id: string) {
    || id in s.gateway.terminals || id in s.returned || s.gateway.lockedBy == Some(id)
    || id in s.sweeping || id in s.requested
  }

  ghost predicate Inv(s: State) {
    && (s.gateway.closed ==> s.gateway.terminals == {})
    && (s.gateway.lockedBy.Some? ==> s.gateway.closed)
    && s.gateway.terminals <= s.made
    && (forall id :: id in s.returned ==> id in s.made)
    && (forall id :: id in s.discarding ==> id in s.requested)
    && (forall id :: id in s.made ==> Tracked(s, id))
  }

  lemma {:induction false} StepKeepsInv(s: State, step: Step)
    requires Inv(s) && Enabled(s, step)
    ensures Inv(Apply(s, step))
  {
    var t := Apply(s, step);
    forall id | id in t.made
      ensures Tracked(t, id)
    {
      if id in s.made { assert Tracked(s, id); }
      StepKeepsTracked(s, step, id);
    }
  }

  lemma StepKeepsTracked(s: State, step: Step, id: string)
    requires Enabled(s, step) && id in Apply(s, step).made && (id in s.made ==> Tracked(s, id))
    requires forall x :: x in s.discarding ==> x in s.requested
    requires s.gateway.closed ==> s.gateway.terminals == {}
    ensures Tracked(Apply(s, step), id)
  {
  }

  lemma {:induction false} RunKeepsInv(steps: seq<Step>)
    ensures Inv(Exec(INITIAL, steps))
  {
    if steps != [] {
      var before := steps[..|steps| - 1];
      RunKeepsInv(before);
      if Enabled(Exec(INITIAL, before), steps[|steps| - 1]) {
        StepKeepsInv(Exec(INITIAL, before), steps[|steps| - 1]);
      }
    }
  }

  lemma {:induction false} ClosedStays(s: State, more: seq<Step>)
    requires s.gateway.closed
    ensures Exec(s, more).gateway.closed
  {
    if more != [] { ClosedStays(s, more[..|more| - 1]); }
  }

  lemma {:induction false} ExecConcat(s: State, steps: seq<Step>, more: seq<Step>)
    ensures Exec(s, steps + more) == Exec(Exec(s, steps), more)
  {
    if more == [] {
      assert steps + more == steps;
    } else {
      var init, last := more[..|more| - 1], more[|more| - 1];
      ExecConcat(s, steps, init);
      ExecUnrolls(s, steps + init, last);
      ExecUnrolls(Exec(s, steps), init, last);
      Collections.LastMoves(steps, more);
    }
  }

  lemma ExecUnrolls(s: State, steps: seq<Step>, step: Step)
    ensures Exec(s, steps + [step]) == Do(Exec(s, steps), step)
  {
    assert (steps + [step])[..|steps|] == steps;
  }

  // ---------------------------------------------------------------------------------------------
  // Main results

  /** The session owns only terminals it had created. */
  lemma {:induction false} OwnedWereCreated(steps: seq<Step>)
    ensures Exec(INITIAL, steps).gateway.terminals <= Exec(INITIAL, steps).made
  {
    RunKeepsInv(steps);
  }

  /** After a close the owned set is empty and stays empty, whatever still comes back. */
  lemma {:induction false} EmptyAfterClose(steps: seq<Step>, more: seq<Step>)
    requires Enabled(Exec(INITIAL, steps), Close)
    ensures Exec(INITIAL, steps + [Close] + more).gateway.terminals == {}
    ensures Exec(INITIAL, steps + [Close] + more).gateway.closed
  {
    assert (steps + [Close])[..|steps|] == steps;
    ExecConcat(INITIAL, steps + [Close], more);
    ClosedStays(Exec(INITIAL, steps + [Close]), more);
    RunKeepsInv(steps + [Close] + more);
  }

  /** Once the gateway is closed, its sweep is done and no create is in flight, a release has been requested for
      every terminal ever created, including those whose creation came back after the close began. */
  lemma {:induction false} EveryTerminalReleased(steps: seq<Step>)
    ensures var s := Exec(INITIAL, steps);
            (s.gateway.closed && s.asked == 0 && s.returned == multiset{} && s.gateway.lockedBy.None? &&
             s.sweeping == multiset{}) ==> s.made <= s.requested
  {
    RunKeepsInv(steps);
    var s := Exec(INITIAL, steps);
    forall id | id in s.made
      ensures Tracked(s, id)
    {
    }
  }

  /** The session owns the terminal, or somebody has released it or is going to. */
  ghost predicate IsKnown(s: State, id: string) {
    || id in s.gateway.terminals || id in s.requested || s.gateway.lockedBy == Some(id)
    || id in s.returned || id in s.releasing || id in s.discarding || id in s.sweeping
  }

  lemma KnownOrigin(s: State, step: Step, id: string)
    requires Enabled(s, step) && IsKnown(Apply(s, step), id)
    ensures IsKnown(s, id) || step == ClientCreates(id)
  {
  }

  /** No release is ever requested for a terminal the session had not created. */
  lemma {:induction false} ReleasedWereCreated(steps: seq<Step>)
    ensures forall id :: IsKnown(Exec(INITIAL, steps), id) ==> id in Exec(INITIAL, steps).made
    ensures Exec(INITIAL, steps).requested <= Exec(INITIAL, steps).made
  {
    if steps != [] {
      var before, step := steps[..|steps| - 1], steps[|steps| - 1];
      var s, t := Exec(INITIAL, before), Exec(INITIAL, steps);
      ReleasedWereCreated(before);
      forall id | IsKnown(t, id)
        ensures id in t.made
      {
        if Enabled(s, step) {
          KnownOrigin(s, step, id);
          MadeGrows(s, step);
        }
      }
    }
    assert forall id :: id in Exec(INITIAL, steps).requested ==> IsKnown(Exec(INITIAL, steps), id);
  }

  lemma MadeGrows(s: State, step: Step)
    requires Enabled(s, step)
    ensures s.made <= Apply(s, step).made && (step.ClientCreates? ==> step.id in Apply(s, step).made)
  {
  }

  /** Releasing an owned terminal of an open session asks the client to release it and, if that works, forgets it and
      no other; if the request fails the session keeps it. */
  lemma {:induction false} ReleaseGoesThrough(steps: seq<Step>, id: string)
    requires var s := Exec(INITIAL, steps); !s.gateway.closed && id in s.gateway.terminals
    ensures var s := Exec(INITIAL, steps);
            var sent := Do(Do(s, StartRelease(id)), ReleaseSent(id));
            && id in sent.requested && sent.gateway == s.gateway
            && Do(sent, Discard(id)).gateway.terminals == s.gateway.terminals - {id}
            && Do(sent, ReleaseFailed(id)).gateway.terminals == s.gateway.terminals
  {
    RunKeepsInv(steps);
  }

  /** A terminal that is not owned cannot be released, and none can once the session is closed. */
  lemma {:induction false} ForeignNotReleased(s: State, id: string)
    requires s.gateway.closed || id !in s.gateway.terminals
    ensures Do(s, StartRelease(id)) == s
  {
  }

  /** Only these change what the session owns: a create that comes back before the close adds its terminal, a release
      that went through removes its own, and the close removes all. */
  lemma {:induction false} OwnedChange(s: State, step: Step, id: string)
    requires (id in s.gateway.terminals) != (id in Do(s, step).gateway.terminals)
    ensures if id in s.gateway.terminals then step == Close || (step == Discard(id) && id in s.discarding)
            else step == Enroll(id) && id in s.returned && !s.gateway.closed
  {
  }

  /** While a late create releases its terminal under the lock, nothing else gets at the gateway. */
  lemma {:induction false} LateReleaseHoldsLock(s: State, step: Step)
    requires s.gateway.lockedBy.Some? && step != LateReleaseSent
    ensures Do(s, step).gateway == s.gateway
  {
  }

  // After the close

  /** What is still to be done: answers of the client, late releases, requests under way. */
  function Unfinished(s: State): nat {
    4 * s.asked + 3 * |s.returned| + (if s.gateway.lockedBy.Some? then 2 else 0) +
    2 * |s.releasing| + |s.discarding| + |s.sweeping|
  }

  /** Once the session is closed every step but a further close brings the end nearer, in particular no create is begun;
      a further close changes nothing. */
  lemma {:induction false} EveryStepWindsUp(s: State, step: Step)
    requires s.gateway.closed && Enabled(s, step)
    ensures if step == Close then Apply(s, step) == s else Unfinished(Apply(s, step)) < Unfinished(s)
  {
    match step
    case Close => assert s.sweeping + multiset{} == s.sweeping;
    case AskCreate | CreateFails | LateReleaseSent =>
    case ClientCreates(id) => MoreBy(s.returned, id);
    case Enroll(id) => LessBy(s.returned, id);
    case StartRelease(id) => assert false;
    case ReleaseSent(id) => LessBy(s.releasing, id); MoreBy(s.discarding, id);
    case Discard(id) => LessBy(s.discarding, id);
    case ReleaseFailed(id) => LessBy(s.discarding, id);
    case SweepSent(id) => LessBy(s.sweeping, id);
  }

  lemma MoreBy(m: multiset<string>, id: string)
    ensures |m + multiset{id}| == |m| + 1
  {
  }

  lemma LessBy(m: multiset<string>, id: string)
    requires id in m
    ensures |m - multiset{id}| == |m| - 1
  {
  }

  /** And until everything is done there is such a step. */
  lemma {:induction false} WindUpNeverStuck(s: State)
    requires s.gateway.closed && Unfinished(s) > 0
    ensures exists step :: step != Close && Enabled(s, step)
  {
    if s.asked > 0 {
      assert Enabled(s, CreateFails);
    } else if s.gateway.lockedBy.Some? {
      assert Enabled(s, LateReleaseSent);
    } else if s.returned != multiset{} {
      var id :| id in s.returned;
      assert Enabled(s, Enroll(id));
    } else if s.releasing != multiset{} {
      var id :| id in s.releasing;
      assert Enabled(s, ReleaseSent(id));
    } else if s.discarding != multiset{} {
      var id :| id in s.discarding;
      assert Enabled(s, Discard(id));
    } else {
      assert |s.sweeping| > 0;
      var id :| id in s.sweeping;
      assert Enabled(s, SweepSent(id));
    }
  }

  // ---------------------------------------------------------------------------------------------

  /** The gateway's own fields and lock sections. */
  class ClientServiceGateway {
    var terminals: set<string>
    var closed: bool

    constructor ()
      ensures terminals == {} && !closed
    {
      terminals, closed := {}, false;
    }

    /** `create_terminal`, its section: false means the terminal has to be released on the spot. */
    method EnrollTerminal(id: string) returns (kept: bool)
      modifies this`terminals
      ensures kept <==> !closed
      ensures terminals == EnrollIn(Gateway(old(terminals), closed, None), id).terminals
    {
      if closed { return false; }
      terminals := terminals + {id};
      return true;
    }

    /** `_require_terminal` */
    method RequireTerminal(id: string) returns (ok: bool)
      ensures ok <==> !closed && id in terminals
    {
      if closed { return false; }
      return id in terminals;
    }

    /** `release_terminal`, its section */
    method DiscardTerminal(id: string)
      modifies this`terminals
      ensures terminals == old(terminals) - {id}
    {
      terminals := terminals - {id};
    }

    /** `close`, its section: the terminals to sweep. */
    method CloseGateway() returns (sweep: set<string>)
      modifies this
      ensures Gateway(terminals, closed, None) == CloseIn(Gateway(old(terminals), old(closed), None))
      ensures sweep == if old(closed) then {} else old(terminals)
    {
      if closed { return {}; }
      closed := true;
      sweep := terminals;
      terminals := {};
    }
  }
}
